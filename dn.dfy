/**
  The DN class of DN.java: the string a DN was built from (or serialised to), and the
  list of RDNs parsed from it on first use and cached.
 */
module Dn {
  import opened JavaStrings
  import opened Results
  import opened Rdn
  import opened DnLists

  class DN {
    /** The public final field `value`; `toString()` returns it. */
    const value: JString
    /** The cache of `getRdns()`: Java's `null` until the first successful parse. */
    var rdns: Option<seq<RDN>>

    /** What `getRdns()` yields, now and on every later call: the cached list, or the parse of `value`. */
    ghost function Components(): Result<seq<RDN>, Error>
      reads this
    {
      if rdns.Some? then Success(rdns.value) else ParseDn(value)
    }

    /**
      A call that reads the list leaves its components as they were, and caches them
      once the parse has succeeded; a failed parse caches nothing.
     */
    twostate predicate Kept()
      reads this
    {
      Components() == old(Components())
      && rdns == (if Components().Success? then Some(Components().value) else old(rdns))
    }

    /** `new DN(dnString)`: nothing is parsed yet. */
    constructor (dnString: JString)
      ensures value == dnString && rdns == None
    {
      value := dnString;
      rdns := None;
    }

    /** `new DN(rdns)`: the list is serialised for `value` and kept as the cache. */
    constructor FromList(list: seq<RDN>)
      ensures value == Serialize(list) && rdns == Some(list)
    {
      var s := RdnsToString(list);
      value := s;
      rdns := Some(list);
    }

    /** `new DN()`: the empty string, which parses to no RDNs. */
    constructor Empty()
      ensures value == [] && rdns == None
      ensures Components() == Success([])
    {
      value := [];
      rdns := None;
    }

    /** `getRdns()`: parses `value` on first use and caches the result. */
    method GetRdns() returns (r: Result<seq<RDN>, Error>)
      modifies this`rdns
      ensures Kept()
      ensures r == Components()
    {
      if rdns.None? {
        var parsed := StringToRdns(value);
        if parsed.Failure? {
          return parsed;
        }
        rdns := Some(parsed.value);
      }
      r := Success(rdns.value);
    }

    /** `length()`: the number of RDNs, which is the number of tokens of the string. */
    method Length() returns (r: Result<nat, Error>)
      modifies this`rdns
      ensures Kept()
      ensures Components().Failure? ==> r == Failure(Components().error)
      ensures Components().Success? ==> r == Success(|Components().value|)
    {
      var list :- GetRdns();
      r := Success(|list|);
    }

    /**
      `equals(Object)`: another DN whose string has the same length and the same code unit
      at every index, which is also exactly when the two strings compare as 0.
     */
    predicate Equals(o: DN?): (b: bool)
      ensures b <==> o != null && |value| == |o.value| && forall k | 0 <= k < |value| :: value[k] == o.value[k]
      ensures b <==> o != null && CompareStrings(value, o.value) == 0
    {
      o != null && value == o.value
    }

    /** `equals(String)`: the string has the same length and the same code unit at every index. */
    predicate EqualsString(dnString: JString): (b: bool)
      ensures b <==> |value| == |dnString| && forall k | 0 <= k < |value| :: value[k] == dnString[k]
      ensures b <==> CompareStrings(value, dnString) == 0
    {
      value == dnString
    }

    /** `getRDN(index)`: the RDN at `index`, index 0 being the right-most token. */
    method GetRDN(index: int) returns (r: Result<RDN, Error>)
      requires Components().Success? ==> 0 <= index < |Components().value|
      modifies this`rdns
      ensures Kept()
      ensures Components().Failure? ==> r == Failure(Components().error)
      ensures Components().Success? ==> r == Success(Components().value[index])
    {
      var list :- GetRdns();
      r := Success(list[index]);
    }

    /** `getLastRDN()`: the RDN at the highest index, the left-most token. */
    method GetLastRDN() returns (r: Result<RDN, Error>)
      requires Components().Success? ==> |Components().value| > 0
      modifies this`rdns
      ensures Kept()
      ensures Components().Failure? ==> r == Failure(Components().error)
      ensures Components().Success? ==> r == Success(Components().value[|Components().value| - 1])
    {
      var n :- Length();
      r := GetRDN(n - 1);
    }

    /** `getLastValue()`: the unescaped value of `getLastRDN()`. */
    method GetLastValue() returns (r: Result<JString, Error>)
      requires Components().Success? ==> |Components().value| > 0
      modifies this`rdns
      ensures Kept()
      ensures Components().Failure? ==> r == Failure(Components().error)
      ensures Components().Success? ==> r == Success(Components().value[|Components().value| - 1].value)
    {
      var last :- GetLastRDN();
      r := Success(last.value);
    }

    /** `getFirstRDN(attribute)`: the RDN at `getFirstIndex(attribute)`, or null. */
    method GetFirstRDN(attribute: JString) returns (r: Result<Option<RDN>, Error>)
      modifies this`rdns
      ensures Kept()
      ensures Components().Failure? ==> r == Failure(Components().error)
      ensures Components().Success? ==>
                var k := FirstIndex(Components().value, attribute);
                r == Success(if k < 0 then None else Some(Components().value[k]))
    {
      var list :- GetRdns();
      var i := IndexOfAttribute(list, attribute);
      r := Success(if i < 0 then None else Some(list[i]));
    }

    /** `getFirstIndex(attribute)`: the smallest index whose attribute is `attribute`, or -1. */
    method GetFirstIndex(attribute: JString) returns (r: Result<int, Error>)
      modifies this`rdns
      ensures Kept()
      ensures Components().Failure? ==> r == Failure(Components().error)
      ensures Components().Success? ==> r == Success(FirstIndex(Components().value, attribute))
    {
      var list :- GetRdns();
      var i := IndexOfAttribute(list, attribute);
      r := Success(i);
    }

    /** `subDn(length)`: a new DN over the first `length` RDNs. */
    method SubDn(length: int) returns (r: Result<DN, Error>)
      requires Components().Success? ==> 0 <= length <= |Components().value|
      modifies this`rdns
      ensures Kept()
      ensures Components().Failure? ==> r == Failure(Components().error)
      ensures Components().Success? ==>
                r.Success? && fresh(r.value)
                && r.value.rdns == Some(Components().value[..length])
                && r.value.value == Serialize(Components().value[..length])
    {
      var list :- GetRdns();
      var d := new DN.FromList(list[..length]);
      r := Success(d);
    }

    /** `getParent()`: null below two RDNs, otherwise the DN without its left-most RDN. */
    method GetParent() returns (r: Result<Option<DN>, Error>)
      modifies this`rdns
      ensures Kept()
      ensures Components().Failure? ==> r == Failure(Components().error)
      ensures Components().Success? ==>
                r.Success? && (r.value.Some? <==> Parent(Components().value).Some?)
      ensures Components().Success? && r.Success? && r.value.Some? ==>
                fresh(r.value.value)
                && r.value.value.rdns == Parent(Components().value)
                && r.value.value.value == Serialize(Parent(Components().value).value)
    {
      var n :- Length();
      if n < 2 {
        return Success(None);
      }
      var d := SubDn(n - 1);
      r := Success(Some(d.value));
    }

    /** `getParents()`: the parent, its parent, and so on down to the right-most RDN alone. */
    method GetParents() returns (r: Result<seq<DN>, Error>)
      modifies this`rdns
      ensures Kept()
      ensures Components().Failure? ==> r == Failure(Components().error)
      ensures Components().Success? ==>
                r.Success? && |r.value| == |Parents(Components().value)|
                && forall k | 0 <= k < |r.value| ::
                     fresh(r.value[k])
                     && r.value[k].rdns == Some(Parents(Components().value)[k])
                     && r.value[k].value == Serialize(Parents(Components().value)[k])
    {
      var list :- GetRdns();
      var parents := ParentDns(list);
      r := Success(parents);
    }

    /** `append(attribute, value)`: a new DN with `new RDN(attribute, value)` added at the highest index. */
    method Append(attribute: JString, v: JString) returns (r: Result<DN, Error>)
      modifies this`rdns
      ensures Kept()
      ensures Components().Failure? ==> r == Failure(Components().error)
      ensures Components().Success? ==>
                r.Success? && fresh(r.value)
                && r.value.rdns == Some(Components().value + [FromRaw(attribute, v)])
                && r.value.value == Serialize(Components().value + [FromRaw(attribute, v)])
    {
      var list :- GetRdns();
      var rdn := NewRdn(attribute, v, false);
      var d := new DN.FromList(list + [rdn]);
      r := Success(d);
    }

    /**
      `compareTo(dn)`: the other DN's list is read first, then this one's; the result is
      the order of the two lists.
     */
    method CompareTo(other: DN) returns (r: Result<int, Error>)
      modifies this`rdns, other`rdns
      ensures other.Kept() && Components() == old(Components())
      ensures old(other.Components()).Success? ==> Kept()
      ensures old(other.Components()).Failure? ==> rdns == old(rdns)
      ensures old(other.Components()).Failure? ==> r == Failure(old(other.Components()).error)
      ensures old(other.Components()).Success? && old(Components()).Failure? ==>
                r == Failure(old(Components()).error)
      ensures old(other.Components()).Success? && old(Components()).Success? ==>
                r == Success(CompareLists(old(Components()).value, old(other.Components()).value))
    {
      var otherRdns :- other.GetRdns();
      var n :- Length();
      var list := rdns.value;
      var c := CompareRdnLists(list, otherRdns);
      r := Success(c);
    }

    /** `iterator()`: a fresh iterator at index 0. */
    method Iterator() returns (it: RdnIterator)
      ensures fresh(it) && it.dn == this && it.index == 0
    {
      it := new RdnIterator(this);
    }
  }

  /**
    The scan shared by `getFirstRDN` (a for-each loop) and `getFirstIndex` (a counting
    loop) over the cached list: the first index whose attribute is `attribute`, or -1.
   */
  method IndexOfAttribute(list: seq<RDN>, attribute: JString) returns (r: int)
    ensures r == FirstIndex(list, attribute)
  {
    var i := 0;
    while i < |list|
      invariant 0 <= i <= |list|
      invariant forall j | 0 <= j < i :: list[j].attribute != attribute
    {
      if list[i].attribute == attribute {
        FirstIndexAt(list, attribute, i);
        return i;
      }
      i := i + 1;
    }
    FirstIndexAt(list, attribute, i);
    r := -1;
  }

  /**
    The loop of `getParents()` over the cached list: `subDn(i)`, a new DN over the first
    `i` RDNs, for `i` from the length less one down to 1.
   */
  method ParentDns(list: seq<RDN>) returns (res: seq<DN>)
    ensures |res| == |Parents(list)|
    ensures forall k | 0 <= k < |res| ::
              fresh(res[k]) && res[k].rdns == Some(Parents(list)[k])
              && res[k].value == Serialize(Parents(list)[k])
  {
    var n := |list|;
    res := [];
    var i := n - 1;
    while i > 0
      invariant -1 <= i <= n - 1 && (n > 0 ==> i >= 0)
      invariant |res| == n - 1 - i || (n == 0 && res == [])
      invariant forall k | 0 <= k < |res| ::
                  fresh(res[k]) && res[k].rdns == Some(list[..n - 1 - k])
                  && res[k].value == Serialize(list[..n - 1 - k])
    {
      var d := new DN.FromList(list[..i]);
      res := res + [d];
      i := i - 1;
    }
  }

  /**
    The loop of `compareTo` over the two cached lists: the first index below the shorter
    length whose RDNs compare unequal decides, otherwise the lengths do.
   */
  method CompareRdnLists(list: seq<RDN>, otherRdns: seq<RDN>) returns (r: int)
    ensures r == CompareLists(list, otherRdns)
  {
    var size := if |list| < |otherRdns| then |list| else |otherRdns|;
    var i := 0;
    while i < size
      invariant 0 <= i <= size
      invariant CompareLists(list[i..], otherRdns[i..]) == CompareLists(list, otherRdns)
    {
      var c := Rdn.CompareTo(list[i], otherRdns[i]);
      assert list[i..][1..] == list[i + 1..] && otherRdns[i..][1..] == otherRdns[i + 1..];
      if c > 0 {
        return 1;
      }
      if c < 0 {
        return -1;
      }
      i := i + 1;
    }
    if |list| > |otherRdns| {
      return 1;
    }
    if |list| < |otherRdns| {
      return -1;
    }
    r := 0;
  }

  /**
    The inner class RdnIterator. It reads the `rdns` field directly, not through
    `getRdns()`, so it needs the list to have been cached already.
   */
  class RdnIterator {
    const dn: DN
    var index: nat

    constructor (dn: DN)
      ensures this.dn == dn && index == 0
    {
      this.dn := dn;
      index := 0;
    }

    /** `hasNext()`: some RDN of the DN's list is still to be visited. */
    predicate HasNext(): (b: bool)
      requires dn.rdns.Some?
      reads this, dn
      ensures b <==> dn.Components().Success? && index < |dn.Components().value|
      ensures !b ==> index >= |dn.rdns.value|
    {
      index < |dn.rdns.value|
    }

    /** `next()`: the RDN at the current index, then one index further. */
    method Next() returns (r: RDN)
      requires dn.rdns.Some? && index < |dn.rdns.value|
      modifies this
      ensures r == dn.rdns.value[old(index)] && index == old(index) + 1
    {
      r := dn.rdns.value[index];
      index := index + 1;
    }
  }

  /**
    The values a for-each loop over a DN collects (the `getStr` helper of the tests):
    the iterator visits the cached list in index order, right-most token first.
   */
  method IteratedValues(dn: DN) returns (vs: seq<JString>)
    requires dn.rdns.Some?
    ensures vs == Values(dn.rdns.value)
  {
    var it := dn.Iterator();
    vs := [];
    while it.HasNext()
      invariant it.dn == dn && it.index <= |dn.rdns.value|
      invariant vs == Values(dn.rdns.value[..it.index])
      decreases |dn.rdns.value| - it.index
    {
      ghost var k := it.index;
      var rdn := it.Next();
      assert dn.rdns.value[..k + 1] == dn.rdns.value[..k] + [rdn];
      vs := vs + [rdn.value];
    }
    assert dn.rdns.value[..it.index] == dn.rdns.value;
  }

  /** Two DNs built from well-formed lists are equal exactly when their lists are equal. */
  lemma EqualsMeansSameList(x: DN, y: DN)
    requires x.rdns.Some? && x.value == Serialize(x.rdns.value)
    requires y.rdns.Some? && y.value == Serialize(y.rdns.value)
    requires forall i | 0 <= i < |x.rdns.value| :: WellFormed(x.rdns.value[i])
    requires forall i | 0 <= i < |y.rdns.value| :: WellFormed(y.rdns.value[i])
    ensures x.Equals(y) <==> x.rdns == y.rdns
  {
    SerializeInjective(x.rdns.value, y.rdns.value);
  }
}
