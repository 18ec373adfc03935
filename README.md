# DN — distinguished names, modelled in Dafny

This project models the two classes of the Java library `com.github.andreasarvidsson.dn`:

- **`RDN`**: one `attribute=value` component. The value is held twice, unescaped
  (`value`) and escaped (`valueEscaped`).
- **`DN`**: a distinguished name. It is kept as its string, and its RDN list is parsed
  from that string on first use and then cached.

Strings are Java strings: sequences of UTF-16 code units (`JavaStrings.CodeUnit`).

| file | module | what it holds |
|---|---|---|
| `results.dfy` | `Results` | `Option` and `Result`; a failed parse is `Failure(MalformedDn(dnString))`, Java's `RuntimeException` |
| `strings.dfy` | `JavaStrings` | `String.trim()` and `String.compareTo`, with the order laws of `compareTo` |
| `patterns.dfy` | `Patterns` | the five regular expressions of the library, `Matcher.find()` as a leftmost search, how `appendReplacement` reads a replacement text, and the `StringReplacer.replace` loop |
| `rdn.dfy` | `Rdn` | the `RDN` value type, `escapeValue` / `unEscapeValue`, both constructors, `toString`, `compareTo` |
| `dn_lists.dfy` | `DnLists` | `stringToRdns`, `rdnsToString`, and the list-level meaning of every `DN` query (first index, parent, parents, order) |
| `dn.dfy` | `Dn` | the `DN` class with its lazily filled `rdns` cache and every public method, plus the `RdnIterator` class |
| `dn_examples.dfy` | `DnExamples` | the `append` and `compareTo` scenarios of `DnTest.java`, stated as lemmas |

## How the model is built

**The escape passes.** `escapeValue` and `unEscapeValue` run `StringReplacer.replace`, a
`find()` / `appendReplacement` loop. It is modelled as the loop method
`Patterns.Replace`, proved equal to the recursive `Patterns.ReplaceFrom`. The lemmas
`Rdn.EscapeMeaning` and `Rdn.UnescapeMeaning` then show that the passes compute two
simple per-code-unit rules, `Rdn.EscapeRef` and `Rdn.UnescapeRef`. The round trip and
the "clean token" properties are proved about those rules.

**Parsing and serialising.** `stringToRdns` and `rdnsToString` are loop methods
(`DnLists.StringToRdns`, `DnLists.RdnsToString`), each proved equal to a function
(`DnLists.ParseDn`, `DnLists.Serialize`). Parsing inverts serialising for every list of
well-formed RDNs. For strings made of clean `attribute=value` tokens, serialising the
parsed list gives back the original string.

**The `DN` class.** `Dn.DN` keeps `value` as a `const` field and the cache as a mutable
`rdns: Option<seq<RDN>>` field.
- `Components()` is what `getRdns()` yields: the cache if it is filled, otherwise the
  parse of `value`.
- Every query states its result in terms of `Components()`.
- Every query except `compareTo` guarantees `Kept()`: the components are unchanged, and
  the cache is filled once a parse has succeeded.
- `compareTo` reads the other DN's list first. If that parse fails, the call fails with
  it and this DN's cache is left exactly as it was; only when the other DN parses does
  this DN's list get read, and then `Kept()` holds for both.
- `toString()` is the field `value`. `equals(String)` and `equals(Object)` compare
  `value` code unit by code unit (`Dn.DN.EqualsString`, `Dn.DN.Equals`).

**How the code behaves.** Four facts about the code shape the model:
- **Index order.** `stringToRdns` collects the tokens left to right and then calls
  `Collections.reverse`, so index 0 is the **right-most** token (`getRDN(0)` of
  `cn=…,ou=…,o=…,c=Sverige` is `c=Sverige`). `getParent()` therefore drops the left-most
  token, which sits at the highest index.
- **Backslash escaping.** The backslash callback returns the replacement text
  `"\\\\\\" + match`, which is three backslashes followed by the matched backslash.
  `appendReplacement` reads a backslash in a replacement as an escape for the next
  character, so those four backslashes insert two. A backslash in a value is escaped
  as **two** backslashes.
- **Marker texts.** The reserved pattern matches the five-character **texts** `u0x0A`
  and `u0x0D`, not the line-feed and carriage-return characters.
- **Unescaping.** The unescape pattern is a backslash followed by `.`, and `.` does not
  match a line terminator. So a backslash before a line terminator, or at the very end
  of the value, stays in place.

## Model

| member | source | states |
|---|---|---|
| JavaStrings.Trim | src/main/java/com/github/andreasarvidsson/dn/RDN.java:30-31 | the trimmed value is a slice of the input, neither end is a code unit up to U+0020, and only such code units were cut away |
| JavaStrings.TrimIdempotent | src/main/java/com/github/andreasarvidsson/dn/RDN.java:30-31 | trimming a trimmed value changes nothing |
| JavaStrings.CompareStrings | src/main/java/com/github/andreasarvidsson/dn/RDN.java:42 | `String.compareTo` is zero exactly for equal strings |
| JavaStrings.CompareStringsSign | src/main/java/com/github/andreasarvidsson/dn/RDN.java:42 | `compareTo` is negative exactly when the first string is lexicographically smaller (defined independently as a common prefix, then a smaller code unit or the end) |
| JavaStrings.CompareStringsAntisymmetric | src/main/java/com/github/andreasarvidsson/dn/RDN.java:42 | swapping the operands negates the result |
| JavaStrings.CompareStringsTransitive | src/main/java/com/github/andreasarvidsson/dn/RDN.java:42 | the induced order is transitive |
| Patterns.RunEnd | src/main/java/com/github/andreasarvidsson/dn/DN.java:18-21 | a greedy run of escape pairs and non-delimiter code units stops at the end of the string or exactly at an unescaped delimiter |
| Patterns.RunEndClean | src/main/java/com/github/andreasarvidsson/dn/DN.java:18-21 | a run that stops before the end of the string has passed over a clean text with no unescaped delimiter in it, so it stopped at the first unescaped delimiter (a run that reaches the end is pinned by `Patterns.RunOfClean`) |
| Patterns.RunOfClean | src/main/java/com/github/andreasarvidsson/dn/DN.java:18-21 | a clean text at a position, followed by the delimiter or the end of the string, is exactly the run the scanner takes from there, including a run that reaches the end |
| Patterns.MatchAt | src/main/java/com/github/andreasarvidsson/dn/RDN.java:13-15 | a match of any of the patterns is nonempty and lies inside the string |
| Patterns.Find | src/main/java/com/github/andreasarvidsson/dn/RDN.java:59 | `find()` returns a match that begins leftmost at or after the search position, with no match starting before it; none means no position matches |
| Patterns.InsertedText | src/main/java/com/github/andreasarvidsson/dn/RDN.java:46-51 | after `appendReplacement` reads the callbacks' replacements, a backslash becomes two backslashes, a reserved match gets one backslash in front, and an escape pair becomes its second code unit |
| Patterns.ReplaceAtMatch | src/main/java/com/github/andreasarvidsson/dn/RDN.java:56-64 | a match is replaced by its inserted text and the scan continues after it |
| Patterns.ReplaceAtOther | src/main/java/com/github/andreasarvidsson/dn/RDN.java:56-64 | a position where nothing matches is copied unchanged |
| Patterns.Replace | src/main/java/com/github/andreasarvidsson/dn/RDN.java:56-64 | the `find`/`appendReplacement`/`appendTail` loop builds exactly the replaced text |
| Patterns.FindSkipsDelimiter | src/main/java/com/github/andreasarvidsson/dn/DN.java:155-164 | no run begins at an unescaped delimiter, so `find()` from the delimiter finds what `find()` from the next position finds |
| Rdn.EscapeValue | src/main/java/com/github/andreasarvidsson/dn/RDN.java:45-48 | the two replace passes produce the escaped form given by the per-code-unit escaping rules |
| Rdn.UnEscapeValue | src/main/java/com/github/andreasarvidsson/dn/RDN.java:50-52 | the replace pass produces the unescaped form given by the unescaping rule |
| Rdn.EscapeMeaning | src/main/java/com/github/andreasarvidsson/dn/RDN.java:45-48 | backslash pass then reserved pass equals the rules: leading `#` → `\#`, `\` → `\\`, `, + " < > ; = /` and the texts `u0x0A`/`u0x0D` get one backslash, all else kept |
| Rdn.UnescapeMeaning | src/main/java/com/github/andreasarvidsson/dn/RDN.java:50-52 | the pass equals the rule: each backslash with a partner that is not a line terminator is dropped, left to right |
| Rdn.RoundTrip | src/main/java/com/github/andreasarvidsson/dn/RDN.java:45-52 | unescaping the escaped form gives the value back, for every value |
| Rdn.UnescapeEscape | src/main/java/com/github/andreasarvidsson/dn/RDN.java:45-52 | `unEscapeValue(escapeValue(v)) == v` for every `v`, stated on the replace passes themselves |
| Rdn.EscapeLeavesPlainAlone | src/main/java/com/github/andreasarvidsson/dn/RDN.java:45-48 | a value with nothing to escape is its own escaped form |
| Rdn.EscapeIsClean | src/main/java/com/github/andreasarvidsson/dn/RDN.java:45-48 | every escaped value reads as one run with no unescaped comma or equals sign, so the tokenizer never splits it |
| Rdn.NewRdn | src/main/java/com/github/andreasarvidsson/dn/RDN.java:19-33 | with `isValueEscaped` the given text is kept as `valueEscaped` and unescaped for `value`; otherwise `value` is the trimmed text and `valueEscaped` its escaped form |
| Rdn.RebuildFromEscaped | src/main/java/com/github/andreasarvidsson/dn/RDN.java:23-33 | rebuilding an RDN from its own `valueEscaped` with `isValueEscaped` true gives the same RDN |
| Rdn.RebuildFromValue | src/main/java/com/github/andreasarvidsson/dn/RDN.java:23-33 | rebuilding an RDN from its own `value` gives the same RDN |
| Rdn.ToString | src/main/java/com/github/andreasarvidsson/dn/RDN.java:36-38 | the text is the attribute, one `=`, then the escaped value |
| Rdn.CompareTo | src/main/java/com/github/andreasarvidsson/dn/RDN.java:41-43 | zero exactly for equal unescaped values, negative or positive exactly by their lexicographic order; attributes play no part |
| DnLists.Tokens | src/main/java/com/github/andreasarvidsson/dn/DN.java:155-156 | the comma-delimited tokens found by the `find()` loop are all nonempty |
| DnLists.SplitToken | src/main/java/com/github/andreasarvidsson/dn/DN.java:157-164 | a token splits into its first two `=`-delimited runs, both nonempty, or it is malformed |
| DnLists.NoEqualsDoesNotSplit | src/main/java/com/github/andreasarvidsson/dn/DN.java:157-163 | a token with no unescaped `=` is a single `=`-delimited run, so the second `find()` fails and the token is malformed |
| DnLists.TokenWithoutEqualsDoesNotParse | src/main/java/com/github/andreasarvidsson/dn/DN.java:153-169 | a DN string with a clean token that has no unescaped `=` does not parse |
| DnLists.ParseTokens | src/main/java/com/github/andreasarvidsson/dn/DN.java:156-166 | the tokens parse exactly when every one splits; then RDN `j` is built from token `j` as an escaped value, otherwise the error names the whole DN string |
| DnLists.ParseDn | src/main/java/com/github/andreasarvidsson/dn/DN.java:153-169 | parsing fails exactly when some token has no second run; on success the list is the tokens' RDNs reversed, so index 0 is the right-most token |
| DnLists.StringToRdns | src/main/java/com/github/andreasarvidsson/dn/DN.java:153-169 | the parsing loop, with its two early failures and the final reverse, computes `ParseDn` |
| DnLists.RdnsToString | src/main/java/com/github/andreasarvidsson/dn/DN.java:171-180 | the serialising loop writes the RDNs from the highest index down, comma-separated |
| DnLists.TextOfWellFormed | src/main/java/com/github/andreasarvidsson/dn/DN.java:157-165 | the text of a well-formed RDN splits back into exactly that RDN |
| DnLists.ParseInvertsSerialize | src/main/java/com/github/andreasarvidsson/dn/DN.java:153-180 | parsing the string of any list of well-formed RDNs gives that list back |
| DnLists.SerializeInjective | src/main/java/com/github/andreasarvidsson/dn/DN.java:171-180 | two lists of well-formed RDNs with the same string are the same list |
| DnLists.ReserializeParsed | src/main/java/com/github/andreasarvidsson/dn/DN.java:153-180 | a string of clean `attribute=value` tokens parses, and serialising the result gives the string back |
| DnLists.CommaSkipped | src/main/java/com/github/andreasarvidsson/dn/DN.java:155-156 | a comma between tokens produces no token: the tokens from the comma are the tokens after it |
| DnLists.FirstIndex | src/main/java/com/github/andreasarvidsson/dn/DN.java:74-81 | the result is -1 or a valid index whose attribute matches, and no smaller index matches (none at all for -1) |
| DnLists.ParentsChain | src/main/java/com/github/andreasarvidsson/dn/DN.java:83-96 | the parents list starts with the parent, each element is the parent of the one before, it ends with the single right-most RDN, and it is empty exactly when there is no parent |
| DnLists.AppendSerialized | src/main/java/com/github/andreasarvidsson/dn/DN.java:98-102 | an appended RDN is written first (left-most), followed by a comma and the old string, and the old list is its parent |
| DnLists.FromRawWellFormed | src/main/java/com/github/andreasarvidsson/dn/RDN.java:29-32 | an RDN built from a raw value is well formed when its attribute is a clean run and the trimmed value is not empty |
| DnLists.AppendReparses | src/main/java/com/github/andreasarvidsson/dn/DN.java:98-102 | the string of an appended DN parses back to the appended list |
| DnLists.BlankValueDoesNotReparse | src/main/java/com/github/andreasarvidsson/dn/DN.java:98-102 | a value that trims to nothing is written as `attribute=`, and that string does not parse |
| DnLists.CompareLists | src/main/java/com/github/andreasarvidsson/dn/DN.java:115-134 | the result is -1, 0 or 1, and 0 exactly when the two lists have the same unescaped values |
| DnLists.CompareListsSign | src/main/java/com/github/andreasarvidsson/dn/DN.java:115-134 | -1 exactly when the value lists are lexicographically ordered from index 0, a proper prefix first |
| DnLists.CompareListsAntisymmetric | src/main/java/com/github/andreasarvidsson/dn/DN.java:115-134 | swapping the DNs negates the result |
| DnLists.CompareListsTransitive | src/main/java/com/github/andreasarvidsson/dn/DN.java:115-134 | the order is transitive, so `Collections.sort` gets a consistent order |
| DnLists.CompareListsOnlyValues | src/main/java/com/github/andreasarvidsson/dn/DN.java:115-134 | lists with the same values compare the same; attributes are ignored |
| DnLists.PrefixSortsFirst | src/main/java/com/github/andreasarvidsson/dn/DN.java:127-132 | a proper prefix sorts before the longer list |
| Dn.DN.constructor | src/main/java/com/github/andreasarvidsson/dn/DN.java:27-29 | keeps the string and parses nothing |
| Dn.DN.FromList | src/main/java/com/github/andreasarvidsson/dn/DN.java:31-34 | `value` is the serialised list and the list becomes the cache |
| Dn.DN.Empty | src/main/java/com/github/andreasarvidsson/dn/DN.java:36-38 | the empty string, whose components are the empty list |
| Dn.DN.GetRdns | src/main/java/com/github/andreasarvidsson/dn/DN.java:146-151 | returns the cache, or parses `value` and caches the list on success; a malformed string fails and caches nothing |
| Dn.DN.Length | src/main/java/com/github/andreasarvidsson/dn/DN.java:40-42 | the number of components, or the parse failure |
| Dn.DN.Equals | src/main/java/com/github/andreasarvidsson/dn/DN.java:45-47 | another DN is equal exactly when its string has the same length and the same code unit at every index, which is also exactly when the strings compare as 0 |
| Dn.DN.EqualsString | src/main/java/com/github/andreasarvidsson/dn/DN.java:49-51 | equal to a string exactly when it has the same length and the same code unit at every index, which is also exactly when the strings compare as 0 |
| Dn.DN.GetRDN | src/main/java/com/github/andreasarvidsson/dn/DN.java:53-55 | the component at the index, or the parse failure |
| Dn.DN.GetLastRDN | src/main/java/com/github/andreasarvidsson/dn/DN.java:57-59 | the component at the highest index (the left-most token) |
| Dn.DN.GetLastValue | src/main/java/com/github/andreasarvidsson/dn/DN.java:61-63 | the unescaped value of that component |
| Dn.DN.GetFirstRDN | src/main/java/com/github/andreasarvidsson/dn/DN.java:65-72 | reads the components once; the component at `FirstIndex`, or none, or the parse failure |
| Dn.DN.GetFirstIndex | src/main/java/com/github/andreasarvidsson/dn/DN.java:74-81 | `FirstIndex` of the components, or the parse failure |
| Dn.IndexOfAttribute | src/main/java/com/github/andreasarvidsson/dn/DN.java:65-81 | the scan over the list from index 0 returns the first index whose attribute matches, or -1 (`FirstIndex`) |
| Dn.DN.SubDn | src/main/java/com/github/andreasarvidsson/dn/DN.java:104-106 | a new DN over the first `length` components, with its string serialised from them |
| Dn.DN.GetParent | src/main/java/com/github/andreasarvidsson/dn/DN.java:83-88 | no parent below two components, otherwise a new DN over `Parent` of the components |
| Dn.DN.GetParents | src/main/java/com/github/andreasarvidsson/dn/DN.java:90-96 | a list of new DNs, element `k` over `Parents(...)[k]`, or the parse failure |
| Dn.ParentDns | src/main/java/com/github/andreasarvidsson/dn/DN.java:90-96 | the loop from `length() - 1` down to 1 builds one new DN per step, element `k` over `Parents(list)[k]`, with its string serialised from that list |
| Dn.DN.Append | src/main/java/com/github/andreasarvidsson/dn/DN.java:98-102 | a new DN over the components plus `new RDN(attribute, value)` at the highest index |
| Dn.DN.CompareTo | src/main/java/com/github/andreasarvidsson/dn/DN.java:115-134 | the other DN's components are read first; their failure wins and leaves this DN's cache untouched. Otherwise this DN's failure wins, and if both parse the result is `CompareLists` of the two lists. Neither DN's components change, and a successful parse is cached |
| Dn.CompareRdnLists | src/main/java/com/github/andreasarvidsson/dn/DN.java:117-133 | the loop below the shorter length, then the length tests, return `CompareLists` of the two lists |
| Dn.DN.Iterator | src/main/java/com/github/andreasarvidsson/dn/DN.java:137-139 | a fresh iterator over this DN at index 0 |
| Dn.RdnIterator.constructor | src/main/java/com/github/andreasarvidsson/dn/DN.java:182-184 | starts at index 0 |
| Dn.RdnIterator.HasNext | src/main/java/com/github/andreasarvidsson/dn/DN.java:186-189 | true exactly when the DN's list still has a component at the current index; false means the index has reached the end of the cached list |
| Dn.RdnIterator.Next | src/main/java/com/github/andreasarvidsson/dn/DN.java:192-194 | returns the cached component at the index and advances the index by one |
| Dn.IteratedValues | src/test/java/com/github/andreasarvidsson/dn/DnTest.java:103-109 | a for-each loop over a DN with `hasNext`/`next` visits exactly the values of the cached list, index 0 first |
| Dn.EqualsMeansSameList | src/main/java/com/github/andreasarvidsson/dn/DN.java:45-47 | two DNs built from well-formed lists are `equals` exactly when their lists are equal |
| DnExamples.EscapeBodySpace | src/main/java/com/github/andreasarvidsson/dn/RDN.java:45-48 | escaping never reaches across a space: the escaped form of `a b` is the escaped `a`, a space, and the escaped `b` |
| DnExamples.AppendTestValue | src/test/java/com/github/andreasarvidsson/dn/DnTest.java:64-78 | `new RDN("ou", " # , # + \" \\ < > ; u0x0Ah u0x0Di = / ")` has the trimmed value and the escaped value the test expects |
| DnExamples.ParsesCDA | src/test/java/com/github/andreasarvidsson/dn/DnTest.java:89 | `c=D,b=A,a=C` parses to `a=C`, `b=A`, `c=D` at indices 0, 1, 2 |
| DnExamples.ParsesABD | src/test/java/com/github/andreasarvidsson/dn/DnTest.java:90 | `c=A,b=D,a=B` parses, right-most RDN at index 0 |
| DnExamples.ParsesAHG | src/test/java/com/github/andreasarvidsson/dn/DnTest.java:91 | `c=G,b=H,a=A` parses, right-most RDN at index 0 |
| DnExamples.ParsesDCCF | src/test/java/com/github/andreasarvidsson/dn/DnTest.java:92 | `d=F,c=C,b=C,a=D` parses, right-most RDN at index 0 |
| DnExamples.ParsesDCC | src/test/java/com/github/andreasarvidsson/dn/DnTest.java:93 | `c=C,b=C,a=D` parses, right-most RDN at index 0 |
| DnExamples.MalformedSecondToken | src/main/java/com/github/andreasarvidsson/dn/DN.java:157-163 | `cn=x,abc` does not parse: its second token has no `=` |
| DnExamples.SortTestOrder | src/test/java/com/github/andreasarvidsson/dn/DnTest.java:95-100 | the five DNs order as A,H,G < B,D,A < C,A,D < D,C,C < D,C,C,F |

## Left out

- `hashCode()` (DN.java:142-144) is `value.hashCode()`; string hashing is not modelled.
- The Jackson annotations `@JsonCreator` and `@JsonValue` only mark the string constructor and `toString()` for JSON mapping. No JSON mapping is modelled.
- `RdnIterator.remove()` always throws `UnsupportedOperationException`, so no removal is modelled.
- `equals(Object)` with an argument that is not a DN is outside the types. `Dn.DN.Equals` takes a possibly-null DN, and null gives false, as in Java.
- `Dn.RdnIterator.HasNext` and `Dn.RdnIterator.Next` require the cache to be filled. The Java iterator reads the `rdns` field directly and throws `NullPointerException` on a DN whose list was never read; the model makes that a precondition instead of modelling the exception.
- `Dn.RdnIterator.Next` also requires the index to be below the length of the cached list. Java's `rdns.get(index++)` (DN.java:193) throws `IndexOutOfBoundsException` past the end; the model makes that a precondition instead of modelling the exception.
- `Dn.DN.GetRDN`, `Dn.DN.GetLastRDN`, `Dn.DN.GetLastValue` and `Dn.DN.SubDn` require an index or length within the parsed list; the model makes that a precondition instead of modelling the exception. Java throws `IndexOutOfBoundsException` for an index or length past the list, and `IllegalArgumentException` for a negative `subDn` length (`subList(0, length)` with `0 > length`, DN.java:105).
- `Dn.DN.GetFirstIndex` reads the components once and scans them with `Dn.IndexOfAttribute`. Java calls `length()` on every iteration, but every call returns the same cached size.
- `Dn.ParentDns` builds each parent as `new DN(list[..i])` directly. Java goes through `subDn(i)`, which calls `getRdns()` again and gets the same cached list.
- Lists are values in the model. In Java the list handed to `new DN(List)` and the `subList` view made by `subDn` are shared with their origin. Nothing in the library mutates a list after construction. A caller that mutates the list it passed to `new DN(List)` (DN.java:31-34) changes that DN's components but not its `value`; the model does not capture mutation by the caller.
- Null arguments (a null string, attribute, value or list) are not modelled. Java's behaviour varies: `new DN((String) null)` stores null and fails only on first use, `equals((String) null)` is false, `getFirstRDN(null)` and `getFirstIndex(null)` give null and -1, and `new RDN(null, v)` or `append(null, v)` succeed and format the attribute as `null`.
- Only the five patterns of the library are modelled, and only as far as `Matcher.find()` matches them; there is no general regular-expression engine.
- `appendReplacement` is modelled for the replacement texts the callbacks produce. These never contain an unescaped `$` or a trailing backslash, so group references and that exception are not modelled.
- The `\r\n` pair, which `.` also refuses to match as one unit, behaves the same as its two line terminators here and is not modelled separately.
- The unsynchronised lazy initialisation of the cache is single-threaded in the model. Concurrent access is not modelled.
- The sample DN of `DnTest.java` (`cn=Andreas\, Arvidsson,…`) is covered only by the general parse, round-trip and index lemmas, not by a concrete lemma.
