# go-String in Dafny

A model of the Go package `String` (the single file `String.go`). The package
wraps a Go string in a box, `String`, a struct holding a pointer to its text,
and a list of strings in `Strings`, so that string functions can be chained as
method calls. Almost every method forwards to Go's `strings` package. What the
package does itself, and what this model covers, is:

- the normalization helper `UnwrapStr`, a type switch over the four shapes
  `string | *string | String | *String`, mapping every absent value to the
  text `"nil"`, and the constructor `NewString` built on it;
- the index-by-index copy loops `NewStrings` and `OldStrings` between
  `[]string` and `[]String`, and `Join` on top of them;
- the searches over several candidates: `IncludesAny`/`ContainsAnyOf`,
  `IndexAnyOf` (a running minimum from a `MaxInt` sentinel) and
  `LastIndexAnyOf` (which, as written, returns at the first candidate found);
- `Cut` and its packed variants `Cuts`, `CutsPrefix`, `CutsSuffix`;
- default arguments emulated with variadic parameters: `Count`, `Replace`,
  `ReplaceAll`, `Split`, `SplitN`, `SplitAfterN`.

Files:

- `std_strings.dfy`, module `StdStrings`: the Go `strings` functions these
  methods forward to, on bytes (`seq<bv8>`, byte offsets): `Index`,
  `LastIndex`, `Contains`, `Cut`, `CutPrefix`, `CutSuffix`, `Compare`,
  `HasPrefix`, `HasSuffix`, `Join`, `Count`, `Split`, `SplitAfter`, `SplitN`,
  `SplitAfterN`, `Replace`, `ReplaceAll`. Each carries a short contract; what
  its documentation promises beyond that is proved in `StdStringsLaws`.
- `std_strings_laws.dfy`, module `StdStringsLaws`: Split and Join are
  inverse, with or without a SplitN limit; SplitAfter pieces concatenate to
  the text; the number of pieces follows Count and the limit; Replace with
  one and with all replacements.
- `go_string.dfy`, module `GoString`: the package itself. `String` and
  `Strings` are datatypes with the Go methods as members; the loops of the
  source are methods with loop invariants, proved against the functions
  `Boxes`, `MinIndex`, `FirstFoundIndex`, `MaxLastIndex`.
- `go_string_laws.dfy`, module `GoStringLaws`: normalization, round trips,
  defaults, and the relations between the candidate searches.

Modelling decisions:

- A Go pointer is `Ptr<T> = Nil | Addr(target)`. The package never changes a
  pointed-to text, so pointers carry their target by value.
- The methods of `String` dereference `Value`, so a zero `String{}` makes
  them panic. Each such member therefore requires `HasValue()`, which
  `NewString` guarantees. The exceptions are `IncludesAny`, `ContainsAnyOf`,
  `IndexAnyOf` and `LastIndexAnyOf`: they dereference only inside their loop
  over the candidates. With no candidates they answer false or -1 on any box,
  and so they require `HasValue()` only when there are candidates.
  `OldStrings` and `Join` dereference every element and require
  `AllHaveValues()`.
- Where Go walks a string by UTF-8 code points (the empty separator of
  `Count` and the `Split` family, the empty pattern of `Replace`), the
  decomposition is a parameter `runes`. It may be any split of the text into
  pieces of one to four bytes (`IsRuneSplit`), and stands for what
  `utf8.DecodeRuneInString` yields. Results for the empty separator are stated
  in terms of it; the decoding itself is not modelled.
- `MaxInt` is that of a 64-bit `int`. `IndexAnyOf` requires the text to be
  at most `MaxInt` bytes long, which every Go string is. So no offset reaches
  the sentinel.
- `Cuts` renders its flag with `S(found)`, that is `fmt.Sprint` of a bool.
  This is modelled by `SprintBool`, which gives `"true"` or `"false"`.

The model follows the code wherever it does less, or other, than its names suggest:

- Reading an empty box does not yield `"nil"`: `String()` dereferences
  `Value` and panics. Only `UnwrapStr` maps absence to `"nil"`.
- `LastIndexAnyOf` does not give the smallest offset over the candidates.
  It gives the offset of the first candidate, in argument order, that occurs
  (see Findings).
- The defensive default branch of `UnwrapStr` cannot be reached. The type
  set `StringTypes` is closed, and the `match` over `StringLike` is
  exhaustive.

## Model

| member | source | states |
|---|---|---|
| `StdStrings.Index` | String.go:198-200 | strings.Index: -1 or a byte offset at which the pattern occurs; 0 for the empty pattern |
| `StdStrings.IndexFirst` | String.go:198-200 | no occurrence lies before the offset Index returns, and Index is -1 exactly when the pattern occurs nowhere |
| `StdStrings.IndexFrom` | String.go:198-200 | -1 or an occurrence at or after a start offset |
| `StdStrings.IndexFromFirst` | String.go:198-200 | the occurrence found is the first from the start offset on, and -1 means none follows it |
| `StdStrings.LastIndex` | String.go:235-237 | strings.LastIndex: -1 or a byte offset at which the pattern occurs |
| `StdStrings.LastIndexLast` | String.go:235-237 | no occurrence lies after the offset LastIndex returns, and LastIndex is -1 exactly when the pattern occurs nowhere |
| `StdStrings.LastIndexAtOrBelow` | String.go:235-237 | -1 or an occurrence at or before an offset |
| `StdStrings.LastIndexAtOrBelowLast` | String.go:235-237 | the occurrence found is the last up to that offset, and -1 means none precedes it |
| `StdStrings.Contains` | String.go:112-114 | true exactly when the pattern occurs at some offset |
| `StdStrings.Cut` | String.go:140-145 | found exactly when the separator occurs; then before + sep + after is the text and before ends at the first occurrence; otherwise before is the text and after is empty |
| `StdStrings.CutPrefix` | String.go:152-156 | found exactly when the text has the prefix; then prefix + after is the text, otherwise after is the text |
| `StdStrings.CutSuffix` | String.go:165-169 | found exactly when the text has the suffix; then before + suffix is the text, otherwise before is the text |
| `StdStrings.Compare` | String.go:104-110 | strings.Compare: 0 exactly for equal texts, -1 exactly when the first is lexicographically smaller, 1 exactly when it is greater |
| `StdStrings.LessIrreflexive` | String.go:104-110 | no text is smaller than itself |
| `StdStrings.LessAsymmetric` | String.go:104-110 | if a is smaller than b, b is not smaller than a |
| `StdStrings.LessTransitive` | String.go:104-110 | the byte-wise order is transitive |
| `StdStrings.LessTotal` | String.go:104-110 | of two different texts one is smaller |
| `StdStrings.CompareAntisymmetric` | String.go:104-110 | swapping the operands negates the comparison |
| `StdStrings.JoinNoSeparator` | String.go:231-233 | joining with the empty separator is concatenation |
| `StdStrings.HasPrefix` | String.go:190-192 | strings.HasPrefix: true exactly when the prefix occurs at offset 0, and then the text is the prefix followed by the rest |
| `StdStrings.HasSuffix` | String.go:194-196 | strings.HasSuffix: true exactly when the suffix occurs at the end, and then the text is the rest followed by the suffix |
| `StdStrings.Join` | String.go:231-233 | strings.Join: a non-empty list joins to a text starting with its first element (its length is in JoinLength, its inverse in JoinSplit) |
| `StdStrings.JoinLength` | String.go:231-233 | a join is as long as its elements together plus one separator per gap |
| `StdStrings.Count` | String.go:132-138 | strings.Count: 0 exactly when the separator does not occur; for "" one more than the number of code points (the pieces of Split follow it, see SplitLength) |
| `StdStrings.CountNonEmptyBound` | String.go:132-138 | the non-overlapping occurrences counted fit in the text: Count times the separator length is at most the text length |
| `StdStrings.SplitAll` | String.go:289-299 | Go's genSplit with no limit and a non-empty separator gives at least one piece (exactly Count + 1, see SplitAllLength; the inverse is JoinSplitAll) |
| `StdStrings.SplitAtMost` | String.go:301-313 | genSplit with a positive limit n and a non-empty separator gives one to n pieces (exactly how many in SplitAtMostLength; the inverse is JoinSplitAtMost) |
| `StdStrings.Explode` | String.go:289-313 | Go's explode gives min(n, number of code points) pieces, all of them for n < 0, and for n != 0 they concatenate to the text |
| `StdStrings.ExplodeAll` | String.go:289-295 | with no limit, the empty separator gives one piece per code point |
| `StdStrings.GenSplit` | String.go:289-313 | genSplit: no pieces for n = 0, at most n for n > 0, and at least one for a non-empty separator and n != 0 |
| `StdStrings.Split` | String.go:289-295 | strings.Split: the code points for the empty separator, and the whole text alone when a non-empty separator does not occur (the inverse of Join, see JoinSplit) |
| `StdStrings.SplitAfter` | String.go:297-299 | strings.SplitAfter: the code points for the empty separator, and the whole text alone when a non-empty separator does not occur (the pieces concatenate to the text, see ConcatSplitAfter) |
| `StdStrings.SplitN` | String.go:308-313 | strings.SplitN: no pieces for n = 0, at most n for n > 0, and Split for n < 0 (round trip in JoinSplitN, exact count in SplitNLength) |
| `StdStrings.SplitAfterN` | String.go:301-306 | strings.SplitAfterN: no pieces for n = 0, at most n for n > 0, and SplitAfter for n < 0 (round trip in ConcatSplitAfterN) |
| `StdStrings.ReplaceFirst` | String.go:268-287 | replacing the first k occurrences of a pattern by the pattern itself changes nothing (with k at least Count it is Join of Split, see ReplaceFirstAll) |
| `StdStrings.InsertBeforeRunes` | String.go:268-287 | Replace with the empty pattern puts the replacement in front of the first k code points, so the result starts with it |
| `StdStrings.InsertBeforeRunesLength` | String.go:268-287 | inserting before k code points lengthens the text by k copies of the replacement |
| `StdStrings.Replace` | String.go:268-275 | strings.Replace leaves the text unchanged when the pattern is its own replacement, when the limit is 0, or when the pattern does not occur (one replacement in ReplaceOnce) |
| `StdStrings.ReplaceAll` | String.go:277-287 | strings.ReplaceAll leaves the text unchanged when the pattern is its own replacement or does not occur (Join of Split, see ReplaceAllIsJoinOfSplit) |
| `StdStringsLaws.JoinSplitAll` | String.go:289-295 | for a non-empty separator, joining the pieces between its occurrences with it gives back the text |
| `StdStringsLaws.ConcatSplitAfterAll` | String.go:297-299 | for a non-empty separator, the pieces that keep the separator concatenate to the text |
| `StdStringsLaws.SplitAllLength` | String.go:289-299 | a non-empty separator gives one more piece than it has non-overlapping occurrences |
| `StdStringsLaws.SplitAtMostAll` | String.go:308-313 | a piece limit above the number of occurrences gives all the pieces |
| `StdStringsLaws.JoinSplit` | String.go:289-295 | for every separator, the empty one included, Join of Split with that separator is the text |
| `StdStringsLaws.ConcatSplitAfter` | String.go:297-299 | the pieces of SplitAfter concatenate to the text, for every separator |
| `StdStringsLaws.SplitLength` | String.go:289-299 | Split gives Count + 1 pieces for a non-empty separator and Count - 1 (one per code point) for the empty one; SplitAfter gives as many as Split |
| `StdStringsLaws.SplitNLimit` | String.go:301-313 | SplitN and SplitAfterN give no pieces for n = 0 and at most n for n > 0; a negative limit or one above Count gives the result of Split and SplitAfter |
| `StdStringsLaws.SplitAtMostLength` | String.go:301-313 | a positive limit n gives n pieces when there are at least n occurrences, and Count + 1 otherwise |
| `StdStringsLaws.JoinSplitAtMost` | String.go:308-313 | with a positive limit, joining the pieces (the last one the unsplit rest) with the separator gives back the text |
| `StdStringsLaws.ConcatSplitAtMost` | String.go:301-306 | with a positive limit, the pieces that keep the separator concatenate to the text |
| `StdStringsLaws.JoinSplitN` | String.go:308-313 | for every separator and every limit but 0, Join of SplitN with that separator is the text |
| `StdStringsLaws.ConcatSplitAfterN` | String.go:301-306 | for every separator and every limit but 0, the pieces of SplitAfterN concatenate to the text |
| `StdStringsLaws.SplitNLength` | String.go:301-313 | a positive limit n gives exactly n pieces, or all of Split's (SplitAfter's) when there are fewer |
| `StdStringsLaws.SplitExample` | String.go:289-295 | "a,,b" split at "," is "a", "", "b" |
| `StdStringsLaws.ReplaceFirstAll` | String.go:277-287 | replacing at least as many occurrences as there are is joining the pieces between them with the replacement |
| `StdStringsLaws.ReplaceAllIsJoinOfSplit` | String.go:277-287 | ReplaceAll with a non-empty pattern is Join of Split at the pattern, joined with the replacement |
| `StdStringsLaws.ReplaceOnce` | String.go:268-275 | one replacement changes the first occurrence and nothing else, and leaves a text without one unchanged |
| `GoString.SprintBool` | String.go:147-150 | the flag of Cuts reads "true" exactly when it is set and "false" exactly when it is not |
| `GoString.UnwrapStr` | String.go:30-53 | a raw string maps to itself; a nil *string, a String with nil Value, a nil *String or one whose Value is nil maps to "nil"; any other value to the text it points to |
| `GoString.NewString` | String.go:55-57 | the box always holds a value, and its text is UnwrapStr of the argument |
| `GoString.Boxes` | String.go:59-65 | one box per text, of the same length, box i being NewString of text i |
| `GoString.TextsOfBoxes` | String.go:59-73 | the texts of the boxes built from a list are that list |
| `GoString.MinFound` | String.go:206-218 | the running minimum over offsets: -1 exactly when no entry is above -1; otherwise an entry, and no larger than any entry above -1 |
| `GoString.FirstFound` | String.go:243-251 | the early return over offsets: -1 exactly when no entry is above -1; otherwise the entry at a position before which every entry is -1 or below |
| `GoString.MaxFound` | String.go:243-251 | a running maximum from -1 over offsets: -1 exactly when no entry is above -1; otherwise an entry, and no smaller than any entry |
| `GoString.MinIndex` | String.go:206-218 | -1 exactly when no candidate occurs; otherwise the Index of some candidate and no larger than the Index of any candidate that occurs |
| `GoString.FirstFoundIndex` | String.go:243-251 | -1 exactly when no candidate occurs; otherwise the Index of a candidate k that occurs while no candidate before k does |
| `GoString.MaxLastIndex` | String.go:243-251 | -1 exactly when no candidate occurs; otherwise the LastIndex of some candidate and at least the LastIndex of every candidate |
| `GoString.IndexBelowMaxInt` | String.go:13-16 | in a text of at most MaxInt bytes no Index reaches MaxInt |
| `GoString.String.Text` | String.go:79-81 | String() gives the text the box points to: the box is the pointer to that text (NewStringRoundTrip is the round trip) |
| `GoString.String.HasPrefix` | String.go:190-192 | strings.HasPrefix on the held text: true exactly when the prefix occurs at offset 0, and then the text is the prefix and the rest |
| `GoString.String.HasSuffix` | String.go:194-196 | strings.HasSuffix on the held text: true exactly when the suffix occurs at the end, and then the text is the rest and the suffix |
| `GoString.String.Len` | String.go:96-98 | the number of bytes of the held text |
| `GoString.String.Compare` | String.go:104-106 | 0 exactly when the held text equals the argument, -1 exactly when it is smaller, 1 exactly when greater |
| `GoString.String.Compares` | String.go:108-110 | the same three-way comparison between two held texts |
| `GoString.String.Contains` | String.go:112-114 | strings.Contains on the held text: true exactly when the pattern occurs at some offset |
| `GoString.String.Index` | String.go:198-200 | strings.Index on the held text: an offset of an occurrence with none before it, or -1 exactly when there is none |
| `GoString.String.LastIndex` | String.go:235-237 | strings.LastIndex on the held text: an offset of an occurrence with none after it, or -1 exactly when there is none |
| `GoString.String.IncludesAny` | String.go:87-94 | false for no candidates, even on an empty box; otherwise true exactly when some candidate is contained in the text |
| `GoString.String.ContainsAnyOf` | String.go:120-122 | the same answer as IncludesAny, on the same boxes |
| `GoString.String.IndexAnyOf` | String.go:206-218 | -1 for no candidates, even on an empty box; otherwise the running minimum from the MaxInt sentinel ends at MinIndex: the smallest offset of any candidate, or -1 |
| `GoString.String.LastIndexAnyOf` | String.go:243-251 | -1 for no candidates, even on an empty box; otherwise the early return gives FirstFoundIndex: the Index of the first candidate in argument order that occurs, or -1 |
| `GoString.String.LastIndexAnyOfIntended` | String.go:243-251 | -1 for no candidates; otherwise a running maximum of LastIndex over the candidates ends at MaxLastIndex |
| `GoString.String.Count` | String.go:132-138 | strings.Count with the first argument as separator, or "" when there is none |
| `GoString.String.Cut` | String.go:140-145 | two boxes holding values and the flag; found exactly when the separator occurs; then before + sep + after is the text with before ending at the first occurrence; otherwise the whole text and "" |
| `GoString.String.Cuts` | String.go:147-150 | three boxes: the boxes of Cut, then a box reading "true" exactly when Cut found the separator and "false" exactly when it did not |
| `GoString.String.CutPrefix` | String.go:152-156 | found exactly when the text has the prefix; then prefix + after is the text; otherwise after is the text |
| `GoString.String.CutsPrefix` | String.go:158-163 | the box of CutPrefix, without the flag |
| `GoString.String.CutSuffix` | String.go:165-169 | found exactly when the text has the suffix; then before + suffix is the text; otherwise before is the text |
| `GoString.String.CutsSuffix` | String.go:171-176 | the box of CutSuffix, without the flag |
| `GoString.String.Replace` | String.go:268-275 | strings.Replace with the given count, or 1 when there is none; without a count only the first occurrence is replaced |
| `GoString.String.ReplaceAll` | String.go:277-287 | strings.ReplaceAll with pattern and replacement defaulting to ""; without arguments the text comes back unchanged |
| `GoString.String.Split` | String.go:289-295 | the boxes of strings.Split at the first argument, or at "" when there is none; joining their texts with that separator gives back the text |
| `GoString.String.SplitAfter` | String.go:297-299 | the boxes of strings.SplitAfter, whose texts concatenate to the held text |
| `GoString.String.SplitAfterN` | String.go:301-306 | with a limit, the boxes of strings.SplitAfterN; without one, those of strings.SplitAfter; unless the limit is 0 their texts concatenate to the held text |
| `GoString.String.SplitN` | String.go:308-313 | with a limit, the boxes of strings.SplitN; without one, those of strings.Split; unless the limit is 0 joining their texts with the separator gives back the held text |
| `GoString.Strings.Texts` | String.go:67-73 | one text per box, of the same length, text i being what box i points to |
| `GoString.Strings.Join` | String.go:231-233 | a box holding the texts joined with the separator |
| `GoString.NewStrings` | String.go:59-65 | filling the new slice index by index gives Boxes of the input |
| `GoString.OldStrings` | String.go:67-73 | filling the new slice index by index gives the texts of the boxes |
| `GoStringLaws.NewStringRoundTrip` | String.go:55-57 | NewString of a raw string holds a value, and its String() is that string |
| `GoStringLaws.UnwrapStrIdempotent` | String.go:30-57 | normalizing a box NewString built, directly or through a pointer, gives the same text and the same box |
| `GoStringLaws.NilIsAmbiguous` | String.go:30-53 | every absent value normalizes to the same text and box as the raw text "nil" |
| `GoStringLaws.ZeroStringHasNoValue` | String.go:18-20 | the zero String{} holds no value, and no NewString result is the zero String{} |
| `GoStringLaws.OldStringsOfNewStrings` | String.go:59-73 | OldStrings of NewStrings is the original list, of the same length and element by element |
| `GoStringLaws.NewStringsOfOldStrings` | String.go:59-73 | NewStrings of OldStrings of boxes that all hold a value gives the same boxes |
| `GoStringLaws.JoinOfSplitBoxes` | String.go:231-233 | Join over the boxes of Split, with the same separator, gives back the text |
| `GoStringLaws.CountDefault` | String.go:132-138 | Count() equals Count(""), which is one more than the number of code points |
| `GoStringLaws.ReplaceDefault` | String.go:268-275 | Replace(old, new) equals Replace(old, new, 1) |
| `GoStringLaws.ReplaceAllDefault` | String.go:277-287 | ReplaceAll() equals ReplaceAll("", ""), and ReplaceAll(old) equals ReplaceAll(old, "") |
| `GoStringLaws.CutsReassemble` | String.go:147-176 | when the flag box of Cuts reads "true" its first two boxes and the separator reassemble the text; when it reads "false" they hold the text and ""; CutsPrefix and CutsSuffix keep the text of CutPrefix and CutSuffix |
| `GoStringLaws.FirstFoundNotBelowMin` | String.go:206-251 | LastIndexAnyOf finds something exactly when IndexAnyOf does, and its result is never below IndexAnyOf's |
| `GoStringLaws.MinIndexExample` | String.go:206-218 | on "xbcay" with candidates "a", "b", "c" the smallest offset is 1 |
| `GoStringLaws.LastIndexAnyOfNotLast` | String.go:243-251 | on "ab" with candidates "a", "b" the code gives 0 while the last occurrence of a candidate is at 1 |
| `GoStringLaws.LastIndexAnyOfNotMin` | String.go:243-251 | on "ba" with candidates "a", "b" the code gives 1 while the smallest offset is 0 |

## Left out

- Casing and special-case tables (`Title`, `ToLower*`, `ToUpper*`, `ToTitle*`), `EqualFold`, `ToValidUTF8`, `Fields`: they depend on Unicode tables and UTF-8 decoding.
- The rune and predicate variants (`ContainsAny`, `ContainsRune`, `ContainsFunc`, `IndexAny`, `IndexByte`, `IndexRune`, `IndexFunc`, `LastIndexAny`, `LastIndexByte`, `LastIndexFunc`, `FieldsFunc`, `Trim*Func`, `Map`): they decode UTF-8 or call caller-supplied functions.
- UTF-8 decoding itself: the code-point split `runes` is a parameter. Any split into pieces of one to four bytes is accepted, which includes the one Go computes.
- Quoting and unquoting (`Quote*`, `Unquote*`, `QuotedPrefix*`, `AppendQuote*`, `CanBackquote`, `QuoteRune*`): escaping logic of `strconv` that is not visible in the package.
- Numeric parsing and formatting (`Atoi`, `Parse*`, `Format*`, `Itoa`): foreign `strconv` calls, partly in floating point.
- `HeaderKey`: it forwards to the header canonicalization of `net/http`.
- `NewReader`, `Reset`, `WriteBuilder`, `NewReplacer`, `Replacer`, `WriteReplacer`: readers, writers and opaque library objects.
- `S` and the default branch of `UnwrapStr`: they use reflection-based formatting (`fmt.Sprint`). `S` appears only for the bool flag of `Cuts`, as `SprintBool`.
- `Clone`, `Repeat`, `Trim`, `TrimLeft`, `TrimRight`, `TrimSpace`, `TrimPrefix`, `TrimSuffix`: plain forwards with no logic of the package's own.
- Pointer identity and aliasing: a pointer carries its target by value, since no target is ever changed. `Ptr` and `AsInterface` come from the `utils` package, which is not part of this model. They are taken to be taking the address of a copy and a conversion to `any`.
- The cap of `n` at `len(s) + 1` in Go's `genSplit` is not written out. With a non-empty separator there are never more pieces than that, so the cap cannot change a result.
- Go's `int` for counts and limits is an unbounded integer here. No arithmetic on them can overflow in these functions. The `MaxInt` sentinel is that of a 64-bit platform.

## Findings

| source | as written | input that shows it | evidently intended | confidence | as-written member | corrected member |
|---|---|---|---|---|---|---|
| String.go:243-251 | `LastIndexAnyOf` returns `Index` of the first candidate, in argument order, that occurs. It never inspects later candidates or later occurrences. | text "ab", candidates "a", "b": the result is 0, but "b" occurs last, at 1. Text "ba" with the same candidates: the result is 1, the offset of "a", though "b" is at 0. | the largest `LastIndex` over the candidates, or -1 when none occurs, as `strings.LastIndexAny` does for characters | medium, not executed | `GoStringLaws.LastIndexAnyOfNotLast` | `GoString.String.LastIndexAnyOfIntended` |
