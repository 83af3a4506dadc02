/** Byte-level model of the functions of Go's standard `strings` package that
    the boxed string type forwards to. A Go string is a sequence of bytes and
    every offset here is a byte offset.

    Where Go splits a string into its UTF-8 encoded code points (the empty
    separator of Count, Split and SplitN, the empty pattern of Replace), the
    decomposition is not computed here: it is a parameter `runes`, any split
    of the string into pieces of one to four bytes (IsRuneSplit), standing for
    the sequence utf8.DecodeRuneInString yields. */
module StdStrings {

  type Bytes = seq<bv8>

  // ---------------------------------------------------------------------
  // Occurrences, prefixes, suffixes

  /** `sub` occurs in `s` at byte offset `i`. */
  predicate OccursAt(s: Bytes, sub: Bytes, i: int) {
    0 <= i && i + |sub| <= |s| && s[i..i + |sub|] == sub
  }

  /** strings.HasPrefix: `prefix` occurs at the start of `s`. */
  predicate HasPrefix(s: Bytes, prefix: Bytes): (b: bool)
    ensures b <==> OccursAt(s, prefix, 0)
    ensures b ==> s == prefix + s[|prefix|..]
  {
    |prefix| <= |s| && s[..|prefix|] == prefix
  }

  /** strings.HasSuffix: `suffix` occurs at the end of `s`. */
  predicate HasSuffix(s: Bytes, suffix: Bytes): (b: bool)
    ensures b <==> OccursAt(s, suffix, |s| - |suffix|)
    ensures b ==> s == s[..|s| - |suffix|] + suffix
  {
    |suffix| <= |s| && s[|s| - |suffix|..] == suffix
  }

  /** The first occurrence of `sub` in `s` at or after offset `i`, or -1. */
  function IndexFrom(s: Bytes, sub: Bytes, i: nat): (r: int)
    requires i <= |s|
    ensures r == -1 || (i <= r && OccursAt(s, sub, r))
    decreases |s| - i
  {
    if i + |sub| > |s| then -1
    else if s[i..i + |sub|] == sub then i
    else
      assert |sub| > 0;
      IndexFrom(s, sub, i + 1)
  }

  /** IndexFrom finds the first occurrence from `i` on, and -1 only when
      there is none. */
  lemma {:induction false} IndexFromFirst(s: Bytes, sub: Bytes, i: nat)
    requires i <= |s|
    ensures IndexFrom(s, sub, i) == -1 ==> forall j :: i <= j ==> !OccursAt(s, sub, j)
    ensures IndexFrom(s, sub, i) >= 0 ==> forall j :: i <= j < IndexFrom(s, sub, i) ==> !OccursAt(s, sub, j)
    decreases |s| - i
  {
    if i + |sub| <= |s| && s[i..i + |sub|] != sub {
      IndexFromFirst(s, sub, i + 1);
    }
  }

  /** strings.Index: the first byte offset of `sub` in `s`, or -1. */
  function Index(s: Bytes, sub: Bytes): (r: int)
    ensures -1 <= r <= |s| - |sub| || r == -1
    ensures r >= 0 ==> OccursAt(s, sub, r)
    ensures sub == [] ==> r == 0
  {
    var r := IndexFrom(s, sub, 0);
    assert sub == [] ==> OccursAt(s, sub, 0);
    r
  }

  /** Index is the first occurrence, and -1 exactly when there is none. */
  lemma IndexFirst(s: Bytes, sub: Bytes)
    ensures Index(s, sub) >= 0 ==> forall j :: 0 <= j < Index(s, sub) ==> !OccursAt(s, sub, j)
    ensures Index(s, sub) == -1 <==> forall j :: !OccursAt(s, sub, j)
  {
    IndexFromFirst(s, sub, 0);
  }

  /** The last occurrence of `sub` in `s` at or before offset `i`, or -1. */
  function LastIndexAtOrBelow(s: Bytes, sub: Bytes, i: int): (r: int)
    requires i <= |s|
    ensures r == -1 || (0 <= r <= i && OccursAt(s, sub, r))
    decreases i + 1
  {
    if i < 0 then -1
    else if OccursAt(s, sub, i) then i
    else LastIndexAtOrBelow(s, sub, i - 1)
  }

  /** LastIndexAtOrBelow finds the last occurrence up to `i`, and -1 only
      when there is none. */
  lemma {:induction false} LastIndexAtOrBelowLast(s: Bytes, sub: Bytes, i: int)
    requires i <= |s|
    ensures LastIndexAtOrBelow(s, sub, i) == -1 ==> forall j :: j <= i ==> !OccursAt(s, sub, j)
    ensures LastIndexAtOrBelow(s, sub, i) >= 0 ==>
              forall j :: LastIndexAtOrBelow(s, sub, i) < j <= i ==> !OccursAt(s, sub, j)
    decreases i + 1
  {
    if i >= 0 && !OccursAt(s, sub, i) {
      LastIndexAtOrBelowLast(s, sub, i - 1);
    }
  }

  /** strings.LastIndex: the last byte offset of `sub` in `s`, or -1
      (the length of `s` for the empty `sub`). */
  function LastIndex(s: Bytes, sub: Bytes): (r: int)
    ensures -1 <= r <= |s| - |sub| || r == -1
    ensures r >= 0 ==> OccursAt(s, sub, r)
  {
    LastIndexAtOrBelow(s, sub, |s| - |sub|)
  }

  /** LastIndex is the last occurrence, and -1 exactly when there is none. */
  lemma LastIndexLast(s: Bytes, sub: Bytes)
    ensures LastIndex(s, sub) >= 0 ==> forall j :: LastIndex(s, sub) < j ==> !OccursAt(s, sub, j)
    ensures LastIndex(s, sub) == -1 <==> forall j :: !OccursAt(s, sub, j)
  {
    LastIndexAtOrBelowLast(s, sub, |s| - |sub|);
  }

  /** strings.Contains */
  function Contains(s: Bytes, sub: Bytes): (b: bool)
    ensures b <==> exists i :: OccursAt(s, sub, i)
  {
    IndexFirst(s, sub);
    Index(s, sub) >= 0
  }

  // ---------------------------------------------------------------------
  // Cut, CutPrefix, CutSuffix

  datatype CutResult = CutResult(before: Bytes, after: Bytes, found: bool)

  /** strings.Cut: the text around the first occurrence of `sep`. */
  function Cut(s: Bytes, sep: Bytes): (c: CutResult)
    ensures c.found <==> Contains(s, sep)
    ensures c.found ==> c.before + sep + c.after == s && |c.before| == Index(s, sep)
    ensures !c.found ==> c.before == s && c.after == []
  {
    var i := Index(s, sep);
    if i >= 0 then
      assert s == s[..i] + s[i..i + |sep|] + s[i + |sep|..];
      CutResult(s[..i], s[i + |sep|..], true)
    else CutResult(s, [], false)
  }

  /** strings.CutPrefix */
  function CutPrefix(s: Bytes, prefix: Bytes): (r: (Bytes, bool))
    ensures r.1 <==> HasPrefix(s, prefix)
    ensures r.1 ==> prefix + r.0 == s
    ensures !r.1 ==> r.0 == s
  {
    if !HasPrefix(s, prefix) then (s, false)
    else
      assert s == s[..|prefix|] + s[|prefix|..];
      (s[|prefix|..], true)
  }

  /** strings.CutSuffix */
  function CutSuffix(s: Bytes, suffix: Bytes): (r: (Bytes, bool))
    ensures r.1 <==> HasSuffix(s, suffix)
    ensures r.1 ==> r.0 + suffix == s
    ensures !r.1 ==> r.0 == s
  {
    if !HasSuffix(s, suffix) then (s, false)
    else
      assert s == s[..|s| - |suffix|] + s[|s| - |suffix|..];
      (s[..|s| - |suffix|], true)
  }

  // ---------------------------------------------------------------------
  // Compare

  /** Byte-wise lexicographic order, the order of Go's string comparison. */
  predicate Less(a: Bytes, b: Bytes) {
    if a == [] then b != []
    else if b == [] then false
    else if a[0] != b[0] then a[0] < b[0]
    else Less(a[1..], b[1..])
  }

  lemma {:induction false} LessIrreflexive(a: Bytes)
    ensures !Less(a, a)
  {
    if a != [] {
      LessIrreflexive(a[1..]);
    }
  }

  lemma {:induction false} LessAsymmetric(a: Bytes, b: Bytes)
    requires Less(a, b)
    ensures !Less(b, a)
  {
    if a != [] && b != [] && a[0] == b[0] {
      LessAsymmetric(a[1..], b[1..]);
    }
  }

  lemma {:induction false} LessTransitive(a: Bytes, b: Bytes, c: Bytes)
    requires Less(a, b) && Less(b, c)
    ensures Less(a, c)
  {
    if a != [] && a[0] == b[0] && b[0] == c[0] {
      LessTransitive(a[1..], b[1..], c[1..]);
    }
  }

  lemma {:induction false} LessTotal(a: Bytes, b: Bytes)
    requires a != b
    ensures Less(a, b) || Less(b, a)
  {
    if a != [] && b != [] && a[0] == b[0] {
      assert a == [a[0]] + a[1..] && b == [b[0]] + b[1..];
      LessTotal(a[1..], b[1..]);
    }
  }

  /** strings.Compare: 0 if a == b, -1 if a < b, +1 if a > b. */
  function Compare(a: Bytes, b: Bytes): (r: int)
    ensures r == 0 <==> a == b
    ensures r == -1 <==> Less(a, b)
    ensures r == 1 <==> Less(b, a)
  {
    if a == b then
      LessIrreflexive(a);
      0
    else if Less(a, b) then
      LessAsymmetric(a, b);
      -1
    else
      LessTotal(a, b);
      1
  }

  lemma CompareAntisymmetric(a: Bytes, b: Bytes)
    ensures Compare(a, b) == -Compare(b, a)
  {
    if a != b {
      LessTotal(a, b);
      if Less(a, b) { LessAsymmetric(a, b); } else { LessAsymmetric(b, a); }
    }
  }

  // ---------------------------------------------------------------------
  // Concatenation and strings.Join

  /** The sum of the lengths of the pieces. */
  function Lengths(xs: seq<Bytes>): nat {
    if xs == [] then 0 else |xs[0]| + Lengths(xs[1..])
  }

  /** The pieces one after the other. */
  function Concat(xs: seq<Bytes>): (r: Bytes)
    ensures |r| == Lengths(xs)
  {
    if xs == [] then [] else xs[0] + Concat(xs[1..])
  }

  /** Concatenation distributes over appending sequences of pieces. */
  lemma {:induction false} ConcatOfAppend(xs: seq<Bytes>, ys: seq<Bytes>)
    ensures Concat(xs + ys) == Concat(xs) + Concat(ys)
  {
    if xs != [] {
      assert (xs + ys)[1..] == xs[1..] + ys;
      ConcatOfAppend(xs[1..], ys);
    } else {
      assert xs + ys == ys;
    }
  }

  /** strings.Join: the elements with `sep` between neighbours; the result
      starts with the first element. */
  function Join(elems: seq<Bytes>, sep: Bytes): (r: Bytes)
    ensures |elems| > 0 ==> HasPrefix(r, elems[0])
  {
    if |elems| == 0 then []
    else if |elems| == 1 then
      elems[0]
    else
      var rest := Join(elems[1..], sep);
      assert (elems[0] + sep + rest)[..|elems[0]|] == elems[0];
      elems[0] + sep + rest
  }

  /** The length of a join is that of the elements plus one separator per
      gap. */
  lemma {:induction false} JoinLength(elems: seq<Bytes>, sep: Bytes)
    requires |elems| > 0
    ensures |Join(elems, sep)| == Lengths(elems) + (|elems| - 1) * |sep|
  {
    if |elems| == 1 {
      assert elems[1..] == [];
    } else {
      JoinLength(elems[1..], sep);
      MulSucc(|elems| - 2, |sep|);
    }
  }

  lemma {:induction false} JoinNoSeparator(xs: seq<Bytes>)
    ensures Join(xs, []) == Concat(xs)
  {
    if |xs| == 1 {
      assert xs[1..] == [];
    } else if |xs| > 1 {
      JoinNoSeparator(xs[1..]);
    }
  }

  /** A split of `s` into the encodings of its code points: pieces of one to
      four bytes whose concatenation is `s`. */
  predicate IsRuneSplit(runes: seq<Bytes>, s: Bytes) {
    Concat(runes) == s && forall k :: 0 <= k < |runes| ==> 1 <= |runes[k]| <= 4
  }

  // ---------------------------------------------------------------------
  // strings.Count

  lemma MulSucc(c: nat, w: nat)
    ensures (1 + c) * w == w + c * w
  {
  }

  /** The number of non-overlapping occurrences of a non-empty `sep`,
      counted from the left. */
  function CountNonEmpty(s: Bytes, sep: Bytes): (r: nat)
    requires |sep| > 0
    decreases |s|
  {
    var i := Index(s, sep);
    if i < 0 then 0 else 1 + CountNonEmpty(s[i + |sep|..], sep)
  }

  /** CountNonEmpty past the first occurrence at `i`. */
  lemma CountNonEmptyUnfold(s: Bytes, sep: Bytes, i: int)
    requires |sep| > 0 && i == Index(s, sep) && i >= 0
    ensures CountNonEmpty(s, sep) == 1 + CountNonEmpty(s[i + |sep|..], sep)
  {
  }

  /** The occurrences counted do not overlap, so together they fit in the
      text. */
  lemma {:induction false} CountNonEmptyBound(s: Bytes, sep: Bytes)
    requires |sep| > 0
    ensures CountNonEmpty(s, sep) * |sep| <= |s|
    decreases |s|
  {
    var i := Index(s, sep);
    if i >= 0 {
      var rest := s[i + |sep|..];
      var c := CountNonEmpty(rest, sep);
      CountNonEmptyUnfold(s, sep, i);
      CountNonEmptyBound(rest, sep);
      MulSucc(c, |sep|);
    }
  }

  /** strings.Count: zero exactly when `sep` does not occur; for the empty
      separator, one more than the number of code points of `s`. */
  function Count(s: Bytes, sep: Bytes, runes: seq<Bytes>): (r: nat)
    requires IsRuneSplit(runes, s)
    ensures r == 0 <==> !Contains(s, sep)
    ensures sep == [] ==> r == |runes| + 1
  {
    if sep == [] then |runes| + 1 else CountNonEmpty(s, sep)
  }

  // ---------------------------------------------------------------------
  // strings.Split, SplitAfter, SplitN, SplitAfterN

  /** Every piece of `s` between occurrences of a non-empty `sep`; each piece
      but the last keeps the first `save` bytes of the separator after it. */
  function SplitAll(s: Bytes, sep: Bytes, save: nat): (r: seq<Bytes>)
    requires |sep| > 0 && save <= |sep|
    ensures |r| >= 1
    decreases |s|
  {
    var i := Index(s, sep);
    if i < 0 then [s] else [s[..i + save]] + SplitAll(s[i + |sep|..], sep, save)
  }

  /** As SplitAll, but at most `n` pieces: the last one is the rest of `s`. */
  function SplitAtMost(s: Bytes, sep: Bytes, save: nat, n: nat): (r: seq<Bytes>)
    requires |sep| > 0 && save <= |sep| && n >= 1
    ensures 1 <= |r| <= n
    decreases n
  {
    var i := Index(s, sep);
    if n == 1 || i < 0 then [s]
    else [s[..i + save]] + SplitAtMost(s[i + |sep|..], sep, save, n - 1)
  }

  /** Go's explode: the code points of `s`, at most `n` pieces when n >= 0,
      the last piece holding the rest. */
  function Explode(runes: seq<Bytes>, n: int): (r: seq<Bytes>)
    ensures |r| == if n < 0 || n > |runes| then |runes| else n
    ensures n != 0 ==> Concat(r) == Concat(runes)
  {
    var m := if n < 0 || n > |runes| then |runes| else n;
    if m == 0 then []
    else
      var last := Concat(runes[m - 1..]);
      assert [last][1..] == [];
      ConcatOfAppend(runes[..m - 1], [last]);
      ConcatOfAppend(runes[..m - 1], runes[m - 1..]);
      assert runes[..m - 1] + runes[m - 1..] == runes;
      runes[..m - 1] + [last]
  }

  /** With no limit, explode gives every code point as its own piece. */
  lemma {:induction false} ExplodeAll(runes: seq<Bytes>)
    ensures Explode(runes, -1) == runes
  {
    var m := |runes|;
    if m > 0 {
      var last := runes[m - 1];
      assert runes[m - 1..] == [last];
      assert [last][1..] == [];
      assert Concat([last]) == last + Concat([]);
      assert Concat(runes[m - 1..]) == last;
      assert Explode(runes, -1) == runes[..m - 1] + [Concat(runes[m - 1..])];
      assert runes == runes[..m - 1] + [last];
    }
  }

  /** Go's genSplit: n == 0 gives no pieces, n < 0 all of them, n > 0 at
      most n; a non-empty separator always gives at least one piece. */
  function GenSplit(s: Bytes, sep: Bytes, save: nat, n: int, runes: seq<Bytes>): (r: seq<Bytes>)
    requires IsRuneSplit(runes, s) && save <= |sep|
    ensures n == 0 ==> r == []
    ensures n > 0 ==> |r| <= n
    ensures sep != [] && n != 0 ==> |r| >= 1
  {
    if n == 0 then []
    else if sep == [] then Explode(runes, n)
    else if n < 0 then SplitAll(s, sep, save)
    else SplitAtMost(s, sep, save, n)
  }

  /** strings.Split: one piece per code point for the empty separator, and
      the whole text alone when a non-empty separator does not occur. */
  function Split(s: Bytes, sep: Bytes, runes: seq<Bytes>): (r: seq<Bytes>)
    requires IsRuneSplit(runes, s)
    ensures sep == [] ==> r == runes
    ensures sep != [] && !Contains(s, sep) ==> r == [s]
  {
    ExplodeAll(runes);
    GenSplit(s, sep, 0, -1, runes)
  }

  /** strings.SplitAfter: as Split, each piece keeping its separator. */
  function SplitAfter(s: Bytes, sep: Bytes, runes: seq<Bytes>): (r: seq<Bytes>)
    requires IsRuneSplit(runes, s)
    ensures sep == [] ==> r == runes
    ensures sep != [] && !Contains(s, sep) ==> r == [s]
  {
    ExplodeAll(runes);
    GenSplit(s, sep, |sep|, -1, runes)
  }

  /** strings.SplitN: no pieces for n == 0, at most n for n > 0, all of
      them for n < 0. */
  function SplitN(s: Bytes, sep: Bytes, n: int, runes: seq<Bytes>): (r: seq<Bytes>)
    requires IsRuneSplit(runes, s)
    ensures n == 0 ==> r == []
    ensures n > 0 ==> |r| <= n
    ensures n < 0 ==> r == Split(s, sep, runes)
  {
    GenSplit(s, sep, 0, n, runes)
  }

  /** strings.SplitAfterN: as SplitN, each piece keeping its separator. */
  function SplitAfterN(s: Bytes, sep: Bytes, n: int, runes: seq<Bytes>): (r: seq<Bytes>)
    requires IsRuneSplit(runes, s)
    ensures n == 0 ==> r == []
    ensures n > 0 ==> |r| <= n
    ensures n < 0 ==> r == SplitAfter(s, sep, runes)
  {
    GenSplit(s, sep, |sep|, n, runes)
  }

  // ---------------------------------------------------------------------
  // strings.Replace, ReplaceAll

  /** `s` with the first `k` non-overlapping occurrences of a non-empty
      `oldText` replaced by `newText`; replacing `oldText` by itself changes
      nothing. */
  function ReplaceFirst(s: Bytes, oldText: Bytes, newText: Bytes, k: nat): (r: Bytes)
    requires |oldText| > 0
    ensures oldText == newText ==> r == s
    decreases k
  {
    if k == 0 then s
    else
      var i := Index(s, oldText);
      if i < 0 then s
      else
        assert s == s[..i] + s[i..i + |oldText|] + s[i + |oldText|..];
        s[..i] + newText + ReplaceFirst(s[i + |oldText|..], oldText, newText, k - 1)
  }

  /** `newText` inserted before each of the first `k` code points, the k-th
      position being the end of the text when k == |runes| + 1: the text
      grows by k copies of `newText` and starts with one. */
  function InsertBeforeRunes(runes: seq<Bytes>, newText: Bytes, k: nat): (r: Bytes)
    requires 1 <= k <= |runes| + 1
    ensures HasPrefix(r, newText)
    decreases k
  {
    if k == 1 then
      assert (newText + Concat(runes))[..|newText|] == newText;
      newText + Concat(runes)
    else
      var rest := InsertBeforeRunes(runes[1..], newText, k - 1);
      assert (newText + runes[0] + rest)[..|newText|] == newText;
      newText + runes[0] + rest
  }

  /** Inserting before k code points adds k copies of `newText`. */
  lemma {:induction false} InsertBeforeRunesLength(runes: seq<Bytes>, newText: Bytes, k: nat)
    requires 1 <= k <= |runes| + 1
    ensures |InsertBeforeRunes(runes, newText, k)| == |Concat(runes)| + k * |newText|
    decreases k
  {
    if k > 1 {
      InsertBeforeRunesLength(runes[1..], newText, k - 1);
      MulSucc(k - 1, |newText|);
    }
  }

  /** strings.Replace: at most `n` replacements (all when n < 0); the text
      comes back unchanged when the pattern is its own replacement, when n
      is 0, or when the pattern does not occur. */
  function Replace(s: Bytes, oldText: Bytes, newText: Bytes, n: int, runes: seq<Bytes>): (r: Bytes)
    requires IsRuneSplit(runes, s)
    ensures oldText == newText || n == 0 || !Contains(s, oldText) ==> r == s
  {
    if oldText == newText || n == 0 then s
    else
      var m := Count(s, oldText, runes);
      if m == 0 then s
      else
        var k := if n < 0 || m < n then m else n;
        if oldText == [] then InsertBeforeRunes(runes, newText, k) else ReplaceFirst(s, oldText, newText, k)
  }

  /** strings.ReplaceAll: every occurrence replaced; nothing changes when
      the pattern is its own replacement or does not occur. */
  function ReplaceAll(s: Bytes, oldText: Bytes, newText: Bytes, runes: seq<Bytes>): (r: Bytes)
    requires IsRuneSplit(runes, s)
    ensures oldText == newText || !Contains(s, oldText) ==> r == s
  {
    Replace(s, oldText, newText, -1, runes)
  }
}
