/** Model of Go package String: the boxed string `String` (a struct holding a
    pointer to its text), the boxed sequence `Strings`, the normalization
    helper UnwrapStr with its constructor NewString, and the methods whose
    logic is the package's own: the copy loops between []string and
    []String, the searches over several candidates, Cut and its packed
    variants, and the methods that emulate default arguments with a variadic
    parameter.

    Every method of `String` dereferences its Value pointer, so each one
    requires HasValue(); NewString always establishes it. */
module GoString {
  import opened StdStrings
  import StdStringsLaws

  /** Go's MaxInt for a 64-bit int: int(^uint(0) >> 1). */
  const MaxInt: int := 0x7FFF_FFFF_FFFF_FFFF

  /** The texts "nil", "true" and "false". */
  const NilText: Bytes := [0x6E, 0x69, 0x6C]
  const TrueText: Bytes := [0x74, 0x72, 0x75, 0x65]
  const FalseText: Bytes := [0x66, 0x61, 0x6C, 0x73, 0x65]

  /** A Go pointer: nil, or the address of a value. The package never
      changes a pointed-to value, so a pointer is modelled by its target. */
  datatype Ptr<T> = Nil | Addr(target: T)

  /** fmt.Sprint of a bool. */
  function SprintBool(b: bool): (r: Bytes)
    ensures r == TrueText <==> b
    ensures r == FalseText <==> !b
  {
    if b then TrueText else FalseText
  }

  // ---------------------------------------------------------------------
  // Normalization

  /** The closed type set StringTypes: string | *string | String | *String. */
  datatype StringLike =
    | Raw(raw: Bytes)
    | RawPtr(rawPtr: Ptr<Bytes>)
    | Boxed(box: String)
    | BoxedPtr(boxPtr: Ptr<String>)

  /** No text can be reached: a nil pointer, or a box whose Value is nil. */
  predicate Absent(x: StringLike) {
    match x
    case Raw(_) => false
    case RawPtr(p) => p.Nil?
    case Boxed(b) => !b.HasValue()
    case BoxedPtr(p) => p.Nil? || !p.target.HasValue()
  }

  /** UnwrapStr: the text a value of one of the four shapes stands for, and
      "nil" when there is none. The type switch's default branch cannot be
      taken, since the four shapes are all StringTypes admits. */
  function UnwrapStr(x: StringLike): (r: Bytes)
    ensures Absent(x) ==> r == NilText
    ensures x.Raw? ==> r == x.raw
    ensures x.RawPtr? && !Absent(x) ==> r == x.rawPtr.target
    ensures x.Boxed? && !Absent(x) ==> r == x.box.Text()
    ensures x.BoxedPtr? && !Absent(x) ==> r == x.boxPtr.target.Text()
  {
    match x
    case Raw(s) => s
    case RawPtr(p) => if p.Nil? then NilText else p.target
    case Boxed(b) => if b.value.Nil? then NilText else b.value.target
    case BoxedPtr(p) =>
      if p.Nil? || p.target.value.Nil? then NilText else p.target.value.target
  }

  /** NewString: a box pointing to a fresh copy of the normalized text. */
  function NewString(x: StringLike): (r: String)
    ensures r.HasValue() && r.Text() == UnwrapStr(x)
  {
    String(Addr(UnwrapStr(x)))
  }

  /** The boxes NewStrings builds, one NewString per text. */
  function Boxes(ss: seq<Bytes>): (strs: Strings)
    ensures |strs.value| == |ss| && strs.AllHaveValues()
    ensures forall i :: 0 <= i < |ss| ==> strs.value[i] == NewString(Raw(ss[i]))
  {
    Strings(seq(|ss|, i requires 0 <= i < |ss| => NewString(Raw(ss[i]))))
  }

  /** The texts of a boxed sequence are those it was built from. */
  lemma TextsOfBoxes(ss: seq<Bytes>)
    ensures Boxes(ss).Texts() == ss
  {
  }

  // ---------------------------------------------------------------------
  // The searches over several candidates, as values

  /** The offsets returned by Index for each candidate, in argument order. */
  function Offsets(t: Bytes, subs: seq<Bytes>): (xs: seq<int>)
    ensures |xs| == |subs|
    ensures forall k :: 0 <= k < |subs| ==> xs[k] == Index(t, subs[k])
  {
    seq(|subs|, k requires 0 <= k < |subs| => Index(t, subs[k]))
  }

  /** The offsets returned by LastIndex for each candidate. */
  function LastOffsets(t: Bytes, subs: seq<Bytes>): (xs: seq<int>)
    ensures |xs| == |subs|
    ensures forall k :: 0 <= k < |subs| ==> xs[k] == LastIndex(t, subs[k])
  {
    seq(|subs|, k requires 0 <= k < |subs| => LastIndex(t, subs[k]))
  }

  /** The running minimum of IndexAnyOf over offsets: the smallest entry
      above -1, or -1 when there is none. */
  function MinFound(xs: seq<int>): (r: int)
    ensures r >= -1
    ensures r == -1 <==> forall k :: 0 <= k < |xs| ==> xs[k] <= -1
    ensures r >= 0 ==> r in xs
    ensures forall k :: 0 <= k < |xs| && xs[k] > -1 ==> r <= xs[k]
    decreases |xs|
  {
    if xs == [] then -1
    else
      var init := xs[..|xs| - 1];
      var prev := MinFound(init);
      var x := xs[|xs| - 1];
      assert forall k :: 0 <= k < |xs| - 1 ==> xs[k] == init[k];
      if x > -1 && (prev == -1 || x < prev) then x else prev
  }

  /** The early return of LastIndexAnyOf over offsets: the first entry above
      -1, or -1 when there is none. */
  function FirstFound(xs: seq<int>): (r: int)
    ensures r >= -1
    ensures r == -1 <==> forall k :: 0 <= k < |xs| ==> xs[k] <= -1
    ensures r >= 0 ==> exists k :: 0 <= k < |xs| && xs[k] == r &&
                                   forall j :: 0 <= j < k ==> xs[j] <= -1
  {
    if xs == [] then -1
    else if xs[0] > -1 then xs[0]
    else
      var r := FirstFound(xs[1..]);
      assert r >= 0 ==> exists k :: 0 <= k < |xs| && xs[k] == r &&
                                    forall j :: 0 <= j < k ==> xs[j] <= -1 by {
        if r >= 0 {
          var k :| 0 <= k < |xs[1..]| && xs[1..][k] == r &&
                   forall j :: 0 <= j < k ==> xs[1..][j] <= -1;
          assert forall j :: 0 <= j < k + 1 ==> xs[j] <= -1 by {
            forall j | 0 < j < k + 1 ensures xs[j] <= -1 {
              assert xs[j] == xs[1..][j - 1];
            }
          }
        }
      }
      r
  }

  /** A running maximum that starts at -1: the largest entry, or -1 when
      every entry is -1 or below. */
  function MaxFound(xs: seq<int>): (r: int)
    ensures r >= -1
    ensures r == -1 <==> forall k :: 0 <= k < |xs| ==> xs[k] <= -1
    ensures r >= 0 ==> r in xs
    ensures forall k :: 0 <= k < |xs| ==> xs[k] <= r
    decreases |xs|
  {
    if xs == [] then -1
    else
      var init := xs[..|xs| - 1];
      var prev := MaxFound(init);
      var x := xs[|xs| - 1];
      assert forall k :: 0 <= k < |xs| - 1 ==> xs[k] == init[k];
      if x > prev then x else prev
  }

  /** One step of the running minimum. */
  lemma MinFoundStep(xs: seq<int>, i: nat)
    requires i < |xs|
    ensures var prev := MinFound(xs[..i]);
            MinFound(xs[..i + 1]) == if xs[i] > -1 && (prev == -1 || xs[i] < prev) then xs[i] else prev
  {
    assert xs[..i + 1][..i] == xs[..i];
  }

  /** MinFound stays below a bound above -1 that every entry is below. */
  lemma MinFoundBelow(xs: seq<int>, bound: int)
    requires bound > -1 && forall k :: 0 <= k < |xs| ==> xs[k] < bound
    ensures MinFound(xs) < bound
  {
  }

  /** One step of the running maximum. */
  lemma MaxFoundStep(xs: seq<int>, i: nat)
    requires i < |xs|
    ensures var prev := MaxFound(xs[..i]);
            MaxFound(xs[..i + 1]) == if xs[i] > prev then xs[i] else prev
  {
    assert xs[..i + 1][..i] == xs[..i];
  }

  /** The smallest offset at which one of `subs` occurs in `t`, -1 if none
      does. */
  function MinIndex(t: Bytes, subs: seq<Bytes>): (r: int)
    ensures r >= -1
    ensures r == -1 <==> forall k :: 0 <= k < |subs| ==> Index(t, subs[k]) == -1
    ensures r >= 0 ==> exists k :: 0 <= k < |subs| && Index(t, subs[k]) == r
    ensures forall k :: 0 <= k < |subs| && Index(t, subs[k]) >= 0 ==> r <= Index(t, subs[k])
  {
    MinFound(Offsets(t, subs))
  }

  /** The offset of the first candidate, in argument order, that occurs in
      `t`, -1 if none does. */
  function FirstFoundIndex(t: Bytes, subs: seq<Bytes>): (r: int)
    ensures r >= -1
    ensures r == -1 <==> forall k :: 0 <= k < |subs| ==> Index(t, subs[k]) == -1
    ensures r >= 0 ==> exists k :: 0 <= k < |subs| && Index(t, subs[k]) == r &&
                                   forall j :: 0 <= j < k ==> Index(t, subs[j]) == -1
  {
    var xs := Offsets(t, subs);
    var r := FirstFound(xs);
    assert r >= 0 ==> exists k :: 0 <= k < |subs| && Index(t, subs[k]) == r &&
                                  forall j :: 0 <= j < k ==> Index(t, subs[j]) == -1 by {
      if r >= 0 {
        var k :| 0 <= k < |xs| && xs[k] == r && forall j :: 0 <= j < k ==> xs[j] <= -1;
        assert Index(t, subs[k]) == r;
      }
    }
    r
  }

  /** The largest offset at which one of `subs` last occurs in `t`, -1 if
      none does. */
  function MaxLastIndex(t: Bytes, subs: seq<Bytes>): (r: int)
    ensures r >= -1
    ensures r == -1 <==> forall k :: 0 <= k < |subs| ==> LastIndex(t, subs[k]) == -1
    ensures r >= 0 ==> exists k :: 0 <= k < |subs| && LastIndex(t, subs[k]) == r
    ensures forall k :: 0 <= k < |subs| ==> LastIndex(t, subs[k]) <= r
  {
    MaxFound(LastOffsets(t, subs))
  }

  /** No Go string is longer than MaxInt bytes, so no offset reaches the
      MaxInt sentinel of IndexAnyOf. */
  lemma IndexBelowMaxInt(t: Bytes, sub: Bytes)
    requires |t| <= MaxInt
    ensures Index(t, sub) < MaxInt
  {
  }

  // ---------------------------------------------------------------------
  // The boxed string

  datatype String = String(value: Ptr<Bytes>) {

    predicate HasValue() {
      value.Addr?
    }

    /** The String() method: the held text. */
    function Text(): (r: Bytes)
      requires HasValue()
      ensures this == String(Addr(r))
    {
      value.target
    }

    /** Len: the length of the held text in bytes. */
    function Len(): (n: nat)
      requires HasValue()
      ensures n == |Text()|
    {
      |value.target|
    }

    /** Compare: the byte-wise three-way comparison with `b`. */
    function Compare(b: Bytes): (r: int)
      requires HasValue()
      ensures r == 0 <==> Text() == b
      ensures r == -1 <==> Less(Text(), b)
      ensures r == 1 <==> Less(b, Text())
    {
      StdStrings.Compare(value.target, b)
    }

    /** Compares: the three-way comparison of two held texts. */
    function Compares(b: String): (r: int)
      requires HasValue() && b.HasValue()
      ensures r == 0 <==> Text() == b.Text()
      ensures r == -1 <==> Less(Text(), b.Text())
      ensures r == 1 <==> Less(b.Text(), Text())
    {
      StdStrings.Compare(value.target, b.value.target)
    }

    /** Contains: whether `substr` occurs somewhere in the text. */
    function Contains(substr: Bytes): (b: bool)
      requires HasValue()
      ensures b == StdStrings.Contains(Text(), substr)
      ensures b <==> exists i :: OccursAt(Text(), substr, i)
    {
      StdStrings.Contains(value.target, substr)
    }

    /** HasPrefix: whether the text starts with `prefix`. */
    predicate HasPrefix(prefix: Bytes): (b: bool)
      requires HasValue()
      ensures b <==> OccursAt(Text(), prefix, 0)
      ensures b ==> Text() == prefix + Text()[|prefix|..]
    {
      StdStrings.HasPrefix(value.target, prefix)
    }

    /** HasSuffix: whether the text ends with `suffix`. */
    predicate HasSuffix(suffix: Bytes): (b: bool)
      requires HasValue()
      ensures b <==> OccursAt(Text(), suffix, |Text()| - |suffix|)
      ensures b ==> Text() == Text()[..|Text()| - |suffix|] + suffix
    {
      StdStrings.HasSuffix(value.target, suffix)
    }

    /** Index: the first offset of `substr` in the text, or -1. */
    function Index(substr: Bytes): (r: int)
      requires HasValue()
      ensures r == StdStrings.Index(Text(), substr)
      ensures r >= 0 ==> OccursAt(Text(), substr, r) && forall j :: 0 <= j < r ==> !OccursAt(Text(), substr, j)
      ensures r == -1 <==> forall j :: !OccursAt(Text(), substr, j)
    {
      IndexFirst(value.target, substr);
      StdStrings.Index(value.target, substr)
    }

    /** LastIndex: the last offset of `substr` in the text, or -1. */
    function LastIndex(substr: Bytes): (r: int)
      requires HasValue()
      ensures r == StdStrings.LastIndex(Text(), substr)
      ensures r >= 0 ==> OccursAt(Text(), substr, r) && forall j :: r < j ==> !OccursAt(Text(), substr, j)
      ensures r == -1 <==> forall j :: !OccursAt(Text(), substr, j)
    {
      LastIndexLast(value.target, substr);
      StdStrings.LastIndex(value.target, substr)
    }

    /** IncludesAny: whether some candidate occurs in the text; false when
        there is no candidate, which needs no text. */
    method IncludesAny(substrs: seq<Bytes>) returns (b: bool)
      requires HasValue() || substrs == []
      ensures substrs == [] ==> !b
      ensures HasValue() ==> (b <==> exists k :: 0 <= k < |substrs| && StdStrings.Contains(Text(), substrs[k]))
    {
      for i := 0 to |substrs|
        invariant HasValue() ==> forall k :: 0 <= k < i ==> !StdStrings.Contains(Text(), substrs[k])
      {
        if Contains(substrs[i]) {
          return true;
        }
      }
      return false;
    }

    /** ContainsAnyOf: the same answer as IncludesAny. */
    method ContainsAnyOf(substrs: seq<Bytes>) returns (b: bool)
      requires HasValue() || substrs == []
      ensures substrs == [] ==> !b
      ensures HasValue() ==> (b <==> exists k :: 0 <= k < |substrs| && StdStrings.Contains(Text(), substrs[k]))
    {
      b := IncludesAny(substrs);
    }

    /** IndexAnyOf: a running minimum that starts at the MaxInt sentinel;
        the result is the smallest offset of any candidate, or -1, which is
        also the answer, needing no text, when there is no candidate. */
    method IndexAnyOf(substrs: seq<Bytes>) returns (r: int)
      requires HasValue() || substrs == []
      requires HasValue() ==> |Text()| <= MaxInt
      ensures substrs == [] ==> r == -1
      ensures HasValue() ==> r == MinIndex(Text(), substrs)
    {
      ghost var t := if HasValue() then Text() else [];
      ghost var xs := Offsets(t, substrs);
      forall k | 0 <= k < |xs| ensures xs[k] < MaxInt {
        IndexBelowMaxInt(t, substrs[k]);
      }
      var index := MaxInt;
      for i := 0 to |substrs|
        invariant MinFound(xs[..i]) < MaxInt
        invariant index == if MinFound(xs[..i]) == -1 then MaxInt else MinFound(xs[..i])
      {
        var ix := Index(substrs[i]);
        assert ix == xs[i];
        MinFoundStep(xs, i);
        MinFoundBelow(xs[..i + 1], MaxInt);
        if ix > -1 && ix < index {
          index := ix;
        }
      }
      assert xs[..|substrs|] == xs;
      if index < MaxInt {
        return index;
      }
      return -1;
    }

    /** LastIndexAnyOf as written: it returns at the first candidate, in
        argument order, whose Index is above -1, and that candidate's Index;
        it computes neither a last occurrence nor a minimum, and gives -1
        without needing a text when there is no candidate. */
    method LastIndexAnyOf(substrs: seq<Bytes>) returns (r: int)
      requires HasValue() || substrs == []
      ensures substrs == [] ==> r == -1
      ensures HasValue() ==> r == FirstFoundIndex(Text(), substrs)
    {
      ghost var t := if HasValue() then Text() else [];
      ghost var xs := Offsets(t, substrs);
      var index := -1;
      for i := 0 to |substrs|
        invariant FirstFound(xs[i..]) == FirstFound(xs)
      {
        assert xs[i..][0] == xs[i] == Index(substrs[i]);
        assert xs[i..][1..] == xs[i + 1..];
        if Index(substrs[i]) > index {
          return Index(substrs[i]);
        }
      }
      assert xs[|substrs|..] == [];
      return index;
    }

    /** What LastIndexAnyOf evidently means: the largest LastIndex over the
        candidates, or -1, which needs no text when there is no candidate. */
    method LastIndexAnyOfIntended(substrs: seq<Bytes>) returns (r: int)
      requires HasValue() || substrs == []
      ensures substrs == [] ==> r == -1
      ensures HasValue() ==> r == MaxLastIndex(Text(), substrs)
    {
      ghost var t := if HasValue() then Text() else [];
      ghost var xs := LastOffsets(t, substrs);
      var index := -1;
      for i := 0 to |substrs|
        invariant index == MaxFound(xs[..i])
      {
        var ix := LastIndex(substrs[i]);
        assert ix == xs[i];
        MaxFoundStep(xs, i);
        if ix > index {
          index := ix;
        }
      }
      assert xs[..|substrs|] == xs;
      return index;
    }

    /** Count: the separator defaults to "" when none is given. */
    function Count(substr: seq<Bytes>, runes: seq<Bytes>): (n: nat)
      requires HasValue() && IsRuneSplit(runes, Text())
      ensures substr == [] ==> n == StdStrings.Count(Text(), [], runes)
      ensures substr != [] ==> n == StdStrings.Count(Text(), substr[0], runes)
    {
      var sub := if |substr| > 0 then substr[0] else [];
      StdStrings.Count(value.target, sub, runes)
    }

    /** Cut: the boxed text before and after the first occurrence of `sep`. */
    function Cut(sep: Bytes): (r: (String, String, bool))
      requires HasValue()
      ensures r.0.HasValue() && r.1.HasValue()
      ensures r.2 <==> StdStrings.Contains(Text(), sep)
      ensures r.2 ==> r.0.Text() + sep + r.1.Text() == Text() &&
                      |r.0.Text()| == StdStrings.Index(Text(), sep)
      ensures !r.2 ==> r.0.Text() == Text() && r.1.Text() == []
    {
      var c := StdStrings.Cut(value.target, sep);
      (NewString(Raw(c.before)), NewString(Raw(c.after)), c.found)
    }

    /** Cuts: Cut packed into three boxes, the flag rendered as text. */
    function Cuts(sep: Bytes): (r: seq<String>)
      requires HasValue()
      ensures |r| == 3
      ensures r[0] == Cut(sep).0 && r[1] == Cut(sep).1
      ensures r[2].HasValue()
      ensures r[2].Text() == TrueText <==> Cut(sep).2
      ensures r[2].Text() == FalseText <==> !Cut(sep).2
    {
      var c := StdStrings.Cut(value.target, sep);
      [NewString(Raw(c.before)), NewString(Raw(c.after)),
       NewString(Boxed(NewString(Raw(SprintBool(c.found)))))]
    }

    /** CutPrefix: the boxed text after `prefix`, and whether it was there. */
    function CutPrefix(prefix: Bytes): (r: (String, bool))
      requires HasValue()
      ensures r.0.HasValue()
      ensures r.1 <==> StdStrings.HasPrefix(Text(), prefix)
      ensures r.1 ==> prefix + r.0.Text() == Text()
      ensures !r.1 ==> r.0.Text() == Text()
    {
      var c := StdStrings.CutPrefix(value.target, prefix);
      (NewString(Raw(c.0)), c.1)
    }

    /** CutsPrefix: CutPrefix without the flag. */
    function CutsPrefix(prefix: Bytes): (r: String)
      requires HasValue()
      ensures r == CutPrefix(prefix).0
    {
      var c := StdStrings.CutPrefix(value.target, prefix);
      NewString(Raw(c.0))
    }

    /** CutSuffix: the boxed text before `suffix`, and whether it was there. */
    function CutSuffix(suffix: Bytes): (r: (String, bool))
      requires HasValue()
      ensures r.0.HasValue()
      ensures r.1 <==> StdStrings.HasSuffix(Text(), suffix)
      ensures r.1 ==> r.0.Text() + suffix == Text()
      ensures !r.1 ==> r.0.Text() == Text()
    {
      var c := StdStrings.CutSuffix(value.target, suffix);
      (NewString(Raw(c.0)), c.1)
    }

    /** CutsSuffix: CutSuffix without the flag. */
    function CutsSuffix(suffix: Bytes): (r: String)
      requires HasValue()
      ensures r == CutSuffix(suffix).0
    {
      var c := StdStrings.CutSuffix(value.target, suffix);
      NewString(Raw(c.0))
    }

    /** Replace: the count defaults to 1, so without one only the first
        occurrence is replaced. */
    function Replace(oldText: Bytes, nw: Bytes, count: seq<int>, runes: seq<Bytes>): (r: String)
      requires HasValue() && IsRuneSplit(runes, Text())
      ensures r.HasValue()
      ensures count != [] ==> r.Text() == StdStrings.Replace(Text(), oldText, nw, count[0], runes)
      ensures count == [] ==> r.Text() == StdStrings.Replace(Text(), oldText, nw, 1, runes)
      ensures count == [] ==>
                var i := StdStrings.Index(Text(), oldText);
                r.Text() == if i < 0 then Text() else Text()[..i] + nw + Text()[i + |oldText|..]
    {
      var n := if |count| > 0 then count[0] else 1;
      StdStringsLaws.ReplaceOnce(value.target, oldText, nw, runes);
      NewString(Raw(StdStrings.Replace(value.target, oldText, nw, n, runes)))
    }

    /** ReplaceAll: the pattern and the replacement each default to "", so
        without arguments the text comes back unchanged. */
    function ReplaceAll(oldnew: seq<Bytes>, runes: seq<Bytes>): (r: String)
      requires HasValue() && IsRuneSplit(runes, Text())
      ensures r.HasValue()
      ensures oldnew == [] ==> r.Text() == StdStrings.ReplaceAll(Text(), [], [], runes) == Text()
      ensures |oldnew| == 1 ==> r.Text() == StdStrings.ReplaceAll(Text(), oldnew[0], [], runes)
      ensures |oldnew| >= 2 ==> r.Text() == StdStrings.ReplaceAll(Text(), oldnew[0], oldnew[1], runes)
    {
      var oldText := if |oldnew| > 0 then oldnew[0] else [];
      var nw := if |oldnew| > 1 then oldnew[1] else [];
      NewString(Raw(StdStrings.ReplaceAll(value.target, oldText, nw, runes)))
    }

    /** Split: the separator defaults to ""; joining the pieces with the
        separator gives back the text. */
    method Split(seps: seq<Bytes>, runes: seq<Bytes>) returns (r: Strings)
      requires HasValue() && IsRuneSplit(runes, Text())
      ensures seps == [] ==> r == Boxes(StdStrings.Split(Text(), [], runes))
      ensures seps != [] ==> r == Boxes(StdStrings.Split(Text(), seps[0], runes))
      ensures r.AllHaveValues() && StdStrings.Join(r.Texts(), if seps == [] then [] else seps[0]) == Text()
    {
      var sep := if |seps| > 0 then seps[0] else [];
      r := NewStrings(StdStrings.Split(value.target, sep, runes));
      TextsOfBoxes(StdStrings.Split(value.target, sep, runes));
      StdStringsLaws.JoinSplit(value.target, sep, runes);
    }

    /** SplitAfter: the pieces keep their separator and concatenate to the
        text. */
    method SplitAfter(sep: Bytes, runes: seq<Bytes>) returns (r: Strings)
      requires HasValue() && IsRuneSplit(runes, Text())
      ensures r == Boxes(StdStrings.SplitAfter(Text(), sep, runes))
      ensures r.AllHaveValues() && Concat(r.Texts()) == Text()
    {
      r := NewStrings(StdStrings.SplitAfter(value.target, sep, runes));
      TextsOfBoxes(StdStrings.SplitAfter(value.target, sep, runes));
      StdStringsLaws.ConcatSplitAfter(value.target, sep, runes);
    }

    /** SplitAfterN: without a limit, SplitAfter; with any limit but 0 the
        pieces concatenate to the text. */
    method SplitAfterN(sep: Bytes, n: seq<int>, runes: seq<Bytes>) returns (r: Strings)
      requires HasValue() && IsRuneSplit(runes, Text())
      ensures n == [] ==> r == Boxes(StdStrings.SplitAfter(Text(), sep, runes))
      ensures n != [] ==> r == Boxes(StdStrings.SplitAfterN(Text(), sep, n[0], runes))
      ensures r.AllHaveValues()
      ensures n == [] || n[0] != 0 ==> Concat(r.Texts()) == Text()
    {
      if |n| > 0 {
        r := NewStrings(StdStrings.SplitAfterN(value.target, sep, n[0], runes));
        TextsOfBoxes(StdStrings.SplitAfterN(value.target, sep, n[0], runes));
        if n[0] != 0 {
          StdStringsLaws.ConcatSplitAfterN(value.target, sep, n[0], runes);
        }
      } else {
        r := NewStrings(StdStrings.SplitAfter(value.target, sep, runes));
        TextsOfBoxes(StdStrings.SplitAfter(value.target, sep, runes));
        StdStringsLaws.ConcatSplitAfter(value.target, sep, runes);
      }
    }

    /** SplitN: without a limit, Split; with any limit but 0 joining the
        pieces with the separator gives back the text. */
    method SplitN(sep: Bytes, n: seq<int>, runes: seq<Bytes>) returns (r: Strings)
      requires HasValue() && IsRuneSplit(runes, Text())
      ensures n == [] ==> r == Boxes(StdStrings.Split(Text(), sep, runes))
      ensures n != [] ==> r == Boxes(StdStrings.SplitN(Text(), sep, n[0], runes))
      ensures r.AllHaveValues()
      ensures n == [] || n[0] != 0 ==> StdStrings.Join(r.Texts(), sep) == Text()
    {
      if |n| > 0 {
        r := NewStrings(StdStrings.SplitN(value.target, sep, n[0], runes));
        TextsOfBoxes(StdStrings.SplitN(value.target, sep, n[0], runes));
        if n[0] != 0 {
          StdStringsLaws.JoinSplitN(value.target, sep, n[0], runes);
        }
      } else {
        r := NewStrings(StdStrings.Split(value.target, sep, runes));
        TextsOfBoxes(StdStrings.Split(value.target, sep, runes));
        StdStringsLaws.JoinSplit(value.target, sep, runes);
      }
    }
  }

  // ---------------------------------------------------------------------
  // The boxed sequence

  datatype Strings = Strings(value: seq<String>) {

    predicate AllHaveValues() {
      forall i :: 0 <= i < |value| ==> value[i].HasValue()
    }

    /** The raw texts, as OldStrings returns them. */
    function Texts(): (ss: seq<Bytes>)
      requires AllHaveValues()
      ensures |ss| == |value|
      ensures forall i :: 0 <= i < |ss| ==> ss[i] == value[i].Text()
    {
      seq(|value|, i requires 0 <= i < |value| => value[i].Text())
    }

    /** Join: the held texts with `sep` between neighbours, boxed. */
    method Join(sep: Bytes) returns (r: String)
      requires AllHaveValues()
      ensures r.HasValue() && r.Text() == StdStrings.Join(Texts(), sep)
    {
      var ss := OldStrings(this);
      r := NewString(Raw(StdStrings.Join(ss, sep)));
    }
  }

  /** NewStrings: allocates a slice of the same length and fills it, index
      by index, with NewString of each text. */
  method NewStrings(ss: seq<Bytes>) returns (strs: Strings)
    ensures strs == Boxes(ss)
  {
    var a := new String[|ss|];
    for i := 0 to |ss|
      invariant forall k :: 0 <= k < i ==> a[k] == NewString(Raw(ss[k]))
    {
      a[i] := NewString(Raw(ss[i]));
    }
    strs := Strings(a[..]);
    assert strs.value == Boxes(ss).value;
  }

  /** OldStrings: allocates a slice of the same length and fills it, index
      by index, with the text each box points to. */
  method OldStrings(strs: Strings) returns (ss: seq<Bytes>)
    requires strs.AllHaveValues()
    ensures ss == strs.Texts()
  {
    var a := new Bytes[|strs.value|];
    for i := 0 to |strs.value|
      invariant forall k :: 0 <= k < i ==> a[k] == strs.value[k].Text()
    {
      a[i] := strs.value[i].value.target;
    }
    ss := a[..];
  }
}
