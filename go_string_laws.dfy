/** Laws of package String: NewString round trips and normalizes once and
    for all, "nil" stands both for itself and for absence, the boxed
    sequence converts losslessly, omitted arguments take their fixed
    defaults, and how the three candidate searches relate, with the inputs
    on which LastIndexAnyOf returns neither the last nor the smallest
    offset. */
module GoStringLaws {
  import opened StdStrings
  import opened GoString

  // ---------------------------------------------------------------------
  // Normalization

  /** A box built from raw text gives that text back. */
  lemma NewStringRoundTrip(s: Bytes)
    ensures NewString(Raw(s)).HasValue() && NewString(Raw(s)).Text() == s
  {
  }

  /** Normalizing a box NewString built, directly or through a pointer,
      changes nothing. */
  lemma UnwrapStrIdempotent(x: StringLike)
    ensures UnwrapStr(Boxed(NewString(x))) == UnwrapStr(x)
    ensures UnwrapStr(BoxedPtr(Addr(NewString(x)))) == UnwrapStr(x)
    ensures NewString(Boxed(NewString(x))) == NewString(x)
  {
  }

  /** Every absent value reads as "nil", and so does the raw text "nil":
      the normalization cannot tell them apart. */
  lemma NilIsAmbiguous(x: StringLike)
    requires Absent(x)
    ensures UnwrapStr(x) == UnwrapStr(Raw(NilText))
    ensures NewString(x) == NewString(Raw(NilText))
  {
  }

  /** A zero String{} differs from NewString of anything: it holds no
      value, so every method of String excludes it. */
  lemma ZeroStringHasNoValue(x: StringLike)
    ensures !String(Nil).HasValue()
    ensures NewString(x) != String(Nil)
  {
  }

  // ---------------------------------------------------------------------
  // The boxed sequence

  /** Converting texts to boxes and back is the identity. */
  lemma OldStringsOfNewStrings(ss: seq<Bytes>)
    ensures |Boxes(ss).value| == |ss|
    ensures Boxes(ss).AllHaveValues() && Boxes(ss).Texts() == ss
  {
    TextsOfBoxes(ss);
  }

  /** Converting boxes that all hold a value to texts and back is the
      identity as well. */
  lemma {:induction false} NewStringsOfOldStrings(strs: Strings)
    requires strs.AllHaveValues()
    ensures Boxes(strs.Texts()) == strs
  {
    var b := Boxes(strs.Texts());
    assert forall i :: 0 <= i < |strs.value| ==> b.value[i] == strs.value[i] by {
      forall i | 0 <= i < |strs.value| ensures b.value[i] == strs.value[i] {
        assert strs.value[i].value.Addr?;
      }
    }
    assert b.value == strs.value;
  }

  /** The text of Join over the boxes of Split is the original text. */
  lemma JoinOfSplitBoxes(s: Bytes, sep: Bytes, runes: seq<Bytes>)
    requires IsRuneSplit(runes, s)
    ensures Join(Boxes(Split(s, sep, runes)).Texts(), sep) == s
  {
    TextsOfBoxes(Split(s, sep, runes));
    StdStringsLaws.JoinSplit(s, sep, runes);
  }

  // ---------------------------------------------------------------------
  // Default arguments

  /** Count() is Count(""). */
  lemma CountDefault(s: String, runes: seq<Bytes>)
    requires s.HasValue() && IsRuneSplit(runes, s.Text())
    ensures s.Count([], runes) == s.Count([[]], runes) == |runes| + 1
  {
  }

  /** Replace(old, new) is Replace(old, new, 1). */
  lemma ReplaceDefault(s: String, oldText: Bytes, nw: Bytes, runes: seq<Bytes>)
    requires s.HasValue() && IsRuneSplit(runes, s.Text())
    ensures s.Replace(oldText, nw, [], runes) == s.Replace(oldText, nw, [1], runes)
  {
  }

  /** ReplaceAll() is ReplaceAll("", ""), and ReplaceAll(old) is
      ReplaceAll(old, ""). */
  lemma ReplaceAllDefault(s: String, oldText: Bytes, runes: seq<Bytes>)
    requires s.HasValue() && IsRuneSplit(runes, s.Text())
    ensures s.ReplaceAll([], runes) == s.ReplaceAll([[], []], runes)
    ensures s.ReplaceAll([oldText], runes) == s.ReplaceAll([oldText, []], runes)
  {
  }

  /** The three boxes of Cuts reassemble the text when the third reads
      "true", and hold the whole text and "" when it reads "false"; the
      packed variants of CutPrefix and CutSuffix keep their text. */
  lemma CutsReassemble(s: String, sep: Bytes, affix: Bytes)
    requires s.HasValue()
    ensures s.Cuts(sep)[2].Text() == TrueText ==>
              s.Cuts(sep)[0].Text() + sep + s.Cuts(sep)[1].Text() == s.Text()
    ensures s.Cuts(sep)[2].Text() == FalseText ==>
              s.Cuts(sep)[0].Text() == s.Text() && s.Cuts(sep)[1].Text() == []
    ensures HasPrefix(s.Text(), affix) ==> affix + s.CutsPrefix(affix).Text() == s.Text()
    ensures HasSuffix(s.Text(), affix) ==> s.CutsSuffix(affix).Text() + affix == s.Text()
  {
  }

  // ---------------------------------------------------------------------
  // The candidate searches

  /** The first candidate found is found exactly when some candidate is,
      and it is never before the smallest offset. */
  lemma FirstFoundNotBelowMin(t: Bytes, subs: seq<Bytes>)
    ensures FirstFoundIndex(t, subs) == -1 <==> MinIndex(t, subs) == -1
    ensures MinIndex(t, subs) <= FirstFoundIndex(t, subs)
  {
    var r := FirstFoundIndex(t, subs);
    if r >= 0 {
      var k :| 0 <= k < |subs| && Index(t, subs[k]) == r;
    }
  }

  /** "xbcay" searched for "a", "b", "c", found at 3, 1 and 2: IndexAnyOf
      gives 1. */
  lemma MinIndexExample()
    ensures MinIndex([0x78, 0x62, 0x63, 0x61, 0x79], [[0x61], [0x62], [0x63]]) == 1
  {
    var t: Bytes := [0x78, 0x62, 0x63, 0x61, 0x79];
    var subs: seq<Bytes> := [[0x61], [0x62], [0x63]];
    assert !OccursAt(t, [0x62], 0) by { assert t[0..1] == [0x78]; }
    assert OccursAt(t, [0x62], 1) by { assert t[1..2] == [0x62]; }
    assert Index(t, [0x62]) == 1;
    assert OccursAt(t, [0x63], 2) by { assert t[2..3] == [0x63]; }
    assert OccursAt(t, [0x61], 3) by { assert t[3..4] == [0x61]; }
    assert forall k :: 0 <= k < 3 ==> Index(t, subs[k]) >= 1 by {
      assert !OccursAt(t, [0x61], 0) by { assert t[0..1] == [0x78]; }
      assert !OccursAt(t, [0x63], 0) by { assert t[0..1] == [0x78]; }
      assert subs[0] == [0x61] && subs[1] == [0x62] && subs[2] == [0x63];
    }
    assert Index(t, subs[1]) == 1;
  }

  /** On "ab" with candidates "a", "b", LastIndexAnyOf gives 0, the offset
      of "a", though "b" occurs last, at 1. */
  lemma LastIndexAnyOfNotLast()
    ensures FirstFoundIndex([0x61, 0x62], [[0x61], [0x62]]) == 0
    ensures MaxLastIndex([0x61, 0x62], [[0x61], [0x62]]) == 1
  {
    var t: Bytes := [0x61, 0x62];
    var subs: seq<Bytes> := [[0x61], [0x62]];
    assert OccursAt(t, [0x61], 0) by { assert t[0..1] == [0x61]; }
    assert Index(t, subs[0]) == 0;
    assert OccursAt(t, [0x62], 1) by { assert t[1..2] == [0x62]; }
    assert LastIndex(t, subs[1]) == 1;
    assert LastIndex(t, subs[0]) <= 1;
  }

  /** On "ba" with candidates "a", "b", LastIndexAnyOf gives 1, the offset
      of "a", though "b" occurs first, at 0: the result is not the smallest
      offset either. */
  lemma LastIndexAnyOfNotMin()
    ensures FirstFoundIndex([0x62, 0x61], [[0x61], [0x62]]) == 1
    ensures MinIndex([0x62, 0x61], [[0x61], [0x62]]) == 0
  {
    var t: Bytes := [0x62, 0x61];
    var subs: seq<Bytes> := [[0x61], [0x62]];
    assert !OccursAt(t, [0x61], 0) by { assert t[0..1] == [0x62]; }
    assert OccursAt(t, [0x61], 1) by { assert t[1..2] == [0x61]; }
    assert Index(t, subs[0]) == 1;
    assert OccursAt(t, [0x62], 0) by { assert t[0..1] == [0x62]; }
    assert Index(t, subs[1]) == 0;
  }
}
