/** Laws relating the modelled functions of Go's `strings` package to each
    other: Split and Join are inverse, SplitAfter pieces concatenate back to
    the text, the number of pieces follows Count, a SplitN limit that is
    negative or above the count changes nothing, and Replace with one
    replacement or with all of them. */
module StdStringsLaws {
  import opened StdStrings

  // ---------------------------------------------------------------------
  // Split and Join

  /** Joining a leading piece onto the rest puts one separator between. */
  lemma JoinCons(head: Bytes, tail: seq<Bytes>, sep: Bytes)
    requires |tail| >= 1
    ensures Join([head] + tail, sep) == head + sep + Join(tail, sep)
  {
    assert ([head] + tail)[1..] == tail;
  }

  /** The text is the part before an occurrence, the occurrence and the part
      after it. */
  lemma AroundOccurrence(s: Bytes, sub: Bytes, i: int)
    requires OccursAt(s, sub, i)
    ensures s[..i] + sub + s[i + |sub|..] == s
  {
    assert s == s[..i] + s[i..i + |sub|] + s[i + |sub|..];
  }

  /** SplitAll past the first occurrence at `i`. */
  lemma SplitAllUnfold(s: Bytes, sep: Bytes, save: nat, i: int)
    requires |sep| > 0 && save <= |sep| && i == Index(s, sep) && i >= 0
    ensures SplitAll(s, sep, save) == [s[..i + save]] + SplitAll(s[i + |sep|..], sep, save)
  {
  }

  /** SplitAtMost past the first occurrence at `i`, with a limit above 1. */
  lemma SplitAtMostUnfold(s: Bytes, sep: Bytes, save: nat, n: nat, i: int)
    requires |sep| > 0 && save <= |sep| && n >= 2 && i == Index(s, sep) && i >= 0
    ensures SplitAtMost(s, sep, save, n) == [s[..i + save]] + SplitAtMost(s[i + |sep|..], sep, save, n - 1)
  {
  }

  /** SplitAtMost with a limit of 1, or with no occurrence, is the text. */
  lemma SplitAtMostLast(s: Bytes, sep: Bytes, save: nat, n: nat)
    requires |sep| > 0 && save <= |sep| && n >= 1 && (n == 1 || Index(s, sep) < 0)
    ensures SplitAtMost(s, sep, save, n) == [s]
  {
  }

  /** A non-empty separator gives one more piece than it has non-overlapping
      occurrences. */
  lemma {:induction false} SplitAllLength(s: Bytes, sep: Bytes, save: nat)
    requires |sep| > 0 && save <= |sep|
    ensures |SplitAll(s, sep, save)| == CountNonEmpty(s, sep) + 1
    decreases |s|
  {
    var i := Index(s, sep);
    if i >= 0 {
      var rest := s[i + |sep|..];
      SplitAllLength(rest, sep, save);
      SplitAllUnfold(s, sep, save, i);
      CountNonEmptyUnfold(s, sep, i);
    }
  }

  /** A limit n gives exactly n pieces, or all of them when there are fewer
      occurrences than n. */
  lemma {:induction false} SplitAtMostLength(s: Bytes, sep: Bytes, save: nat, n: nat)
    requires |sep| > 0 && save <= |sep| && n >= 1
    ensures |SplitAtMost(s, sep, save, n)| ==
              if n <= CountNonEmpty(s, sep) then n else CountNonEmpty(s, sep) + 1
    decreases n
  {
    var i := Index(s, sep);
    if n >= 2 && i >= 0 {
      var rest := s[i + |sep|..];
      SplitAtMostLength(rest, sep, save, n - 1);
      SplitAtMostUnfold(s, sep, save, n, i);
      CountNonEmptyUnfold(s, sep, i);
    } else {
      SplitAtMostLast(s, sep, save, n);
    }
  }

  /** ReplaceFirst past the first occurrence at `i`, with a limit above 0. */
  lemma ReplaceFirstUnfold(s: Bytes, oldText: Bytes, newText: Bytes, k: nat, i: int)
    requires |oldText| > 0 && k >= 1 && i == Index(s, oldText) && i >= 0
    ensures ReplaceFirst(s, oldText, newText, k) ==
              s[..i] + newText + ReplaceFirst(s[i + |oldText|..], oldText, newText, k - 1)
  {
  }

  lemma {:induction false} JoinSplitAll(s: Bytes, sep: Bytes)
    requires |sep| > 0
    ensures Join(SplitAll(s, sep, 0), sep) == s
    decreases |s|
  {
    var i := Index(s, sep);
    if i >= 0 {
      var rest := s[i + |sep|..];
      var tail := SplitAll(rest, sep, 0);
      JoinSplitAll(rest, sep);
      SplitAllUnfold(s, sep, 0, i);
      JoinCons(s[..i], tail, sep);
      AroundOccurrence(s, sep, i);
    }
  }

  lemma {:induction false} ConcatSplitAfterAll(s: Bytes, sep: Bytes)
    requires |sep| > 0
    ensures Concat(SplitAll(s, sep, |sep|)) == s
    decreases |s|
  {
    var i := Index(s, sep);
    if i >= 0 {
      var rest := s[i + |sep|..];
      var tail := SplitAll(rest, sep, |sep|);
      ConcatSplitAfterAll(rest, sep);
      SplitAllUnfold(s, sep, |sep|, i);
      assert ([s[..i + |sep|]] + tail)[1..] == tail;
      assert s == s[..i + |sep|] + rest;
    } else {
      assert [s][1..] == [];
    }
  }

  /** A limit above the number of occurrences yields every piece. */
  lemma {:induction false} SplitAtMostAll(s: Bytes, sep: Bytes, save: nat, n: nat)
    requires |sep| > 0 && save <= |sep| && n > CountNonEmpty(s, sep)
    ensures SplitAtMost(s, sep, save, n) == SplitAll(s, sep, save)
    decreases |s|
  {
    var i := Index(s, sep);
    if i >= 0 {
      var rest := s[i + |sep|..];
      CountNonEmptyUnfold(s, sep, i);
      SplitAtMostAll(rest, sep, save, n - 1);
      SplitAtMostUnfold(s, sep, save, n, i);
      SplitAllUnfold(s, sep, save, i);
    }
  }

  /** Joining the pieces of Split with the same separator gives back the
      text, for every separator (the empty one splits into code points). */
  lemma JoinSplit(s: Bytes, sep: Bytes, runes: seq<Bytes>)
    requires IsRuneSplit(runes, s)
    ensures Join(Split(s, sep, runes), sep) == s
  {
    if sep == [] {
      ExplodeAll(runes);
      JoinNoSeparator(runes);
    } else {
      JoinSplitAll(s, sep);
    }
  }

  /** The pieces of SplitAfter, each keeping its separator, concatenate to
      the text. */
  lemma ConcatSplitAfter(s: Bytes, sep: Bytes, runes: seq<Bytes>)
    requires IsRuneSplit(runes, s)
    ensures Concat(SplitAfter(s, sep, runes)) == s
  {
    if sep == [] {
      ExplodeAll(runes);
    } else {
      ConcatSplitAfterAll(s, sep);
    }
  }

  /** Split yields Count + 1 pieces for a non-empty separator and one piece
      per code point, Count - 1, for the empty one. */
  lemma SplitLength(s: Bytes, sep: Bytes, runes: seq<Bytes>)
    requires IsRuneSplit(runes, s)
    ensures |Split(s, sep, runes)| == if sep == [] then Count(s, sep, runes) - 1 else Count(s, sep, runes) + 1
    ensures |SplitAfter(s, sep, runes)| == |Split(s, sep, runes)|
  {
    if sep == [] {
      ExplodeAll(runes);
    } else {
      SplitAllLength(s, sep, 0);
      SplitAllLength(s, sep, |sep|);
    }
  }

  /** SplitN and SplitAfterN: no pieces for n == 0, at most n for n > 0, and
      the same as Split and SplitAfter when n < 0 or n exceeds Count. */
  lemma SplitNLimit(s: Bytes, sep: Bytes, n: int, runes: seq<Bytes>)
    requires IsRuneSplit(runes, s)
    ensures n == 0 ==> SplitN(s, sep, n, runes) == [] && SplitAfterN(s, sep, n, runes) == []
    ensures n > 0 ==> |SplitN(s, sep, n, runes)| <= n && |SplitAfterN(s, sep, n, runes)| <= n
    ensures n < 0 || n > Count(s, sep, runes) ==>
              SplitN(s, sep, n, runes) == Split(s, sep, runes) &&
              SplitAfterN(s, sep, n, runes) == SplitAfter(s, sep, runes)
  {
    if sep != [] && n > Count(s, sep, runes) {
      SplitAtMostAll(s, sep, 0, n);
      SplitAtMostAll(s, sep, |sep|, n);
    }
  }

  /** Empty pieces are kept: "a,,b" split at "," is "a", "", "b". */
  lemma SplitExample()
    ensures Split([0x61, 0x2C, 0x2C, 0x62], [0x2C], [[0x61], [0x2C], [0x2C], [0x62]])
         == [[0x61], [], [0x62]]
  {
    var s: Bytes := [0x61, 0x2C, 0x2C, 0x62];
    var comma: Bytes := [0x2C];
    assert !OccursAt(s, comma, 0) by { assert s[0..1] == [0x61]; }
    assert OccursAt(s, comma, 1) by { assert s[1..2] == comma; }
    assert Index(s, comma) == 1;
    var s1 := s[2..];
    assert OccursAt(s1, comma, 0);
    assert Index(s1, comma) == 0;
    var s2 := s1[1..];
    assert s2 == [0x62];
    assert !OccursAt(s2, comma, 0);
    assert Index(s2, comma) == -1;
    assert SplitAll(s2, comma, 0) == [s2];
    assert SplitAll(s1, comma, 0) == [s1[..0]] + [s2];
    assert s1[..0] == [];
    assert SplitAll(s, comma, 0) == [s[..1]] + SplitAll(s1, comma, 0);
    assert s[..1] == [0x61];
  }

  /** With a limit, the pieces between occurrences, the last one the unsplit
      rest, still join back to the text. */
  lemma {:induction false} JoinSplitAtMost(s: Bytes, sep: Bytes, n: nat)
    requires |sep| > 0 && n >= 1
    ensures Join(SplitAtMost(s, sep, 0, n), sep) == s
    decreases n
  {
    var i := Index(s, sep);
    if n >= 2 && i >= 0 {
      var rest := s[i + |sep|..];
      var tail := SplitAtMost(rest, sep, 0, n - 1);
      JoinSplitAtMost(rest, sep, n - 1);
      SplitAtMostUnfold(s, sep, 0, n, i);
      assert A: SplitAtMost(s, sep, 0, n) == [s[..i]] + tail;
      JoinCons(s[..i], tail, sep);
      assert B: Join([s[..i]] + tail, sep) == s[..i] + sep + rest;
      AroundOccurrence(s, sep, i);
      assert C: s[..i] + sep + rest == s;
    } else {
      SplitAtMostLast(s, sep, 0, n);
    }
  }

  /** With a limit, the pieces that keep their separator concatenate to the
      text. */
  lemma {:induction false} ConcatSplitAtMost(s: Bytes, sep: Bytes, n: nat)
    requires |sep| > 0 && n >= 1
    ensures Concat(SplitAtMost(s, sep, |sep|, n)) == s
    decreases n
  {
    var i := Index(s, sep);
    if n >= 2 && i >= 0 {
      var rest := s[i + |sep|..];
      var tail := SplitAtMost(rest, sep, |sep|, n - 1);
      ConcatSplitAtMost(rest, sep, n - 1);
      SplitAtMostUnfold(s, sep, |sep|, n, i);
      assert ([s[..i + |sep|]] + tail)[1..] == tail;
      assert s == s[..i + |sep|] + rest;
    } else {
      assert [s][1..] == [];
    }
  }

  /** SplitN with any non-zero limit joins back to the text. */
  lemma JoinSplitN(s: Bytes, sep: Bytes, n: int, runes: seq<Bytes>)
    requires IsRuneSplit(runes, s) && n != 0
    ensures Join(SplitN(s, sep, n, runes), sep) == s
  {
    if sep == [] {
      JoinNoSeparator(Explode(runes, n));
    } else if n < 0 {
      JoinSplitAll(s, sep);
    } else {
      JoinSplitAtMost(s, sep, n);
    }
  }

  /** The pieces of SplitAfterN with any non-zero limit concatenate to the
      text. */
  lemma ConcatSplitAfterN(s: Bytes, sep: Bytes, n: int, runes: seq<Bytes>)
    requires IsRuneSplit(runes, s) && n != 0
    ensures Concat(SplitAfterN(s, sep, n, runes)) == s
  {
    if sep != [] && n < 0 {
      ConcatSplitAfterAll(s, sep);
    } else if sep != [] {
      ConcatSplitAtMost(s, sep, n);
    }
  }

  /** A positive limit n gives exactly n pieces, or all of them when Split
      has fewer. */
  lemma SplitNLength(s: Bytes, sep: Bytes, n: int, runes: seq<Bytes>)
    requires IsRuneSplit(runes, s) && n > 0
    ensures |SplitN(s, sep, n, runes)| == if n <= |Split(s, sep, runes)| then n else |Split(s, sep, runes)|
    ensures |SplitAfterN(s, sep, n, runes)| == if n <= |SplitAfter(s, sep, runes)| then n else |SplitAfter(s, sep, runes)|
  {
    if sep != [] {
      SplitAllLength(s, sep, 0);
      SplitAllLength(s, sep, |sep|);
      SplitAtMostLength(s, sep, 0, n);
      SplitAtMostLength(s, sep, |sep|, n);
    }
  }

  // ---------------------------------------------------------------------
  // Replace

  /** Replacing at least as many occurrences as there are is joining the
      pieces between them with the replacement. */
  lemma {:induction false} ReplaceFirstAll(s: Bytes, oldText: Bytes, newText: Bytes, k: nat)
    requires |oldText| > 0 && k >= CountNonEmpty(s, oldText)
    ensures ReplaceFirst(s, oldText, newText, k) == Join(SplitAll(s, oldText, 0), newText)
    decreases |s|
  {
    var i := Index(s, oldText);
    if i >= 0 {
      var rest := s[i + |oldText|..];
      var tail := SplitAll(rest, oldText, 0);
      CountNonEmptyUnfold(s, oldText, i);
      ReplaceFirstAll(rest, oldText, newText, k - 1);
      ReplaceFirstUnfold(s, oldText, newText, k, i);
      SplitAllUnfold(s, oldText, 0, i);
      JoinCons(s[..i], tail, newText);
    }
  }

  /** ReplaceAll with a non-empty pattern is Join of Split at the pattern. */
  lemma ReplaceAllIsJoinOfSplit(s: Bytes, oldText: Bytes, newText: Bytes, runes: seq<Bytes>)
    requires IsRuneSplit(runes, s) && |oldText| > 0
    ensures ReplaceAll(s, oldText, newText, runes) == Join(Split(s, oldText, runes), newText)
  {
    if oldText == newText {
      JoinSplitAll(s, oldText);
    } else if CountNonEmpty(s, oldText) > 0 {
      ReplaceFirstAll(s, oldText, newText, CountNonEmpty(s, oldText));
    }
  }

  /** One replacement replaces the first occurrence, if any, and nothing
      else; for the empty pattern, whose first occurrence is at offset 0,
      that inserts the replacement in front. */
  lemma ReplaceOnce(s: Bytes, oldText: Bytes, newText: Bytes, runes: seq<Bytes>)
    requires IsRuneSplit(runes, s)
    ensures var i := Index(s, oldText);
            Replace(s, oldText, newText, 1, runes) ==
              if i < 0 then s else s[..i] + newText + s[i + |oldText|..]
  {
    var i := Index(s, oldText);
    if i >= 0 {
      var rest := s[i + |oldText|..];
      AroundOccurrence(s, oldText, i);
      if oldText == newText {
      } else if oldText == [] {
        assert Count(s, oldText, runes) == |runes| + 1;
        assert Replace(s, oldText, newText, 1, runes) == InsertBeforeRunes(runes, newText, 1);
        assert s[..0] == [] && rest == s;
      } else {
        assert CountNonEmpty(s, oldText) >= 1;
        assert Replace(s, oldText, newText, 1, runes) == ReplaceFirst(s, oldText, newText, 1);
        assert ReplaceFirst(rest, oldText, newText, 0) == rest;
      }
    }
  }
}
