/**
 * Properties of the lookup as a whole: it ignores the case of the hostname, and what it
 * answers for a fully qualified name (one with a trailing '.').
 */
module Properties {
  import opened Wrappers
  import opened Ascii
  import opened Tables
  import opened Matcher
  import opened Walker

  /** Two strings that fold to the same codes have their '.'s in the same places. */
  lemma AtFold(h1: seq<char>, h2: seq<char>, i: nat)
    requires Fold(h1) == Fold(h2) && i <= |h1|
    ensures (At(h1, i) == '.') == (At(h2, i) == '.')
  {
    if i < |h1| {
      assert ToLower(h1[i]) as int == Fold(h1)[i] == Fold(h2)[i] == ToLower(h2[i]) as int;
      ToLowerKeepsDot(h1[i]);
      ToLowerKeepsDot(h2[i]);
    }
  }

  /**
   * What the walk reads of a hostname: where its '.'s are and the folded text of each
   * stretch. Two strings that fold to the same codes agree on both.
   */
  ghost predicate SameReading(h1: seq<char>, h2: seq<char>)
  {
    && |h1| == |h2|
    && (forall i: nat :: i <= |h1| ==> (At(h1, i) == '.') == (At(h2, i) == '.'))
    && (forall start: nat, len: int :: (len >= 0 ==> start + len <= |h1|) ==> Key(h1, start, len) == Key(h2, start, len))
  }

  /** Folding a slice is slicing the folded string. */
  lemma FoldSlice(h: seq<char>, a: nat, b: nat)
    requires a <= b <= |h|
    ensures Fold(h[a..b]) == Fold(h)[a..b]
  {
    assert forall i :: 0 <= i < b - a ==> Fold(h[a..b])[i] == Fold(h)[a..b][i];
  }

  /** The folded text of a stretch depends only on the folded string. */
  lemma KeyFold(h1: seq<char>, h2: seq<char>, start: nat, len: int)
    requires Fold(h1) == Fold(h2)
    requires len >= 0 ==> start + len <= |h1|
    ensures Key(h1, start, len) == Key(h2, start, len)
  {
    KeyIsFold(h1, start, len);
    KeyIsFold(h2, start, len);
    if len >= 0 {
      FoldSlice(h1, start, start + len);
      FoldSlice(h2, start, start + len);
    }
  }

  /** Two strings that fold to the same codes read the same to the walk. */
  lemma FoldReading(h1: seq<char>, h2: seq<char>)
    requires Fold(h1) == Fold(h2)
    ensures SameReading(h1, h2)
  {
    forall i: nat | i <= |h1| ensures (At(h1, i) == '.') == (At(h2, i) == '.') {
      AtFold(h1, h2, i);
    }
    forall start: nat, len: int | len >= 0 ==> start + len <= |h1|
      ensures Key(h1, start, len) == Key(h2, start, len)
    {
      KeyFold(h1, h2, start, len);
    }
  }

  /** Label boundaries depend only on where the '.'s are. */
  lemma {:induction false} LabelStartSame(h1: seq<char>, h2: seq<char>, p: nat)
    requires SameReading(h1, h2) && p <= |h1|
    ensures LabelStart(h1, p) == LabelStart(h2, p)
    decreases p
  {
    assert (At(h1, p) == '.') == (At(h2, p) == '.');
    if p > 0 && At(h1, p) != '.' {
      LabelStartSame(h1, h2, p - 1);
    }
  }

  /** One step of the walk takes the same label and the same child for both strings. */
  lemma StepSame(t: Psl, h1: seq<char>, h2: seq<char>, node: nat, p: nat, end: nat, count: nat)
    returns (s: nat, next: int)
    requires SameReading(h1, h2)
    requires Walkable(h1) && Walkable(h2) && p <= |h1| && end <= |h1|
    requires SubtreeOk(t, node)
    ensures s <= p + 1 && next >= -1
    ensures next == -1 ==> WalkLabels(t, h1, node, p, end, count) == WalkLabels(t, h2, node, p, end, count)
    ensures next != -1 && s == 0 ==> WalkLabels(t, h1, node, p, end, count) == WalkLabels(t, h2, node, p, end, count)
    ensures next != -1 && s != 0 ==>
      && 2 <= s <= |h1| && h1[s - 1] == '.' && h2[s - 1] == '.' && SubtreeOk(t, next)
      && WalkLabels(t, h1, node, p, end, count) == WalkOn(t, h1, next, s, count + 1)
      && WalkLabels(t, h2, node, p, end, count) == WalkOn(t, h2, next, s, count + 1)
  {
    s := LabelStart(h1, p);
    LabelStartSame(h1, h2, p);
    assert Key(h1, s, end - s) == Key(h2, s, end - s);
    next := Match(t, node, Key(h1, s, end - s), end - s);
    WalkStep(t, h1, node, p, end, count, s, next);
    WalkStep(t, h2, node, p, end, count, s, next);
  }

  /** The walk down the tree depends only on what it reads of the hostname. */
  lemma {:induction false} WalkLabelsSame(t: Psl, h1: seq<char>, h2: seq<char>, node: nat, p: nat, end: nat, count: nat)
    requires SameReading(h1, h2)
    requires Walkable(h1) && Walkable(h2) && p <= |h1| && end <= |h1|
    requires SubtreeOk(t, node)
    ensures WalkLabels(t, h1, node, p, end, count) == WalkLabels(t, h2, node, p, end, count)
    decreases p, 0
  {
    var s, next := StepSame(t, h1, h2, node, p, end, count);
    if next != -1 && s != 0 {
      WalkOnSame(t, h1, h2, next, s, count + 1);
    }
  }

  /** The rest of the walk, after a matched label, depends only on what it reads. */
  lemma {:induction false} WalkOnSame(t: Psl, h1: seq<char>, h2: seq<char>, node: nat, s: nat, count: nat)
    requires SameReading(h1, h2)
    requires Walkable(h1) && Walkable(h2) && 2 <= s <= |h1| && h1[s - 1] == '.' && h2[s - 1] == '.'
    requires SubtreeOk(t, node)
    ensures WalkOn(t, h1, node, s, count) == WalkOn(t, h2, node, s, count)
    decreases s - 2, 1
  {
    WalkLabelsSame(t, h1, h2, node, s - 2, s - 1, count);
  }

  /** The answer depends only on the folded hostname. */
  lemma PublicSuffixFold(t: Psl, s1: seq<char>, s2: seq<char>)
    requires TreeOk(t)
    requires Fold(CString(s1)) == Fold(CString(s2))
    ensures PublicSuffix(t, Some(s1)) == PublicSuffix(t, Some(s2))
  {
    var h1, h2 := CString(s1), CString(s2);
    FoldReading(h1, h2);
    PublicSuffixSame(t, s1, s2);
  }

  /** The answer drawn from the same end of the walk is the same for both strings. */
  lemma AnswerSame(h1: seq<char>, h2: seq<char>, w: WalkEnd)
    requires SameReading(h1, h2) && Walkable(h1) && Walkable(h2)
    requires w.Stopped? ==> w.start <= |h1| && (w.start == 0 || (h1[w.start - 1] == '.' && h2[w.start - 1] == '.'))
    requires w.Stopped? && w.labels != 1 ==>
               && w.start < |h1|
               && DotFrom(h1, w.start) && DotFrom(h2, w.start)
    ensures Answer(h1, w) == Answer(h2, w)
  {
    if w.Stopped? && w.labels == 1 && w.start != 0 {
      LabelStartSame(h1, h2, w.start - 2);
    }
  }

  /** The whole walk, and the answer drawn from it, are the same for both strings. */
  lemma WalkAnswerSame(t: Psl, h1: seq<char>, h2: seq<char>, e: nat)
    requires SubtreeOk(t, 0) && SameReading(h1, h2) && Walkable(h1) && Walkable(h2)
    requires e == LastEnd(h1) == LastEnd(h2)
    ensures Answer(h1, WalkLabels(t, h1, 0, e, e, 0)) == Answer(h2, WalkLabels(t, h2, 0, e, e, 0))
  {
    WalkLabelsSame(t, h1, h2, 0, e, e, 0);
    AnswerSame(h1, h2, WalkLabels(t, h1, 0, e, e, 0));
  }

  /** The answer depends only on what the walk reads of the hostname. */
  lemma PublicSuffixSame(t: Psl, s1: seq<char>, s2: seq<char>)
    requires TreeOk(t) && SameReading(CString(s1), CString(s2))
    ensures PublicSuffix(t, Some(s1)) == PublicSuffix(t, Some(s2))
  {
    var h1, h2 := CString(s1), CString(s2);
    assert (At(h1, 0) == '.') == (At(h2, 0) == '.');
    if Walkable(h1) {
      assert (At(h1, |h1| - 1) == '.') == (At(h2, |h2| - 1) == '.');
      WalkAnswerSame(t, h1, h2, LastEnd(h1));
    }
  }

  /** Cutting a string at its first NUL and lower-casing it can be done in either order. */
  lemma {:induction false} CStringLower(s: seq<char>)
    ensures CString(Lower(s)) == Lower(CString(s))
  {
    if |s| > 0 {
      ToLowerKeepsDot(s[0]);
      if s[0] != '\0' {
        assert Lower(s)[1..] == Lower(s[1..]);
        CStringLower(s[1..]);
      }
    }
  }

  /** The lookup ignores the case of the hostname: the answer is the same offset. */
  lemma PublicSuffixLower(t: Psl, s: seq<char>)
    requires TreeOk(t)
    ensures PublicSuffix(t, Some(Lower(s))) == PublicSuffix(t, Some(s))
  {
    CStringLower(s);
    FoldLower(CString(s));
    PublicSuffixFold(t, Lower(s), s);
  }

  /** On a hostname ending in '.', the walk stops at once unless the root has a wildcard child. */
  lemma TrailingDotWalk(t: Psl, h: seq<char>)
    requires SubtreeOk(t, 0) && NoWildcardChild(t, 0)
    requires Walkable(h) && h[|h| - 1] == '.'
    ensures WalkLabels(t, h, 0, |h| - 1, |h| - 1, 0) == Stopped(|h|, 1)
  {
    var e := |h| - 1;
    assert LabelStart(h, e) == |h|;
    NegativeLengthNoMatch(t, 0, Key(h, |h|, -1), -1);
    WalkStep(t, h, 0, e, e, 0, |h|, -1);
  }

  /**
   * A fully qualified hostname (ending in '.') gets its last label, with the trailing '.',
   * whenever the root has no wildcard child: the scan first takes the empty text after the
   * trailing '.' as a label of length -1, which only a wildcard can match.
   */
  lemma TrailingDot(t: Psl, s: seq<char>)
    requires TreeOk(t)
    requires Walkable(CString(s)) && CString(s)[|CString(s)| - 1] == '.'
    requires NoWildcardChild(t, 0)
    ensures |CString(s)| >= 2
    ensures PublicSuffix(t, Some(s)) == Some(LabelStart(CString(s), |CString(s)| - 2))
  {
    TrailingDotWalk(t, CString(s));
  }
}
