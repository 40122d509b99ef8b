/**
 * The answer of nspsl_getpublicsuffix (src/nspsl.c:139-210) told label by label.
 *
 * A hostname is split at its '.'s into labels, numbered from the right: label 0 is the
 * rightmost.  The labels are matched one after another down the rule tree, from the root,
 * and the answer depends only on how many of them match before the first one that fails.
 * Everything here is defined from the '.'s of the hostname alone, not from the scan that
 * the C loop runs; the lemmas show that the walk of the Walker module agrees.
 */
module Labels {
  import opened Wrappers
  import opened Tables
  import opened Matcher
  import opened Walker

  /** The positions of the '.'s before position `n` of `h`, the rightmost first. */
  function DotsBefore(h: seq<char>, n: nat): (d: seq<nat>)
    requires n <= |h|
    ensures forall k :: 0 <= k < |d| ==> d[k] < n && h[d[k]] == '.'
    ensures forall k :: 0 < k < |d| ==> d[k] < d[k - 1]
    decreases n
  {
    if n == 0 then []
    else if h[n - 1] == '.' then [n - 1] + DotsBefore(h, n - 1)
    else DotsBefore(h, n - 1)
  }

  /** Every '.' before position `n` is in the list. */
  lemma {:induction false} DotsComplete(h: seq<char>, n: nat, i: nat)
    requires i < n <= |h| && h[i] == '.'
    ensures i in DotsBefore(h, n)
    decreases n
  {
    if i < n - 1 {
      DotsComplete(h, n - 1, i);
    }
  }

  /** Every '.' of `h`, the rightmost first. */
  function Dots(h: seq<char>): seq<nat>
  {
    DotsBefore(h, |h|)
  }

  /** A hostname has one label more than it has '.'s. */
  function LabelCount(h: seq<char>): nat
  {
    |Dots(h)| + 1
  }

  /** Where label `i` begins: just after the '.' to its left, or at 0 for the leftmost label. */
  function LabelBegin(h: seq<char>, i: nat): (b: nat)
    requires i < LabelCount(h)
    ensures b <= |h|
    ensures b > 0 ==> h[b - 1] == '.'
    ensures i > 0 ==> b < |h| && DotFrom(h, b)
  {
    assert i > 0 ==> Dots(h)[i - 1] < |h| && h[Dots(h)[i - 1]] == '.';
    if i < |Dots(h)| then Dots(h)[i] + 1 else 0
  }

  /**
   * Where label `i` ends (exclusive): at the '.' to its right, or, for label 0, at the end
   * of the name less a trailing '.'.  In a fully qualified name label 0 is the nothing after
   * the trailing '.', which begins one place after it ends: its length is -1.
   */
  function LabelEnd(h: seq<char>, i: nat): (e: nat)
    requires |h| > 0 && i < LabelCount(h)
    ensures e <= |h|
  {
    if i == 0 then LastEnd(h) else Dots(h)[i - 1]
  }

  /**
   * The tree node reached by matching labels 0 to i - 1 one after another from the root,
   * each under the node the one before it reached; -1 once one of them matches nothing.
   */
  function Path(t: Psl, h: seq<char>, i: nat): (r: int)
    requires TreeOk(t) && Walkable(h) && i <= LabelCount(h)
    ensures r >= -1
    ensures r != -1 ==> SubtreeOk(t, r)
    decreases i, 0
  {
    if i == 0 then 0
    else if Path(t, h, i - 1) == -1 then -1
    else Child(t, h, i - 1)
  }

  /** The child that label i matches under the node the labels before it reached, or -1. */
  function Child(t: Psl, h: seq<char>, i: nat): (r: int)
    requires TreeOk(t) && Walkable(h) && i < LabelCount(h)
    requires Path(t, h, i) != -1
    ensures r >= -1
    ensures r != -1 ==> SubtreeOk(t, r)
    decreases i, 1
  {
    var node, b, e := Path(t, h, i), LabelBegin(h, i), LabelEnd(h, i);
    MatchSubtree(t, node, Key(h, b, e - b), e - b);
    Match(t, node, Key(h, b, e - b), e - b)
  }

  /** Once a label matches nothing, the path stays at -1: a node on the path has all of its predecessors. */
  lemma {:induction false} PathPrefix(t: Psl, h: seq<char>, i: nat)
    requires TreeOk(t) && Walkable(h) && i <= LabelCount(h)
    requires Path(t, h, i) != -1
    ensures forall j :: 0 <= j <= i ==> Path(t, h, j) != -1
    decreases i
  {
    if i > 0 {
      PathPrefix(t, h, i - 1);
    }
  }

  /**
   * From label `i` on, given that the path reaches a node after labels 0 to i - 1: the
   * number of labels that match one after another from the root before the first one that
   * fails, or all of them.
   */
  function MatchedFrom(t: Psl, h: seq<char>, i: nat): (m: nat)
    requires TreeOk(t) && Walkable(h) && i <= LabelCount(h)
    requires Path(t, h, i) != -1
    ensures i <= m <= LabelCount(h)
    ensures Path(t, h, m) != -1
    ensures m < LabelCount(h) ==> Path(t, h, m + 1) == -1
    decreases LabelCount(h) - i
  {
    if i == LabelCount(h) || Path(t, h, i + 1) == -1 then i
    else MatchedFrom(t, h, i + 1)
  }

  /**
   * How many labels, from the rightmost, match one after another down the tree: every
   * label up to that number matches, and the label with that number, if there is one,
   * matches nothing.
   */
  function Matched(t: Psl, h: seq<char>): (m: nat)
    requires TreeOk(t) && Walkable(h)
    ensures m <= LabelCount(h)
    ensures forall j :: 0 <= j <= m ==> Path(t, h, j) != -1
    ensures m < LabelCount(h) ==> Path(t, h, m + 1) == -1
  {
    var m := MatchedFrom(t, h, 0);
    PathPrefix(t, h, m);
    m
  }

  /** The answer from the labels: what nspsl_getpublicsuffix promises in terms of them. */
  function LabelAnswer(t: Psl, h: seq<char>): (r: Option<nat>)
    requires TreeOk(t) && Walkable(h)
    ensures r.Some? ==> r.value < |h| && (r.value == 0 || h[r.value - 1] == '.') && DotFrom(h, r.value)
  {
    var n, m := LabelCount(h), Matched(t, h);
    if m == n then None                  // the whole name is a public suffix
    else if m > 0 then Some(LabelBegin(h, m)) // the first label that matched nothing
    else if n == 1 then None             // a single label that matched nothing
    else Some(LabelBegin(h, 1))          // the label left of the rightmost one
  }

  /** The scan back from `p` stops just after the nearest '.' at or before `p`. */
  lemma {:induction false} LabelStartDots(h: seq<char>, p: nat)
    requires p <= |h|
    ensures var d := DotsBefore(h, if p < |h| then p + 1 else |h|);
            LabelStart(h, p) == if |d| == 0 then 0 else d[0] + 1
    decreases p
  {
    if p > 0 && At(h, p) != '.' {
      LabelStartDots(h, p - 1);
    }
  }

  /** The '.'s before the k-th '.' before `n` are the ones that follow it in the list. */
  lemma {:induction false} DotsTail(h: seq<char>, n: nat, k: nat)
    requires n <= |h| && 1 <= k <= |DotsBefore(h, n)|
    ensures DotsBefore(h, n)[k..] == DotsBefore(h, DotsBefore(h, n)[k - 1])
    decreases n
  {
    if h[n - 1] == '.' {
      if k > 1 {
        DotsTail(h, n - 1, k - 1);
      }
    } else {
      DotsTail(h, n - 1, k);
    }
  }

  /** The first scan, from the end of the name, finds where label 0 begins. */
  lemma FirstLabel(h: seq<char>)
    requires Walkable(h)
    ensures LabelStart(h, LastEnd(h)) == LabelBegin(h, 0)
  {
    LabelStartDots(h, LastEnd(h));
  }

  /** The scan that starts two places before label i begins finds where label i + 1 begins. */
  lemma NextLabelBegin(h: seq<char>, i: nat)
    requires Walkable(h) && i + 1 < LabelCount(h)
    ensures LabelBegin(h, i) >= 2
    ensures LabelStart(h, LabelBegin(h, i) - 2) == LabelBegin(h, i + 1)
    ensures LabelBegin(h, i) - 1 == LabelEnd(h, i + 1)
  {
    var d := Dots(h);
    assert h[d[i]] == '.';
    LabelStartDots(h, d[i] - 1);
    DotsTail(h, |h|, i + 1);
  }

  /** The node after label i on the path is the child that label i matches, as the walk matches it. */
  lemma PathNext(t: Psl, h: seq<char>, i: nat) returns (next: int)
    requires TreeOk(t) && Walkable(h) && i < LabelCount(h) && Path(t, h, i) != -1
    ensures next == Path(t, h, i + 1)
    ensures var s, e := LabelBegin(h, i), LabelEnd(h, i);
            next == Match(t, Path(t, h, i), Key(h, s, e - s), e - s)
  {
    next := Child(t, h, i);
  }

  /** The walk stops at label i when label i matches nothing. */
  lemma PathStop(t: Psl, h: seq<char>, i: nat, p: nat)
    requires TreeOk(t) && Walkable(h) && i < LabelCount(h) && Path(t, h, i) != -1
    requires p <= |h| && LabelStart(h, p) == LabelBegin(h, i)
    requires Path(t, h, i + 1) == -1
    ensures WalkLabels(t, h, Path(t, h, i), p, LabelEnd(h, i), i) == Stopped(LabelBegin(h, i), i + 1)
  {
    var next := PathNext(t, h, i);
    WalkStep(t, h, Path(t, h, i), p, LabelEnd(h, i), i, LabelBegin(h, i), next);
  }

  /** The walk absorbs the name when its leftmost label matches too. */
  lemma PathAbsorb(t: Psl, h: seq<char>, i: nat, p: nat)
    requires TreeOk(t) && Walkable(h) && i + 1 == LabelCount(h) && Path(t, h, i) != -1
    requires p <= |h| && LabelStart(h, p) == LabelBegin(h, i)
    requires Path(t, h, i + 1) != -1
    ensures WalkLabels(t, h, Path(t, h, i), p, LabelEnd(h, i), i) == Absorbed
  {
    var next := PathNext(t, h, i);
    WalkStep(t, h, Path(t, h, i), p, LabelEnd(h, i), i, LabelBegin(h, i), next);
  }

  /** The walk goes on with label i + 1, from the node label i matched. */
  lemma PathOn(t: Psl, h: seq<char>, i: nat, p: nat)
    requires TreeOk(t) && Walkable(h) && i + 1 < LabelCount(h) && Path(t, h, i) != -1
    requires p <= |h| && LabelStart(h, p) == LabelBegin(h, i)
    requires Path(t, h, i + 1) != -1
    ensures LabelBegin(h, i) >= 2
    ensures LabelStart(h, LabelBegin(h, i) - 2) == LabelBegin(h, i + 1)
    ensures WalkLabels(t, h, Path(t, h, i), p, LabelEnd(h, i), i) ==
            WalkLabels(t, h, Path(t, h, i + 1), LabelBegin(h, i) - 2, LabelEnd(h, i + 1), i + 1)
  {
    var next := PathNext(t, h, i);
    WalkStep(t, h, Path(t, h, i), p, LabelEnd(h, i), i, LabelBegin(h, i), next);
    NextLabelBegin(h, i);
  }

  /**
   * The walk from label i, given that it stands at the node labels 0 to i - 1 reached:
   * it ends where label m, the first to fail, begins, or absorbs the name when every label
   * from i on matches.
   */
  lemma {:induction false} WalkPath(t: Psl, h: seq<char>, i: nat, p: nat, m: nat)
    requires TreeOk(t) && Walkable(h)
    requires i <= m <= LabelCount(h) && i < LabelCount(h)
    requires forall j :: 0 <= j <= m ==> Path(t, h, j) != -1
    requires m < LabelCount(h) ==> Path(t, h, m + 1) == -1
    requires p <= |h| && LabelStart(h, p) == LabelBegin(h, i)
    ensures WalkLabels(t, h, Path(t, h, i), p, LabelEnd(h, i), i) ==
            if m == LabelCount(h) then Absorbed else Stopped(LabelBegin(h, m), m + 1)
    decreases LabelCount(h) - i, 1
  {
    if i == m {
      PathStop(t, h, i, p);
    } else if i + 1 == LabelCount(h) {
      PathAbsorb(t, h, i, p);
    } else {
      WalkPathOn(t, h, i, p, m);
    }
  }

  /** WalkPath past label i, when label i matches and is not the leftmost. */
  lemma {:induction false} WalkPathOn(t: Psl, h: seq<char>, i: nat, p: nat, m: nat)
    requires TreeOk(t) && Walkable(h)
    requires i < m <= LabelCount(h) && i + 1 < LabelCount(h)
    requires forall j :: 0 <= j <= m ==> Path(t, h, j) != -1
    requires m < LabelCount(h) ==> Path(t, h, m + 1) == -1
    requires p <= |h| && LabelStart(h, p) == LabelBegin(h, i)
    ensures WalkLabels(t, h, Path(t, h, i), p, LabelEnd(h, i), i) ==
            if m == LabelCount(h) then Absorbed else Stopped(LabelBegin(h, m), m + 1)
    decreases LabelCount(h) - i, 0
  {
    PathOn(t, h, i, p);
    WalkPath(t, h, i + 1, LabelBegin(h, i) - 2, m);
  }

  /**
   * nspsl_getpublicsuffix answers from the labels: nothing when every label matches; when
   * label m >= 1 is the first to match nothing, where label m begins; when the rightmost
   * label matches nothing, where the label to its left begins, or nothing if there is none.
   */
  lemma PublicSuffixLabels(t: Psl, s: seq<char>)
    requires TreeOk(t)
    ensures PublicSuffix(t, Some(s)) ==
            if Walkable(CString(s)) then LabelAnswer(t, CString(s)) else None
  {
    var h := CString(s);
    if Walkable(h) {
      WalkAnswer(t, h);
    }
  }

  /** The walk from the root, on label 0, ends where the labels say. */
  lemma WalkFromRoot(t: Psl, h: seq<char>)
    requires TreeOk(t) && Walkable(h)
    ensures var m := Matched(t, h);
            WalkLabels(t, h, 0, LastEnd(h), LastEnd(h), 0) ==
            if m == LabelCount(h) then Absorbed else Stopped(LabelBegin(h, m), m + 1)
  {
    FirstLabel(h);
    assert Path(t, h, 0) == 0;
    WalkPath(t, h, 0, LastEnd(h), Matched(t, h));
  }

  /** The closing step turns the end of the walk into the answer the labels give. */
  lemma WalkAnswer(t: Psl, h: seq<char>)
    requires TreeOk(t) && Walkable(h)
    ensures Answer(h, WalkLabels(t, h, 0, LastEnd(h), LastEnd(h), 0)) == LabelAnswer(t, h)
  {
    WalkFromRoot(t, h);
    if Matched(t, h) == 0 && LabelCount(h) > 1 {
      NextLabelBegin(h, 0);
    }
  }
}
