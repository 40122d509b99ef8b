/**
 * The public API, nspsl_getpublicsuffix (src/nspsl.c:139-210): walks the labels of a
 * hostname from the right, one tree level per label, and answers where the registrable
 * part of the name (the public suffix plus one label) starts.
 *
 * A C string is modelled as the characters before its terminating NUL; `At` reads one
 * character of it, and reading at its length gives the NUL, as the C code does.
 */
module Walker {
  import opened Wrappers
  import opened Tables
  import opened Matcher

  /** The characters of a C string: those before the first NUL (what strlen measures). */
  function CString(s: seq<char>): (h: seq<char>)
    ensures |h| <= |s| && h == s[..|h|]
    ensures forall i :: 0 <= i < |h| ==> h[i] != '\0'
    ensures |h| < |s| ==> s[|h|] == '\0'
  {
    if |s| == 0 || s[0] == '\0' then [] else [s[0]] + CString(s[1..])
  }

  /** Character `i` of the string `h`; the terminating NUL at `i == |h|`. */
  function At(h: seq<char>, i: nat): (c: char)
    requires i <= |h|
    ensures c == '.' ==> i < |h|
  {
    if i < |h| then h[i] else '\0'
  }

  /**
   * The start of the label that ends at or before `p`: the scan goes back from `p` while it
   * is not on a '.', and steps forward again off the '.' it stops on.
   */
  function LabelStart(h: seq<char>, p: nat): (r: nat)
    requires p <= |h|
    ensures r <= p + 1 && r <= |h|
    ensures r == 0 || At(h, r - 1) == '.'
    ensures forall i :: r <= i < p ==> At(h, i) != '.'
    decreases p
  {
    if p > 0 && At(h, p) != '.' then LabelStart(h, p - 1)
    else if At(h, p) == '.' then p + 1
    else p
  }

  /** How a walk down the tree ends. */
  datatype WalkEnd =
    | Absorbed                        // every label matched, up to the leftmost one
    | Stopped(start: nat, labels: nat) // the label at `start` matched nothing; `labels` labels were tried

  /** The hostname is one that the walk is run on: not empty and not starting with '.'. */
  predicate Walkable(h: seq<char>): (r: bool)
    ensures r ==> |h| > 0 && LastEnd(h) > 0
  {
    |h| > 0 && h[0] != '.'
  }

  /**
   * One step of the for(;;) loop of src/nspsl.c:164-188 and all the steps after it: from
   * tree node `node`, with the scan position at `p`, the current label ending before `end`,
   * and `count` labels already tried.
   */
  function WalkLabels(t: Psl, h: seq<char>, node: nat, p: nat, end: nat, count: nat): (r: WalkEnd)
    requires Walkable(h) && p <= |h| && end <= |h|
    requires SubtreeOk(t, node)
    ensures r.Stopped? ==> r.labels > count && r.start <= |h| && (r.start == 0 || h[r.start - 1] == '.')
    ensures r.Stopped? && r.labels == count + 1 ==> r.start == LabelStart(h, p)
    ensures r.Stopped? && r.labels != count + 1 ==>
              r.start < |h| && DotFrom(h, r.start)
    decreases p, 0
  {
    var s := LabelStart(h, p);
    var next := Match(t, node, Key(h, s, end - s), end - s);
    if next == -1 then Stopped(s, count + 1)
    else if s == 0 then Absorbed
    else
      MatchSubtree(t, node, Key(h, s, end - s), end - s);
      WalkOn(t, h, next, s, count + 1)
  }

  /**
   * The walk after the label starting at `s` matched `node`: the scan resumes two places
   * before `s`, skipping the '.', and the next label ends at that '.'.
   */
  function WalkOn(t: Psl, h: seq<char>, node: nat, s: nat, count: nat): (r: WalkEnd)
    requires Walkable(h) && 2 <= s <= |h| && h[s - 1] == '.'
    requires SubtreeOk(t, node)
    ensures r.Stopped? ==>
              && r.labels > count && r.start < s && (r.start == 0 || h[r.start - 1] == '.')
              && DotFrom(h, r.start)
    decreases s - 2, 1
  {
    WalkLabels(t, h, node, s - 2, s - 1, count)
  }

  /** Unfolds one step of the walk, as the loop of GetPublicSuffix takes it. */
  lemma WalkStep(t: Psl, h: seq<char>, node: nat, p: nat, end: nat, count: nat, s: nat, next: int)
    requires Walkable(h) && p <= |h| && end <= |h|
    requires SubtreeOk(t, node)
    requires s == LabelStart(h, p) && next == Match(t, node, Key(h, s, end - s), end - s)
    ensures s != 0 ==> 2 <= s <= |h| && h[s - 1] == '.'
    ensures next == -1 ==> WalkLabels(t, h, node, p, end, count) == Stopped(s, count + 1)
    ensures next != -1 && s == 0 ==> WalkLabels(t, h, node, p, end, count) == Absorbed
    ensures next != -1 && s != 0 ==>
              && SubtreeOk(t, next)
              && WalkLabels(t, h, node, p, end, count) == WalkOn(t, h, next, s, count + 1)
  {
    MatchSubtree(t, node, Key(h, s, end - s), end - s);
  }

  /** Where the first label scan starts: at the end, or on the trailing '.' of a fully qualified name. */
  function LastEnd(h: seq<char>): (e: nat)
    requires |h| > 0
    ensures e <= |h|
  {
    if h[|h| - 1] == '.' then |h| - 1 else |h|
  }

  /** `h[r..]` holds a '.'. */
  predicate DotFrom(h: seq<char>, r: nat)
  {
    exists i :: r <= i < |h| && h[i] == '.'
  }

  /**
   * `h[r..]` is a tail of whole labels of `h` that still holds a '.': it starts at the
   * beginning of `h` or just after a '.', and is not the empty tail.
   */
  predicate LabelSuffix(h: seq<char>, r: nat)
  {
    && r < |h|
    && (r == 0 || h[r - 1] == '.')
    && DotFrom(h, r)
  }

  /**
   * The answer once the walk has ended (src/nspsl.c:190-209): nothing when every label
   * matched; when the very first label matched nothing, the label before it, if any;
   * otherwise the label that matched nothing.
   */
  function Answer(h: seq<char>, w: WalkEnd): (r: Option<nat>)
    requires Walkable(h)
    requires w.Stopped? ==> w.start <= |h| && (w.start == 0 || h[w.start - 1] == '.')
    requires w.Stopped? && w.labels != 1 ==> w.start < |h| && DotFrom(h, w.start)
    ensures r.Some? ==> LabelSuffix(h, r.value)
  {
    match w
    case Absorbed => None
    case Stopped(s, n) =>
      if n == 1 then
        if s == 0 then None
        else
          assert h[s - 1] == '.';
          Some(LabelStart(h, s - 2))
      else
        Some(s)
  }

  /**
   * nspsl_getpublicsuffix: the offset in `hostname` of its registrable part, or None for a
   * NULL, empty or '.'-led hostname, for a hostname that is itself a public suffix, and
   * for a single label that matches nothing.
   */
  function PublicSuffix(t: Psl, hostname: Option<seq<char>>): (r: Option<nat>)
    requires TreeOk(t)
    ensures hostname.None? ==> r.None?
    ensures hostname.Some? && !Walkable(CString(hostname.value)) ==> r.None?
    ensures r.Some? ==> hostname.Some? && LabelSuffix(CString(hostname.value), r.value)
  {
    if hostname.None? then None
    else
      var h := CString(hostname.value);
      if !Walkable(h) then None
      else
        var e := LastEnd(h);
        Answer(h, WalkLabels(t, h, 0, e, e, 0))
  }

  /** strlen: the length of the C string held in `s`. */
  method StrLen(s: seq<char>) returns (n: nat)
    ensures n == |CString(s)|
  {
    n := 0;
    while n < |s| && s[n] != '\0'
      invariant n <= |CString(s)|
    {
      n := n + 1;
    }
  }

  /** The back-scan loop of src/nspsl.c:166-171 (and 201-205): moves `p` to the start of its label. */
  method ScanBack(h: seq<char>, p0: nat) returns (p: nat)
    requires p0 <= |h|
    ensures p == LabelStart(h, p0)
  {
    p := p0;
    while p > 0 && At(h, p) != '.'
      invariant p <= p0
      invariant LabelStart(h, p) == LabelStart(h, p0)
    {
      p := p - 1;
    }
    if At(h, p) == '.' {
      p := p + 1;
    }
  }

  /**
   * nspsl_getpublicsuffix, step by step as the C code runs it: the checks on the hostname
   * and the end of its last label (src/nspsl.c:146-161).
   */
  method GetPublicSuffix(t: Psl, hostname: Option<seq<char>>) returns (r: Option<nat>)
    requires TreeOk(t)
    ensures r == PublicSuffix(t, hostname)
  {
    if hostname.None? {
      return None;
    }
    var s := hostname.value;
    // an empty buffer holds only the terminating NUL
    var first := if |s| == 0 then '\0' else s[0];
    if first == '\0' || first == '.' {
      return None;
    }
    var n := StrLen(s);
    var h := s[..n];
    assert h == CString(s);
    var elemEnd: nat := n;
    if h[n - 1] == '.' {
      elemEnd := elemEnd - 1;
    }
    assert elemEnd == LastEnd(h);
    r := WalkHostname(t, h, elemEnd);
  }

  /**
   * The body of the label loop up to the match (src/nspsl.c:165-176): finds the start of
   * the label ending before `elemEnd` by scanning back from `elemStart0`, and matches it
   * under `treeidx`.  Its outcome is the first step of the walk from there.
   */
  method NextLabel(t: Psl, h: seq<char>, treeidx: nat, elemStart0: nat, elemEnd: nat, ghost count: nat)
    returns (elemStart: nat, next: int)
    requires Walkable(h) && elemStart0 <= |h| && elemEnd <= |h|
    requires SubtreeOk(t, treeidx)
    ensures elemStart <= elemStart0 + 1
    ensures elemStart != 0 ==> 2 <= elemStart <= |h| && h[elemStart - 1] == '.'
    ensures next == -1 ==> WalkLabels(t, h, treeidx, elemStart0, elemEnd, count) == Stopped(elemStart, count + 1)
    ensures next != -1 && elemStart == 0 ==> WalkLabels(t, h, treeidx, elemStart0, elemEnd, count) == Absorbed
    ensures next != -1 && elemStart != 0 ==>
              && next >= 0
              && SubtreeOk(t, next)
              && WalkLabels(t, h, treeidx, elemStart0, elemEnd, count) == WalkOn(t, h, next, elemStart, count + 1)
  {
    elemStart := ScanBack(h, elemStart0);
    next := MatchLabel(t, treeidx, h, elemStart, elemEnd - elemStart);
    WalkStep(t, h, treeidx, elemStart0, elemEnd, count, elemStart, next);
  }

  /**
   * The rest of nspsl_getpublicsuffix (src/nspsl.c:163-209): the label loop, from the root
   * and the label ending before `elemEnd`, then the answer.
   */
  method WalkHostname(t: Psl, h: seq<char>, elemEnd0: nat) returns (r: Option<nat>)
    requires TreeOk(t) && Walkable(h) && elemEnd0 <= |h|
    ensures r == Answer(h, WalkLabels(t, h, 0, elemEnd0, elemEnd0, 0))
  {
    var elemEnd: nat := elemEnd0;
    var elemStart: nat := elemEnd;
    ghost var walk := WalkLabels(t, h, 0, elemEnd, elemEnd, 0);
    var treeidx: nat := 0;
    var labCount: nat := 0;
    while true
      invariant elemStart <= |h| && elemEnd <= |h|
      invariant SubtreeOk(t, treeidx)
      invariant WalkLabels(t, h, treeidx, elemStart, elemEnd, labCount) == walk
      decreases elemStart
    {
      var next;
      elemStart, next := NextLabel(t, h, treeidx, elemStart, elemEnd, labCount);
      labCount := labCount + 1;
      if next == -1 {
        break;
      }
      if elemStart == 0 {
        return None;
      }
      treeidx := next;
      elemEnd := elemStart - 1;
      elemStart := elemEnd - 1;
    }
    r := Conclude(h, elemStart, labCount);
  }

  /**
   * The end of nspsl_getpublicsuffix (src/nspsl.c:190-209), once the label at `elemStart`
   * matched nothing after `labCount` labels were tried.
   */
  method Conclude(h: seq<char>, elemStart0: nat, labCount: nat) returns (r: Option<nat>)
    requires Walkable(h) && elemStart0 <= |h|
    requires elemStart0 != 0 ==> 2 <= elemStart0 && h[elemStart0 - 1] == '.'
    requires labCount != 1 ==> elemStart0 < |h| && DotFrom(h, elemStart0)
    ensures r == Answer(h, Stopped(elemStart0, labCount))
  {
    var elemStart := elemStart0;
    if labCount == 1 {
      if elemStart == 0 {
        return None;
      }
      elemStart := ScanBack(h, elemStart - 2);
    }
    return Some(elemStart);
  }
}
