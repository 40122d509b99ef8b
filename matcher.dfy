/**
 * The suffix-tree matcher (src/nspsl.c:87-134).  The tree is a flat node table: a node is
 * one slot (its label view), followed by a second slot (its child view) when it has
 * children; the children of a node are `count` consecutive nodes from slot `index`.
 */
module Matcher {
  import opened Ascii
  import opened Tables
  import opened Huffman

  /** The slot of the sibling after node `c`: two slots on when `c` has children, one otherwise. */
  function Next(t: Psl, c: nat): (n: nat)
    requires c < |t.pnodes|
    ensures c < n <= c + 2
    ensures n == c + 2 <==> t.pnodes[c].labelView.children != 0
  {
    if t.pnodes[c].labelView.children != 0 then c + 2 else c + 1
  }

  /**
   * The nodes met when scanning `count` siblings from slot `c`, in scan order.  The
   * sequence is cut short if the scan leaves the table, which a well-formed table rules out.
   */
  function Siblings(t: Psl, c: nat, count: nat): (r: seq<nat>)
    ensures |r| <= count
    ensures forall i :: 0 <= i < |r| ==> r[i] < |t.pnodes|
    ensures |r| > 0 ==> r[0] == c
    decreases count
  {
    if count == 0 || c >= |t.pnodes| then [] else [c] + Siblings(t, Next(t, c), count - 1)
  }

  /** In a scan, each sibling is the one after the sibling before it. */
  lemma {:induction false} SiblingsNext(t: Psl, c: nat, count: nat, i: nat)
    requires i + 1 < |Siblings(t, c, count)|
    decreases i
    ensures Siblings(t, c, count)[i + 1] == Next(t, Siblings(t, c, count)[i])
  {
    if i > 0 {
      SiblingsNext(t, Next(t, c), count - 1, i - 1);
    }
  }

  /** The children of node `n` (a node with children), in stored order. */
  function Kids(t: Psl, n: nat): (k: seq<nat>)
    requires n + 1 < |t.pnodes|
    ensures |k| <= t.pnodes[n + 1].childView.count
    ensures forall i :: 0 <= i < |k| ==> k[i] < |t.pnodes|
  {
    Siblings(t, t.pnodes[n + 1].childView.index, t.pnodes[n + 1].childView.count)
  }

  /**
   * Everything the matcher reads about child `c` is in the tables: its slot; the bits of its
   * label unless it is the wildcard; when it has children, its child slot and, when that
   * names exactly one child, the slot of that child.
   */
  ghost predicate ChildOk(t: Psl, c: nat)
  {
    && c < |t.pnodes|
    && (t.pnodes[c].labelView.idx != t.wildcard ==>
          LabelDecodes(t, t.pnodes[c].labelView.idx, t.pnodes[c].labelView.len))
    && (t.pnodes[c].labelView.children != 0 ==>
          && c + 1 < |t.pnodes|
          && (t.pnodes[c + 1].childView.count == 1 ==> t.pnodes[c + 1].childView.index < |t.pnodes|))
  }

  /**
   * Node `n` is well formed, and so are its descendants down to `depth` generations below
   * its children: every child range lies in the table and holds exactly `count` nodes.
   * Below a child the walk cannot move to (a label whose match an exception annuls, such
   * as the parent of the exception sentinel), nothing is demanded: the lookup never scans there.
   */
  ghost predicate NodeOk(t: Psl, n: nat, depth: nat)
    decreases depth
  {
    && HuffOk(t)
    && n < |t.pnodes|
    && (t.pnodes[n].labelView.children != 0 ==>
          && n + 1 < |t.pnodes|
          && |Kids(t, n)| == t.pnodes[n + 1].childView.count
          && forall i :: 0 <= i < |Kids(t, n)| ==>
               && ChildOk(t, Kids(t, n)[i])
               && (depth > 0 && Enterable(t, Kids(t, n)[i]) ==> NodeOk(t, Kids(t, n)[i], depth - 1)))
  }

  /** Every node reachable from `n`, at any depth, is well formed. */
  ghost predicate SubtreeOk(t: Psl, n: nat)
  {
    forall depth: nat :: NodeOk(t, n, depth)
  }

  /** The tables are well formed wherever a lookup, which starts at the root, can reach. */
  ghost predicate TreeOk(t: Psl)
  {
    SubtreeOk(t, 0)
  }

  /** The children of a well-formed node: as many as its child view says, each one readable. */
  lemma KidsOk(t: Psl, n: nat, depth: nat)
    requires NodeOk(t, n, depth) && t.pnodes[n].labelView.children != 0
    ensures |Kids(t, n)| == t.pnodes[n + 1].childView.count
    ensures AllChildOk(t, Kids(t, n))
  {
  }

  /** Child `c` carries the wildcard sentinel instead of a label. */
  predicate IsWildcard(t: Psl, c: nat)
    requires c < |t.pnodes|
  {
    t.pnodes[c].labelView.idx == t.wildcard
  }

  /** `c` is a non-wildcard child whose stored label, of length `len`, decodes to the folded input `key`. */
  predicate Exact(t: Psl, c: nat, key: seq<int>, len: int): (r: bool)
    requires ChildOk(t, c)
    ensures r ==> !IsWildcard(t, c) && len >= 0 && |key| == len
  {
    && !IsWildcard(t, c)
    && t.pnodes[c].labelView.len == len
    && Decoded(t, t.pnodes[c].labelView.idx, t.pnodes[c].labelView.len) == key
  }

  /** Child `c`'s only child is the exception sentinel: a match on `c` is annulled. */
  predicate IsException(t: Psl, c: nat): (r: bool)
    requires ChildOk(t, c)
    ensures r ==> t.pnodes[c].labelView.children != 0 && t.pnodes[c + 1].childView.count == 1
  {
    && t.pnodes[c].labelView.children != 0
    && t.pnodes[c + 1].childView.count == 1
    && t.pnodes[t.pnodes[c + 1].childView.index].labelView.idx == t.exception
  }

  /**
   * The walk can move on to child `c` once it matches: a wildcard always, a label unless
   * its match is annulled by an exception.
   */
  predicate Enterable(t: Psl, c: nat)
    requires ChildOk(t, c)
  {
    IsWildcard(t, c) || !IsException(t, c)
  }

  ghost predicate AllChildOk(t: Psl, kids: seq<nat>)
  {
    forall i :: 0 <= i < |kids| ==> ChildOk(t, kids[i])
  }

  /** The position in `kids` of the first exact match, or |kids| when no child matches exactly. */
  function FirstExact(t: Psl, kids: seq<nat>, key: seq<int>, len: int): (j: nat)
    requires AllChildOk(t, kids)
    ensures j <= |kids|
    ensures forall i :: 0 <= i < j ==> !Exact(t, kids[i], key, len)
    ensures j < |kids| ==> Exact(t, kids[j], key, len)
  {
    if |kids| == 0 then 0
    else if Exact(t, kids[0], key, len) then 0
    else 1 + FirstExact(t, kids[1..], key, len)
  }

  /** The position of the last wildcard among the first `n` children in `kids`, or -1 when there is none. */
  function LastWildcardAt(t: Psl, kids: seq<nat>, n: nat): (j: int)
    requires n <= |kids|
    requires forall i :: 0 <= i < |kids| ==> kids[i] < |t.pnodes|
    ensures -1 <= j < n
    ensures j >= 0 ==> IsWildcard(t, kids[j])
    ensures forall i :: j < i < n ==> !IsWildcard(t, kids[i])
  {
    if n == 0 then -1
    else if IsWildcard(t, kids[n - 1]) then n - 1
    else LastWildcardAt(t, kids, n - 1)
  }

  /** The last wildcard among the first `n` children in `kids`, as a node index, or -1 when there is none. */
  function WildcardResult(t: Psl, kids: seq<nat>, n: nat): (r: int)
    requires n <= |kids|
    requires forall i :: 0 <= i < |kids| ==> kids[i] < |t.pnodes|
    ensures r == -1 || (r in kids[..n] && IsWildcard(t, r))
    ensures r == -1 <==> forall i :: 0 <= i < n ==> !IsWildcard(t, kids[i])
  {
    var w := LastWildcardAt(t, kids, n);
    if w < 0 then -1 else kids[w]
  }

  /** Scanning one more child: it becomes the wildcard result if it is a wildcard, and leaves it alone otherwise. */
  lemma WildcardStep(t: Psl, kids: seq<nat>, i: nat)
    requires i < |kids|
    requires forall k :: 0 <= k < |kids| ==> kids[k] < |t.pnodes|
    ensures WildcardResult(t, kids, i + 1) == if IsWildcard(t, kids[i]) then kids[i] else WildcardResult(t, kids, i)
  {
  }

  /** Scanning one more child, when none before it matched exactly: the first exact match is here, or later. */
  lemma FirstExactStep(t: Psl, kids: seq<nat>, key: seq<int>, len: int, i: nat)
    requires AllChildOk(t, kids)
    requires i < |kids| && FirstExact(t, kids, key, len) >= i
    ensures Exact(t, kids[i], key, len) ==> FirstExact(t, kids, key, len) == i
    ensures !Exact(t, kids[i], key, len) ==> FirstExact(t, kids, key, len) >= i + 1
  {
  }

  /**
   * The matching rule, stated on the whole list of children: the first exact match in
   * stored order decides, unless an exception rule annuls it (-1); failing an exact match,
   * the last wildcard child stands, whatever the label's length; failing that, -1.
   */
  function Rule(t: Psl, kids: seq<nat>, key: seq<int>, len: int): (r: int)
    requires AllChildOk(t, kids)
    ensures r == -1 || (r in kids && Enterable(t, r))
  {
    var j := FirstExact(t, kids, key, len);
    if j < |kids| then
      if IsException(t, kids[j]) then -1 else kids[j]
    else
      WildcardResult(t, kids, |kids|)
  }

  /**
   * The scan of matchlabel from the `i`-th child on, with `wild` the match remembered so
   * far: a wildcard replaces it, an exact match ends the scan.
   */
  function Scan(t: Psl, kids: seq<nat>, i: nat, key: seq<int>, len: int, wild: int): (r: int)
    requires AllChildOk(t, kids) && i <= |kids|
    ensures (wild == -1 || (wild in kids && IsWildcard(t, wild))) ==> r == -1 || (r in kids && Enterable(t, r))
    decreases |kids| - i
  {
    if i == |kids| then wild
    else if IsWildcard(t, kids[i]) then Scan(t, kids, i + 1, key, len, kids[i])
    else if Exact(t, kids[i], key, len) then
      if IsException(t, kids[i]) then -1 else kids[i]
    else Scan(t, kids, i + 1, key, len, wild)
  }

  /** The child of `parent` that the label matches, or -1: the scan over all its children. */
  function Match(t: Psl, parent: nat, key: seq<int>, len: int): (r: int)
    requires NodeOk(t, parent, 0)
    ensures r != -1 ==> t.pnodes[parent].labelView.children != 0 && r in Kids(t, parent) && Enterable(t, r)
  {
    if t.pnodes[parent].labelView.children == 0 then -1
    else Scan(t, Kids(t, parent), 0, key, len, -1)
  }

  /** Part way through, with the scan so far in line with the rule, the scan ends where the rule says. */
  lemma {:induction false} ScanRule(t: Psl, kids: seq<nat>, i: nat, key: seq<int>, len: int, wild: int)
    requires AllChildOk(t, kids) && i <= |kids|
    requires wild == WildcardResult(t, kids, i)
    requires FirstExact(t, kids, key, len) >= i
    ensures Scan(t, kids, i, key, len, wild) == Rule(t, kids, key, len)
    decreases |kids| - i
  {
    if i < |kids| {
      WildcardStep(t, kids, i);
      FirstExactStep(t, kids, key, len, i);
      if !Exact(t, kids[i], key, len) {
        ScanRule(t, kids, i + 1, key, len, WildcardResult(t, kids, i + 1));
      }
    }
  }

  /** matchlabel obeys the matching rule: exact match first, exceptions, then the last wildcard. */
  lemma MatchRule(t: Psl, parent: nat, key: seq<int>, len: int)
    requires NodeOk(t, parent, 0)
    ensures t.pnodes[parent].labelView.children == 0 ==> Match(t, parent, key, len) == -1
    ensures t.pnodes[parent].labelView.children != 0 ==>
              Match(t, parent, key, len) == Rule(t, Kids(t, parent), key, len)
  {
    if t.pnodes[parent].labelView.children != 0 {
      ScanRule(t, Kids(t, parent), 0, key, len, -1);
    }
  }

  /** Node `n` has no wildcard among its children. */
  ghost predicate NoWildcardChild(t: Psl, n: nat)
  {
    && n < |t.pnodes|
    && (t.pnodes[n].labelView.children != 0 ==>
          && n + 1 < |t.pnodes|
          && forall i :: 0 <= i < |Kids(t, n)| ==> !IsWildcard(t, Kids(t, n)[i]))
  }

  /** A negative length (the empty label after a trailing '.') matches no label exactly: only a wildcard can match it. */
  lemma MatchNegativeLength(t: Psl, parent: nat, key: seq<int>, len: int)
    requires NodeOk(t, parent, 0) && len < 0
    ensures t.pnodes[parent].labelView.children == 0 ==> Match(t, parent, key, len) == -1
    ensures t.pnodes[parent].labelView.children != 0 ==>
              Match(t, parent, key, len) == WildcardResult(t, Kids(t, parent), |Kids(t, parent)|)
  {
    MatchRule(t, parent, key, len);
  }

  /** Under a node with no wildcard child, a negative length matches nothing. */
  lemma NegativeLengthNoMatch(t: Psl, parent: nat, key: seq<int>, len: int)
    requires NodeOk(t, parent, 0) && NoWildcardChild(t, parent) && len < 0
    ensures Match(t, parent, key, len) == -1
  {
    MatchNegativeLength(t, parent, key, len);
  }

  /** The node a label matches is a child of the node it was matched under, so its subtree is well formed too. */
  lemma MatchSubtree(t: Psl, parent: nat, key: seq<int>, len: int)
    requires SubtreeOk(t, parent)
    ensures NodeOk(t, parent, 0)
    ensures Match(t, parent, key, len) != -1 ==> SubtreeOk(t, Match(t, parent, key, len))
  {
    assert NodeOk(t, parent, 0);
    var r := Match(t, parent, key, len);
    if r != -1 {
      var kids := Kids(t, parent);
      var i :| 0 <= i < |kids| && kids[i] == r;
      forall depth: nat
        ensures NodeOk(t, r, depth)
      {
        assert NodeOk(t, parent, depth + 1);
      }
    }
  }

  /** The folded text of the label of length `len` at `start`; empty when `len` is negative. */
  function Key(str: seq<char>, start: nat, len: int): (key: seq<int>)
    requires len >= 0 ==> start + len <= |str|
    ensures |key| == if len < 0 then 0 else len
    decreases len
  {
    if len <= 0 then [] else Key(str, start, len - 1) + [ToLower(str[start + len - 1]) as int]
  }

  /** The key of a label is its folded text; empty when the length is negative. */
  lemma {:induction false} KeyIsFold(str: seq<char>, start: nat, len: int)
    requires len >= 0 ==> start + len <= |str|
    ensures len >= 0 ==> Key(str, start, len) == Fold(str[start..start + len])
    ensures len < 0 ==> Key(str, start, len) == []
    decreases len
  {
    if len > 0 {
      KeyIsFold(str, start, len - 1);
      assert str[start..start + len] == str[start..start + len - 1] + [str[start + len - 1]];
    }
  }

  /** Whether the label of child `cidx` is the label of length `len` at `start`: lengths first, then the Huffman comparison. */
  method SameLabel(t: Psl, cidx: nat, str: seq<char>, start: nat, len: int) returns (matched: bool)
    requires ChildOk(t, cidx) && !IsWildcard(t, cidx)
    requires len >= 0 ==> start + len <= |str|
    ensures matched == Exact(t, cidx, Key(str, start, len), len)
  {
    matched := false;
    if t.pnodes[cidx].labelView.len == len {
      KeyIsFold(str, start, len);
      matched := HuffCaseCmp(t, t.pnodes[cidx].labelView.idx, str, start, len);
    }
  }

  /**
   * matchlabel: scans the children of `parent` for the label of length `len` at `start`
   * in `str`, remembering wildcards and stopping at the first exact match.
   */
  method MatchLabel(t: Psl, parent: nat, str: seq<char>, start: nat, len: int) returns (ridx: int)
    requires NodeOk(t, parent, 0)
    requires len >= 0 ==> start + len <= |str|
    ensures ridx == Match(t, parent, Key(str, start, len), len)
  {
    ridx := -1;
    if t.pnodes[parent].labelView.children != 0 {
      ghost var kids := Kids(t, parent);
      ghost var key := Key(str, start, len);
      KidsOk(t, parent, 0);
      var cidx := t.pnodes[parent + 1].childView.index;
      var ccount := t.pnodes[parent + 1].childView.count;
      ghost var i := 0;
      while ccount > 0
        invariant 0 <= i <= |kids| && i + ccount == |kids|
        invariant i < |kids| ==> cidx == kids[i]
        invariant Scan(t, kids, i, key, len, ridx) == Match(t, parent, key, len)
      {
        assert ChildOk(t, kids[i]);
        if IsWildcard(t, cidx) {
          ridx := cidx;
        } else {
          var matched := SameLabel(t, cidx, str, start, len);
          if matched {
            if IsException(t, cidx) {
              ridx := -1;
            } else {
              ridx := cidx;
            }
            return;
          }
        }
        if i + 1 < |kids| {
          SiblingsNext(t, t.pnodes[parent + 1].childView.index, t.pnodes[parent + 1].childView.count, i);
        }
        if t.pnodes[cidx].labelView.children != 0 {
          cidx := cidx + 2;
        } else {
          cidx := cidx + 1;
        }
        ccount := ccount - 1;
        i := i + 1;
      }
    }
  }
}
