/**
 * The Huffman label decoder (src/nspsl.c:44-85): a stored label is a run of bits in the
 * label table, decoded one character at a time by walking the code table, and compared
 * case-insensitively with the input without building the decoded string.
 */
module Huffman {
  import opened Wrappers
  import opened Ascii
  import opened Tables

  /** Bit `i` of the label table: bit `i % 8` of byte `i / 8`, least significant bit first. */
  function Bit(stab: seq<bv8>, i: nat): (b: bv8)
    requires i < 8 * |stab|
    ensures b == 0 || b == 1
  {
    (stab[i / 8] >> (i % 8)) & 1
  }

  /**
   * One character: the walk from code-table node `curh`, one bit per step starting at bit
   * `pos`, up to a terminal slot.  Gives the decoded code and the first bit not consumed,
   * or None when the walk runs off the end of the label table.
   */
  function WalkChar(t: Psl, curh: nat, pos: nat): (r: Option<(nat, nat)>)
    requires HuffOk(t) && curh + 1 < |t.htable|
    ensures r.Some? ==> pos < r.value.1 <= 8 * |t.stab|
    decreases |t.htable| - curh
  {
    if pos >= 8 * |t.stab| then None
    else
      var slot := t.htable[curh + Bit(t.stab, pos) as int];
      if slot.term then Some((slot.value, pos + 1))
      else WalkChar(t, slot.value, pos + 1)
  }

  /**
   * The first `n` characters of the label whose bits start at `pos`, each one a walk from
   * the root of the code table, the walks taking consecutive bits; and the first bit after
   * them.  None when the bits run out.
   */
  function DecodeLabel(t: Psl, pos: nat, n: nat): (r: Option<(seq<int>, nat)>)
    requires HuffOk(t)
    ensures r.Some? ==> |r.value.0| == n && pos <= r.value.1 <= 8 * |t.stab|
    decreases n
  {
    if n == 0 then
      if pos <= 8 * |t.stab| then Some(([], pos)) else None
    else
      match WalkChar(t, 0, pos)
      case None => None
      case Some((c, next)) =>
        match DecodeLabel(t, next, n - 1)
        case None => None
        case Some((cs, end)) => Some(([c] + cs, end))
  }

  /**
   * The `n`-character label at bit `pos` decodes inside the label table, and so does the bit
   * after it: the comparison loads the next byte as soon as it has used up the current one.
   */
  ghost predicate LabelDecodes(t: Psl, pos: nat, n: nat)
  {
    && HuffOk(t)
    && DecodeLabel(t, pos, n).Some?
    && DecodeLabel(t, pos, n).value.1 < 8 * |t.stab|
  }

  /** The character codes of the `n`-character label stored at bit `pos`. */
  function Decoded(t: Psl, pos: nat, n: nat): (r: seq<int>)
    requires LabelDecodes(t, pos, n)
    ensures |r| == n
  {
    DecodeLabel(t, pos, n).value.0
  }

  /** The bits of byte `k` not yet consumed when `b` of them have been: the byte shifted right by `b`. */
  function Unread(stab: seq<bv8>, k: nat, b: nat): bv8
    requires k < |stab| && b < 8
  {
    stab[k] >> b
  }

  /** The low bit of the unread part of a byte is the next table bit, and one more shift moves past it. */
  lemma UnreadBit(stab: seq<bv8>, k: nat, b: nat)
    requires k < |stab| && b < 8
    ensures Unread(stab, k, b) & 1 == Bit(stab, 8 * k + b)
    ensures b < 7 ==> Unread(stab, k, b) >> 1 == Unread(stab, k, b + 1)
    ensures Unread(stab, k, 0) == stab[k]
  {
    assert (8 * k + b) / 8 == k && (8 * k + b) % 8 == b;
  }

  /** A label of at least one character is its first character's walk followed by the rest. */
  lemma DecodeFirst(t: Psl, pos: nat, n: nat, codes: seq<int>, end: nat)
    requires HuffOk(t) && n > 0
    requires DecodeLabel(t, pos, n) == Some((codes, end))
    ensures WalkChar(t, 0, pos).Some?
    ensures WalkChar(t, 0, pos).value.0 == codes[0]
    ensures DecodeLabel(t, WalkChar(t, 0, pos).value.1, n - 1) == Some((codes[1..], end))
  {
  }

  /** One step of a character's walk: the slot chosen by the bit at `pos` either ends it or names the next node. */
  lemma WalkStep(t: Psl, curh: nat, pos: nat, slot: HuffSlot)
    requires HuffOk(t) && curh + 1 < |t.htable|
    requires WalkChar(t, curh, pos).Some?
    requires pos < 8 * |t.stab| ==> slot == t.htable[curh + Bit(t.stab, pos) as int]
    ensures pos < 8 * |t.stab|
    ensures slot.term ==> WalkChar(t, curh, pos) == Some((slot.value, pos + 1))
    ensures !slot.term ==> slot.value + 1 < |t.htable| && WalkChar(t, curh, pos) == WalkChar(t, slot.value, pos + 1)
  {
  }

  /**
   * The read cursor of huffcasecmp: `stabidx` is the index of the next byte to load, `bitidx`
   * how many bits of the loaded byte are used, `curc` the unused bits of that byte.  It
   * stands on bit `at` of the table.
   */
  ghost predicate Cursor(t: Psl, stabidx: nat, bitidx: nat, curc: bv8, at: nat)
  {
    && 1 <= stabidx <= |t.stab| && bitidx < 8
    && at == 8 * (stabidx - 1) + bitidx
    && curc == Unread(t.stab, stabidx - 1, bitidx)
  }

  /** Consuming one bit: shift the loaded byte, or load the next byte once all eight are used. */
  lemma Advance(t: Psl, stabidx: nat, bitidx: nat, curc: bv8, at: nat)
    requires Cursor(t, stabidx, bitidx, curc, at)
    ensures curc & 1 == Bit(t.stab, at)
    ensures bitidx + 1 < 8 ==> Cursor(t, stabidx, bitidx + 1, curc >> 1, at + 1)
    ensures bitidx + 1 == 8 && stabidx < |t.stab| ==> Cursor(t, stabidx + 1, 0, t.stab[stabidx], at + 1)
  {
    UnreadBit(t.stab, stabidx - 1, bitidx);
    if bitidx + 1 == 8 && stabidx < |t.stab| {
      UnreadBit(t.stab, stabidx, 0);
    }
  }

  /** Reads the bit under the cursor and moves the cursor past it, loading the next byte when the loaded one is used up. */
  method NextBit(t: Psl, stabidx0: nat, bitidx0: nat, curc0: bv8, ghost at0: nat)
    returns (bit: bv8, stabidx: nat, bitidx: nat, curc: bv8, ghost at: nat)
    requires Cursor(t, stabidx0, bitidx0, curc0, at0) && at0 + 1 < 8 * |t.stab|
    ensures bit == Bit(t.stab, at0) && at == at0 + 1
    ensures Cursor(t, stabidx, bitidx, curc, at)
  {
    Advance(t, stabidx0, bitidx0, curc0, at0);
    bit := curc0 & 1;
    stabidx, bitidx := stabidx0, bitidx0 + 1;
    if bitidx < 8 {
      curc := curc0 >> 1;
    } else {
      curc := t.stab[stabidx];
      stabidx := stabidx + 1;
      bitidx := 0;
    }
    at := at0 + 1;
  }

  /**
   * The inner loop of huffcasecmp: walks the code table from its root, one bit per step,
   * to a terminal slot, and leaves the cursor on the bit after the character.
   */
  method WalkCode(t: Psl, stabidx0: nat, bitidx0: nat, curc0: bv8, ghost at0: nat, ghost limit: nat)
    returns (curh: nat, stabidx: nat, bitidx: nat, curc: bv8, ghost at: nat)
    requires HuffOk(t) && Cursor(t, stabidx0, bitidx0, curc0, at0)
    requires WalkChar(t, 0, at0).Some? && WalkChar(t, 0, at0).value.1 <= limit < 8 * |t.stab|
    ensures Cursor(t, stabidx, bitidx, curc, at)
    ensures WalkChar(t, 0, at0) == Some((curh, at))
  {
    ghost var w := WalkChar(t, 0, at0);
    stabidx, bitidx, curc, at := stabidx0, bitidx0, curc0, at0;
    curh := 0;
    var term := false;
    while !term
      invariant Cursor(t, stabidx, bitidx, curc, at)
      invariant at <= w.value.1
      invariant !term ==> curh + 1 < |t.htable| && WalkChar(t, curh, at) == w
      invariant term ==> w == Some((curh, at))
      decreases if term then 0 else |t.htable| - curh + 1
    {
      ghost var pos := at;
      var bit;
      bit, stabidx, bitidx, curc, at := NextBit(t, stabidx, bitidx, curc, at);
      var slot := t.htable[curh + bit as int];
      WalkStep(t, curh, pos, slot);
      term := slot.term;
      curh := slot.value;
    }
  }

  /** One character of a label: its walk through the code table, leaving the cursor on the next character. */
  method NextCode(t: Psl, stabidx0: nat, bitidx0: nat, curc0: bv8, ghost at0: nat, ghost n: nat, ghost codes: seq<int>, ghost end: nat)
    returns (curh: nat, stabidx: nat, bitidx: nat, curc: bv8, ghost at: nat)
    requires HuffOk(t) && Cursor(t, stabidx0, bitidx0, curc0, at0) && n > 0
    requires DecodeLabel(t, at0, n) == Some((codes, end)) && end < 8 * |t.stab|
    ensures Cursor(t, stabidx, bitidx, curc, at)
    ensures curh == codes[0] && DecodeLabel(t, at, n - 1) == Some((codes[1..], end))
  {
    DecodeFirst(t, at0, n, codes, end);
    curh, stabidx, bitidx, curc, at := WalkCode(t, stabidx0, bitidx0, curc0, at0, end);
  }

  /** Places the cursor on bit `labelidx`: loads its byte and shifts out the bits before it. */
  method OpenCursor(t: Psl, labelidx: nat) returns (stabidx: nat, bitidx: nat, curc: bv8)
    requires labelidx < 8 * |t.stab|
    ensures Cursor(t, stabidx, bitidx, curc, labelidx)
  {
    stabidx := labelidx / 8;
    bitidx := labelidx % 8;
    curc := t.stab[stabidx];
    stabidx := stabidx + 1;
    curc := curc >> bitidx;
  }

  /**
   * huffcasecmp: compares the stored label at bit `labelidx` with the `len` characters of
   * `str` from `start`, folding the input to lower case, and stops at the first mismatch.
   * The source returns a difference of codes; only whether it is zero is modelled.
   */
  method HuffCaseCmp(t: Psl, labelidx: nat, str: seq<char>, start: nat, len: nat) returns (same: bool)
    requires LabelDecodes(t, labelidx, len)
    requires start + len <= |str|
    ensures same <==> Decoded(t, labelidx, len) == Fold(str[start..start + len])
  {
    ghost var codes := Decoded(t, labelidx, len);
    ghost var key := Fold(str[start..start + len]);
    ghost var end := DecodeLabel(t, labelidx, len).value.1;
    var stabidx, bitidx, curc := OpenCursor(t, labelidx);
    ghost var at := labelidx;
    var cnt: nat := 0;
    while cnt < len
      invariant 0 <= cnt <= len
      invariant Cursor(t, stabidx, bitidx, curc, at)
      invariant DecodeLabel(t, at, len - cnt) == Some((codes[cnt..], end))
      invariant forall i :: 0 <= i < cnt ==> codes[i] == key[i]
    {
      var curh;
      curh, stabidx, bitidx, curc, at := NextCode(t, stabidx, bitidx, curc, at, len - cnt, codes[cnt..], end);
      assert codes[cnt + 1..] == codes[cnt..][1..];
      assert key[cnt] == ToLower(str[start + cnt]) as int;
      if ToLower(str[start + cnt]) as int != curh {
        assert codes[cnt] != key[cnt];
        return false;
      }
      cnt := cnt + 1;
    }
    return true;
  }
}
