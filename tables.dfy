/**
 * The compiled suffix database: read-only tables generated offline.  Their contents are
 * not part of this model; they are parameters, constrained only by the well-formedness
 * predicates stated here and in the Matcher module.
 */
module Tables {

  /**
   * One slot of the Huffman code table.  A code-table node is a pair of consecutive
   * slots `curh` and `curh + 1`, chosen by the next bit.  A terminal slot holds the
   * decoded character code in `value`; a non-terminal slot holds the index of the next
   * code-table node.
   */
  datatype HuffSlot = HuffSlot(term: bool, value: nat)

  /** The label view of a node-table slot: bit offset and length of the label, and whether it has children. */
  datatype LabelView = LabelView(idx: nat, len: nat, children: nat)

  /** The child view, stored in the slot that follows a node with children. */
  datatype ChildView = ChildView(index: nat, count: nat)

  /**
   * A node-table slot.  The generated table stores each slot as a union of the two views;
   * here both are fields, and the code reads only the view it would read in the union.
   */
  datatype PNode = PNode(labelView: LabelView, childView: ChildView)

  /**
   * The three tables (`stab`, the bit-packed labels; `htable`, the Huffman code table;
   * `pnodes`, the flattened suffix tree) and the two sentinel label indexes.
   */
  datatype Psl = Psl(
    stab: seq<bv8>,
    htable: seq<HuffSlot>,
    pnodes: seq<PNode>,
    wildcard: nat,
    exception: nat)

  /**
   * The Huffman code table is walkable: the root node (slots 0 and 1) exists, and every
   * non-terminal slot names a node that lies later in the table with both its slots in
   * range, so each character's walk ends.
   */
  ghost predicate HuffOk(t: Psl)
  {
    && |t.htable| >= 2
    && forall j :: 0 <= j < |t.htable| && !t.htable[j].term ==>
         j < t.htable[j].value && t.htable[j].value + 1 < |t.htable|
  }
}
