/** The tree's wire form (`serializeTree`, both `preOrder` traversals, `deserializeTree`):
    a preorder bit string in a BitSet, with the leaf chars in a separate char stream. */
module TreeCodec {
  import opened Results
  import opened Streams
  import opened HuffmanTree

  /** The bits the writing `preOrder` sets: false for a leaf; for a merged node true, the
      left subtree, true again, then the right subtree. */
  function TreeBits(t: Node): seq<bool>
  {
    match t
    case Leaf(_, _) => [false]
    case Internal(_, l, r) => [true] + TreeBits(l) + [true] + TreeBits(r)
  }

  /** A tree with every frequency set to 0: the shape and chars a deserialised tree has. */
  function Erase(t: Node): Node
  {
    match t
    case Leaf(c, _) => Leaf(c, 0)
    case Internal(_, l, r) => Internal(0, Erase(l), Erase(r))
  }

  /** The serialised tree has one false per leaf, two trues per merged node, and one char
      per leaf in the char stream. */
  lemma {:induction false} TreeBitsCounts(t: Node)
    ensures multiset(TreeBits(t))[false] == LeafCount(t)
    ensures multiset(TreeBits(t))[true] == 2 * InternalCount(t)
    ensures |TreeBits(t)| == LeafCount(t) + 2 * InternalCount(t)
    ensures |LeafChars(t)| == LeafCount(t)
  {
    match t
    case Leaf(_, _) =>
    case Internal(_, l, r) =>
      TreeBitsCounts(l);
      TreeBitsCounts(r);
  }

  /** Erasing the frequencies keeps the wire form. */
  lemma {:induction false} EraseKeepsWireForm(t: Node)
    ensures TreeBits(Erase(t)) == TreeBits(t)
    ensures LeafChars(Erase(t)) == LeafChars(t)
  {
    match t
    case Leaf(_, _) =>
    case Internal(_, l, r) =>
      EraseKeepsWireForm(l);
      EraseKeepsWireForm(r);
  }

  /** The bits after the writing `preOrder` has set, one position at a time, the bits of t
      from position pos on. */
  function WrittenTree(bits: seq<bool>, pos: nat, t: Node): seq<bool>
    decreases t
  {
    match t
    case Leaf(_, _) => SetBit(bits, pos, false)
    case Internal(_, l, r) =>
      WrittenTree(SetBit(WrittenTree(SetBit(bits, pos, true), pos + 1, l), pos + 1 + |TreeBits(l)|, true),
                  pos + 2 + |TreeBits(l)|, r)
  }

  /** The writes `preOrder` makes leave the tree's preorder bits in place from the cursor on,
      and every other position as it was. */
  lemma {:induction false} WrittenTreeBits(bits: seq<bool>, pos: nat, t: Node)
    ensures WrittenTree(bits, pos, t) == Overwrite(bits, pos, TreeBits(t))
    decreases t
  {
    match t
    case Leaf(_, _) =>
      OverwriteOne(bits, pos, false);
    case Internal(_, l, r) =>
      var bl, br := TreeBits(l), TreeBits(r);
      var x1 := SetBit(bits, pos, true);
      var x2 := WrittenTree(x1, pos + 1, l);
      WrittenTreeBits(x1, pos + 1, l);
      var x3 := SetBit(x2, pos + 1 + |bl|, true);
      WrittenTreeBits(x3, pos + 2 + |bl|, r);
      assert WrittenTree(bits, pos, t) == Overwrite(x3, pos + 2 + |bl|, br);
      OverwriteBranches(bits, pos, bl, br);
  }

  /** The writing `preOrder`: sets the tree's bits from the cursor on, advances the cursor
      past them, and writes the leaf chars, left to right. */
  method WritePreOrder(node: Node, oosChar: CharSink, bitSet: BitSet, intObject: IntObject)
    modifies oosChar, bitSet, intObject
    ensures bitSet.bits == WrittenTree(old(bitSet.bits), old(intObject.bitPosition), node)
    ensures intObject.bitPosition == old(intObject.bitPosition) + |TreeBits(node)|
    ensures oosChar.chars == old(oosChar.chars) + LeafChars(node)
    decreases node
  {
    if node.Leaf? {
      bitSet.Set(intObject.bitPosition, false);
      intObject.bitPosition := intObject.bitPosition + 1;
      oosChar.WriteChar(node.ch);
      return;
    }
    bitSet.Set(intObject.bitPosition, true);
    intObject.bitPosition := intObject.bitPosition + 1;
    WritePreOrder(node.left, oosChar, bitSet, intObject);
    bitSet.Set(intObject.bitPosition, true);
    intObject.bitPosition := intObject.bitPosition + 1;
    WritePreOrder(node.right, oosChar, bitSet, intObject);
  }

  lemma OverwriteOne(bits: seq<bool>, pos: nat, v: bool)
    ensures Overwrite(bits, pos, [v]) == SetBit(bits, pos, v)
  {
    assert [v][..0] == [];
  }

  /** Setting a bit, writing a, setting the next bit and writing b writes true, a, true, b. */
  lemma OverwriteBranches(bits: seq<bool>, pos: nat, a: seq<bool>, b: seq<bool>)
    ensures Overwrite(SetBit(Overwrite(SetBit(bits, pos, true), pos + 1, a), pos + 1 + |a|, true), pos + 2 + |a|, b)
      == Overwrite(bits, pos, [true] + a + [true] + b)
  {
    var x1 := SetBit(bits, pos, true);
    OverwriteOne(bits, pos, true);
    var x2 := Overwrite(x1, pos + 1, a);
    OverwriteConcat(bits, pos, [true], a);
    assert x2 == Overwrite(bits, pos, [true] + a);
    var x3 := SetBit(x2, pos + 1 + |a|, true);
    OverwriteOne(x2, pos + 1 + |a|, true);
    OverwriteConcat(bits, pos, [true] + a, [true]);
    assert x3 == Overwrite(bits, pos, [true] + a + [true]);
    OverwriteConcat(bits, pos, [true] + a + [true], b);
  }

  /** `serializeTree`: the preorder bits followed by one more set bit that marks the end, and
      the leaf chars in preorder. */
  method SerializeTree(node: Node) returns (tree: BitSet, chars: CharSink)
    ensures fresh(tree) && fresh(chars)
    ensures tree.bits == TreeBits(node) + [true]
    ensures chars.chars == LeafChars(node)
  {
    tree := new BitSet();
    chars := new CharSink();
    var o := new IntObject();
    ghost var bits0, pos0 := tree.bits, o.bitPosition;
    WritePreOrder(node, chars, tree, o);
    WrittenTreeBits(bits0, pos0, node);
    OverwriteEmpty(TreeBits(node));
    assert tree.bits == TreeBits(node) && o.bitPosition == |TreeBits(node)|;
    tree.Set(o.bitPosition, true);
    SetBitAppends(TreeBits(node), true);
  }

  /** The outcome of reading a tree: the tree, the bit position after it and the number of
      chars consumed so far. */
  datatype Parsed = Parsed(node: Node, next: nat, nextChar: nat)

  /** What the reading `preOrder` does from bit position pos with cpos chars already read.
      An unset bit (positions past the stored bits read as unset) is a leaf whose char is
      read next; a set bit is a merged node whose left subtree starts one bit on and whose
      right subtree starts one bit after the left subtree ends, without looking at the bit
      in between. Running out of chars is the stream's end-of-file exception. */
  function ReadTree(bits: seq<bool>, pos: nat, chars: seq<char>, cpos: nat): (r: Result<Parsed>)
    ensures r.Success? ==> r.value.next > pos
    ensures r.Failure? ==> r.error == EndOfFile
    decreases TrueCount(bits, pos)
  {
    if !GetBit(bits, pos) then
      if cpos < |chars| then Success(Parsed(Leaf(chars[cpos], 0), pos + 1, cpos + 1))
      else Failure(EndOfFile)
    else
      TrueCountMonotone(bits, pos, pos + 1);
      match ReadTree(bits, pos + 1, chars, cpos)
      case Failure(e) => Failure(e)
      case Success(left) =>
        TrueCountMonotone(bits, pos, left.next + 1);
        match ReadTree(bits, left.next + 1, chars, left.nextChar)
        case Failure(e) => Failure(e)
        case Success(right) => Success(Parsed(Internal(0, left.node, right.node), right.next, right.nextChar))
  }

  /** w sits in s from position pos on. */
  predicate Occurs<T(==)>(s: seq<T>, pos: nat, w: seq<T>)
    decreases |w|
  {
    if w == [] then pos <= |s| else pos < |s| && s[pos] == w[0] && Occurs(s, pos + 1, w[1..])
  }

  /** Where a + b sits, a sits, and b sits right after it. */
  lemma {:induction false} OccursSplit<T>(s: seq<T>, pos: nat, a: seq<T>, b: seq<T>)
    requires Occurs(s, pos, a + b)
    ensures Occurs(s, pos, a) && Occurs(s, pos + |a|, b)
    decreases |a|
  {
    if a != [] {
      assert (a + b)[1..] == a[1..] + b;
      OccursSplit(s, pos + 1, a[1..], b);
    } else {
      assert a + b == b;
    }
  }

  /** A sequence holds each of its parts where that part starts. */
  lemma {:induction false} OccursInside<T>(p: seq<T>, w: seq<T>, rest: seq<T>)
    ensures Occurs(p + w + rest, |p|, w)
    decreases |w|
  {
    if w != [] {
      assert p + w + rest == (p + [w[0]]) + w[1..] + rest;
      OccursInside(p + [w[0]], w[1..], rest);
    }
  }

  lemma OccursFirst<T>(s: seq<T>, pos: nat, w: seq<T>)
    requires Occurs(s, pos, w) && |w| > 0
    ensures s[pos] == w[0]
  {
  }

  /** Where a merged node's bits sit, its first bit is set and its subtrees' bits follow. */
  lemma OccursBranches(bits: seq<bool>, pos: nat, bl: seq<bool>, br: seq<bool>)
    requires Occurs(bits, pos, [true] + bl + [true] + br)
    ensures GetBit(bits, pos) && Occurs(bits, pos + 1, bl) && Occurs(bits, pos + 2 + |bl|, br)
  {
    OccursSplit(bits, pos, [true] + bl + [true], br);
    OccursSplit(bits, pos, [true] + bl, [true]);
    OccursSplit(bits, pos, [true], bl);
    OccursFirst(bits, pos, [true]);
  }

  /** An unset bit is read as a leaf holding the next char. */
  lemma ReadLeaf(t: Node, bits: seq<bool>, pos: nat, chars: seq<char>, cpos: nat)
    requires t.Leaf? && !GetBit(bits, pos) && cpos < |chars| && chars[cpos] == t.ch
    ensures ReadTree(bits, pos, chars, cpos) ==
      Success(Parsed(Erase(t), pos + |TreeBits(t)|, cpos + |LeafChars(t)|))
  {
  }

  /** A merged node is read as its left subtree followed, one bit later, by its right one:
      when both subtrees read back from where they were written, the node does too. */
  lemma ReadBranches(t: Node, bits: seq<bool>, pos: nat, chars: seq<char>, cpos: nat)
    requires t.Internal? && GetBit(bits, pos)
    requires ReadTree(bits, pos + 1, chars, cpos) ==
      Success(Parsed(Erase(t.left), pos + 1 + |TreeBits(t.left)|, cpos + |LeafChars(t.left)|))
    requires ReadTree(bits, pos + 2 + |TreeBits(t.left)|, chars, cpos + |LeafChars(t.left)|) ==
      Success(Parsed(Erase(t.right), pos + 2 + |TreeBits(t.left)| + |TreeBits(t.right)|,
                     cpos + |LeafChars(t.left)| + |LeafChars(t.right)|))
    ensures ReadTree(bits, pos, chars, cpos) ==
      Success(Parsed(Erase(t), pos + |TreeBits(t)|, cpos + |LeafChars(t)|))
  {
  }

  /** Reading back what was written for t, from anywhere in a bit store and a char stream,
      gives t without its frequencies and ends right after t's bits and chars. */
  lemma {:induction false} ReadTreeInverts(t: Node, bits: seq<bool>, pos: nat, chars: seq<char>, cpos: nat)
    requires Occurs(bits, pos, TreeBits(t)) && Occurs(chars, cpos, LeafChars(t))
    ensures ReadTree(bits, pos, chars, cpos) ==
      Success(Parsed(Erase(t), pos + |TreeBits(t)|, cpos + |LeafChars(t)|))
    decreases t
  {
    match t
    case Leaf(c, _) =>
      OccursFirst(bits, pos, [false]);
      OccursFirst(chars, cpos, [c]);
      ReadLeaf(t, bits, pos, chars, cpos);
    case Internal(_, l, r) =>
      OccursBranches(bits, pos, TreeBits(l), TreeBits(r));
      OccursSplit(chars, cpos, LeafChars(l), LeafChars(r));
      ReadTreeInverts(l, bits, pos + 1, chars, cpos);
      ReadTreeInverts(r, bits, pos + 2 + |TreeBits(l)|, chars, cpos + |LeafChars(l)|);
      ReadBranches(t, bits, pos, chars, cpos);
  }

  /** The tree a serialised bit set and char stream decode to, or the exception. */
  function Deserialized(bits: seq<bool>, chars: seq<char>): Result<Node>
  {
    match ReadTree(bits, 0, chars, 0)
    case Success(p) => Success(p.node)
    case Failure(e) => Failure(e)
  }

  /** Deserialising what `serializeTree` writes gives the tree back, frequencies aside, and
      leaves the cursor on the end marker with every char read. */
  lemma TreeRoundTrip(t: Node)
    ensures ReadTree(TreeBits(t) + [true], 0, LeafChars(t), 0) ==
      Success(Parsed(Erase(t), |TreeBits(t)|, |LeafChars(t)|))
    ensures (TreeBits(t) + [true])[|TreeBits(t)|]
    ensures Deserialized(TreeBits(t) + [true], LeafChars(t)) == Success(Erase(t))
  {
    var bits := TreeBits(t) + [true];
    OccursInside([], TreeBits(t), [true]);
    OccursInside([], LeafChars(t), []);
    assert [] + TreeBits(t) + [true] == bits;
    assert [] + LeafChars(t) + [] == LeafChars(t);
    ReadTreeInverts(t, bits, 0, LeafChars(t), 0);
    assert ReadTree(bits, 0, LeafChars(t), 0) == Success(Parsed(Erase(t), |TreeBits(t)|, |LeafChars(t)|));
    assert bits[|TreeBits(t)|];
  }

  /** The reading `preOrder`: builds the tree ReadTree describes, moving the cursor and the
      char stream along as it goes. */
  method ReadPreOrder(bitSet: BitSet, oisChar: CharSource, o: IntObject) returns (r: Result<Node>)
    modifies oisChar, o
    ensures var p := ReadTree(bitSet.bits, old(o.bitPosition), oisChar.chars, old(oisChar.pos));
      && (r.Success? <==> p.Success?)
      && (r.Failure? ==> r.error == p.error)
      && (r.Success? ==> r.value == p.value.node && o.bitPosition == p.value.next && oisChar.pos == p.value.nextChar)
    decreases TrueCount(bitSet.bits, o.bitPosition)
  {
    ghost var pos0 := o.bitPosition;
    if !bitSet.Get(o.bitPosition) {
      o.bitPosition := o.bitPosition + 1;
      var c := oisChar.ReadChar();
      if c.None? {
        return Failure(EndOfFile);
      }
      return Success(Leaf(c.value, 0));
    }
    TrueCountMonotone(bitSet.bits, o.bitPosition, o.bitPosition + 1);
    o.bitPosition := o.bitPosition + 1;
    var left := ReadPreOrder(bitSet, oisChar, o);
    if left.Failure? {
      return Failure(left.error);
    }
    TrueCountMonotone(bitSet.bits, pos0, o.bitPosition + 1);
    o.bitPosition := o.bitPosition + 1;
    var right := ReadPreOrder(bitSet, oisChar, o);
    if right.Failure? {
      return Failure(right.error);
    }
    return Success(Internal(0, left.value, right.value));
  }

  /** `deserializeTree`: reads the tree from a stored bit set and char stream, cursor at 0. */
  method DeserializeTree(bitSet: BitSet, chars: seq<char>) returns (r: Result<Node>)
    ensures r == Deserialized(bitSet.bits, chars)
  {
    var oisChar := new CharSource(chars);
    var o := new IntObject();
    r := ReadPreOrder(bitSet, oisChar, o);
  }
}
