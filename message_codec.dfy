/** Encoded messages on the wire (`getBitSet`, `decodeMessage`): the '0'/'1' string of an
    encoded message becomes a BitSet closed by an end-marking set bit, and decoding walks
    the tree from the root once per char. */
module MessageCodec {
  import opened Results
  import opened Streams
  import opened HuffmanTree
  import opened HuffmanCodes
  import opened TreeCodec

  /** The bits `getBitSet` sets for an encoded message: '0' unsets a bit, any other char sets it. */
  function MessageBits(m: string): (bits: seq<bool>)
    ensures |bits| == |m|
  {
    seq(|m|, i requires 0 <= i < |m| => m[i] != '0')
  }

  /** Bit i is set exactly when char i of the message is not '0', the end marker sits at
      index |m|, and so `length()` is one more than the message length. */
  lemma MarkedLength(m: string)
    ensures Spells(MessageBits(m) + [true], 0, m)
    ensures GetBit(MessageBits(m) + [true], |m|)
    ensures BitLength(MessageBits(m) + [true]) == |m| + 1
  {
    var bits := MessageBits(m) + [true];
    forall k | 0 <= k < |m|
      ensures GetBit(bits, 0 + k) == (m[k] != '0')
    {
      assert bits[k] == MessageBits(m)[k];
    }
  }

  /** `getBitSet`: one bit per char of the encoded message, then one set bit that marks the
      end, so that `length() - 1` is the message length. */
  method GetBitSet(message: string) returns (bitSet: BitSet)
    ensures fresh(bitSet)
    ensures bitSet.bits == MessageBits(message) + [true]
    ensures bitSet.Length() == |message| + 1
  {
    bitSet := new BitSet();
    var i := 0;
    while i < |message|
      invariant i <= |message|
      invariant bitSet.bits == MessageBits(message[..i])
    {
      if message[i] == '0' {
        bitSet.Set(i, false);
      } else {
        bitSet.Set(i, true);
      }
      assert MessageBits(message[..i + 1]) == MessageBits(message[..i]) + [message[i] != '0'];
      i := i + 1;
    }
    assert message[..i] == message;
    bitSet.Set(i, true);
    MarkedLength(message);
  }

  /** One walk of the inner decoding loop from bit i: a clear bit goes left, a set bit goes
      right, until a leaf is reached. Gives the leaf's char and the position after the walk. */
  function Walk(t: Node, bits: seq<bool>, i: nat): (r: (char, nat))
    ensures r.1 >= i
    ensures t.Internal? ==> r.1 > i
  {
    match t
    case Leaf(c, _) => (c, i)
    case Internal(_, l, r) => if !GetBit(bits, i) then Walk(l, bits, i + 1) else Walk(r, bits, i + 1)
  }

  /** The decoded chars from bit i while i < n. A root that is a leaf never moves the
      cursor, so with bits left to decode the loop never ends. */
  function DecodeFrom(root: Node, bits: seq<bool>, i: nat, n: int): Result<string>
    decreases n - i
  {
    if n <= i then Success([])
    else if root.Leaf? then Failure(NonTerminating)
    else
      var (c, j) := Walk(root, bits, i);
      Prepend([c], DecodeFrom(root, bits, j, n))
  }

  function Prepend(s: string, r: Result<string>): Result<string>
  {
    match r
    case Success(v) => Success(s + v)
    case Failure(e) => Failure(e)
  }

  lemma PrependTwice(a: string, b: string, r: Result<string>)
    ensures Prepend(a, Prepend(b, r)) == Prepend(a + b, r)
    ensures Prepend([], r) == r
  {
    if r.Success? {
      assert a + (b + r.value) == (a + b) + r.value;
      assert [] + r.value == r.value;
    }
  }

  /** The bits from position i on spell e: a clear bit for each '0', a set bit otherwise.
      Positions are read through GetBit, as the decoder reads them, so a position past the
      stored bits spells a '0'. TreeCodec.Occurs, by contrast, asks for stored elements equal
      to a word of the same element type. */
  predicate Spells(bits: seq<bool>, i: nat, e: string)
  {
    forall k :: 0 <= k < |e| ==> GetBit(bits, i + k) == (e[k] != '0')
  }

  lemma SpellsSplit(bits: seq<bool>, i: nat, a: string, b: string)
    requires Spells(bits, i, a + b)
    ensures Spells(bits, i, a) && Spells(bits, i + |a|, b)
  {
    forall k | 0 <= k < |a|
      ensures GetBit(bits, i + k) == (a[k] != '0')
    {
      assert (a + b)[k] == a[k];
    }
    forall k | 0 <= k < |b|
      ensures GetBit(bits, i + |a| + k) == (b[k] != '0')
    {
      assert (a + b)[|a| + k] == b[k];
      assert GetBit(bits, i + (|a| + k)) == ((a + b)[|a| + k] != '0');
    }
  }

  /** What `decodeMessage` computes from a tree and a stored message BitSet: it decodes
      until the cursor reaches `length() - 1`, the end marker. */
  function Decode(root: Node, bits: seq<bool>): Result<string>
  {
    DecodeFrom(root, bits, 0, BitLength(bits) - 1)
  }

  /** `decodeMessage`: walks the tree from the root once per char and appends the leaf's
      char. With a single-leaf tree the Java loop never advances its cursor and grows its
      output until memory runs out; that case is reported as NonTerminating. */
  method DecodeMessage(node: Node, bitSet: BitSet) returns (r: Result<string>)
    ensures r == Decode(node, bitSet.bits)
  {
    var n := bitSet.Length() - 1;
    if node.Leaf? && 0 < n {
      return Failure(NonTerminating);
    }
    var decoded := "";
    var i := 0;
    PrependTwice([], [], DecodeFrom(node, bitSet.bits, i, n));
    while i < n
      invariant Decode(node, bitSet.bits) == Prepend(decoded, DecodeFrom(node, bitSet.bits, i, n))
      decreases n - i
    {
      ghost var start := i;
      var temp := node;
      while temp.Internal?
        invariant Walk(temp, bitSet.bits, i) == Walk(node, bitSet.bits, start)
        invariant start <= i && (i == start ==> temp == node)
        decreases temp
      {
        if !bitSet.Get(i) {
          temp := temp.left;
        } else {
          temp := temp.right;
        }
        i := i + 1;
      }
      PrependTwice(decoded, [temp.ch], DecodeFrom(node, bitSet.bits, i, n));
      decoded := decoded + [temp.ch];
    }
    r := Success(decoded);
    assert decoded + [] == decoded;
  }

  /** Following a path through the bits that spell it reaches the path's leaf. */
  lemma {:induction false} WalkFollowsPath(t: Node, p: string, c: char, bits: seq<bool>, i: nat)
    requires PathTo(t, p, c) && Spells(bits, i, p)
    ensures Walk(t, bits, i) == (c, i + |p|)
    decreases t
  {
    match t
    case Leaf(_, _) =>
    case Internal(_, l, r) =>
      assert p == [p[0]] + p[1..];
      SpellsSplit(bits, i, [p[0]], p[1..]);
      assert GetBit(bits, i + 0) == (p[0] != '0');
      if p[0] == '0' {
        WalkFollowsPath(l, p[1..], c, bits, i + 1);
      } else {
        WalkFollowsPath(r, p[1..], c, bits, i + 1);
      }
  }

  lemma CodeIsPath(root: Node, c: char)
    requires c in Codes(root, "")
    ensures PathTo(root, Codes(root, "")[c], c)
  {
    CodesArePaths(root, "");
    assert Codes(root, "")[c][0..] == Codes(root, "")[c];
  }

  /** The bits of an encoded message spell the code of its first char and then the encoding
      of the rest. */
  lemma SpellsFirstCode(codes: map<char, string>, bits: seq<bool>, i: nat, m: string)
    requires m != [] && m[0] in codes
    requires Spells(bits, i, Encoded(codes, m))
    ensures Encoded(codes, m) == codes[m[0]] + Encoded(codes, m[1..])
    ensures |Encoded(codes, m)| == |codes[m[0]]| + |Encoded(codes, m[1..])|
    ensures Spells(bits, i, codes[m[0]]) && Spells(bits, i + |codes[m[0]]|, Encoded(codes, m[1..]))
  {
    assert m == [m[0]] + m[1..];
    EncodedFirst(codes, m[0], m[1..]);
    SpellsSplit(bits, i, codes[m[0]], Encoded(codes, m[1..]));
  }

  /** When the bits from i spell a code word that is the path to the first char of m, and
      decoding goes on from right after the word to the rest of m, decoding from i gives m. */
  lemma DecodeFirstCode(root: Node, bits: seq<bool>, i: nat, n: int, code: string, m: string)
    requires root.Internal? && m != [] && PathTo(root, code, m[0]) && Spells(bits, i, code)
    requires i + |code| <= n
    requires DecodeFrom(root, bits, i + |code|, n) == Success(m[1..])
    ensures DecodeFrom(root, bits, i, n) == Success(m)
  {
    assert |code| > 0 by {
      assert PathTo(root, code, m[0]);
    }
    WalkFollowsPath(root, code, m[0], bits, i);
    assert [m[0]] + m[1..] == m;
  }

  /** Decoding the bits of an encoded message gives the message back, when the tree is not a
      single leaf and every char of the message has a code that is its path. */
  lemma {:induction false} DecodeCodedInverts(root: Node, codes: map<char, string>, bits: seq<bool>, i: nat, m: string)
    requires root.Internal?
    requires forall c :: c in codes ==> PathTo(root, codes[c], c)
    requires forall k :: 0 <= k < |m| ==> m[k] in codes
    requires Spells(bits, i, Encoded(codes, m))
    ensures DecodeFrom(root, bits, i, i + |Encoded(codes, m)|) == Success(m)
    decreases |m|
  {
    if m == [] {
      assert Encoded(codes, m) == [];
    } else {
      assert m[0] in codes;
      SpellsFirstCode(codes, bits, i, m);
      var code := codes[m[0]];
      DecodeCodedInverts(root, codes, bits, i + |code|, m[1..]);
      DecodeFirstCode(root, bits, i, i + |code| + |Encoded(codes, m[1..])|, code, m);
    }
  }

  /** Decoding the bits of an encoded message gives the message back, when the tree is not a
      single leaf and every char of the message has a code. */
  lemma DecodeFromInverts(root: Node, bits: seq<bool>, i: nat, m: string)
    requires root.Internal?
    requires forall k :: 0 <= k < |m| ==> m[k] in Codes(root, "")
    requires Spells(bits, i, Encoded(Codes(root, ""), m))
    ensures DecodeFrom(root, bits, i, i + |Encoded(Codes(root, ""), m)|) == Success(m)
  {
    var codes := Codes(root, "");
    forall c | c in codes
      ensures PathTo(root, codes[c], c)
    {
      CodeIsPath(root, c);
    }
    DecodeCodedInverts(root, codes, bits, i, m);
  }

  /** The round trip of a message through `encodeMessage`/`addEncodedString`, `getBitSet`
      and `decodeMessage`: a tree with at least two leaves decodes what its codes encode. */
  lemma MessageRoundTrip(root: Node, m: string)
    requires root.Internal?
    requires forall k :: 0 <= k < |m| ==> m[k] in Codes(root, "")
    ensures Decode(root, MessageBits(Encoded(Codes(root, ""), m)) + [true]) == Success(m)
  {
    var codes := Codes(root, "");
    forall c | c in codes
      ensures PathTo(root, codes[c], c)
    {
      CodeIsPath(root, c);
    }
    MarkedDecodes(root, codes, m);
  }

  /** A stored message, encoded with any code table whose words are paths to their chars in
      a tree with at least two leaves, decodes back to the message. */
  lemma MarkedDecodes(root: Node, codes: map<char, string>, m: string)
    requires root.Internal?
    requires forall c :: c in codes ==> PathTo(root, codes[c], c)
    requires forall k :: 0 <= k < |m| ==> m[k] in codes
    ensures Decode(root, MessageBits(Encoded(codes, m)) + [true]) == Success(m)
  {
    var e := Encoded(codes, m);
    var bits := MessageBits(e) + [true];
    MarkedLength(e);
    DecodeCodedInverts(root, codes, bits, 0, m);
    DecodeUpToMarker(root, bits, |e|, Success(m));
  }

  /** Decoding a stored message runs up to the end marker. */
  lemma DecodeUpToMarker(root: Node, bits: seq<bool>, n: nat, r: Result<string>)
    requires BitLength(bits) == n + 1
    requires DecodeFrom(root, bits, 0, 0 + n) == r
    ensures Decode(root, bits) == r
  {
  }

  /** A tree that is a single leaf gives its char the empty code, so every message over that
      char encodes to nothing and decodes to the empty string: a non-empty message is lost. */
  lemma {:induction false} SingleLeafMessageLost(c: char, f: nat, m: string)
    requires forall k :: 0 <= k < |m| ==> m[k] == c
    ensures Encoded(Codes(Leaf(c, f), ""), m) == ""
    ensures Decode(Leaf(c, f), MessageBits(Encoded(Codes(Leaf(c, f), ""), m)) + [true]) == Success("")
    decreases |m|
  {
    if m != [] {
      SingleLeafMessageLost(c, f, m[..|m| - 1]);
    }
    MarkedLength("");
  }

  /** Dropping the frequencies, as deserialisation does, changes no walk. */
  lemma {:induction false} EraseKeepsWalks(t: Node, bits: seq<bool>, i: nat)
    ensures Walk(Erase(t), bits, i) == Walk(t, bits, i)
    decreases t
  {
    match t
    case Leaf(_, _) =>
    case Internal(_, l, r) =>
      EraseKeepsWalks(l, bits, i + 1);
      EraseKeepsWalks(r, bits, i + 1);
  }

  /** A deserialised tree decodes every bit string exactly as the tree it was written from. */
  lemma {:induction false} EraseKeepsDecoding(t: Node, bits: seq<bool>, i: nat, n: int)
    ensures DecodeFrom(Erase(t), bits, i, n) == DecodeFrom(t, bits, i, n)
    decreases n - i
  {
    if i < n && t.Internal? {
      EraseKeepsWalks(t, bits, i);
      var (_, j) := Walk(t, bits, i);
      EraseKeepsDecoding(t, bits, j, n);
    }
  }

  /** A table with at least two entries builds a tree with at least two leaves, and every
      char of the table gets a code. */
  lemma {:induction false} TableCharsHaveCodes(entries: FrequencyTable)
    requires |entries| >= 2
    ensures Huffman(entries).Success? && Huffman(entries).value.Internal?
    ensures forall c :: c in Keys(entries) ==> c in Codes(Huffman(entries).value, "")
  {
    HuffmanBuildsFullTree(entries);
    var root := Huffman(entries).value;
    assert LeafCount(root) >= 2;
    HuffmanLeafChars(entries);
    CodesCoverLeaves(root, "");
  }

  /** The whole pipeline: a table with at least two entries is built into a tree; the tree
      is serialised and read back; a message over the table's chars is encoded with the
      tree's codes, stored as a BitSet, and decoded with the tree read back. The message
      comes back unchanged. */
  lemma CompressExpandRoundTrip(entries: FrequencyTable, m: string)
    requires |entries| >= 2
    requires forall k :: 0 <= k < |m| ==> m[k] in Keys(entries)
    ensures Huffman(entries).Success?
    ensures var root := Huffman(entries).value;
      && Deserialized(TreeBits(root) + [true], LeafChars(root)) == Success(Erase(root))
      && Decode(Erase(root), MessageBits(Encoded(Codes(root, ""), m)) + [true]) == Success(m)
  {
    TableCharsHaveCodes(entries);
    var root := Huffman(entries).value;
    assert forall k :: 0 <= k < |m| ==> m[k] in Codes(root, "");
    TreeRoundTripDecodes(root, m);
  }

  /** The tree round trip and the message round trip together, for one tree. */
  lemma TreeRoundTripDecodes(root: Node, m: string)
    requires root.Internal?
    requires forall k :: 0 <= k < |m| ==> m[k] in Codes(root, "")
    ensures Deserialized(TreeBits(root) + [true], LeafChars(root)) == Success(Erase(root))
    ensures Decode(Erase(root), MessageBits(Encoded(Codes(root, ""), m)) + [true]) == Success(m)
  {
    TreeRoundTrip(root);
    MessageRoundTrip(root, m);
    var bits := MessageBits(Encoded(Codes(root, ""), m)) + [true];
    EraseKeepsDecoding(root, bits, 0, BitLength(bits) - 1);
  }
}
