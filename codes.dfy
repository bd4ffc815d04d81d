/** Code generation and message encoding (`generateCodes`, `doGenerateCode`, `encodeMessage`). */
module HuffmanCodes {
  import opened HuffmanTree

  /** p leads from the root of t down to a leaf holding c: '0' takes the left branch and
      '1' the right one. */
  predicate PathTo(t: Node, p: string, c: char)
  {
    match t
    case Leaf(ch, _) => p == [] && ch == c
    case Internal(_, l, r) =>
      |p| > 0 && ((p[0] == '0' && PathTo(l, p[1..], c)) || (p[0] == '1' && PathTo(r, p[1..], c)))
  }

  /** The entries `doGenerateCode(node, map, s)` puts into the map: every leaf's char maps to
      s followed by the path to that leaf. The left subtree is walked first, so a later leaf
      with the same char overwrites an earlier one. */
  function Codes(t: Node, s: string): map<char, string>
  {
    match t
    case Leaf(c, _) => map[c := s]
    case Internal(_, l, r) => Codes(l, s + "0") + Codes(r, s + "1")
  }

  /** A char gets a code exactly when some leaf holds it. */
  lemma {:induction false} CodesCoverLeaves(t: Node, s: string)
    ensures forall c :: c in Codes(t, s) <==> c in LeafChars(t)
  {
    match t
    case Leaf(_, _) =>
    case Internal(_, l, r) =>
      CodesCoverLeaves(l, s + "0");
      CodesCoverLeaves(r, s + "1");
  }

  /** Every code is s followed by a path to a leaf holding its char. */
  lemma {:induction false} CodesArePaths(t: Node, s: string)
    ensures forall c :: c in Codes(t, s) ==>
      s <= Codes(t, s)[c] && PathTo(t, Codes(t, s)[c][|s|..], c)
  {
    match t
    case Leaf(_, _) =>
    case Internal(_, l, r) =>
      CodesArePaths(l, s + "0");
      CodesArePaths(r, s + "1");
      forall c | c in Codes(t, s)
        ensures s <= Codes(t, s)[c] && PathTo(t, Codes(t, s)[c][|s|..], c)
      {
        var code := Codes(t, s)[c];
        var s' := if c in Codes(r, s + "1") then s + "1" else s + "0";
        assert s' <= code;
        assert code[|s|..][1..] == code[|s'|..];
      }
  }

  /** No path to a leaf extends another one: a path that is a prefix of another path is
      that same path and reaches the same leaf. */
  lemma {:induction false} PathsPrefixFree(t: Node, p1: string, c1: char, p2: string, c2: char)
    requires PathTo(t, p1, c1) && PathTo(t, p2, c2) && p1 <= p2
    ensures p1 == p2 && c1 == c2
  {
    match t
    case Leaf(_, _) =>
    case Internal(_, l, r) =>
      assert p1[0] == p2[0];
      assert p1[1..] <= p2[1..];
      if p1[0] == '0' {
        PathsPrefixFree(l, p1[1..], c1, p2[1..], c2);
      } else {
        PathsPrefixFree(r, p1[1..], c1, p2[1..], c2);
      }
      assert p1 == [p1[0]] + p1[1..];
      assert p2 == [p2[0]] + p2[1..];
  }

  /** The code of one char is never a prefix of the code of another, so an encoded message
      splits into codes in one way only. */
  lemma CodesPrefixFree(t: Node)
    ensures forall c1, c2 :: c1 in Codes(t, "") && c2 in Codes(t, "") && c1 != c2 ==>
      !(Codes(t, "")[c1] <= Codes(t, "")[c2])
  {
    CodesArePaths(t, "");
    forall c1, c2 | c1 in Codes(t, "") && c2 in Codes(t, "") && Codes(t, "")[c1] <= Codes(t, "")[c2]
      ensures c1 == c2
    {
      var p1, p2 := Codes(t, "")[c1], Codes(t, "")[c2];
      assert p1[0..] == p1 && p2[0..] == p2;
      PathsPrefixFree(t, p1, c1, p2, c2);
    }
  }

  /** The `Map<Character, String>` that `doGenerateCode` fills in place. */
  class CodeMap {
    var entries: map<char, string>

    constructor ()
      ensures entries == map[]
    {
      entries := map[];
    }

    /** `put(c, code)`. */
    method Put(c: char, code: string)
      modifies this
      ensures entries == old(entries)[c := code]
    {
      entries := entries[c := code];
    }
  }

  /** `doGenerateCode`: a leaf stores the path walked so far; a merged node recurses into its
      left child with '0' appended and then into its right child with '1' appended. */
  method DoGenerateCode(node: Node, m: CodeMap, s: string)
    modifies m
    ensures m.entries == old(m.entries) + Codes(node, s)
    decreases node
  {
    if node.Leaf? {
      m.Put(node.ch, s);
      return;
    }
    DoGenerateCode(node.left, m, s + "0");
    DoGenerateCode(node.right, m, s + "1");
    assert Codes(node, s) == Codes(node.left, s + "0") + Codes(node.right, s + "1");
  }

  /** `generateCodes`: the code table of a tree. The set of chars it is given is not read.
      Every leaf char gets a code that spells its path from the root, no code is a prefix of
      another, a tree that is a single leaf gives that leaf the empty code, and otherwise
      every code is at least one bit long. */
  method GenerateCodes(chars: set<char>, node: Node) returns (codes: map<char, string>)
    ensures forall c :: c in codes <==> c in LeafChars(node)
    ensures forall c :: c in codes ==> PathTo(node, codes[c], c)
    ensures forall c1, c2 :: c1 in codes && c2 in codes && c1 != c2 ==> !(codes[c1] <= codes[c2])
    ensures node.Leaf? ==> codes == map[node.ch := ""]
    ensures node.Internal? ==> forall c :: c in codes ==> |codes[c]| > 0
    ensures codes == Codes(node, "")
  {
    var m := new CodeMap();
    DoGenerateCode(node, m, "");
    codes := m.entries;
    assert codes == Codes(node, "");
    CodesCoverLeaves(node, "");
    CodesArePaths(node, "");
    CodesPrefixFree(node);
    forall c | c in codes
      ensures PathTo(node, codes[c], c)
    {
      assert codes[c][0..] == codes[c];
    }
  }

  /** What `stringBuilder.append(charCode.get(c))` appends: the char's code, or the four
      chars "null" when the table has none for it. */
  function CodeOf(codes: map<char, string>, c: char): string
  {
    if c in codes then codes[c] else "null"
  }

  /** The concatenated codes of a message's chars. */
  function Encoded(codes: map<char, string>, m: string): string
  {
    if m == [] then [] else Encoded(codes, m[..|m| - 1]) + CodeOf(codes, m[|m| - 1])
  }

  /** The last char of a + b and what precedes it, when b is not empty. */
  lemma DropLast(a: string, b: string)
    requires b != []
    ensures (a + b)[..|a + b| - 1] == a + b[..|b| - 1]
    ensures (a + b)[|a + b| - 1] == b[|b| - 1]
  {
  }

  lemma Associative(x: string, y: string, z: string)
    ensures (x + y) + z == x + (y + z)
  {
  }

  /** Encoding a concatenation encodes its parts one after the other. */
  lemma {:induction false} EncodedAppend(codes: map<char, string>, a: string, b: string)
    ensures Encoded(codes, a + b) == Encoded(codes, a) + Encoded(codes, b)
    decreases |b|
  {
    if b == [] {
      assert a + b == a;
    } else {
      var b', x := b[..|b| - 1], b[|b| - 1];
      DropLast(a, b);
      assert Encoded(codes, a + b) == Encoded(codes, a + b') + CodeOf(codes, x);
      EncodedAppend(codes, a, b');
      assert Encoded(codes, b) == Encoded(codes, b') + CodeOf(codes, x);
      Associative(Encoded(codes, a), Encoded(codes, b'), CodeOf(codes, x));
    }
  }

  /** An encoded message starts with the code of its first char. */
  lemma EncodedFirst(codes: map<char, string>, c: char, m: string)
    ensures Encoded(codes, [c] + m) == CodeOf(codes, c) + Encoded(codes, m)
  {
    EncodedAppend(codes, [c], m);
    assert [c][..0] == [];
  }

  /** The sum of the code lengths of a message's chars, first char first. */
  function TotalCodeLength(codes: map<char, string>, m: string): nat
  {
    if m == [] then 0 else |CodeOf(codes, m[0])| + TotalCodeLength(codes, m[1..])
  }

  /** An encoded message is as long as the codes of its chars together. */
  lemma {:induction false} EncodedLength(codes: map<char, string>, m: string)
    ensures |Encoded(codes, m)| == TotalCodeLength(codes, m)
    decreases |m|
  {
    if m != [] {
      assert m == [m[0]] + m[1..];
      EncodedFirst(codes, m[0], m[1..]);
      EncodedLength(codes, m[1..]);
    }
  }

  /** `encodeMessage`: the codes of the sentence's chars, in order. */
  method EncodeMessage(charCode: map<char, string>, sentence: string) returns (encoded: string)
    ensures encoded == Encoded(charCode, sentence)
  {
    encoded := "";
    for i := 0 to |sentence|
      invariant encoded == Encoded(charCode, sentence[..i])
    {
      assert sentence[..i + 1][..i] == sentence[..i];
      encoded := encoded + CodeOf(charCode, sentence[i]);
    }
    assert sentence[..|sentence|] == sentence;
  }
}
