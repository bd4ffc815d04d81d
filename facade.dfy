/** The static entry point the dictionary uses (`HuffmanFacade`): it counts the chars of
    every literal of an RDF graph, builds the tree and code table from the counts, and
    encodes strings with that table. */
module Facade {
  import opened Results
  import opened HuffmanTree
  import opened HuffmanCodes
  import opened MessageCodec

  /** The string counted for one literal: its text between double quotes. */
  function Quoted(literal: string): string
  {
    "\"" + literal + "\""
  }

  /** The quoted literals one after the other, in the order the graph yields them. */
  function AllText(literals: seq<string>): string
  {
    if literals == [] then [] else AllText(literals[..|literals| - 1]) + Quoted(literals[|literals| - 1])
  }

  /** How often c occurs in text. */
  function Occurrences(text: string, c: char): nat
  {
    if text == [] then 0
    else Occurrences(text[..|text| - 1], c) + (if text[|text| - 1] == c then 1 else 0)
  }

  /** `containsKey`/`get` on the count table: the index of c's entry, if it has one. */
  function Find(table: FrequencyTable, c: char): (r: Option<nat>)
    ensures r.Some? ==> r.value < |table| && table[r.value].0 == c
    ensures r.None? ==> c !in Keys(table)
  {
    if table == [] then None
    else
      var r := Find(table[..|table| - 1], c);
      if r.Some? then r
      else if table[|table| - 1].0 == c then Some(|table| - 1)
      else None
  }

  /** One step of the counting loop: c's count goes up by one, or c joins the end of the
      table with count 1 (a `LinkedHashMap` keeps a key where it was first put). */
  function Bump(table: FrequencyTable, c: char): FrequencyTable
  {
    match Find(table, c)
    case Some(k) => table[k := (c, table[k].1 + 1)]
    case None => table + [(c, 1)]
  }

  /** The count table after counting text, char by char. */
  function Counted(text: string): FrequencyTable
  {
    if text == [] then [] else Bump(Counted(text[..|text| - 1]), text[|text| - 1])
  }

  /** What a count table promises about the text it counts: one entry per distinct char,
      and each entry's count is how often its char occurs. */
  predicate CountsOf(table: FrequencyTable, text: string)
  {
    && (forall j, k :: 0 <= j < k < |table| ==> table[j].0 != table[k].0)
    && (forall k :: 0 <= k < |table| ==> table[k].1 == Occurrences(text, table[k].0) >= 1)
    && (forall c :: c in Keys(table) <==> c in text)
  }

  lemma {:induction false} BumpCounts(table: FrequencyTable, text: string, c: char)
    requires CountsOf(table, text)
    ensures CountsOf(Bump(table, c), text + [c])
  {
    var text' := text + [c];
    assert text'[..|text'| - 1] == text;
    forall d
      ensures Occurrences(text', d) == Occurrences(text, d) + (if d == c then 1 else 0)
    {
    }
    forall d
      ensures d in text' <==> d in text || d == c
    {
      if d in text' && d != c {
        var i :| 0 <= i < |text'| && text'[i] == d;
        assert text[i] == d;
      }
    }
    var t := Bump(table, c);
    match Find(table, c)
    case Some(k) =>
      assert forall j :: 0 <= j < |table| ==> t[j].0 == table[j].0;
      assert Keys(t) == Keys(table);
    case None =>
      assert Keys(t) == Keys(table) + [c];
      assert Occurrences(text, c) == 0 by {
        OccurrencesAbsent(text, c);
      }
  }

  lemma {:induction false} OccurrencesAbsent(text: string, c: char)
    requires c !in text
    ensures Occurrences(text, c) == 0
    decreases |text|
  {
    if text != [] {
      OccurrencesAbsent(text[..|text| - 1], c);
    }
  }

  /** The counting loop's table: one entry per distinct char of the text, each with the
      number of times its char occurs. */
  lemma {:induction false} CountedCounts(text: string)
    ensures CountsOf(Counted(text), text)
    decreases |text|
  {
    if text != [] {
      var init := text[..|text| - 1];
      CountedCounts(init);
      BumpCounts(Counted(init), init, text[|text| - 1]);
      assert init + [text[|text| - 1]] == text;
    }
  }

  /** The counting loop of `findCharacterCounts`: every char of every quoted literal bumps
      its entry in a fresh `LinkedHashMap`. */
  method CountCharacters(literals: seq<string>) returns (table: FrequencyTable)
    ensures table == Counted(AllText(literals))
  {
    table := [];
    for i := 0 to |literals|
      invariant table == Counted(AllText(literals[..i]))
    {
      var s := Quoted(literals[i]);
      ghost var before := AllText(literals[..i]);
      assert before + s[..0] == before;
      for j := 0 to |s|
        invariant table == Counted(before + s[..j])
      {
        CountedSnoc(before, s, j);
        table := Bump(table, s[j]);
      }
      AllTextSnoc(literals, i);
    }
    assert literals[..|literals|] == literals;
  }

  lemma CountedLast(text: string, c: char)
    ensures Counted(text + [c]) == Bump(Counted(text), c)
  {
    assert (text + [c])[..|text|] == text;
  }

  lemma CountedSnoc(before: string, s: string, j: nat)
    requires j < |s|
    ensures Counted(before + s[..j + 1]) == Bump(Counted(before + s[..j]), s[j])
  {
    var t := before + s[..j + 1];
    assert s[..j + 1] == s[..j] + [s[j]];
    assert t == (before + s[..j]) + [s[j]];
    CountedLast(before + s[..j], s[j]);
  }

  lemma AllTextSnoc(literals: seq<string>, i: nat)
    requires i < |literals|
    ensures AllText(literals[..i + 1]) == AllText(literals[..i]) + Quoted(literals[i])
    ensures var s := Quoted(literals[i]); s[..|s|] == s
  {
    assert literals[..i + 1][..i] == literals[..i];
  }

  /** A graph with literals gives a non-empty table; a graph without any gives an empty one. */
  lemma CountedEmpty(literals: seq<string>)
    ensures |Counted(AllText(literals))| == 0 <==> literals == []
  {
    CountedCounts(AllText(literals));
    if literals != [] {
      var last := literals[|literals| - 1];
      assert AllText(literals)[|AllText(literals)| - 1] == '"';
      assert '"' in Keys(Counted(AllText(literals)));
    }
  }

  /** `HuffmanFacade`'s static state: the tree root (null until a tree is built), the code
      table and the encoded strings collected so far. */
  class HuffmanFacade {
    var treeRoot: Option<Node>
    var charCode: map<char, string>
    var encodedStrings: seq<string>

    constructor ()
      ensures treeRoot == None && charCode == map[] && encodedStrings == []
    {
      treeRoot := None;
      charCode := map[];
      encodedStrings := [];
    }

    /** `findCharacterCounts`: counts the chars of the quoted literals, drops the strings
        encoded so far, then builds the tree and its codes. With no literal at all the table
        is empty and `buildTree` throws; the strings are already dropped by then, and the
        old tree and codes stay. */
    method FindCharacterCounts(literals: seq<string>) returns (r: Result<()>)
      modifies this
      ensures encodedStrings == []
      ensures r.Failure? <==> literals == []
      ensures r.Failure? ==> r.error == NoSuchElement && treeRoot == old(treeRoot) && charCode == old(charCode)
      ensures r.Success? ==>
        && treeRoot == Some(Huffman(Counted(AllText(literals))).value)
        && charCode == Codes(treeRoot.value, "")
        && (forall c :: c in charCode <==> c in AllText(literals))
    {
      var mapCharToCount := CountCharacters(literals);
      encodedStrings := [];
      var built := BuildTree(mapCharToCount);
      CountedEmpty(literals);
      if built.Failure? {
        HuffmanBuildsFullTree(mapCharToCount);
        return Failure(built.error);
      }
      treeRoot := Some(built.value);
      charCode := GenerateCodes(set k | 0 <= k < |mapCharToCount| :: mapCharToCount[k].0, built.value);
      HuffmanLeafChars(mapCharToCount);
      CountedCounts(AllText(literals));
      return Success(());
    }

    /** `addEncodedString`: appends the encoding of str when every char of it has a code;
        a char without one (a literal mixed with a URI) leaves everything as it was. */
    method AddEncodedString(str: string) returns (ok: bool)
      modifies this
      ensures ok <==> forall i :: 0 <= i < |str| ==> str[i] in charCode
      ensures ok ==> encodedStrings == old(encodedStrings) + [Encoded(charCode, str)]
      ensures !ok ==> encodedStrings == old(encodedStrings)
      ensures treeRoot == old(treeRoot) && charCode == old(charCode)
    {
      var binaryCode := "";
      for i := 0 to |str|
        invariant forall j :: 0 <= j < i ==> str[j] in charCode
        invariant binaryCode == Encoded(charCode, str[..i])
      {
        if str[i] !in charCode {
          return false;
        }
        assert str[..i + 1][..i] == str[..i];
        binaryCode := binaryCode + charCode[str[i]];
      }
      assert str[..|str|] == str;
      encodedStrings := encodedStrings + [binaryCode];
      return true;
    }
  }

  /** A string over the literals' chars, once encoded and stored, decodes back with the tree
      the facade built, provided the literals hold at least two distinct chars. */
  lemma StoredStringRoundTrip(literals: seq<string>, str: string)
    requires |Counted(AllText(literals))| >= 2
    requires forall i :: 0 <= i < |str| ==> str[i] in AllText(literals)
    ensures var root := Huffman(Counted(AllText(literals))).value;
      Decode(root, MessageBits(Encoded(Codes(root, ""), str)) + [true]) == Success(str)
  {
    var table := Counted(AllText(literals));
    CountedCounts(AllText(literals));
    TableCharsHaveCodes(table);
    MessageRoundTrip(Huffman(table).value, str);
  }
}
