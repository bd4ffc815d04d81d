/** The mutable library objects the codec threads through its traversals:
    java.util.BitSet, the `IntObject` cursor, and the char streams written with
    `ObjectOutputStream.writeChar` and read with `ObjectInputStream.readChar`. */
module Streams {
  import opened Results

  /** A bit store holds an explicit prefix; every position past it reads as false. */
  function GetBit(bits: seq<bool>, i: nat): bool
  {
    i < |bits| && bits[i]
  }

  /** `BitSet.set(i, v)`: position i takes value v, every other position keeps its value. */
  function SetBit(bits: seq<bool>, i: nat, v: bool): (r: seq<bool>)
    ensures |r| == if i < |bits| then |bits| else i + 1
    decreases i - |bits|
  {
    if i < |bits| then bits[i := v] else SetBit(bits + [false], i, v)
  }

  /** Setting the position right after the stored bits appends one bit. */
  lemma SetBitAppends(bits: seq<bool>, v: bool)
    ensures SetBit(bits, |bits|, v) == bits + [v]
  {
    assert SetBit(bits, |bits|, v) == (bits + [false])[|bits| := v];
  }

  /** After `set(i, v)` position i reads v and every other position reads as before. */
  lemma SetBitReads(bits: seq<bool>, i: nat, v: bool)
    ensures GetBit(SetBit(bits, i, v), i) == v
    ensures forall j: nat :: j != i ==> GetBit(SetBit(bits, i, v), j) == GetBit(bits, j)
    decreases i - |bits|
  {
    if i >= |bits| {
      SetBitReads(bits + [false], i, v);
    }
  }

  /** The bits after `w` is written one `set` call at a time at positions pos, pos + 1, ... */
  function Overwrite(bits: seq<bool>, pos: nat, w: seq<bool>): (r: seq<bool>)
    ensures |r| == if w == [] || pos + |w| <= |bits| then |bits| else pos + |w|
    decreases |w|
  {
    if w == [] then bits else SetBit(Overwrite(bits, pos, w[..|w| - 1]), pos + |w| - 1, w[|w| - 1])
  }

  /** After the writes, the written positions hold w and every other position is as before. */
  lemma {:induction false} OverwriteReads(bits: seq<bool>, pos: nat, w: seq<bool>)
    ensures forall j: nat ::
      GetBit(Overwrite(bits, pos, w), j) == (if pos <= j < pos + |w| then w[j - pos] else GetBit(bits, j))
    decreases |w|
  {
    if w != [] {
      OverwriteReads(bits, pos, w[..|w| - 1]);
      SetBitReads(Overwrite(bits, pos, w[..|w| - 1]), pos + |w| - 1, w[|w| - 1]);
    }
  }

  /** Writing a + b is writing a and then writing b right after it. */
  lemma {:induction false} OverwriteConcat(bits: seq<bool>, pos: nat, a: seq<bool>, b: seq<bool>)
    ensures Overwrite(bits, pos, a + b) == Overwrite(Overwrite(bits, pos, a), pos + |a|, b)
    decreases |b|
  {
    if b == [] {
      assert a + b == a;
    } else {
      var b' := b[..|b| - 1];
      assert (a + b)[..|a + b| - 1] == a + b';
      OverwriteConcat(bits, pos, a, b');
    }
  }

  /** Writing bits onto an empty store at position 0 gives exactly those bits. */
  lemma {:induction false} OverwriteEmpty(w: seq<bool>)
    ensures Overwrite([], 0, w) == w
  {
    var r := Overwrite([], 0, w);
    OverwriteReads([], 0, w);
    forall j | 0 <= j < |w|
      ensures r[j] == w[j]
    {
      assert GetBit(r, j) == w[j];
    }
  }

  /** `BitSet.length()`: one past the highest set bit, 0 when no bit is set. */
  function BitLength(bits: seq<bool>): (n: nat)
    ensures n <= |bits|
    ensures n > 0 ==> bits[n - 1]
    ensures forall j :: n <= j < |bits| ==> !bits[j]
  {
    if |bits| == 0 then 0
    else if bits[|bits| - 1] then |bits|
    else BitLength(bits[..|bits| - 1])
  }

  /** The number of set bits at or after position `pos`. */
  function TrueCount(bits: seq<bool>, pos: nat): nat
    decreases |bits| - pos
  {
    if pos >= |bits| then 0 else (if bits[pos] then 1 else 0) + TrueCount(bits, pos + 1)
  }

  /** Moving the position forward never uncovers more set bits; stepping over a set bit drops one. */
  lemma {:induction false} TrueCountMonotone(bits: seq<bool>, p: nat, q: nat)
    requires p <= q
    ensures TrueCount(bits, q) <= TrueCount(bits, p)
    ensures p < q && GetBit(bits, p) ==> TrueCount(bits, q) < TrueCount(bits, p)
    decreases q - p
  {
    if p < q {
      TrueCountMonotone(bits, p + 1, q);
    }
  }

  /** java.util.BitSet. */
  class BitSet {
    var bits: seq<bool>

    constructor ()
      ensures bits == []
    {
      bits := [];
    }

    function Get(i: nat): bool
      reads this
    {
      GetBit(bits, i)
    }

    function Length(): nat
      reads this
    {
      BitLength(bits)
    }

    method Set(i: nat, v: bool)
      modifies this
      ensures bits == SetBit(old(bits), i, v)
    {
      bits := SetBit(bits, i, v);
    }
  }

  /** The mutable cursor shared by the recursive tree traversals. */
  class IntObject {
    var bitPosition: nat

    constructor ()
      ensures bitPosition == 0
    {
      bitPosition := 0;
    }
  }

  /** The char file: an output stream that chars are appended to. */
  class CharSink {
    var chars: seq<char>

    constructor ()
      ensures chars == []
    {
      chars := [];
    }

    method WriteChar(c: char)
      modifies this
      ensures chars == old(chars) + [c]
    {
      chars := chars + [c];
    }
  }

  /** The char file read back: the chars written, and how many have been consumed. */
  class CharSource {
    const chars: seq<char>
    var pos: nat

    constructor (written: seq<char>)
      ensures chars == written && pos == 0
    {
      chars := written;
      pos := 0;
    }

    /** `readChar()`: the next char, or `None` (an EOFException) when every char has been read. */
    method ReadChar() returns (r: Option<char>)
      modifies this
      ensures old(pos) < |chars| ==> r == Some(chars[old(pos)]) && pos == old(pos) + 1
      ensures old(pos) >= |chars| ==> r == None && pos == old(pos)
    {
      if pos < |chars| {
        r := Some(chars[pos]);
        pos := pos + 1;
      } else {
        r := None;
      }
    }
  }
}
