// Bytes, bits on the wire and the 9-bit frames of MIPI DBI Type C Option 1.
module Bytes {
  type byte = bv8

  // A C pointer that is only read: offset to byte. Offsets beyond the caller's
  // length still denote memory, so reads past the end can be talked about.
  type Ptr = nat -> byte

  // One unit received by the panel: the D/C flag (false = command) and a byte.
  datatype Word = Word(dc: bool, data: byte)

  const NOP := Word(false, 0)

  // The 9-bit frame that starts off bits into the byte hi and ends in the byte lo,
  // most significant bit first: a D/C bit, then eight data bits.
  function Cut(hi: byte, lo: byte, off: nat): Word
    requires off < 8
  {
    var x := ((hi as bv16) << 8) | (lo as bv16);
    var frame := if off == 0 then x >> 7 else if off == 1 then x >> 6 else if off == 2 then x >> 5
                 else if off == 3 then x >> 4 else if off == 4 then x >> 3 else if off == 5 then x >> 2
                 else if off == 6 then x >> 1 else x;
    Word(frame & 0x100 != 0, (frame & 0xff) as byte)
  }

  // Frame k of a byte stream occupies the bits [9k, 9k + 9).
  function FrameAt(wire: seq<byte>, k: nat): Word
    requires 9 * (k + 1) <= 8 * |wire|
  {
    Cut(wire[9 * k / 8], wire[9 * k / 8 + 1], 9 * k % 8)
  }

  // The receiver of Type C Option 1: cuts the byte stream into 9-bit frames.
  function Receive(wire: seq<byte>): (ws: seq<Word>)
    ensures |ws| == 8 * |wire| / 9
  {
    seq(8 * |wire| / 9, k requires 0 <= k < 8 * |wire| / 9 => FrameAt(wire, k))
  }

  // The bits of an unfinished frame after the last whole one.
  function Unfinished(wire: seq<byte>): nat { 8 * |wire| % 9 }

  lemma ReceiveConcat(a: seq<byte>, b: seq<byte>)
    requires |a| % 9 == 0
    ensures Receive(a + b) == Receive(a) + Receive(b)
    ensures Unfinished(a + b) == Unfinished(b)
  {
    hide Cut;
    var m := |a| / 9;
    assert |a| == 9 * m;
    assert |Receive(a + b)| == 8 * m + |Receive(b)|;
    forall k | 0 <= k < |Receive(b)|
      ensures Receive(a + b)[8 * m + k] == Receive(b)[k]
    {
      assert 9 * (8 * m + k) / 8 == 9 * m + 9 * k / 8;
      assert 9 * (8 * m + k) % 8 == 9 * k % 8;
    }
  }

  // Neighbours exchanged: the two halves of each 16-bit word in memory.
  function SwapPairs<T>(s: seq<T>): (r: seq<T>)
    ensures |r| == |s|
  {
    if |s| < 2 then s else [s[1], s[0]] + SwapPairs(s[2..])
  }

  lemma {:induction false} SwapPairsAt<T>(s: seq<T>, i: nat)
    requires |s| % 2 == 0 && i < |s|
    ensures SwapPairs(s)[i] == s[if i % 2 == 0 then i + 1 else i - 1]
  {
    if i >= 2 {
      SwapPairsAt(s[2..], i - 2);
    }
  }

  lemma {:induction false} SwapPairsConcat<T>(a: seq<T>, b: seq<T>)
    requires |a| % 2 == 0
    ensures SwapPairs(a + b) == SwapPairs(a) + SwapPairs(b)
  {
    if a == [] {
      assert a + b == b;
    } else {
      SwapPairsConcat(a[2..], b);
      assert (a + b)[2..] == a[2..] + b;
    }
  }

  // The bytes [lo, hi) behind a pointer.
  function Load(p: Ptr, lo: nat, hi: nat): (s: seq<byte>)
    requires lo <= hi
    ensures |s| == hi - lo
  {
    seq(hi - lo, i requires 0 <= i < hi - lo => p(lo + i))
  }

  lemma LoadConcat(p: Ptr, lo: nat, mid: nat, hi: nat)
    requires lo <= mid <= hi
    ensures Load(p, lo, mid) + Load(p, mid, hi) == Load(p, lo, hi)
  {
  }
}
