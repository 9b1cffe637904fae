// Packing of eight 9-bit words into nine bytes (mipi-dbi.c:119-131, 178-262).
module NineBit {
  import opened Bytes

  // SHIFT_U9_INTO_U64: a set D/C bit and a byte at word position pos.
  function ShiftU9IntoU64(dst: bv64, src: byte, pos: nat): bv64
    requires pos <= 6
  {
    dst | (1 << (63 - pos * 9)) | ((src as bv64) << (63 - 8 - pos * 9))
  }

  // cpu_to_be64 is ___constant_swab64 (include/linux/kernel.h:80-90).
  function CpuToBe64(x: bv64): bv64
  {
    ((x & 0x00000000000000ff) << 56) | ((x & 0x000000000000ff00) << 40) |
    ((x & 0x0000000000ff0000) << 24) | ((x & 0x00000000ff000000) << 8) |
    ((x & 0x000000ff00000000) >> 8) | ((x & 0x0000ff0000000000) >> 24) |
    ((x & 0x00ff000000000000) >> 40) | ((x & 0xff00000000000000) >> 56)
  }

  // Memory image of a u64 on a little-endian machine.
  function StoreU64(x: bv64): (s: seq<byte>)
    ensures |s| == 8
  {
    [(x & 0xff) as byte, ((x >> 8) & 0xff) as byte, ((x >> 16) & 0xff) as byte, ((x >> 24) & 0xff) as byte,
     ((x >> 32) & 0xff) as byte, ((x >> 40) & 0xff) as byte, ((x >> 48) & 0xff) as byte, ((x >> 56) & 0xff) as byte]
  }

  function BitOf(b: bool): byte { if b then 1 else 0 }

  // Byte j of a block: the last j bits of the previous word, the D/C bit of word j,
  // then the first 7 - j bits of word j.
  function Byte0(p: byte, dc: bool, d: byte): byte { (BitOf(dc) << 7) | (d >> 1) }
  function Byte1(p: byte, dc: bool, d: byte): byte { (p << 7) | (BitOf(dc) << 6) | (d >> 2) }
  function Byte2(p: byte, dc: bool, d: byte): byte { (p << 6) | (BitOf(dc) << 5) | (d >> 3) }
  function Byte3(p: byte, dc: bool, d: byte): byte { (p << 5) | (BitOf(dc) << 4) | (d >> 4) }
  function Byte4(p: byte, dc: bool, d: byte): byte { (p << 4) | (BitOf(dc) << 3) | (d >> 5) }
  function Byte5(p: byte, dc: bool, d: byte): byte { (p << 3) | (BitOf(dc) << 2) | (d >> 6) }
  function Byte6(p: byte, dc: bool, d: byte): byte { (p << 2) | (BitOf(dc) << 1) | (d >> 7) }
  function Byte7(p: byte, dc: bool, d: byte): byte { (p << 1) | BitOf(dc) }

  // The nine bytes of a block of eight words.
  function Pack(w: seq<Word>): (s: seq<byte>)
    requires |w| == 8
    ensures |s| == 9 && s[8] == w[7].data
  {
    [Byte0(0, w[0].dc, w[0].data)] +
    [Byte1(w[0].data, w[1].dc, w[1].data)] +
    [Byte2(w[1].data, w[2].dc, w[2].data)] +
    [Byte3(w[2].data, w[3].dc, w[3].data)] +
    [Byte4(w[3].data, w[4].dc, w[4].data)] +
    [Byte5(w[4].data, w[5].dc, w[5].data)] +
    [Byte6(w[5].data, w[6].dc, w[6].data)] +
    [Byte7(w[6].data, w[7].dc, w[7].data)] +
    [w[7].data]
  }

  lemma Frame0(w: seq<Word>)
    requires |w| == 8
    ensures FrameAt(Pack(w), 0) == w[0]
  {
  }

  lemma Frame1(w: seq<Word>)
    requires |w| == 8
    ensures FrameAt(Pack(w), 1) == w[1]
  {
  }

  lemma Frame2(w: seq<Word>)
    requires |w| == 8
    ensures FrameAt(Pack(w), 2) == w[2]
  {
  }

  lemma Frame3(w: seq<Word>)
    requires |w| == 8
    ensures FrameAt(Pack(w), 3) == w[3]
  {
  }

  lemma Frame4(w: seq<Word>)
    requires |w| == 8
    ensures FrameAt(Pack(w), 4) == w[4]
  {
  }

  lemma Frame5(w: seq<Word>)
    requires |w| == 8
    ensures FrameAt(Pack(w), 5) == w[5]
  {
  }

  lemma Frame6(w: seq<Word>)
    requires |w| == 8
    ensures FrameAt(Pack(w), 6) == w[6]
  {
  }

  lemma Frame7(w: seq<Word>)
    requires |w| == 8
    ensures FrameAt(Pack(w), 7) == w[7]
  {
  }

  // The receiver inverts the packing of a block.
  lemma ReceivePack(w: seq<Word>)
    requires |w| == 8
    ensures Receive(Pack(w)) == w
  {
    Frame0(w); Frame1(w); Frame2(w); Frame3(w);
    Frame4(w); Frame5(w); Frame6(w); Frame7(w);
    forall k | 0 <= k < 8
      ensures Receive(Pack(w))[k] == w[k]
    {
      assert k == 0 || k == 1 || k == 2 || k == 3 || k == 4 || k == 5 || k == 6 || k == 7;
    }
  }

  // The u64 holding seven words, the first in the top nine bits, bit 0 clear.
  function Hold7(w0: Word, w1: Word, w2: Word, w3: Word, w4: Word, w5: Word, w6: Word): bv64
  {
    (if w0.dc then 0x8000000000000000 else 0) | ((w0.data as bv64) << 55) |
    (if w1.dc then 0x40000000000000 else 0) | ((w1.data as bv64) << 46) |
    (if w2.dc then 0x200000000000 else 0) | ((w2.data as bv64) << 37) |
    (if w3.dc then 0x1000000000 else 0) | ((w3.data as bv64) << 28) |
    (if w4.dc then 0x8000000 else 0) | ((w4.data as bv64) << 19) |
    (if w5.dc then 0x40000 else 0) | ((w5.data as bv64) << 10) |
    (if w6.dc then 0x200 else 0) | ((w6.data as bv64) << 1)
  }

  function Hold(w: seq<Word>): bv64
    requires |w| == 7
  {
    Hold7(w[0], w[1], w[2], w[3], w[4], w[5], w[6])
  }

  lemma ShiftInto0(w1: Word, w2: Word, w3: Word, w4: Word, w5: Word, w6: Word, b: byte)
    ensures ShiftU9IntoU64(Hold7(NOP, w1, w2, w3, w4, w5, w6), b, 0) == Hold7(Word(true, b), w1, w2, w3, w4, w5, w6)
  {
  }

  lemma ShiftInto1(w0: Word, w2: Word, w3: Word, w4: Word, w5: Word, w6: Word, b: byte)
    ensures ShiftU9IntoU64(Hold7(w0, NOP, w2, w3, w4, w5, w6), b, 1) == Hold7(w0, Word(true, b), w2, w3, w4, w5, w6)
  {
  }

  lemma ShiftInto2(w0: Word, w1: Word, w3: Word, w4: Word, w5: Word, w6: Word, b: byte)
    ensures ShiftU9IntoU64(Hold7(w0, w1, NOP, w3, w4, w5, w6), b, 2) == Hold7(w0, w1, Word(true, b), w3, w4, w5, w6)
  {
  }

  lemma ShiftInto3(w0: Word, w1: Word, w2: Word, w4: Word, w5: Word, w6: Word, b: byte)
    ensures ShiftU9IntoU64(Hold7(w0, w1, w2, NOP, w4, w5, w6), b, 3) == Hold7(w0, w1, w2, Word(true, b), w4, w5, w6)
  {
  }

  lemma ShiftInto4(w0: Word, w1: Word, w2: Word, w3: Word, w5: Word, w6: Word, b: byte)
    ensures ShiftU9IntoU64(Hold7(w0, w1, w2, w3, NOP, w5, w6), b, 4) == Hold7(w0, w1, w2, w3, Word(true, b), w5, w6)
  {
  }

  lemma ShiftInto5(w0: Word, w1: Word, w2: Word, w3: Word, w4: Word, w6: Word, b: byte)
    ensures ShiftU9IntoU64(Hold7(w0, w1, w2, w3, w4, NOP, w6), b, 5) == Hold7(w0, w1, w2, w3, w4, Word(true, b), w6)
  {
  }

  lemma ShiftInto6(w0: Word, w1: Word, w2: Word, w3: Word, w4: Word, w5: Word, b: byte)
    ensures ShiftU9IntoU64(Hold7(w0, w1, w2, w3, w4, w5, NOP), b, 6) == Hold7(w0, w1, w2, w3, w4, w5, Word(true, b))
  {
  }

  // SHIFT_U9_INTO_U64 fills an empty place.
  lemma ShiftInto(w: seq<Word>, k: nat, b: byte)
    requires |w| == 7 && k <= 6 && w[k] == NOP
    ensures ShiftU9IntoU64(Hold(w), b, k) == Hold(w[k := Word(true, b)])
  {
    hide ShiftU9IntoU64, Hold7;
    if k == 0 {
      ShiftInto0(w[1], w[2], w[3], w[4], w[5], w[6], b);
    } else if k == 1 {
      ShiftInto1(w[0], w[2], w[3], w[4], w[5], w[6], b);
    } else if k == 2 {
      ShiftInto2(w[0], w[1], w[3], w[4], w[5], w[6], b);
    } else if k == 3 {
      ShiftInto3(w[0], w[1], w[2], w[4], w[5], w[6], b);
    } else if k == 4 {
      ShiftInto4(w[0], w[1], w[2], w[3], w[5], w[6], b);
    } else if k == 5 {
      ShiftInto5(w[0], w[1], w[2], w[3], w[4], w[6], b);
    } else {
      ShiftInto6(w[0], w[1], w[2], w[3], w[4], w[5], b);
    }
  }

  // Byte j of a u64, the most significant first.
  function BeByte(x: bv64, j: nat): byte
    requires j < 8
  {
    if j == 0 then (x >> 56) as byte
    else if j == 1 then ((x >> 48) & 0xff) as byte
    else if j == 2 then ((x >> 40) & 0xff) as byte
    else if j == 3 then ((x >> 32) & 0xff) as byte
    else if j == 4 then ((x >> 24) & 0xff) as byte
    else if j == 5 then ((x >> 16) & 0xff) as byte
    else if j == 6 then ((x >> 8) & 0xff) as byte
    else (x & 0xff) as byte
  }

  lemma BigEndian(x: bv64)
    ensures StoreU64(CpuToBe64(x)) == [BeByte(x, 0), BeByte(x, 1), BeByte(x, 2), BeByte(x, 3),
                                       BeByte(x, 4), BeByte(x, 5), BeByte(x, 6), BeByte(x, 7)]
  {
  }

  // Seven held words and the D/C bit of the eighth.
  function HoldDc(w: seq<Word>, dc: bool): bv64
    requires |w| == 7
  {
    Hold(w) | (if dc then 1 else 0)
  }

  lemma HoldByte0(w: seq<Word>, last: Word)
    requires |w| == 7
    ensures BeByte(HoldDc(w, last.dc), 0) == Pack(w + [last])[0]
  {
  }

  lemma HoldByte1(w: seq<Word>, last: Word)
    requires |w| == 7
    ensures BeByte(HoldDc(w, last.dc), 1) == Pack(w + [last])[1]
  {
  }

  lemma HoldByte2(w: seq<Word>, last: Word)
    requires |w| == 7
    ensures BeByte(HoldDc(w, last.dc), 2) == Pack(w + [last])[2]
  {
  }

  lemma HoldByte3(w: seq<Word>, last: Word)
    requires |w| == 7
    ensures BeByte(HoldDc(w, last.dc), 3) == Pack(w + [last])[3]
  {
  }

  lemma HoldByte4(w: seq<Word>, last: Word)
    requires |w| == 7
    ensures BeByte(HoldDc(w, last.dc), 4) == Pack(w + [last])[4]
  {
  }

  lemma HoldByte5(w: seq<Word>, last: Word)
    requires |w| == 7
    ensures BeByte(HoldDc(w, last.dc), 5) == Pack(w + [last])[5]
  {
  }

  lemma HoldByte6(w: seq<Word>, last: Word)
    requires |w| == 7
    ensures BeByte(HoldDc(w, last.dc), 6) == Pack(w + [last])[6]
  {
  }

  lemma HoldByte7(w: seq<Word>, last: Word)
    requires |w| == 7
    ensures BeByte(HoldDc(w, last.dc), 7) == Pack(w + [last])[7]
  {
  }

  // Storing seven held words with the D/C bit of the eighth in bit 0, and then the
  // eighth byte, gives the block of the eight words.
  lemma StoreHeld(w: seq<Word>, last: Word)
    requires |w| == 7
    ensures StoreU64(CpuToBe64(HoldDc(w, last.dc))) + [last.data] == Pack(w + [last])
  {
    hide HoldDc, BeByte, StoreU64, CpuToBe64, Pack;
    BigEndian(HoldDc(w, last.dc));
    HoldByte0(w, last); HoldByte1(w, last); HoldByte2(w, last); HoldByte3(w, last);
    HoldByte4(w, last); HoldByte5(w, last); HoldByte6(w, last); HoldByte7(w, last);
    var s, t := StoreU64(CpuToBe64(HoldDc(w, last.dc))) + [last.data], Pack(w + [last]);
    assert s[8] == t[8];
    assert forall i | 0 <= i < 9 :: s[i] == t[i];
  }
}
