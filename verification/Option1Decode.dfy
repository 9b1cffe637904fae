// What the receiver of Type C Option 1 makes of the emulated transfers.
module Option1Decode {
  import opened Bytes
  import opened NineBit
  import opened Option1

  // The receiver gets exactly the data words, padded with fewer than eight no-ops
  // at the end, and is not left inside a frame.
  ghost predicate DecodesTo(wire: seq<byte>, ws: seq<Word>)
  {
    && Unfinished(wire) == 0
    && exists n :: 0 <= n < 8 && Receive(wire) == ws + Nops(n)
  }

  // Lengths the encoder handles as intended: a last chunk of eight bytes or more
  // must be a multiple of eight, and in 16-bit mode a shorter one must be one pixel.
  predicate Covered(bpw: nat, len: nat, m: nat)
    requires m > 0
  {
    len % 8 == 0 || (TailIsPadded(len, m) && TailSent(bpw, len % 8) == len % 8)
  }

  // The words a transfer really carries, for every length.
  function Carried(bpw: nat, p: Ptr, len: nat, m: nat): seq<Word>
    requires m > 0
  {
    var r := len % 8;
    if r != 0 && TailIsPadded(len, m)
    then SrcWords(bpw, p, 0, len - r + TailSent(bpw, r)) + Nops(8 - TailSent(bpw, r))
    else SrcWords(bpw, p, 0, len)
  }

  // The receiver's view of the data half, on all lengths: the carried words, and an
  // unfinished frame of 8 - r bits exactly when the last block overran the source.
  lemma ReceiveData(bpw: nat, p: Ptr, len: nat, m: nat)
    requires m > 0
    ensures Receive(DataWire(bpw, p, len, m)) == Carried(bpw, p, len, m)
    ensures Unfinished(DataWire(bpw, p, len, m)) ==
            if len % 8 != 0 && !TailIsPadded(len, m) then 8 - len % 8 else 0
  {
    hide BlocksWire, Pack, Receive, SrcWords, TailWords, TailIsPadded;
    var q, r := len / 8, len % 8;
    var blocks, tail := BlocksWire(bpw, p, 0, q), TailWire(bpw, p, len, m);
    NineTimes(q);
    ReceiveBlocks(bpw, p, 0, q);
    ReceiveConcat(blocks, tail);
    if r == 0 {
      ReceiveNothing();
    } else if TailIsPadded(len, m) {
      ReceivePack(TailWords(bpw, p, 8 * q, r));
      TailWordsAre(bpw, p, 8 * q, r);
      SrcWordsConcat(bpw, p, 0, 8 * q, 8 * q + TailSent(bpw, r));
    } else {
      ReceiveOverrun(bpw, p, len);
      SrcWordsConcat(bpw, p, 0, 8 * q, len);
    }
  }

  lemma TailWordsAre(bpw: nat, p: Ptr, at: nat, r: nat)
    requires r < 8
    ensures var n := TailSent(bpw, r);
            TailWords(bpw, p, at, r) == SrcWords(bpw, p, at, at + n) + Nops(8 - n)
  {
  }

  // A block cut after r + 1 bytes still holds its first r words.
  lemma ReceiveOverrun(bpw: nat, p: Ptr, len: nat)
    requires len % 8 != 0
    ensures var at := len - len % 8;
            Receive(OverrunWire(bpw, p, len)) == SrcWords(bpw, p, at, len)
    ensures Unfinished(OverrunWire(bpw, p, len)) == 8 - len % 8
  {
    hide Pack, SrcWords, Receive;
    var r := len % 8;
    var at := len - r;
    var words := SrcWords(bpw, p, at, at + 8);
    ReceivePack(words);
    ReceivePrefix(Pack(words), r + 1);
    assert 8 * (r + 1) / 9 == r;
    SrcWordsPrefix(bpw, p, at, r, 8);
  }

  lemma SrcWordsPrefix(bpw: nat, p: Ptr, at: nat, r: nat, n: nat)
    requires r <= n
    ensures SrcWords(bpw, p, at, at + n)[..r] == SrcWords(bpw, p, at, at + r)
  {
    hide SrcByte;
  }

  lemma ReceivePrefix(wire: seq<byte>, n: nat)
    requires n <= |wire|
    ensures 8 * n / 9 <= 8 * |wire| / 9
    ensures Receive(wire[..n]) == Receive(wire)[..8 * n / 9]
  {
    hide Cut;
  }

  // The 9-bit round trip and its exact domain.
  lemma RoundTrip(bpw: nat, p: Ptr, len: nat, m: nat)
    requires m > 0
    ensures DecodesTo(DataWire(bpw, p, len, m), SrcWords(bpw, p, 0, len)) <==> Covered(bpw, len, m)
  {
    hide DataWire, SrcWords, Receive, Nops, TailIsPadded, TailSent;
    var ws, wire, r := SrcWords(bpw, p, 0, len), DataWire(bpw, p, len, m), len % 8;
    ReceiveData(bpw, p, len, m);
    if Covered(bpw, len, m) {
      var n := if r == 0 then 0 else 8 - r;
      if r == 0 { NoNops(); }
      assert Receive(wire) == ws + Nops(n);
    } else if TailIsPadded(len, m) {
      var k := TailSent(bpw, r);
      TailShort(bpw, r);
      forall n | 0 <= n < 8
        ensures Receive(wire) != ws + Nops(n)
      {
        DifferentAt(bpw, p, len, len - r + k, 8 - k, n);
      }
    }
  }

  lemma NoNops()
    ensures Nops(0) == []
  {
  }

  lemma TailShort(bpw: nat, r: nat)
    requires r < 8 && TailSent(bpw, r) != r
    ensures TailSent(bpw, r) < r
  {
  }

  // A missing data word is a no-op where the receiver expects data.
  lemma DifferentAt(bpw: nat, p: Ptr, len: nat, k: nat, j: nat, n: nat)
    requires k < len && j > 0
    ensures SrcWords(bpw, p, 0, k) + Nops(j) != SrcWords(bpw, p, 0, len) + Nops(n)
  {
    hide SrcByte;
    assert (SrcWords(bpw, p, 0, k) + Nops(j))[k] == NOP;
    assert (SrcWords(bpw, p, 0, len) + Nops(n))[k].dc;
  }

  // 16-bit mode, domain in plain terms.
  lemma CoveredIs(len: nat, m: nat)
    requires m > 0
    ensures Covered(8, len, m) <==> len % 8 == 0 || len <= m || len % m < 8
    ensures Covered(16, len, m) <==> len % 8 == 0 || (len % 8 == 2 && (len <= m || len % m < 8))
  {
    SentExactly(len % 8);
  }

  lemma SentExactly(r: nat)
    requires r < 8
    ensures TailSent(8, r) == r
    ensures TailSent(16, r) == r <==> r == 0 || r == 2
  {
  }

  // Of two pixels sent on their own, the second never goes out.
  lemma TwoPixels(p: Ptr, m: nat)
    requires m > 0
    ensures Receive(DataWire(16, p, 4, m)) == SrcWords(16, p, 0, 2) + Nops(6)
    ensures !DecodesTo(DataWire(16, p, 4, m), SrcWords(16, p, 0, 4))
  {
    hide DataWire, DecodesTo, Receive;
    ReceiveData(16, p, 4, m);
    RoundTrip(16, p, 4, m);
    CoveredIs(4, m);
    assert TailIsPadded(4, m) by { SmallRest(m); }
    assert TailSent(16, 4) == 2;
  }

  lemma SmallRest(m: nat)
    requires m > 0
    ensures TailIsPadded(4, m)
  {
  }

  // Twenty-eight bytes in chunks of sixteen leave the receiver four bits into a frame.
  lemma TwentyEightBytes(p: Ptr)
    ensures Unfinished(DataWire(8, p, 28, 16)) == 4
    ensures !DecodesTo(DataWire(8, p, 28, 16), SrcWords(8, p, 0, 28))
  {
    hide DataWire;
    ReceiveData(8, p, 28, 16);
  }
}
