// struct mipi_dbi_spi and the two gather writes (mipi-dbi.c:41-49, 342-371, 389-429).
module Interface {
  import opened Base
  import opened Bytes
  import opened SpiBus
  import Option1
  import Option3
  import opened Transport

  const TX_BUF_BYTES: nat := 320 * 240 * 16 / 8

  lemma {:induction false} SentConcat(a: seq<Transfer>, b: seq<Transfer>)
    ensures Sent(a + b) == Sent(a) + Sent(b)
    decreases |b|
  {
    if b == [] {
      assert a + b == a;
    } else {
      SentConcat(a, b[..|b| - 1]);
      assert (a + b)[..|a + b| - 1] == a + b[..|b| - 1];
    }
  }

  lemma {:induction false} PinWordsConcat(a: seq<Transfer>, b: seq<Transfer>)
    ensures PinWords(a + b) == PinWords(a) + PinWords(b)
    decreases |b|
  {
    hide Tagged;
    if b == [] {
      assert a + b == a;
    } else {
      PinWordsConcat(a, b[..|b| - 1]);
      assert (a + b)[..|a + b| - 1] == a + b[..|b| - 1];
    }
  }

  // With D/C high everything sent is data.
  lemma {:induction false} PinWordsHigh(ts: seq<Transfer>)
    requires forall i | 0 <= i < |ts| :: ts[i].pin
    ensures PinWords(ts) == DataWords(Sent(ts))
    decreases |ts|
  {
    if ts != [] {
      PinWordsHigh(ts[..|ts| - 1]);
    }
  }

  lemma {:induction false} PinWordsLow(ts: seq<Transfer>)
    requires forall i | 0 <= i < |ts| :: !ts[i].pin
    ensures |PinWords(ts)| == |Sent(ts)|
    ensures forall i | 0 <= i < |Sent(ts)| :: PinWords(ts)[i] == Word(false, Sent(ts)[i])
    decreases |ts|
  {
    if ts != [] {
      PinWordsLow(ts[..|ts| - 1]);
    }
  }

  // What tinydrm_spi_transfer left on the wire is the start of the parameters.
  lemma OnWireParams(mask: bv32, c: Call, n: nat, sent: seq<byte>)
    requires n <= c.len
    requires Option3.OnWire(Option3.Swaps(mask, Width(c.reg)), c.val, n, sent)
    requires Option3.Swaps(mask, Width(c.reg)) ==> n % 2 == 0
    ensures sent <= Params3(mask, c)
    ensures n == c.len ==> sent == Params3(mask, c)
  {
    hide Option3.Swaps;
    LoadConcat(c.val, 0, n, c.len);
    if Option3.Swaps(mask, Width(c.reg)) {
      SwapPairsConcat(Load(c.val, 0, n), Load(c.val, n, c.len));
      assert sent[..n] == sent;
    }
  }

  class Interface {
    const spi: SpiMaster
    const chunkSize: nat
    var txBuf: array?<bv16>

    predicate Valid()
      reads this
    {
      && chunkSize >= 4 && chunkSize % 4 == 0
      && (txBuf != null ==> chunkSize <= 2 * txBuf.Length)
    }

    // mipi_dbi_spi_init (mipi-dbi.c:540-548).
    constructor (spi: SpiMaster)
      ensures Valid() && this.spi == spi && txBuf == null
      ensures chunkSize == Option3.MaxTransferSize(spi.maxDmaLen, 0, 0)
    {
      this.spi := spi;
      chunkSize := Option3.MaxTransferSize(spi.maxDmaLen, 0, 0);
      txBuf := null;
    }

    // utinydrm_get_tx_buf (utinydrm.c:123-144): a buffer of one 320x240 frame, or none.
    method GetTxBuf(len: nat) returns (buf: array?<bv16>)
      modifies spi`asked
      ensures old(spi.asked) <= spi.asked
      ensures len <= TX_BUF_BYTES && spi.Smooth(old(spi.asked), spi.asked) ==> buf != null
      ensures buf != null ==> fresh(buf) && len <= 2 * buf.Length == TX_BUF_BYTES
    {
      if len > TX_BUF_BYTES {
        return null;
      }
      var ok := spi.Alloc();
      if !ok {
        return null;
      }
      buf := new bv16[TX_BUF_BYTES / 2];
    }

    // mipi_dbi_spi1_gather_write on a controller without 9-bit words.
    method Spi1GatherWrite(reg: byte, regLen: nat, val: Ptr, hasVal: bool, valLen: nat) returns (ret: int)
      requires !Option3.BpwSupported(spi.bpwMask, 9)
      modifies spi`log, spi`asked
      ensures old(spi.log) <= spi.log
      ensures var c := Call(reg, val, if hasVal then valLen else 0);
              var sent := Sent(spi.log[|old(spi.log)|..]);
              if regLen != 1 || !Usable1(spi.maxDmaLen) then ret == -EINVAL && sent == []
              else
                && sent <= Wire1(spi.maxDmaLen, c)
                && (ret == 0 ==> sent == Wire1(spi.maxDmaLen, c))
                && (ret != 0 ==> |sent| % 9 == 0)
      ensures old(spi.asked) <= spi.asked
      ensures regLen == 1 && Usable1(spi.maxDmaLen) && spi.Smooth(old(spi.asked), spi.asked) ==> ret == 0
      ensures ret != 0 ==> ret < 0 && ret != -ENOTSUPP
    {
      hide Sent, Option1.DataWire, CommandBlock;
      Option1.SentNothing();
      assert spi.log[|old(spi.log)|..] == [];
      if regLen != 1 {
        return -EINVAL;
      }
      var width := Width(reg);
      var regBuf: Ptr := (_: nat) => reg;
      if Usable1(spi.maxDmaLen) {
        CommandTransfer(spi.maxDmaLen, regBuf);
      }
      ret := Option1.Spi1eTransfer(spi, 8, false, regBuf, regLen, CHUNK1);
      if ret != 0 {
        return;
      }
      ghost var mid := spi.log;
      if hasVal && valLen != 0 {
        DataTransfer(spi.maxDmaLen, width, val, valLen);
        ret := Option1.Spi1eTransfer(spi, width, true, val, valLen, CHUNK1);
        SentConcat(mid[|old(spi.log)|..], spi.log[|mid|..]);
        NineMore(|Sent(spi.log[|mid|..])|);
        assert spi.log[|old(spi.log)|..] == mid[|old(spi.log)|..] + spi.log[|mid|..];
      }
    }

    // mipi_dbi_spi3_gather_write.
    method Spi3GatherWrite(reg: byte, regLen: nat, val: Ptr, hasVal: bool, valLen: nat) returns (ret: int)
      requires Valid()
      modifies spi`log, spi`asked, spi`dc, this`txBuf, if txBuf != null then {txBuf} else {}
      ensures Valid()
      ensures txBuf == old(txBuf) || (txBuf != null && fresh(txBuf))
      ensures old(spi.log) <= spi.log
      ensures var c := Call(reg, val, if hasVal then valLen else 0);
              var words := PinWords(spi.log[|old(spi.log)|..]);
              if regLen != 1 then ret == -EINVAL && words == []
              else Width(reg) == 8 || c.len % 2 == 0 ==>
                     words <= Words3(spi.bpwMask, c) && (ret == 0 ==> words == Words3(spi.bpwMask, c))
      ensures old(spi.asked) <= spi.asked
      ensures regLen == 1 && chunkSize <= TX_BUF_BYTES && spi.Smooth(old(spi.asked), spi.asked) ==> ret == 0
      ensures ret != 0 ==> ret < 0 && ret != -ENOTSUPP
    {
      hide Sent, PinWords, Option3.OnWire, Option3.BpwSupported, Params3;
      ghost var log0 := spi.log;
      NoPinWords();
      assert spi.log[|log0|..] == [];
      if regLen != 1 {
        return -EINVAL;
      }
      if txBuf == null {
        txBuf := GetTxBuf(chunkSize);
      }
      if txBuf == null {
        return -ENOMEM;
      }
      ret := WriteCommand(reg);
      ghost var log1 := spi.log;
      if ret != 0 {
        return;
      }
      var c := Call(reg, val, if hasVal then valLen else 0);
      if hasVal && valLen != 0 {
        ret := WriteParams(c);
        PinWordsConcat(log1[|log0|..], spi.log[|log1|..]);
        assert spi.log[|log0|..] == log1[|log0|..] + spi.log[|log1|..];
      } else {
        NoParams3(spi.bpwMask, c);
      }
    }

    // The command byte with D/C low.
    method WriteCommand(reg: byte) returns (ret: int)
      requires Valid() && txBuf != null
      modifies spi`log, spi`asked, spi`dc, txBuf
      ensures old(spi.log) <= spi.log
      ensures var words := PinWords(spi.log[|old(spi.log)|..]);
              words <= [Word(false, reg)] && (ret == 0 ==> words == [Word(false, reg)])
      ensures old(spi.asked) <= spi.asked && (spi.Smooth(old(spi.asked), spi.asked) ==> ret == 0)
      ensures ret != 0 ==> ret < 0 && ret != -ENOTSUPP
    {
      hide Sent, PinWords, Option3.BpwSupported;
      spi.SetDc(false);
      ret := Option3.SpiTransfer(spi, 8, (_: nat) => reg, 1, txBuf, chunkSize);
      PinWordsLow(spi.log[|old(spi.log)|..]);
    }

    // The parameters with D/C high.
    method WriteParams(c: Call) returns (ret: int)
      requires Valid() && txBuf != null
      modifies spi`log, spi`asked, spi`dc, txBuf
      ensures old(spi.log) <= spi.log
      ensures Width(c.reg) == 8 || c.len % 2 == 0 ==>
                var words := PinWords(spi.log[|old(spi.log)|..]);
                words <= DataWords(Params3(spi.bpwMask, c)) && (ret == 0 ==> words == DataWords(Params3(spi.bpwMask, c)))
      ensures old(spi.asked) <= spi.asked && (spi.Smooth(old(spi.asked), spi.asked) ==> ret == 0)
      ensures ret != 0 ==> ret < 0 && ret != -ENOTSUPP
    {
      hide Sent, PinWords, Option3.BpwSupported, Option3.OnWire, Params3;
      spi.SetDc(true);
      ret := Option3.SpiTransfer(spi, Width(c.reg), c.val, c.len, txBuf, chunkSize);
      ghost var ts := spi.log[|old(spi.log)|..];
      PinWordsHigh(ts);
      if c.len % 2 == 0 {
        SentEven(ts);
      }
      if Width(c.reg) == 8 || c.len % 2 == 0 {
        OnWireParams(spi.bpwMask, c, |Sent(ts)|, Sent(ts));
      }
    }
  }

  lemma NineMore(n: nat)
    ensures (9 + n) % 9 == n % 9
  {
  }

  lemma CommandTransfer(maxDma: nat, p: Ptr)
    requires Usable1(maxDma)
    ensures Option1.TransferWire(maxDma, 8, false, p, 1, CHUNK1) == Some(CommandBlock(p(0)))
  {
  }

  lemma DataTransfer(maxDma: nat, width: nat, p: Ptr, len: nat)
    requires Usable1(maxDma)
    ensures Option1.TransferWire(maxDma, width, true, p, len, CHUNK1).Some?
    ensures Chunk1(maxDma) > 0
    ensures Option1.TransferWire(maxDma, width, true, p, len, CHUNK1).value
         == Option1.DataWire(width, p, len, Chunk1(maxDma))
  {
    Chunk1Positive(maxDma);
  }

  lemma {:induction false} SentEven(ts: seq<Transfer>)
    requires forall i | 0 <= i < |ts| :: |ts[i].data| % 2 == 0
    ensures |Sent(ts)| % 2 == 0
    decreases |ts|
  {
    if ts != [] {
      SentEven(ts[..|ts| - 1]);
    }
  }

  lemma NoPinWords()
    ensures PinWords([]) == []
  {
  }

  lemma NoParams3(mask: bv32, c: Call)
    requires c.len == 0
    ensures Params3(mask, c) == []
  {
  }
}
