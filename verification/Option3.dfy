// Type C Option 3: chunked transfers with the D/C pin beside the data
// (tinydrm-regmap.c:183-200, 213-230, 348-409). The machine is little-endian.
module Option3 {
  import opened Base
  import opened Bytes
  import opened SpiBus
  import opened Arith

  // tinydrm_spi_max_transfer_size, with the module parameter spi_max as an argument.
  function MaxTransferSize(maxDma: nat, maxLen: nat, spiMax: nat): (r: nat)
    ensures r >= 4 && r % 4 == 0
    ensures r <= maxDma || r == 4
    ensures r > 4 ==> (maxLen != 0 ==> r <= maxLen) && (spiMax != 0 ==> r <= spiMax)
  {
    var a := if maxLen != 0 && maxLen < maxDma then maxLen else maxDma;
    var b := if spiMax != 0 && spiMax < a then spiMax else a;
    var aligned := b - b % 4;
    if aligned < 4 then 4 else aligned
  }

  // No larger multiple of four is within all limits that are given.
  lemma MaxTransferIsLargest(maxDma: nat, maxLen: nat, spiMax: nat, r: nat)
    requires r % 4 == 0 && r <= maxDma
    requires (maxLen != 0 ==> r <= maxLen) && (spiMax != 0 ==> r <= spiMax)
    ensures r <= MaxTransferSize(maxDma, maxLen, spiMax)
  {
    var q := r / 4;
    assert r == 4 * q;
  }

  // tinydrm_spi_bpw_supported (tinydrm-regmap.c:213-230).
  predicate BpwSupported(mask: bv32, bpw: nat)
    requires 1 <= bpw <= 32
  {
    bpw == 8 || (mask != 0 && mask & BpwMask(bpw) != 0)
  }

  // SPI_BPW_MASK (include/linux/spi/spi.h:22-23).
  function BpwMask(bits: nat): bv32
    requires 1 <= bits <= 32
  {
    1 << (bits - 1)
  }

  lemma OtherBit(k: nat, n: nat)
    requires k < n < 32
    ensures (1 as bv32 << k) & (1 << n) == 0
  {
  }

  lemma SameBit(n: nat)
    requires 1 <= n <= 32
    ensures (1 as bv32 << (n - 1)) != 0
  {
  }

  lemma AndCommutes(a: bv32, b: bv32)
    ensures a & b == b & a && a & a == a
  {
  }

  // A mask of one word size supports that size and eight bits.
  lemma BpwSingle(k: nat, n: nat)
    requires 1 <= k <= 32 && 1 <= n <= 32
    ensures BpwSupported(1 << (k - 1), n) <==> n == 8 || n == k
  {
    var a: bv32, b: bv32 := 1 << (k - 1), 1 << (n - 1);
    AndCommutes(a, b);
    SameBit(k);
    if k < n {
      OtherBit(k - 1, n - 1);
    } else if n < k {
      OtherBit(n - 1, k - 1);
    }
  }

  lemma OrAnd(a: bv32, b: bv32, bit: bv32)
    ensures (a | b) & bit != 0 <==> a & bit != 0 || b & bit != 0
  {
  }

  lemma ZeroAnd(bit: bv32)
    ensures 0 & bit == 0
  {
  }

  lemma BpwTest(mask: bv32, n: nat)
    requires 1 <= n <= 32
    ensures BpwSupported(mask, n) <==> n == 8 || mask & BpwMask(n) != 0
  {
    hide BpwMask;
    ZeroAnd(BpwMask(n));
  }

  // Masks are put together size by size; without a mask there are eight bits only.
  lemma BpwUnion(a: bv32, b: bv32, n: nat)
    requires 1 <= n <= 32
    ensures BpwSupported(a | b, n) <==> BpwSupported(a, n) || BpwSupported(b, n)
    ensures BpwSupported(0, n) <==> n == 8
  {
    hide BpwMask, BpwSupported;
    BpwTest(a | b, n);
    BpwTest(a, n);
    BpwTest(b, n);
    BpwTest(0, n);
    OrAnd(a, b, BpwMask(n));
    ZeroAnd(BpwMask(n));
  }

  // The controller configured at utinydrm.c:417.
  lemma ConfiguredMask(n: nat)
    requires 1 <= n <= 32
    ensures BpwSupported(0x8080, n) <==> n == 8 || n == 16
  {
    assert 0x8080 as bv32 == (1 << 7) | (1 << 15);
    BpwUnion(1 << 7, 1 << 15, n);
    BpwSingle(8, n);
    BpwSingle(16, n);
  }

  // ___constant_swab16 (include/linux/kernel.h:75-78).
  function Swab16(x: bv16): bv16
  {
    ((x & 0x00ff) << 8) | ((x & 0xff00) >> 8)
  }

  // The u16 stored at an address, low byte first.
  function U16(lo: byte, hi: byte): bv16
  {
    (lo as bv16) | ((hi as bv16) << 8)
  }

  function Lo(x: bv16): byte { (x & 0xff) as byte }
  function Hi(x: bv16): byte { (x >> 8) as byte }

  lemma SwabBytes(lo: byte, hi: byte)
    ensures Lo(Swab16(U16(lo, hi))) == hi
    ensures Hi(Swab16(U16(lo, hi))) == lo
  {
  }

  // The first n bytes of an array of u16 in memory.
  function MemBytes(s: seq<bv16>, n: nat): (r: seq<byte>)
    requires n <= 2 * |s|
    ensures |r| == n
  {
    seq(n, k requires 0 <= k < n => if k % 2 == 0 then Lo(s[k / 2]) else Hi(s[k / 2]))
  }

  // The bounce buffer filled from the source.
  ghost predicate Swapped(s: seq<bv16>, p: Ptr, at: nat, count: nat)
    requires count <= |s|
  {
    forall k :: 0 <= k < count ==> s[k] == Swab16(U16(p(at + 2 * k), p(at + 2 * k + 1)))
  }

  // The bounce buffer gets the words of the chunk with their bytes exchanged.
  method FillSwapBuf(p: Ptr, at: nat, count: nat, swapBuf: array<bv16>)
    requires count <= swapBuf.Length
    modifies swapBuf
    ensures Swapped(swapBuf[..], p, at, count)
  {
    hide Swab16, U16;
    var i := 0;
    while i < count
      invariant i <= count
      invariant forall k :: 0 <= k < i ==> swapBuf[k] == Swab16(U16(p(at + 2 * k), p(at + 2 * k + 1)))
    {
      swapBuf[i] := Swab16(U16(p(at + 2 * i), p(at + 2 * i + 1)));
      i := i + 1;
    }
  }

  // The bounce buffer in memory order is the source with the bytes of each u16 exchanged.
  lemma SwappedBytes(s: seq<bv16>, p: Ptr, at: nat, n: nat)
    requires n % 2 == 0 && n <= 2 * |s| && Swapped(s, p, at, n / 2)
    ensures MemBytes(s, n) == SwapPairs(Load(p, at, at + n))
  {
    hide Swab16, U16, Lo, Hi;
    var src := Load(p, at, at + n);
    forall k | 0 <= k < n
      ensures MemBytes(s, n)[k] == SwapPairs(src)[k]
    {
      SwapPairsAt(src, k);
      var j := k / 2;
      assert s[j] == Swab16(U16(p(at + 2 * j), p(at + 2 * j + 1)));
      SwabBytes(p(at + 2 * j), p(at + 2 * j + 1));
      if k % 2 == 0 {
        assert k == 2 * j && src[k + 1] == p(at + 2 * j + 1);
      } else {
        assert k == 2 * j + 1 && src[k - 1] == p(at + 2 * j);
      }
    }
  }

  function Even(n: nat): (r: nat)
    ensures r <= n && r % 2 == 0 && n - r <= 1
  {
    n - n % 2
  }

  // The first n source bytes are on the wire: as they lie in memory, or with the bytes
  // of each u16 exchanged. An odd last byte in swap mode is not promised to be right.
  ghost predicate OnWire(swap: bool, p: Ptr, n: nat, sent: seq<byte>)
  {
    && |sent| == n
    && (!swap ==> sent == Load(p, 0, n))
    && (swap ==> sent[..Even(n)] == SwapPairs(Load(p, 0, Even(n))))
  }

  // What a chunk must look like to extend the wire.
  ghost predicate ChunkOnWire(swap: bool, p: Ptr, at: nat, n: nat, data: seq<byte>)
  {
    && |data| == n
    && (!swap ==> data == Load(p, at, at + n))
    && (swap ==> data[..Even(n)] == SwapPairs(Load(p, at, at + Even(n))))
  }

  lemma OnWireStep(swap: bool, p: Ptr, at: nat, n: nat, sent: seq<byte>, data: seq<byte>)
    requires at % 2 == 0
    requires OnWire(swap, p, at, sent) && ChunkOnWire(swap, p, at, n, data)
    ensures OnWire(swap, p, at + n, sent + data)
  {
    if swap {
      hide Load, SwapPairs;
      EvenSum2(at, n);
      LoadConcat(p, 0, at, at + Even(n));
      SwapPairsConcat(Load(p, 0, at), Load(p, at, at + Even(n)));
      assert sent == sent[..at];
      assert (sent + data)[..at + Even(n)] == sent + data[..Even(n)];
    } else {
      LoadConcat(p, 0, at, at + n);
    }
  }

  lemma EvenSum2(at: nat, n: nat)
    requires at % 2 == 0
    ensures Even(at + n) == at + Even(n) && Even(at) == at
  {
  }

  // One turn of the loop up to spi_sync (tinydrm-regmap.c:384-397): the transmit data.
  method NextData(swap: bool, p: Ptr, at: nat, chunk: nat, swapBuf: array?<bv16>) returns (data: seq<byte>)
    requires swap ==> swapBuf != null && chunk <= 2 * swapBuf.Length
    modifies if swapBuf != null then {swapBuf} else {}
    ensures ChunkOnWire(swap, p, at, chunk, data)
  {
    hide Swab16, U16, Lo, Hi, Swapped;
    if swap {
      FillSwapBuf(p, at, chunk / 2, swapBuf);
      data := MemBytes(swapBuf[..], chunk);
      SwappedBytes2(swapBuf[..], p, at, chunk);
    } else {
      data := Load(p, at, at + chunk);
    }
  }

  lemma SwappedBytes2(s: seq<bv16>, p: Ptr, at: nat, n: nat)
    requires n <= 2 * |s| && Swapped(s, p, at, n / 2)
    ensures MemBytes(s, n)[..Even(n)] == SwapPairs(Load(p, at, at + Even(n)))
  {
    hide Lo, Hi, Swab16, U16;
    assert Even(n) / 2 == n / 2;
    SwappedBytes(s, p, at, Even(n));
    assert MemBytes(s, n)[..Even(n)] == MemBytes(s, Even(n));
  }

  // Whether 16-bit data goes through the bounce buffer.
  predicate Swaps(mask: bv32, bpw: nat)
  {
    bpw == 16 && !BpwSupported(mask, 16)
  }

  // Every transfer carries the pin level, fits the chunk size and, for data of even
  // length, holds whole 16-bit words; all but the last are of the chunk size.
  predicate Tagged(ts: seq<Transfer>, pin: bool, maxChunk: nat, len: nat)
  {
    forall i | 0 <= i < |ts| ::
      && ts[i].pin == pin
      && 0 < |ts[i].data| <= maxChunk
      && (len % 2 == 0 ==> |ts[i].data| % 2 == 0)
      && (i < |ts| - 1 ==> |ts[i].data| == maxChunk)
  }

  predicate AllFull(ts: seq<Transfer>, maxChunk: nat)
  {
    forall i | 0 <= i < |ts| :: |ts[i].data| == maxChunk
  }

  lemma TaggedAppend(ts: seq<Transfer>, t: Transfer, maxChunk: nat, len: nat, at: nat)
    requires Tagged(ts, t.pin, maxChunk, len) && AllFull(ts, maxChunk)
    requires at < len && at % 2 == 0 && maxChunk % 2 == 0
    requires |t.data| == if len - at < maxChunk then len - at else maxChunk
    requires |t.data| > 0
    ensures Tagged(ts + [t], t.pin, maxChunk, len)
    ensures at + |t.data| < len ==> AllFull(ts + [t], maxChunk)
    ensures at + |t.data| < len ==> (at + |t.data|) % 2 == 0
  {
    EvenSum(at, maxChunk);
    EvenRest(at, len);
    assert forall i | 0 <= i < |ts| :: (ts + [t])[i] == ts[i];
  }

  // tinydrm_spi_transfer without a header; chunks come from MaxTransferSize.
  method SpiTransfer(spi: SpiMaster, bpw: nat, p: Ptr, len: nat, swapBuf: array?<bv16>, maxChunk: nat) returns (ret: int)
    requires maxChunk >= 4 && maxChunk % 4 == 0
    requires swapBuf != null ==> maxChunk <= 2 * swapBuf.Length
    modifies spi`log, spi`asked, if swapBuf != null then {swapBuf} else {}
    ensures old(spi.log) <= spi.log
    ensures var refused := (bpw != 8 && bpw != 16) || (Swaps(spi.bpwMask, bpw) && swapBuf == null);
            refused ==> ret == -EINVAL && spi.log == old(spi.log)
    ensures var sent := Sent(spi.log[|old(spi.log)|..]);
            && OnWire(Swaps(spi.bpwMask, bpw), p, |sent|, sent)
            && |sent| <= len
            && (ret == 0 ==> |sent| == len)
    ensures Tagged(spi.log[|old(spi.log)|..], spi.dc, maxChunk, len)
    ensures ret != 0 ==> ret < 0 && ret != -ENOTSUPP
    ensures old(spi.asked) <= spi.asked
    ensures
      var accepted := (bpw == 8 || bpw == 16) && (Swaps(spi.bpwMask, bpw) ==> swapBuf != null);
      accepted && spi.Smooth(old(spi.asked), spi.asked) ==> ret == 0
  {
    hide Sent, OnWire, BpwSupported, ChunkOnWire, Tagged;
    ret := 0;
    NoneTagged(spi.dc, maxChunk, len);
    EvenIf4(maxChunk);
    var swap := false;
    ghost var ts: seq<Transfer> := [];
    Nothing(Swaps(spi.bpwMask, bpw), p);
    assert spi.log[|old(spi.log)|..] == ts;
    if bpw != 8 && bpw != 16 {
      return -EINVAL;
    }
    if bpw == 16 && !BpwSupported(spi.bpwMask, 16) {
      if swapBuf == null {
        return -EINVAL;
      }
      swap := true;
    }
    var at, rest: nat := 0, len;
    while rest != 0
      invariant at + rest == len && ret == 0 && old(spi.asked) <= spi.asked
      invariant rest != 0 ==> at % 2 == 0 && AllFull(ts, maxChunk)
      invariant spi.log == old(spi.log) + ts
      invariant OnWire(swap, p, at, Sent(ts))
      invariant Tagged(ts, spi.dc, maxChunk, len)
    {
      var chunk := if rest < maxChunk then rest else maxChunk;
      WireLength(swap, p, at, Sent(ts));
      var data := NextData(swap, p, at, chunk, swapBuf);
      ChunkLength(swap, p, at, chunk, data);
      ret := spi.SpiSync(data);
      if ret != 0 {
        assert spi.log[|old(spi.log)|..] == ts;
        return;
      }
      OnWireStep(swap, p, at, chunk, Sent(ts), data);
      SentAppend(ts, Transfer(spi.dc, data));
      TaggedAppend(ts, Transfer(spi.dc, data), maxChunk, len, at);
      ts := ts + [Transfer(spi.dc, data)];
      at, rest := at + chunk, rest - chunk;
    }
    WireLength(swap, p, at, Sent(ts));
    assert spi.log[|old(spi.log)|..] == ts;
  }

  lemma NoneTagged(pin: bool, maxChunk: nat, len: nat)
    ensures Tagged([], pin, maxChunk, len)
  {
  }

  lemma ChunkLength(swap: bool, p: Ptr, at: nat, n: nat, data: seq<byte>)
    requires ChunkOnWire(swap, p, at, n, data)
    ensures |data| == n
  {
  }

  lemma WireLength(swap: bool, p: Ptr, n: nat, sent: seq<byte>)
    requires OnWire(swap, p, n, sent)
    ensures |sent| == n
  {
  }

  lemma Nothing(swap: bool, p: Ptr)
    ensures Sent([]) == [] && OnWire(swap, p, 0, [])
  {
    assert Load(p, 0, 0) == [];
  }
}
