// Reading registers over Option 3 (mipi-dbi.c:431-499): display id and status come
// after a dummy clock, so every received bit is one place late.
module Readback {
  import opened Arith
  import opened Base
  import opened Bytes
  import opened SpiBus

  const GET_DISPLAY_ID: byte := 0x04
  const GET_DISPLAY_STATUS: byte := 0x09

  // One byte of the data: the last seven bits of a received byte and the first of the next.
  function Realign(b: byte, next: byte): byte
  {
    (b << 1) | (if next & 0x80 != 0 then 1 else 0)
  }

  // The number a byte string denotes, most significant byte first.
  function BigEndianValue(s: seq<byte>): (v: nat)
  {
    if s == [] then 0 else 256 * BigEndianValue(s[..|s| - 1]) + s[|s| - 1] as int
  }

  lemma {:induction false} ValueBound(s: seq<byte>)
    ensures BigEndianValue(s) < Pow256(|s|)
    decreases |s|
  {
    if s != [] {
      ValueBound(s[..|s| - 1]);
    }
  }

  // The first bit of a byte and the other seven.
  function First(b: byte): nat { b as int / 128 }
  function Others(b: byte): nat { b as int % 128 }

  lemma Parts(b: byte)
    ensures b as int == 128 * First(b) + Others(b)
  {
  }

  lemma ShiftValue(b: byte)
    ensures (b << 1) as int == 2 * ((b & 0x7f) as int)
  {
  }

  lemma ShiftClear(b: byte)
    ensures (b << 1) & 1 == 0
  {
  }

  lemma SetLowBit(b: byte)
    requires b & 1 == 0
    ensures (b | 1) as int == b as int + 1
  {
  }

  lemma LowBits(b: byte)
    ensures (b & 0x7f) as int < 128
    ensures b as int == (if b & 0x80 != 0 then 128 else 0) + (b & 0x7f) as int
  {
  }

  lemma Bits(b: byte)
    ensures First(b) == (if b & 0x80 != 0 then 1 else 0) && Others(b) == (b & 0x7f) as int
  {
    LowBits(b);
  }

  lemma RealignValue(b: byte, next: byte)
    ensures Realign(b, next) as int == 2 * Others(b) + First(next)
  {
    hide First, Others;
    ShiftValue(b);
    ShiftClear(b);
    SetLowBit(b << 1);
    Bits(b);
    Bits(next);
    if next & 0x80 == 0 {
      assert (b << 1) | 0 == b << 1;
    }
  }

  ghost predicate Realigned(data: seq<byte>, buf: seq<byte>)
  {
    |buf| == |data| + 1 && forall i :: 0 <= i < |data| ==> data[i] == Realign(buf[i], buf[i + 1])
  }

  // Dropping the first bit and the last seven of the received string leaves the data.
  lemma {:induction false} RealignedSplit(data: seq<byte>, buf: seq<byte>)
    requires Realigned(data, buf)
    ensures BigEndianValue(buf)
         == 128 * (First(buf[0]) * Pow256(|data|) + BigEndianValue(data)) + Others(buf[|data|])
    decreases |data|
  {
    var n := |data|;
    Parts(buf[n]);
    if n == 0 {
      assert buf[..0] == [];
      assert BigEndianValue(buf) == 256 * BigEndianValue([]) + buf[0] as int;
    } else {
      var data', buf' := data[..n - 1], buf[..n];
      assert BigEndianValue(buf) == 256 * BigEndianValue(buf') + buf[n] as int;
      assert BigEndianValue(data) == 256 * BigEndianValue(data') + data[n - 1] as int;
      assert Pow256(n) == 256 * Pow256(n - 1);
      RealignedSplit(data', buf');
      RealignValue(buf[n - 1], buf[n]);
      hide *;
      SplitStep(First(buf[0]), Pow256(n - 1), BigEndianValue(data'), Others(buf[n - 1]), First(buf[n]), Others(buf[n]));
    }
  }

  lemma SplitStep(h: nat, p: nat, d: nat, low: nat, first: nat, others: nat)
    ensures 256 * (128 * (h * p + d) + low) + (128 * first + others)
         == 128 * (h * (256 * p) + (256 * d + (2 * low + first))) + others
  {
    Scale(h, p);
  }

  lemma Scale(h: nat, p: nat)
    ensures h * (256 * p) == 256 * (h * p)
  {
  }

  // The realigned value is the received one shifted right by seven bits, modulo its width.
  lemma RealignedIsShift(data: seq<byte>, buf: seq<byte>)
    requires Realigned(data, buf)
    ensures BigEndianValue(data) == BigEndianValue(buf) / 128 % Pow256(|data|)
  {
    hide Realign, BigEndianValue, Pow256;
    RealignedSplit(data, buf);
    ValueBound(data);
    var h, p, d := First(buf[0]), Pow256(|data|), BigEndianValue(data);
    assert BigEndianValue(buf) / 128 == h * p + d;
    ModByCarry(h, p, d);
  }

  lemma ModByCarry(h: nat, p: nat, d: nat)
    requires h <= 1 && d < p
    ensures (h * p + d) % p == d
  {
    if h == 1 {
      assert (p + d) % p == d by { ModAdd(p, d); }
    }
  }

  lemma ModAdd(p: nat, d: nat)
    requires d < p
    ensures (p + d) % p == d
  {
  }

  // mipi_dbi_spi3_read; rx is what the panel sends while the second transfer runs.
  method Spi3Read(spi: SpiMaster, writeOnly: bool, cmd: byte, rx: seq<byte>, val: array<byte>) returns (ret: int)
    requires |rx| > val.Length
    modifies spi`log, spi`asked, spi`dc, val
    ensures writeOnly ==> ret == -EACCES && val[..] == old(val[..]) && spi.log == old(spi.log)
    ensures var late := cmd == GET_DISPLAY_ID || cmd == GET_DISPLAY_STATUS;
            && (!writeOnly && late && val.Length != 3 && val.Length != 4 ==>
                  ret == -EINVAL && val[..] == old(val[..]) && spi.log == old(spi.log))
            && (ret == 0 && late ==> Realigned(val[..], rx[..val.Length + 1]))
            && (ret == 0 && !late ==> val[..] == rx[..val.Length])
    ensures old(spi.asked) <= spi.asked
    ensures var late := cmd == GET_DISPLAY_ID || cmd == GET_DISPLAY_STATUS;
            !writeOnly && (late ==> val.Length == 3 || val.Length == 4) && spi.Smooth(old(spi.asked), spi.asked) ==> ret == 0
    ensures spi.log == old(spi.log) + if ret == 0 then [Transfer(false, [cmd])] else []
  {
    hide Realign;
    if writeOnly {
      return -EACCES;
    }
    var len := val.Length;
    if cmd == GET_DISPLAY_ID || cmd == GET_DISPLAY_STATUS {
      if !(val.Length == 3 || val.Length == 4) {
        return -EINVAL;
      }
      len := val.Length + 1;
    }
    var ok := spi.Alloc();
    if !ok {
      return -ENOMEM;
    }
    spi.SetDc(false);
    ret := spi.SpiSync([cmd]);
    var buf := rx[..len];
    if len == val.Length {
      forall i | 0 <= i < val.Length {
        val[i] := buf[i];
      }
    } else {
      var i := 0;
      while i < val.Length
        invariant i <= val.Length
        modifies val
        invariant forall k :: 0 <= k < i ==> val[k] == Realign(buf[k], buf[k + 1])
      {
        val[i] := Realign(buf[i], buf[i + 1]);
        i := i + 1;
      }
    }
  }
}
