// The register map over the two buses (include/linux/regmap.h:254-354, 425-430).
module Regmap {
  import opened Base
  import opened Bytes
  import opened SpiBus
  import opened Transport
  import opened Wire
  import Interface
  import Option3

  // The pointer to a buffer; what lies behind its end is left as zero.
  function PtrTo(s: seq<byte>): Ptr
  {
    (i: nat) => if i < |s| then s[i] else 0
  }

  lemma LoadPtrTo(s: seq<byte>, n: nat)
    requires n <= |s|
    ensures Load(PtrTo(s), 0, n) == s[..n]
  {
  }

  // The byte 8 * i bits up, with the distance written out for each i.
  function FlagByte(mask: bv64, i: nat): byte
    requires i < 8
  {
    var m :=
      if i == 0 then mask else if i == 1 then mask >> 8 else if i == 2 then mask >> 16
      else if i == 3 then mask >> 24 else if i == 4 then mask >> 32 else if i == 5 then mask >> 40
      else if i == 6 then mask >> 48 else mask >> 56;
    (m & 0xff) as byte
  }

  // regmap_set_work_buf_flag_mask.
  method SetFlagMask(buf: array<byte>, maxBytes: nat, mask: bv64)
    requires maxBytes <= buf.Length && maxBytes <= 8
    modifies buf
    ensures forall i :: 0 <= i < maxBytes ==> buf[i] == if mask == 0 then old(buf[i]) else old(buf[i]) | FlagByte(mask, i)
    ensures forall i :: maxBytes <= i < buf.Length ==> buf[i] == old(buf[i])
  {
    hide FlagByte;
    if mask == 0 {
      return;
    }
    var i := 0;
    while i < maxBytes
      invariant i <= maxBytes
      invariant forall k :: 0 <= k < i ==> buf[k] == old(buf[k]) | FlagByte(mask, k)
      invariant forall k :: i <= k < buf.Length ==> buf[k] == old(buf[k])
    {
      buf[i] := buf[i] | FlagByte(mask, i);
      i := i + 1;
    }
  }

  // The flag bytes are the mask's bytes, the least significant first.
  lemma FlagBytes(mask: bv64)
    ensures mask == (FlagByte(mask, 0) as bv64) | ((FlagByte(mask, 1) as bv64) << 8)
                    | ((FlagByte(mask, 2) as bv64) << 16) | ((FlagByte(mask, 3) as bv64) << 24)
                    | ((FlagByte(mask, 4) as bv64) << 32) | ((FlagByte(mask, 5) as bv64) << 40)
                    | ((FlagByte(mask, 6) as bv64) << 48) | ((FlagByte(mask, 7) as bv64) << 56)
  {
  }

  // The first byte of work_buf for a register: format_reg, then the flag mask.
  function RegByte(reg: bv32, shift: nat, mask: bv64): byte
    requires shift < 8
  {
    var b := ((reg << shift) & 0xff) as byte;
    if mask == 0 then b else b | FlagByte(mask, 0)
  }

  // It has the bits of the register's low byte and those of the mask's.
  lemma RegByteBits(reg: bv32, mask: bv64, bits: byte)
    ensures RegByte(reg, 0, mask) & bits == 0 <==>
            ((reg & 0xff) as byte) & bits == 0 && ((mask & 0xff) as byte) & bits == 0
  {
  }

  class Regmap {
    const bus: Interface.Interface
    const option3: bool
    const hasGather: bool
    const regShift: nat
    const writeFlagMask: bv64
    const workBuf: array<byte>

    // __regmap_init for 8-bit registers and values (include/linux/regmap.h:492-497).
    constructor (bus: Interface.Interface, option3: bool, hasGather: bool, writeFlagMask: bv64)
      ensures this.bus == bus && this.option3 == option3 && this.hasGather == hasGather
      ensures this.writeFlagMask == writeFlagMask && regShift == 0
      ensures workBuf.Length == 2 && fresh(workBuf)
    {
      this.bus, this.option3, this.hasGather := bus, option3, hasGather;
      this.writeFlagMask, regShift := writeFlagMask, 0;
      workBuf := new byte[2];
    }

    predicate Valid()
      reads this, bus
    {
      && regShift < 8 && workBuf.Length == 2
      && bus.Valid()
      && Emulated(L())
    }

    // The link can be used and, for Option 3, the bounce buffer is large enough.
    predicate Ready()
    {
      Usable(L()) && (option3 ==> bus.chunkSize <= Interface.TX_BUF_BYTES)
    }

    // Which DMA limits that is.
    lemma ReadyIs()
      requires bus.chunkSize == Option3.MaxTransferSize(bus.spi.maxDmaLen, 0, 0)
      ensures Ready() <==> if option3 then bus.spi.maxDmaLen < 153604 else bus.spi.maxDmaLen >= 12
    {
    }

    function L(): Link
    {
      Link(option3, bus.spi.bpwMask, bus.spi.maxDmaLen)
    }

    // The bus's gather_write.
    method GatherWrite(reg: byte, regLen: nat, val: Ptr, valLen: nat) returns (ret: int)
      requires Valid()
      modifies bus.spi`log, bus.spi`asked, bus.spi`dc, bus`txBuf, if bus.txBuf != null then {bus.txBuf} else {}
      ensures Valid() && (bus.txBuf == old(bus.txBuf) || (bus.txBuf != null && fresh(bus.txBuf)))
      ensures old(bus.spi.log) <= bus.spi.log && old(bus.spi.asked) <= bus.spi.asked
      ensures regLen == 1 ==> Accounted(L(), Call(reg, val, valLen), bus.spi.log[|old(bus.spi.log)|..], ret == 0)
      ensures regLen == 1 && Ready() && bus.spi.Smooth(old(bus.spi.asked), bus.spi.asked) ==> ret == 0
      ensures regLen != 1 ==> ret == -EINVAL && Heard(L(), bus.spi.log[|old(bus.spi.log)|..]) == []
      ensures ret != 0 ==> ret < 0 && ret != -ENOTSUPP
    {
      hide Option3.BpwSupported, Sent, PinWords, Wire1, Words3, Accounted, Receive;
      var c := Call(reg, val, valLen);
      NothingHeard();
      if option3 {
        ret := bus.Spi3GatherWrite(reg, regLen, val, true, valLen);
        ghost var ts := bus.spi.log[|old(bus.spi.log)|..];
        if regLen == 1 {
          PinAccounted(L(), c, ts, ret == 0);
        }
      } else {
        ret := bus.Spi1GatherWrite(reg, regLen, val, true, valLen);
        ghost var ts := bus.spi.log[|old(bus.spi.log)|..];
        if Usable1(bus.spi.maxDmaLen) {
          if regLen == 1 {
            WireAccounted(L(), c, ts, ret == 0);
          }
        } else {
          NothingAccounted(L(), c, ts);
        }
      }
    }

    // The bus's write: one buffer holding the register byte and the values.
    method Write(data: seq<byte>) returns (ret: int)
      requires Valid() && |data| >= 1
      modifies bus.spi`log, bus.spi`asked, bus.spi`dc, bus`txBuf, if bus.txBuf != null then {bus.txBuf} else {}
      ensures Valid() && (bus.txBuf == old(bus.txBuf) || (bus.txBuf != null && fresh(bus.txBuf)))
      ensures old(bus.spi.log) <= bus.spi.log && old(bus.spi.asked) <= bus.spi.asked
      ensures Accounted(L(), Call(data[0], PtrTo(data[1..]), |data| - 1),
                        bus.spi.log[|old(bus.spi.log)|..], ret == 0)
      ensures Ready() && bus.spi.Smooth(old(bus.spi.asked), bus.spi.asked) ==> ret == 0
      ensures ret != 0 ==> ret < 0 && ret != -ENOTSUPP
    {
      hide Option3.BpwSupported, Accounted;
      ret := GatherWrite(data[0], 1, PtrTo(data[1..]), |data| - 1);
    }

    // format_reg into work_buf, then the flag mask.
    method FormatReg(reg: bv32)
      requires Valid()
      modifies workBuf
      ensures workBuf[0] == RegByte(reg, regShift, writeFlagMask) && workBuf[1] == old(workBuf[1])
    {
      hide Option3.BpwSupported, FlagByte;
      workBuf[0] := ((reg << regShift) & 0xff) as byte;
      SetFlagMask(workBuf, 1, writeFlagMask);
    }

    // The fallback: register byte and values copied into one buffer.
    method Linearise(regByte: byte, val: Ptr, valLen: nat) returns (ret: int)
      requires Valid()
      modifies bus.spi`log, bus.spi`asked, bus.spi`dc, bus`txBuf, if bus.txBuf != null then {bus.txBuf} else {}
      ensures Valid() && (bus.txBuf == old(bus.txBuf) || (bus.txBuf != null && fresh(bus.txBuf)))
      ensures old(bus.spi.log) <= bus.spi.log && old(bus.spi.asked) <= bus.spi.asked
      ensures Accounted(L(), Call(regByte, val, valLen), bus.spi.log[|old(bus.spi.log)|..], ret == 0)
      ensures Ready() && bus.spi.Smooth(old(bus.spi.asked), bus.spi.asked) ==> ret == 0
      ensures ret != 0 ==> ret < 0
    {
      hide Option3.BpwSupported, Accounted, PinWords, Sent, Load;
      var ok := bus.spi.Alloc();
      if !ok {
        assert bus.spi.log[|old(bus.spi.log)|..] == [];
        NothingSent();
        NothingAccounted(L(), Call(regByte, val, valLen), []);
        return -ENOMEM;
      }
      var values := Load(val, 0, valLen);
      var buf := [regByte] + values;
      assert buf[1..] == values;
      ret := Write(buf);
      LoadPtrTo(values, valLen);
      SameAccounted(L(), regByte, PtrTo(values), val, valLen, bus.spi.log[|old(bus.spi.log)|..], ret == 0);
    }

    // _regmap_raw_write: by whichever of the three paths, the register byte and the
    // caller's value bytes reach the same gather write.
    method RawWrite(reg: bv32, val: Ptr, valLen: nat) returns (ret: int)
      requires Valid()
      modifies workBuf, bus.spi`log, bus.spi`asked, bus.spi`dc, bus`txBuf, if bus.txBuf != null then {bus.txBuf} else {}
      ensures Valid() && (bus.txBuf == old(bus.txBuf) || (bus.txBuf != null && fresh(bus.txBuf)))
      ensures old(bus.spi.log) <= bus.spi.log && old(bus.spi.asked) <= bus.spi.asked
      ensures Accounted(L(), Call(RegByte(reg, regShift, writeFlagMask), val, valLen),
                        bus.spi.log[|old(bus.spi.log)|..], ret == 0)
      ensures Ready() && bus.spi.Smooth(old(bus.spi.asked), bus.spi.asked) ==> ret == 0
      ensures ret != 0 ==> ret < 0
    {
      hide Option3.BpwSupported, Accounted, RegByte, Load;
      FormatReg(reg);
      ret := -ENOTSUPP;
      if valLen == 1 {
        workBuf[1] := val(0);
        var buf := [workBuf[0], workBuf[1]];
        ret := Write(buf);
        OneByte(val, buf[1..]);
        SameAccounted(L(), workBuf[0], PtrTo(buf[1..]), val, 1, bus.spi.log[|old(bus.spi.log)|..], ret == 0);
      } else if hasGather {
        ret := GatherWrite(workBuf[0], 1, val, valLen);
      }
      if ret == -ENOTSUPP {
        ret := Linearise(workBuf[0], val, valLen);
      }
    }
  }

  lemma NothingSent()
    ensures Sent([]) == [] && PinWords([]) == []
  {
  }

  lemma OneByte(val: Ptr, s: seq<byte>)
    requires s == [val(0)]
    ensures Load(PtrTo(s), 0, 1) == Load(val, 0, 1)
  {
    LoadPtrTo(s, 1);
    assert Load(val, 0, 1) == [val(0)];
  }
}
