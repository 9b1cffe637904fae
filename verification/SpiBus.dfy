// The SPI bus below the encoders: every transfer that reached the wire is logged
// together with the level of the D/C pin at that moment. Which messages and memory
// allocations succeed is fixed beforehand and unknown to the driver.
module SpiBus {
  import opened Base
  import opened Bytes

  datatype Transfer = Transfer(pin: bool, data: seq<byte>)

  // The bytes of consecutive transfers.
  function Sent(ts: seq<Transfer>): seq<byte>
  {
    if ts == [] then [] else Sent(ts[..|ts| - 1]) + ts[|ts| - 1].data
  }

  lemma SentAppend(ts: seq<Transfer>, t: Transfer)
    ensures Sent(ts + [t]) == Sent(ts) + t.data
  {
    assert (ts + [t])[..|ts|] == ts;
  }

  class SpiMaster {
    const maxDmaLen: nat
    const bpwMask: bv32
    const meets: nat -> bool // whether the n-th message or allocation succeeds
    var asked: nat           // how many there have been
    var dc: bool
    var log: seq<Transfer>

    constructor (maxDmaLen: nat, bpwMask: bv32, meets: nat -> bool)
      ensures this.maxDmaLen == maxDmaLen && this.bpwMask == bpwMask && this.meets == meets
      ensures log == [] && asked == 0
    {
      this.maxDmaLen := maxDmaLen;
      this.bpwMask := bpwMask;
      this.meets := meets;
      asked, dc, log := 0, false, [];
    }

    // Nothing fails from one point to another.
    predicate Smooth(a: nat, b: nat)
    {
      forall n | a <= n < b :: meets(n)
    }

    // How many messages and allocations fail from one point to another.
    function Failures(a: nat, b: nat): nat
      requires a <= b
      decreases b
    {
      if a == b then 0 else Failures(a, b - 1) + if meets(b - 1) then 0 else 1
    }

    lemma {:induction false} FailuresSplit(a: nat, b: nat, c: nat)
      requires a <= b <= c
      ensures Failures(a, c) == Failures(a, b) + Failures(b, c)
      decreases c
    {
      if b < c {
        FailuresSplit(a, b, c - 1);
      }
    }

    lemma {:induction false} SmoothIs(a: nat, b: nat)
      requires a <= b
      ensures Smooth(a, b) <==> Failures(a, b) == 0
      decreases b
    {
      if a < b {
        SmoothIs(a, b - 1);
        assert Smooth(a, b) <==> Smooth(a, b - 1) && meets(b - 1);
      }
    }

    // kmalloc and its relatives.
    method Alloc() returns (ok: bool)
      modifies this`asked
      ensures ok == meets(old(asked)) && asked == old(asked) + 1
    {
      ok := meets(asked);
      asked := asked + 1;
    }

    // spi_sync of a message with one transfer: all of it or an error.
    method SpiSync(data: seq<byte>) returns (ret: int)
      modifies this`log, this`asked
      ensures ret == 0 ==> log == old(log) + [Transfer(dc, data)]
      ensures ret != 0 ==> log == old(log) && -MAX_ERRNO_IO <= ret < 0
      ensures asked == old(asked) + 1 && (ret == 0 <==> meets(old(asked)))
    {
      asked := asked + 1;
      if meets(asked - 1) {
        log := log + [Transfer(dc, data)];
        ret := 0;
      } else {
        ret :| -MAX_ERRNO_IO <= ret < 0;
      }
    }

    method SetDc(value: bool)
      modifies this`dc
      ensures dc == value
    {
      dc := value;
    }
  }
}
