// The requests spi_sync makes of the kernel (spi.c:35-122): which memory each transfer is
// read from, and how a transfer through buf_fd is cut up.
module Spidev {
  import opened Base
  import opened Flush
  import opened FbList
  import opened Clips

  const MAX_CHUNK: nat := 30720 // 320 * 240 * 2 / 5

  datatype Span = Span(at: nat, len: nat)

  // A length cut into chunks of a fixed size, starting at a position.
  function Tiles(at: nat, len: nat, max: nat): (r: seq<Span>)
    requires max > 0
    decreases len
  {
    if len == 0 then []
    else
      var chunk := if len < max then len else max;
      [Span(at, chunk)] + Tiles(at + chunk, len - chunk, max)
  }

  // How many of the spans hold a position.
  function Count(s: seq<Span>, x: nat): nat
  {
    if s == [] then 0 else (if s[0].at <= x < s[0].at + s[0].len then 1 else 0) + Count(s[1..], x)
  }

  // Every position is transferred exactly once, and none outside the range.
  lemma {:induction false} TilesPartition(at: nat, len: nat, max: nat, x: nat)
    requires max > 0
    ensures Count(Tiles(at, len, max), x) == if at <= x < at + len then 1 else 0
    decreases len
  {
    if len > 0 {
      var chunk := if len < max then len else max;
      TilesPartition(at + chunk, len - chunk, max, x);
      assert Tiles(at, len, max)[1..] == Tiles(at + chunk, len - chunk, max);
    }
  }

  // The chunks follow each other in order, are no larger than the maximum, and only the
  // last one may be smaller.
  lemma {:induction false} TilesInOrder(at: nat, len: nat, max: nat, i: nat)
    requires max > 0 && i < |Tiles(at, len, max)|
    ensures var t := Tiles(at, len, max);
            && t[i].at >= at && t[i].at + t[i].len <= at + len && 0 < t[i].len <= max
            && t[i].at == at + i * max
            && t[i].len == if i < |t| - 1 then max else at + len - t[i].at
    decreases len
  {
    var chunk := if len < max then len else max;
    if i > 0 {
      TilesInOrder(at + chunk, len - chunk, max, i - 1);
      assert Tiles(at, len, max)[i] == Tiles(at + chunk, len - chunk, max)[i - 1];
      assert i * max == (i - 1) * max + max;
    } else {
      assert len - chunk > 0 ==> |Tiles(at + chunk, len - chunk, max)| > 0;
    }
  }

  // There are no more chunks than it takes.
  lemma {:induction false} TilesNeeded(at: nat, len: nat, max: nat)
    requires max > 0
    ensures var n := |Tiles(at, len, max)|;
            (n - 1) * max < len <= n * max || (len == 0 && n == 0)
    decreases len
  {
    if len > max {
      TilesNeeded(at + max, len - max, max);
      var n := |Tiles(at, len, max)|;
      assert (n - 1) * max == (n - 2) * max + max;
      assert n * max == (n - 1) * max + max;
    } else if len > 0 {
      assert Tiles(at + len, 0, max) == [];
    }
  }

  // A frame of 320 by 240 pixels goes through buf_fd in five requests.
  lemma FiveRequests()
    ensures |BufFdRequests(Tiles(0, 320 * 240 * 2, MAX_CHUNK))| == 5
  {
    TilesNeeded(0, 320 * 240 * 2, MAX_CHUNK);
    hide Tiles;
  }

  // Cutting is the same wherever the range starts.
  lemma {:induction false} TilesShift(at: nat, len: nat, max: nat, shift: nat, i: nat)
    requires max > 0 && i < |Tiles(at, len, max)|
    ensures |Tiles(at + shift, len, max)| == |Tiles(at, len, max)|
    ensures Tiles(at + shift, len, max)[i] == Span(Tiles(at, len, max)[i].at + shift, Tiles(at, len, max)[i].len)
    decreases len
  {
    var chunk := if len < max then len else max;
    if len - chunk > 0 {
      assert |Tiles(at + chunk, len - chunk, max)| > 0;
      TilesShift(at + chunk, len - chunk, max, shift, if i > 0 then i - 1 else 0);
      assert at + shift + chunk == at + chunk + shift;
    }
  }

  // A request to the spidev device: the memory it is read from and the range in it.
  datatype Request =
    | FromFb(fb: Fb, range: Span)
    | FromTxBuf(range: Span)
    | FromBufFd(range: Span)
    | FromMemory(range: Span)
    | Pair(first: Request, len: nat) // with a second transfer that has nothing to send

  datatype Mapping = NoMapping | Mapping(base: nat, size: nat)

  predicate InTxBuf(txBuf: Mapping, tx: nat)
  {
    txBuf.Mapping? && txBuf.base <= tx < txBuf.base + txBuf.size
  }

  // What a transfer from address tx asks for, outside the buf_fd mode.
  function Asked(s: seq<Fb>, txBuf: Mapping, tx: nat, len: nat): Request
  {
    var k := FirstMapping(s, tx);
    if k < |s| then FromFb(s[k], Span((tx - s[k].base) % U32, len))
    else if InTxBuf(txBuf, tx) then FromTxBuf(Span((tx - txBuf.base) % U32, len))
    else FromMemory(Span(tx, len))
  }

  // The first address a request reads from.
  function AddressOf(r: Request, txBuf: Mapping): nat
    requires r.FromFb? || r.FromTxBuf? || r.FromMemory?
  {
    match r
    case FromFb(fb, range) => fb.base + range.at
    case FromTxBuf(range) => (if txBuf.Mapping? then txBuf.base else 0) + range.at
    case _ => r.range.at
  }

  // A transfer is asked for where it lies: in the first framebuffer that maps its address,
  // else in the bounce buffer if that does, else by the address itself. The offset passed on
  // has 32 bits, which is right everywhere but beyond 4 GB of the bounce buffer.
  lemma AskedWhereItLies(s: seq<Fb>, txBuf: Mapping, tx: nat, len: nat)
    ensures
      var r := Asked(s, txBuf, tx, len);
      var mapped := exists fb :: fb in s && fb.base <= tx < fb.base + fb.height * fb.pitch % U32;
      && (r.FromFb? <==> mapped)
      && (r.FromFb? ==> r.fb in s)
      && (r.FromTxBuf? <==> !mapped && txBuf.Mapping? && txBuf.base <= tx < txBuf.base + txBuf.size)
      && r.range.len == len
      && (AddressOf(r, txBuf) == tx <==> (r.FromTxBuf? ==> tx - txBuf.base < U32))
  {
    var k := FirstMapping(s, tx);
    if k < |s| {
      assert s[k] in s;
      MapSizeBound(s[k]);
      NoWrap32(tx - s[k].base);
    } else {
      forall fb | fb in s
        ensures !(fb.base <= tx < fb.base + fb.height * fb.pitch % U32)
      {
        assert !Maps(fb, tx);
      }
    }
    hide FirstMapping;
  }

  // The same for a message that may have a second transfer, of which only the length and
  // the receive buffer are passed on.
  function AskedWith(s: seq<Fb>, txBuf: Mapping, tx: nat, len: nat, second: Option<nat>): Request
  {
    if second.Some? then Pair(Asked(s, txBuf, tx, len), second.value) else Asked(s, txBuf, tx, len)
  }

  lemma AskedAlone(s: seq<Fb>, txBuf: Mapping, tx: nat, len: nat)
    ensures AskedWith(s, txBuf, tx, len, None) == Asked(s, txBuf, tx, len)
  {
    hide Asked;
  }

  lemma AskedPair(s: seq<Fb>, txBuf: Mapping, tx: nat, len: nat, n: nat)
    ensures var r := AskedWith(s, txBuf, tx, len, Some(n));
            r.Pair? && r.first == AskedWith(s, txBuf, tx, len, None) && r.len == n
  {
    hide Asked;
  }

  // With a header in front of every chunk: the header's bytes, and then as many clocks as
  // the chunk has bytes. The chunk's own bytes are not asked for.
  function HeaderRequests(header: Request, t: seq<Span>): (r: seq<Request>)
    ensures |r| == |t|
  {
    seq(|t|, i requires 0 <= i < |t| => Pair(header, t[i].len))
  }

  lemma HeaderStep(header: Request, reqs: seq<Request>, at: nat, len: nat, max: nat)
    requires max > 0 && len > 0
    ensures
      var chunk := if len < max then len else max;
      reqs + HeaderRequests(header, Tiles(at, len, max))
        == reqs + [Pair(header, chunk)] + HeaderRequests(header, Tiles(at + chunk, len - chunk, max))
  {
    var chunk := if len < max then len else max;
    var rest := Tiles(at + chunk, len - chunk, max);
    assert HeaderRequests(header, [Span(at, chunk)] + rest) == [Pair(header, chunk)] + HeaderRequests(header, rest);
  }

  function BufFdRequests(t: seq<Span>): (r: seq<Request>)
    ensures |r| == |t|
  {
    seq(|t|, i requires 0 <= i < |t| => FromBufFd(t[i]))
  }

  // How many requests read a position of buf_fd.
  function ReadBy(rs: seq<Request>, x: nat): nat
  {
    if rs == [] then 0
    else
      var r := rs[0];
      (if r.FromBufFd? && r.range.at <= x < r.range.at + r.range.len then 1 else 0) + ReadBy(rs[1..], x)
  }

  // A transfer through buf_fd reads its first bytes, each of them once.
  lemma BufFdReadOnce(len: nat, x: nat)
    ensures ReadBy(BufFdRequests(Tiles(0, len, MAX_CHUNK)), x) == if x < len then 1 else 0
  {
    ReadByCount(Tiles(0, len, MAX_CHUNK), x);
    TilesPartition(0, len, MAX_CHUNK, x);
    hide Tiles;
  }

  lemma {:induction false} ReadByCount(t: seq<Span>, x: nat)
    ensures ReadBy(BufFdRequests(t), x) == Count(t, x)
    decreases |t|
  {
    if t != [] {
      ReadByCount(t[1..], x);
      assert BufFdRequests(t)[1..] == BufFdRequests(t[1..]);
    }
  }

  // The clocks of the second transfers.
  function Clocks(rs: seq<Request>): nat
  {
    if rs == [] then 0 else (if rs[0].Pair? then rs[0].len else 0) + Clocks(rs[1..])
  }

  // With a header there are as many clocks as the data has bytes.
  lemma {:induction false} HeaderClocks(header: Request, at: nat, len: nat, max: nat)
    requires max > 0
    ensures Clocks(HeaderRequests(header, Tiles(at, len, max))) == len
    decreases len
  {
    if len > 0 {
      var chunk := if len < max then len else max;
      HeaderClocks(header, at + chunk, len - chunk, max);
      var rs := HeaderRequests(header, Tiles(at, len, max));
      assert rs[1..] == HeaderRequests(header, Tiles(at + chunk, len - chunk, max));
    }
  }

  // One more chunk of a transfer through buf_fd.
  lemma BufStep(done: seq<Span>, offset: nat, len: nat)
    requires len > 0
    ensures
      var t := Span(offset, if len < MAX_CHUNK then len else MAX_CHUNK);
      && done + Tiles(offset, len, MAX_CHUNK) == done + [t] + Tiles(offset + t.len, len - t.len, MAX_CHUNK)
      && BufFdRequests(done + [t]) == BufFdRequests(done) + [FromBufFd(t)]
  {
  }

  lemma NoTiles(offset: nat)
    ensures Tiles(offset, 0, MAX_CHUNK) == [] && BufFdRequests([]) == []
  {
  }

  lemma PrefixRequests(a: seq<Span>, b: seq<Span>)
    ensures BufFdRequests(a) <= BufFdRequests(a + b)
  {
  }

  lemma NoWrap32(n: nat)
    requires n < U32
    ensures n % U32 == n
  {
  }

  // One framebuffer mapping holds no address of another.
  ghost predicate Disjoint(s: seq<Fb>)
  {
    forall i, j, x: nat | 0 <= i < j < |s| :: !(Maps(s[i], x) && Maps(s[j], x))
  }

  lemma FoundIn(s: seq<Fb>, k: nat, x: nat)
    requires Disjoint(s) && k < |s| && Maps(s[k], x)
    ensures FirstMapping(s, x) == k
  {
    var f := FirstMapping(s, x);
    assert f <= k;
    assert Maps(s[f], x);
  }

  lemma MapSizeBound(fb: Fb)
    ensures MapSize(fb) < U32
  {
  }

  // A transfer that lies in one framebuffer's mapping and is cut into chunks asks, chunk
  // by chunk, for the pieces of that range in that framebuffer, in order.
  lemma ChunksFound(s: seq<Fb>, txBuf: Mapping, k: nat, at: nat, len: nat, max: nat, i: nat)
    requires max > 0 && Disjoint(s) && k < |s| && at + len <= MapSize(s[k])
    requires i < |Tiles(s[k].base + at, len, max)|
    ensures
      var chunk := Tiles(s[k].base + at, len, max)[i];
      && i < |Tiles(at, len, max)|
      && Asked(s, txBuf, chunk.at, chunk.len) == FromFb(s[k], Tiles(at, len, max)[i])
  {
    TilesCount(at, len, max, s[k].base);
    TilesShift(at, len, max, s[k].base, i);
    TilesInOrder(at, len, max, i);
    var t := Tiles(at, len, max)[i];
    FoundIn(s, k, s[k].base + t.at);
    MapSizeBound(s[k]);
    NoWrap32(t.at);
    hide MapSize;
    assert s[k].base + t.at - s[k].base == t.at;
  }

  lemma {:induction false} TilesCount(at: nat, len: nat, max: nat, shift: nat)
    requires max > 0
    ensures |Tiles(at + shift, len, max)| == |Tiles(at, len, max)|
    decreases len
  {
    if len > 0 {
      var chunk := if len < max then len else max;
      TilesCount(at + chunk, len - chunk, max, shift);
    }
  }

  // The direct path of a flush: all chunks are found in the flushed framebuffer, at the
  // offsets the flush computed.
  lemma FlushChunksFound(s: seq<Fb>, txBuf: Mapping, k: nat, c: Clip, max: nat, i: nat)
    requires max > 0 && Disjoint(s) && k < |s| && Fits(s[k], c) && s[k].format == RGB565
    requires i < |Tiles(s[k].base + Offset(RGB565, c), Length(c), max)|
    ensures
      var chunk := Tiles(s[k].base + Offset(RGB565, c), Length(c), max)[i];
      && i < |Tiles(Offset(RGB565, c), Length(c), max)|
      && Asked(s, txBuf, chunk.at, chunk.len) == FromFb(s[k], Tiles(Offset(RGB565, c), Length(c), max)[i])
  {
    FlushWithinMap(s[k], c);
    assert MapSize(s[k]) == s[k].height * s[k].pitch;
    ChunksFound(s, txBuf, k, Offset(RGB565, c), Length(c), max, i);
  }

  function FbRequests(fb: Fb, t: seq<Span>): (r: seq<Request>)
    ensures |r| == |t|
  {
    seq(|t|, i requires 0 <= i < |t| => FromFb(fb, t[i]))
  }

  // The requests made so far and those for the rest are together all there is to send.
  ghost predicate Progress(fb: Fb, reqs: seq<Request>, at: nat, len: nat, max: nat, all: seq<Request>)
    requires max > 0
  {
    reqs + FbRequests(fb, Tiles(at, len, max)) == all
  }

  lemma ProgressStart(fb: Fb, at: nat, len: nat, max: nat)
    requires max > 0
    ensures Progress(fb, [], at, len, max, FbRequests(fb, Tiles(at, len, max)))
  {
  }

  lemma ProgressStep(fb: Fb, reqs: seq<Request>, at: nat, len: nat, max: nat, all: seq<Request>)
    requires max > 0 && len > 0 && Progress(fb, reqs, at, len, max, all)
    ensures
      var chunk := if len < max then len else max;
      Progress(fb, reqs + [FromFb(fb, Span(at, chunk))], at + chunk, len - chunk, max, all)
  {
    var t := Span(at, if len < max then len else max);
    var rest := Tiles(at + t.len, len - t.len, max);
    assert FbRequests(fb, [t] + rest) == [FromFb(fb, t)] + FbRequests(fb, rest);
    assert reqs + ([FromFb(fb, t)] + FbRequests(fb, rest)) == reqs + [FromFb(fb, t)] + FbRequests(fb, rest);
  }

  lemma ProgressEnds(fb: Fb, reqs: seq<Request>, at: nat, len: nat, max: nat, all: seq<Request>)
    requires max > 0 && Progress(fb, reqs, at, len, max, all)
    ensures reqs <= all && (len == 0 ==> reqs == all)
  {
  }

  lemma NextFound(s: seq<Fb>, txBuf: Mapping, k: nat, at: nat, len: nat, max: nat)
    requires max > 0 && len > 0 && Disjoint(s) && k < |s| && at + len <= MapSize(s[k])
    ensures
      var chunk := if len < max then len else max;
      Asked(s, txBuf, s[k].base + at, chunk) == FromFb(s[k], Span(at, chunk))
  {
    var chunk := if len < max then len else max;
    assert Tiles(at, len, max)[0] == Span(at, chunk);
    assert Tiles(s[k].base + at, len, max)[0] == Span(s[k].base + at, chunk);
    ChunksFound(s, txBuf, k, at, len, max, 0);
  }

  class SpiDevice {
    const list: FbList
    const bufFd: int
    const txBuf: Mapping
    const meets: nat -> bool // whether the n-th request is carried out
    var asked: nat           // how many there have been
    var log: seq<Request>

    constructor (list: FbList, bufFd: int, txBuf: Mapping, meets: nat -> bool)
      ensures this.list == list && this.bufFd == bufFd && this.txBuf == txBuf && this.meets == meets
      ensures log == [] && asked == 0
    {
      this.list, this.bufFd, this.txBuf, this.meets := list, bufFd, txBuf, meets;
      asked, log := 0, [];
    }

    // Nothing fails from one point to another.
    predicate Smooth(a: nat, b: nat)
    {
      forall n | a <= n < b :: meets(n)
    }

    // spi_ioc_message: the kernel carries the request out, or open or ioctl fails.
    method IocMessage(r: Request) returns (ret: int)
      modifies this
      ensures ret == 0 ==> log == old(log) + [r]
      ensures ret != 0 ==> log == old(log) && -MAX_ERRNO_IO <= ret < 0
      ensures asked == old(asked) + 1 && (ret == 0 <==> meets(old(asked)))
    {
      asked := asked + 1;
      if meets(asked - 1) {
        log := log + [r];
        ret := 0;
      } else {
        ret :| -MAX_ERRNO_IO <= ret < 0;
      }
    }

    method BufTransfer(trLen: nat) returns (ret: int)
      requires trLen < U32
      modifies this
      ensures old(log) <= log && log[|old(log)|..] <= BufFdRequests(Tiles(0, trLen, MAX_CHUNK))
      ensures ret == 0 ==> log == old(log) + BufFdRequests(Tiles(0, trLen, MAX_CHUNK))
      ensures ret != 0 ==> -MAX_ERRNO_IO <= ret < 0
      ensures old(asked) <= asked && (Smooth(old(asked), asked) ==> ret == 0)
    {
      ghost var all := Tiles(0, trLen, MAX_CHUNK);
      ghost var done: seq<Span> := [];
      hide Tiles, BufFdRequests;
      var len: nat, offset: nat := trLen, 0;
      NoTiles(0);
      while len != 0
        invariant offset + len == trLen
        invariant all == done + Tiles(offset, len, MAX_CHUNK)
        invariant log == old(log) + BufFdRequests(done)
        invariant old(asked) <= asked
      {
        var chunk := if len < MAX_CHUNK then len else MAX_CHUNK;
        var utr := FromBufFd(Span(offset, chunk));
        BufStep(done, offset, len);
        PrefixRequests(done, Tiles(offset, len, MAX_CHUNK));
        NoWrap32(offset + chunk);
        offset := (offset + chunk) % U32;
        len := len - chunk;
        ret := IocMessage(utr);
        if ret != 0 {
          return;
        }
        done := done + [utr.range];
      }
      assert Tiles(offset, 0, MAX_CHUNK) == [] by {
        NoTiles(offset);
      }
      assert done == all;
      ret := 0;
    }

    lemma NotBuffered(s: seq<Fb>, tx: nat)
      requires bufFd < 0
      ensures !Buffered(s, tx)
    {
    }

    predicate Buffered(s: seq<Fb>, tx: nat)
    {
      FirstMapping(s, tx) < |s| && bufFd >= 0
    }

    // buf_fd stands in for a framebuffer's memory and for no other.
    lemma BufferedExactly(s: seq<Fb>, tx: nat)
      ensures Buffered(s, tx) <==> bufFd >= 0 && Asked(s, txBuf, tx, 0).FromFb?
    {
    }

    // spi_sync of a message with one transfer, or two; second is the length of the second.
    method SpiSync(tx: nat, len: nat, second: Option<nat>) returns (ret: int)
      requires list.Valid() && len < U32
      modifies this
      ensures !Buffered(list.Contents(), tx) ==>
        log == old(log) + if ret == 0 then [AskedWith(list.Contents(), txBuf, tx, len, second)] else []
      ensures Buffered(list.Contents(), tx) ==>
        var all := BufFdRequests(Tiles(0, len, MAX_CHUNK));
        old(log) <= log && log[|old(log)|..] <= all && (ret == 0 ==> log == old(log) + all)
      ensures ret != 0 ==> -MAX_ERRNO_IO <= ret < 0
      ensures old(asked) <= asked && (Smooth(old(asked), asked) ==> ret == 0)
    {
      hide MapSize, Tiles, BufFdRequests, FirstMapping;
      var ufb := list.FindMapping(tx);
      ghost var s := list.Contents();
      assert ufb != null ==> ufb.fb == s[FirstMapping(s, tx)];
      if ufb != null && bufFd >= 0 {
        ret := BufTransfer(len);
        return;
      }
      var utr := FromMemory(Span(tx, len));
      if ufb != null {
        utr := FromFb(ufb.fb, Span((tx - ufb.fb.base) % U32, len));
      } else if txBuf.Mapping? {
        if tx >= txBuf.base && tx < txBuf.base + txBuf.size {
          utr := FromTxBuf(Span((tx - txBuf.base) % U32, len));
        }
      }
      if second.Some? {
        utr := Pair(utr, second.value);
      }
      assert utr == AskedWith(s, txBuf, tx, len, second);
      ret := IocMessage(utr);
    }

    // One turn of the loop of tinydrm_spi_transfer, seen by the address it passes to
    // spi_sync, when the data is sent from where it lies in framebuffer k.
    method TransferChunk(buf: nat, len: nat, maxChunk: nat, ghost s: seq<Fb>, ghost k: nat) returns (ret: int, chunk: nat)
      requires list.Valid() && list.Contents() == s && bufFd < 0 && maxChunk > 0 && 0 < len
      requires Disjoint(s) && k < |s| && s[k].base <= buf && buf + len <= s[k].base + MapSize(s[k])
      modifies this
      ensures chunk == if len < maxChunk then len else maxChunk
      ensures log == old(log) + if ret == 0 then [FromFb(s[k], Span(buf - s[k].base, chunk))] else []
      ensures ret != 0 ==> -MAX_ERRNO_IO <= ret < 0
      ensures old(asked) <= asked && (Smooth(old(asked), asked) ==> ret == 0)
    {
      NotBuffered(s, buf);
      hide *;
      chunk := if len < maxChunk then len else maxChunk;
      MapSizeBound(s[k]);
      NextFound(s, txBuf, k, buf - s[k].base, len, maxChunk);
      AskedAlone(s, txBuf, buf, chunk);
      ret := SpiSync(buf, chunk, None);
    }

    // The whole loop.
    method TransferDirect(tx: nat, txLen: nat, maxChunk: nat, ghost s: seq<Fb>, ghost k: nat) returns (ret: int)
      requires list.Valid() && list.Contents() == s && bufFd < 0 && maxChunk > 0
      requires Disjoint(s) && k < |s| && s[k].base <= tx && tx + txLen <= s[k].base + MapSize(s[k])
      modifies this
      ensures
        var all := FbRequests(s[k], Tiles(tx - s[k].base, txLen, maxChunk));
        && old(log) <= log && log[|old(log)|..] <= all
        && (ret == 0 ==> log == old(log) + all)
      ensures ret != 0 ==> -MAX_ERRNO_IO <= ret < 0
      ensures old(asked) <= asked && (Smooth(old(asked), asked) ==> ret == 0)
    {
      hide Tiles, FbRequests, Progress, Disjoint, MapSize, FbList.Valid, FbList.Contents;
      ghost var at: nat := tx - s[k].base;
      ghost var all := FbRequests(s[k], Tiles(at, txLen, maxChunk));
      ghost var reqs: seq<Request> := [];
      ProgressStart(s[k], at, txLen, maxChunk);
      var buf: nat, len: nat := tx, txLen;
      ret := 0;
      while len != 0
        invariant buf + len == tx + txLen && buf == s[k].base + at
        invariant Progress(s[k], reqs, at, len, maxChunk, all)
        invariant log == old(log) + reqs && old(asked) <= asked
        invariant ret == 0 && list.Contents() == s && list.Valid()
      {
        var chunk;
        ret, chunk := TransferChunk(buf, len, maxChunk, s, k);
        if ret != 0 {
          break;
        }
        ProgressStep(s[k], reqs, at, len, maxChunk, all);
        reqs := reqs + [FromFb(s[k], Span(at, chunk))];
        buf, len, at := buf + chunk, len - chunk, at + chunk;
      }
      ProgressEnds(s[k], reqs, at, len, maxChunk, all);
      assert log[|old(log)|..] == reqs;
    }

    // The loop with a header in front of every chunk (tinydrm-regmap.c:378-406).
    method TransferWithHeader(tx: nat, txLen: nat, header: nat, headerLen: nat, maxChunk: nat) returns (ret: int)
      requires list.Valid() && maxChunk > 0 && headerLen < U32
      requires !Buffered(list.Contents(), header)
      modifies this
      ensures
        var all := HeaderRequests(Asked(list.Contents(), txBuf, header, headerLen), Tiles(tx, txLen, maxChunk));
        && old(log) <= log && log[|old(log)|..] <= all
        && (ret == 0 ==> log == old(log) + all)
      ensures ret != 0 ==> -MAX_ERRNO_IO <= ret < 0
      ensures old(asked) <= asked && (Smooth(old(asked), asked) ==> ret == 0)
    {
      hide Asked, Buffered, HeaderRequests, Tiles, BufFdRequests, FbList.Valid, FbList.Contents;
      ghost var s := list.Contents();
      ghost var head := Asked(s, txBuf, header, headerLen);
      ghost var all := HeaderRequests(head, Tiles(tx, txLen, maxChunk));
      ghost var reqs: seq<Request> := [];
      assert reqs + all == all;
      var buf: nat, len: nat := tx, txLen;
      ret := 0;
      while len != 0
        invariant reqs + HeaderRequests(head, Tiles(buf, len, maxChunk)) == all
        invariant log == old(log) + reqs && ret == 0 && old(asked) <= asked
        invariant list.Valid() && list.Contents() == s
      {
        var chunk := if len < maxChunk then len else maxChunk;
        HeaderStep(head, reqs, buf, len, maxChunk);
        ret := SpiSync(header, headerLen, Some(chunk));
        if ret != 0 {
          break;
        }
        reqs := reqs + [Pair(head, chunk)];
        buf, len := buf + chunk, len - chunk;
      }
      assert log[|old(log)|..] == reqs;
      if len == 0 {
        NoHeaders(head, buf, maxChunk);
      }
    }
  }

  lemma NoHeaders(header: Request, at: nat, max: nat)
    requires max > 0
    ensures HeaderRequests(header, Tiles(at, 0, max)) == []
  {
  }
}
