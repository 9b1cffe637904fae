// Type C Option 1 on a controller without 9-bit words: mipi_dbi_spi1e_transfer
// and its callers (mipi-dbi.c:106-268, 342-371).
module Option1 {
  import opened Base
  import opened Bytes
  import opened NineBit
  import opened SpiBus
  import opened Arith

  // mipi_dbi_spi_clamp_size; spi_max_transfer_size is SIZE_MAX, so only the DMA
  // limit bounds a transfer.
  function ClampSize(maxDma: nat, size: nat): (r: nat)
    ensures r <= maxDma && r % 4 == 0
    ensures size >= 4 ==> r <= size
    ensures 0 < size < 4 ==> r <= 4
  {
    var wanted := if size == 0 then maxDma else size;
    var atLeast := if wanted < 4 then 4 else wanted;
    var clamped := if atLeast < maxDma then atLeast else maxDma;
    clamped - clamped % 4
  }

  // No larger multiple of four is within the DMA limit and, if one is given, the size.
  lemma ClampIsLargest(maxDma: nat, size: nat, r: nat)
    requires r % 4 == 0 && r <= maxDma
    requires size != 0 ==> r <= size || r <= 4
    ensures r <= ClampSize(maxDma, size)
  {
    var q := r / 4;
    assert r == 4 * q;
  }

  // The source byte carried by word i: 16-bit values lie low byte first in memory
  // and go out high byte first.
  function SrcByte(bpw: nat, p: Ptr, i: nat): byte
  {
    if bpw == 8 then p(i) else if i % 2 == 0 then p(i + 1) else p(i - 1)
  }

  function SrcWords(bpw: nat, p: Ptr, lo: nat, hi: nat): (ws: seq<Word>)
    requires lo <= hi
    ensures |ws| == hi - lo
  {
    seq(hi - lo, i requires 0 <= i < hi - lo => Word(true, SrcByte(bpw, p, lo + i)))
  }

  function Nops(n: nat): (ws: seq<Word>)
    ensures |ws| == n
  {
    seq(n, i => NOP)
  }

  // The wire image of n whole blocks of eight source bytes, nine bytes each.
  function BlocksWire(bpw: nat, p: Ptr, at: nat, n: nat): (s: seq<byte>)
    ensures |s| == 9 * n
  {
    if n == 0 then [] else BlocksWire(bpw, p, at, n - 1) + Pack(SrcWords(bpw, p, at + 8 * (n - 1), at + 8 * n))
  }

  // How many bytes of a last chunk shorter than eight are sent: all of them in
  // 8-bit mode; in 16-bit mode the loop is bounded by half the chunk.
  function TailSent(bpw: nat, chunk: nat): (n: nat)
    requires chunk < 8
    ensures n <= chunk
  {
    if bpw == 8 then chunk else (chunk / 2 + 1) / 2 * 2
  }

  // The eight words of a padded last block.
  function TailWords(bpw: nat, p: Ptr, at: nat, chunk: nat): (ws: seq<Word>)
    requires chunk < 8
    ensures |ws| == 8
  {
    var n := TailSent(bpw, chunk);
    SrcWords(bpw, p, at, at + n) + Nops(8 - n)
  }

  // Whether the bytes after the last whole block make a chunk of their own.
  predicate TailIsPadded(len: nat, m: nat)
    requires m > 0
  {
    len <= m || len % m < 8
  }

  // The part of a started block that a transfer cut short still carries.
  function OverrunWire(bpw: nat, p: Ptr, len: nat): seq<byte>
  {
    var at := len - len % 8;
    Pack(SrcWords(bpw, p, at, at + 8))[..len % 8 + 1]
  }

  // What the bytes after the last whole block of eight become on the wire.
  function TailWire(bpw: nat, p: Ptr, len: nat, m: nat): seq<byte>
    requires m > 0
  {
    var r := len % 8;
    if r == 0 then []
    else if TailIsPadded(len, m) then Pack(TailWords(bpw, p, len - r, r))
    else OverrunWire(bpw, p, len)
  }

  // The wire image of len data bytes when a chunk takes at most m source bytes.
  function DataWire(bpw: nat, p: Ptr, len: nat, m: nat): seq<byte>
    requires m > 0
  {
    BlocksWire(bpw, p, 0, len / 8) + TailWire(bpw, p, len, m)
  }

  lemma SrcWordsConcat(bpw: nat, p: Ptr, lo: nat, mid: nat, hi: nat)
    requires lo <= mid <= hi
    ensures SrcWords(bpw, p, lo, mid) + SrcWords(bpw, p, mid, hi) == SrcWords(bpw, p, lo, hi)
  {
    hide SrcByte;
  }

  lemma {:induction false} BlocksConcat(bpw: nat, p: Ptr, at: nat, a: nat, b: nat)
    ensures BlocksWire(bpw, p, at, a) + BlocksWire(bpw, p, at + 8 * a, b) == BlocksWire(bpw, p, at, a + b)
    decreases b
  {
    hide Pack, SrcWords;
    if b > 0 {
      BlocksConcat(bpw, p, at, a, b - 1);
      var words := SrcWords(bpw, p, at + 8 * a + 8 * (b - 1), at + 8 * a + 8 * b);
      assert words == SrcWords(bpw, p, at + 8 * (a + b - 1), at + 8 * (a + b));
    }
  }

  // The receiver gets the source words back, block after block.
  lemma {:induction false} ReceiveBlocks(bpw: nat, p: Ptr, at: nat, n: nat)
    ensures Receive(BlocksWire(bpw, p, at, n)) == SrcWords(bpw, p, at, at + 8 * n)
    decreases n
  {
    hide Pack, Receive, SrcWords;
    if n == 0 {
      ReceiveNothing();
      NoWords(bpw, p, at);
    } else {
      var mid := at + 8 * (n - 1);
      ReceiveBlocks(bpw, p, at, n - 1);
      ReceivePack(SrcWords(bpw, p, mid, mid + 8));
      NineTimes(n - 1);
      ReceiveConcat(BlocksWire(bpw, p, at, n - 1), Pack(SrcWords(bpw, p, mid, mid + 8)));
      SrcWordsConcat(bpw, p, at, mid, mid + 8);
    }
  }

  lemma NineTimes(n: nat)
    ensures 9 * n % 9 == 0
  {
  }

  lemma NoWords(bpw: nat, p: Ptr, at: nat)
    ensures SrcWords(bpw, p, at, at) == []
  {
  }

  lemma ReceiveNothing()
    ensures Receive([]) == []
  {
  }

  // What the u64 of a tail holds after j bytes.
  function TailState(bpw: nat, p: Ptr, at: nat, j: nat): (w: seq<Word>)
    requires j <= 7
    ensures |w| == 7
  {
    SrcWords(bpw, p, at, at + j) + Nops(7 - j)
  }

  lemma TailStep8(p: Ptr, at: nat, j: nat)
    requires j < 7
    ensures TailState(8, p, at, j)[j] == NOP
    ensures TailState(8, p, at, j)[j := Word(true, p(at + j))] == TailState(8, p, at, j + 1)
  {
    var w, w' := TailState(8, p, at, j), TailState(8, p, at, j + 1);
    assert SrcByte(8, p, at + j) == p(at + j);
    assert w'[j] == Word(true, p(at + j));
    assert forall i | 0 <= i < 7 && i != j :: w'[i] == w[i];
  }

  lemma TailStep16(p: Ptr, at: nat, j: nat)
    requires j < 6 && (at + j) % 2 == 0
    ensures var w := TailState(16, p, at, j);
            && w[j] == w[j + 1] == NOP
            && w[j + 1 := Word(true, p(at + j))][j := Word(true, p(at + j + 1))] == TailState(16, p, at, j + 2)
  {
    var w, w' := TailState(16, p, at, j), TailState(16, p, at, j + 2);
    assert SrcByte(16, p, at + j) == p(at + j + 1);
    assert SrcByte(16, p, at + (j + 1)) == p(at + j);
    assert w'[j] == Word(true, p(at + j + 1));
    assert w'[j + 1] == Word(true, p(at + j));
    assert forall i | 0 <= i < 7 && i != j && i != j + 1 :: w'[i] == w[i];
  }

  lemma StateStart(bpw: nat, p: Ptr, at: nat)
    ensures Hold(TailState(bpw, p, at, 0)) == 0
  {
    assert TailState(bpw, p, at, 0) == [NOP, NOP, NOP, NOP, NOP, NOP, NOP];
  }

  lemma BlockEnd8(p: Ptr, at: nat)
    ensures TailState(8, p, at, 7) + [Word(true, p(at + 7))] == SrcWords(8, p, at, at + 8)
  {
    assert SrcByte(8, p, at + 7) == p(at + 7);
  }

  lemma BlockEnd16(p: Ptr, at: nat)
    requires at % 2 == 0
    ensures TailState(16, p, at, 6)[6] == NOP
    ensures TailState(16, p, at, 6)[6 := Word(true, p(at + 7))] + [Word(true, p(at + 6))]
         == SrcWords(16, p, at, at + 8)
  {
    assert SrcByte(16, p, at + 6) == p(at + 7);
    assert SrcByte(16, p, at + 7) == p(at + 6);
  }

  // The next source byte goes to place j.
  method ShiftNext(tmp: bv64, p: Ptr, src: nat, j: nat, ghost at: nat) returns (tmp': bv64, src': nat)
    requires j < 7 && src == at + j && tmp == Hold(TailState(8, p, at, j))
    ensures tmp' == ShiftU9IntoU64(tmp, p(src), j)
    ensures tmp' == Hold(TailState(8, p, at, j + 1)) && src' == src + 1
  {
    hide Hold, ShiftU9IntoU64, TailState;
    TailStep8(p, at, j);
    ShiftInto(TailState(8, p, at, j), j, p(src));
    tmp', src' := ShiftU9IntoU64(tmp, p(src), j), src + 1;
  }

  // The next two source bytes go to places j + 1 and j.
  method ShiftPair(tmp: bv64, p: Ptr, src: nat, j: nat, ghost at: nat) returns (tmp': bv64, src': nat)
    requires j < 6 && src == at + j && src % 2 == 0 && tmp == Hold(TailState(16, p, at, j))
    ensures tmp' == ShiftU9IntoU64(ShiftU9IntoU64(tmp, p(src), j + 1), p(src + 1), j)
    ensures tmp' == Hold(TailState(16, p, at, j + 2)) && src' == src + 2
  {
    hide Hold, ShiftU9IntoU64, TailState;
    TailStep16(p, at, j);
    ghost var w := TailState(16, p, at, j);
    ShiftInto(w, j + 1, p(src));
    ShiftInto(w[j + 1 := Word(true, p(src))], j, p(src + 1));
    tmp', src' := ShiftU9IntoU64(tmp, p(src), j + 1), src + 1;
    tmp', src' := ShiftU9IntoU64(tmp', p(src'), j), src' + 1;
  }

  // The 8-bit branch of the block loop (mipi-dbi.c:220-233): the u64 and the ninth byte.
  method Gather8(p: Ptr, src0: nat) returns (tmp: bv64, last: byte, src: nat)
    ensures StoreU64(CpuToBe64(tmp)) + [last] == Pack(SrcWords(8, p, src0, src0 + 8))
    ensures src == src0 + 8
  {
    hide Hold, ShiftU9IntoU64, Pack, CpuToBe64, StoreU64, SrcWords, TailState;
    StateStart(8, p, src0);
    tmp, src := 0, src0;
    tmp, src := ShiftNext(tmp, p, src, 0, src0);
    tmp, src := ShiftNext(tmp, p, src, 1, src0);
    tmp, src := ShiftNext(tmp, p, src, 2, src0);
    tmp, src := ShiftNext(tmp, p, src, 3, src0);
    tmp, src := ShiftNext(tmp, p, src, 4, src0);
    tmp, src := ShiftNext(tmp, p, src, 5, src0);
    tmp, src := ShiftNext(tmp, p, src, 6, src0);
    last := p(src);
    src := src + 1;
    BlockEnd8(p, src0);
    StoreHeld(TailState(8, p, src0, 7), Word(true, last));
    tmp := tmp | 0x1;
  }

  // The 16-bit branch (mipi-dbi.c:234-250).
  method Gather16(p: Ptr, src0: nat) returns (tmp: bv64, last: byte, src: nat)
    requires src0 % 2 == 0
    ensures StoreU64(CpuToBe64(tmp)) + [last] == Pack(SrcWords(16, p, src0, src0 + 8))
    ensures src == src0 + 8
  {
    hide Hold, ShiftU9IntoU64, Pack, CpuToBe64, StoreU64, SrcWords, TailState;
    StateStart(16, p, src0);
    tmp, src := 0, src0;
    tmp, src := ShiftPair(tmp, p, src, 0, src0);
    tmp, src := ShiftPair(tmp, p, src, 2, src0);
    tmp, src := ShiftPair(tmp, p, src, 4, src0);
    last := p(src);
    src := src + 1;
    BlockEnd16(p, src0);
    ghost var w := TailState(16, p, src0, 6);
    ShiftInto(w, 6, p(src));
    tmp, src := ShiftU9IntoU64(tmp, p(src), 6), src + 1;
    StoreHeld(w[6 := Word(true, p(src0 + 7))], Word(true, last));
    tmp := tmp | 0x1;
  }

  // One turn of the block loop (mipi-dbi.c:217-253): eight source bytes into nine.
  method EncodeBlock(bpw: nat, p: Ptr, src0: nat, buf: array<byte>, dst: nat) returns (src: nat)
    requires bpw == 8 || bpw == 16
    requires bpw == 16 ==> src0 % 2 == 0
    requires dst + 9 <= buf.Length
    modifies buf
    ensures src == src0 + 8
    ensures buf[..dst + 9] == old(buf[..dst]) + Pack(SrcWords(bpw, p, src0, src0 + 8))
  {
    hide Pack, CpuToBe64, StoreU64, SrcWords;
    var tmp: bv64, last: byte;
    if bpw == 8 {
      tmp, last, src := Gather8(p, src0);
    } else {
      tmp, last, src := Gather16(p, src0);
    }
    Store8(buf, dst, StoreU64(CpuToBe64(tmp)));
    buf[dst + 8] := last;
    assert buf[dst..dst + 9] == StoreU64(CpuToBe64(tmp)) + [last];
    assert buf[..dst + 9] == buf[..dst] + buf[dst..dst + 9];
  }

  // A u64 is stored in the buffer.
  method Store8(buf: array<byte>, dst: nat, value: seq<byte>)
    requires |value| == 8 && dst + 8 <= buf.Length
    modifies buf
    ensures buf[..dst] == old(buf[..dst])
    ensures buf[dst..dst + 8] == value
    ensures buf[dst + 8..] == old(buf[dst + 8..])
  {
    forall k | 0 <= k < 8 {
      buf[dst + k] := value[k];
    }
  }

  lemma TailEnd(bpw: nat, p: Ptr, at: nat, chunk: nat)
    requires chunk < 8
    ensures TailState(bpw, p, at, TailSent(bpw, chunk)) + [NOP] == TailWords(bpw, p, at, chunk)
  {
  }

  lemma TailAll8(chunk: nat)
    requires chunk < 8
    ensures TailSent(8, chunk) == chunk
  {
  }

  // Where the 16-bit tail loop stops.
  lemma TailPairs(chunk: nat, j: nat)
    requires chunk < 8 && j % 2 == 0 && j <= TailSent(16, chunk)
    ensures j < chunk / 2 ==> j + 2 <= TailSent(16, chunk) <= 6
    ensures j >= chunk / 2 ==> j == TailSent(16, chunk)
  {
  }

  // A last chunk shorter than eight (mipi-dbi.c:197-213).
  method EncodeTail(bpw: nat, p: Ptr, src0: nat, chunk: nat) returns (tmp: bv64, src: nat)
    requires bpw == 8 || bpw == 16
    requires bpw == 16 ==> src0 % 2 == 0
    requires chunk < 8
    ensures StoreU64(CpuToBe64(tmp)) + [0] == Pack(TailWords(bpw, p, src0, chunk))
    ensures src == src0 + TailSent(bpw, chunk)
  {
    hide Hold, ShiftU9IntoU64, Pack, CpuToBe64, StoreU64, SrcWords, TailState, TailSent, TailWords;
    StateStart(bpw, p, src0);
    TailAll8(chunk);
    tmp, src := 0, src0;
    var j := 0;
    if bpw == 8 {
      while j < chunk
        invariant 0 <= j <= chunk && src == src0 + j
        invariant tmp == Hold(TailState(8, p, src0, j))
      {
        tmp, src := ShiftNext(tmp, p, src, j, src0);
        j := j + 1;
      }
    } else {
      while j < chunk / 2
        invariant j % 2 == 0 && j <= TailSent(16, chunk) && src == src0 + j
        invariant tmp == Hold(TailState(16, p, src0, j))
      {
        TailPairs(chunk, j);
        EvenSum(src0, j);
        tmp, src := ShiftPair(tmp, p, src, j, src0);
        j := j + 2;
      }
      TailPairs(chunk, j);
    }
    TailEnd(bpw, p, src0, chunk);
    StoreHeld(TailState(bpw, p, src0, j), NOP);
  }

  // Blocks of eight needed for a chunk.
  function Blocks(chunk: nat): (n: nat)
    ensures 8 * n - 8 < chunk <= 8 * n
  {
    (chunk + 7) / 8
  }

  // The whole blocks of a chunk: the loop rounds a partial last block up.
  method EncodeBlocks(bpw: nat, p: Ptr, src0: nat, chunk: nat, buf: array<byte>) returns (src: nat, added: nat)
    requires bpw == 8 || bpw == 16
    requires bpw == 16 ==> src0 % 2 == 0
    requires 9 * Blocks(chunk) <= buf.Length
    modifies buf
    ensures added == Blocks(chunk)
    ensures src == src0 + 8 * added
    ensures buf[..9 * added] == BlocksWire(bpw, p, src0, added)
  {
    hide Pack, SrcWords, Blocks;
    var i, dst := 0, 0;
    src, added := src0, 0;
    while i < chunk
      invariant i == 8 * added && dst == 9 * added && src == src0 + i
      invariant bpw == 16 ==> src % 2 == 0
      invariant added <= Blocks(chunk)
      invariant buf[..dst] == BlocksWire(bpw, p, src0, added)
    {
      src := EncodeBlock(bpw, p, src, buf, dst);
      i, dst, added := i + 8, dst + 9, added + 1;
    }
  }

  // What a chunk of the source becomes in one transfer.
  function ChunkWire(bpw: nat, p: Ptr, at: nat, chunk: nat): seq<byte>
  {
    if chunk < 8 then Pack(TailWords(bpw, p, at, chunk))
    else BlocksWire(bpw, p, at, Blocks(chunk))[..chunk + Blocks(chunk)]
  }

  lemma PaddedChunk(bpw: nat, p: Ptr, at: nat, chunk: nat)
    requires chunk < 8
    ensures ChunkWire(bpw, p, at, chunk) == Pack(TailWords(bpw, p, at, chunk))
  {
  }

  lemma WholeChunk(bpw: nat, p: Ptr, at: nat, chunk: nat)
    requires chunk >= 8
    ensures chunk + Blocks(chunk) <= 9 * Blocks(chunk)
    ensures ChunkWire(bpw, p, at, chunk)
         == BlocksWire(bpw, p, at, Blocks(chunk))[..chunk + Blocks(chunk)]
  {
  }

  method EncodeShortChunk(bpw: nat, p: Ptr, src0: nat, chunk: nat, buf: array<byte>) returns (src: nat)
    requires bpw == 8 || bpw == 16
    requires bpw == 16 ==> src0 % 2 == 0
    requires chunk < 8 && 9 <= buf.Length
    modifies buf
    ensures buf[..9] == Pack(TailWords(bpw, p, src0, chunk))
  {
    hide Pack, TailWords, StoreU64, CpuToBe64;
    var tmp;
    tmp, src := EncodeTail(bpw, p, src0, chunk);
    Store8(buf, 0, StoreU64(CpuToBe64(tmp)));
    buf[8] := 0x00;
    assert buf[..9] == StoreU64(CpuToBe64(tmp)) + [0];
  }

  // One turn of the chunk loop up to the transfer (mipi-dbi.c:193-256).
  method EncodeChunk(bpw: nat, p: Ptr, src0: nat, chunk: nat, buf: array<byte>) returns (src: nat, txLen: nat)
    requires bpw == 8 || bpw == 16
    requires bpw == 16 ==> src0 % 2 == 0
    requires 0 < chunk && 9 * Blocks(chunk) <= buf.Length
    modifies buf
    ensures txLen <= buf.Length
    ensures buf[..txLen] == ChunkWire(bpw, p, src0, chunk)
    ensures chunk >= 8 ==> src == src0 + 8 * Blocks(chunk)
  {
    hide Pack, BlocksWire, SrcWords, TailWords, Blocks, ChunkWire;
    if chunk < 8 {
      PaddedChunk(bpw, p, src0, chunk);
      src := EncodeShortChunk(bpw, p, src0, chunk, buf);
      txLen := 8 + 1;
    } else {
      var added;
      src, added := EncodeBlocks(bpw, p, src0, chunk, buf);
      WholeChunk(bpw, p, src0, chunk);
      txLen := chunk + added;
      PrefixOfPrefix(buf[..], 9 * added, txLen);
    }
  }

  lemma PrefixOfPrefix<T>(s: seq<T>, a: nat, b: nat)
    requires b <= a <= |s|
    ensures s[..a][..b] == s[..b]
  {
  }

  // The largest source chunk (mipi-dbi.c:178-181).
  function SourceChunk(m: nat, len: nat): (r: nat)
    requires m > 0 && m % 8 == 0
    ensures r > 0 && r % 8 == 0 && r <= m
  {
    var fit := if m < len then m else len;
    var aligned := fit - fit % 8;
    if aligned < 8 then 8 else aligned
  }

  function NextChunk(len: nat, m: nat, at: nat): (chunk: nat)
    requires m > 0 && m % 8 == 0 && at < len
    ensures 0 < chunk <= len - at
  {
    var s := SourceChunk(m, len);
    if len - at < s then len - at else s
  }

  // Block q is reached after k full chunks.
  predicate AtChunk(len: nat, m: nat, k: nat, q: nat)
    requires m > 0 && m % 8 == 0
  {
    8 * q == k * SourceChunk(m, len)
  }

  lemma FirstChunk(len: nat, m: nat)
    requires m > 0 && m % 8 == 0
    ensures AtChunk(len, m, 0, 0)
  {
  }

  // A chunk that is no multiple of eight is the last one, and its length decides
  // which of the two encodings it gets.
  lemma ChunkShape(len: nat, m: nat, k: nat, q: nat, c: nat, r: nat)
    requires m > 0 && m % 8 == 0 && 0 < r < 8
    requires AtChunk(len, m, k, q) && 8 * q < len && 8 * c + r == NextChunk(len, m, 8 * q)
    ensures 8 * q + 8 * c + r == len
    ensures c == 0 <==> TailIsPadded(len, m)
  {
    var s := SourceChunk(m, len);
    assert 8 * c + r < s;
    if len > m {
      assert s == m;
      ModOf(len, k, m, 8 * c + r);
    } else if k > 0 {
      MulAtLeast(k, s);
    }
  }

  lemma FullChunk(bpw: nat, p: Ptr, q: nat, c: nat)
    requires c > 0
    ensures BlocksWire(bpw, p, 0, q) + ChunkWire(bpw, p, 8 * q, 8 * c) == BlocksWire(bpw, p, 0, q + c)
  {
    hide BlocksWire;
    BlocksConcat(bpw, p, 0, q, c);
    assert Blocks(8 * c) == c;
  }

  lemma LastPadded(bpw: nat, p: Ptr, m: nat, q: nat, r: nat)
    requires 0 < r < 8 && m > 0 && TailIsPadded(8 * q + r, m)
    ensures BlocksWire(bpw, p, 0, q) + ChunkWire(bpw, p, 8 * q, r) == DataWire(bpw, p, 8 * q + r, m)
  {
    hide BlocksWire, Pack, TailWords, TailIsPadded;
    var len := 8 * q + r;
    assert len / 8 == q && len % 8 == r;
  }

  // A chunk whose last block is partial: whole blocks, then the start of the block.
  lemma LastOverrun(bpw: nat, p: Ptr, m: nat, q: nat, c: nat, r: nat)
    requires 0 < r < 8 && c > 0 && m > 0 && !TailIsPadded(8 * q + 8 * c + r, m)
    ensures BlocksWire(bpw, p, 0, q) + ChunkWire(bpw, p, 8 * q, 8 * c + r)
         == DataWire(bpw, p, 8 * q + 8 * c + r, m)
  {
    hide BlocksWire, Pack, SrcWords, Blocks, TailIsPadded, ChunkWire;
    var len, mid := 8 * q + 8 * c + r, 8 * q + 8 * c;
    assert len / 8 == q + c && len % 8 == r;
    var blocks, last := BlocksWire(bpw, p, 8 * q, c), Pack(SrcWords(bpw, p, mid, mid + 8));
    assert Blocks(8 * c + r) == c + 1;
    WholeChunk(bpw, p, 8 * q, 8 * c + r);
    OneMoreBlock(bpw, p, 8 * q, c);
    assert (blocks + last)[..9 * c + r + 1] == blocks + last[..r + 1];
    BlocksConcat(bpw, p, 0, q, c);
  }

  lemma OneMoreBlock(bpw: nat, p: Ptr, at: nat, n: nat)
    ensures BlocksWire(bpw, p, at, n + 1)
         == BlocksWire(bpw, p, at, n) + Pack(SrcWords(bpw, p, at + 8 * n, at + 8 * n + 8))
  {
    hide Pack, SrcWords;
  }

  lemma BlocksPrefix(bpw: nat, p: Ptr, len: nat, m: nat, q: nat)
    requires m > 0 && 8 * q <= len
    ensures BlocksWire(bpw, p, 0, q) <= DataWire(bpw, p, len, m)
  {
    hide BlocksWire, TailWire;
    BlocksConcat(bpw, p, 0, q, len / 8 - q);
  }

  lemma EmptyBlocks(bpw: nat, p: Ptr)
    ensures BlocksWire(bpw, p, 0, 0) == []
  {
  }

  lemma WholeBlocksOnly(bpw: nat, p: Ptr, n: nat, m: nat)
    requires m > 0
    ensures DataWire(bpw, p, 8 * n, m) == BlocksWire(bpw, p, 0, n)
  {
    hide BlocksWire;
  }

  // One turn of the chunk loop, for the wire.
  lemma TurnWire(bpw: nat, p: Ptr, len: nat, m: nat, k: nat, q: nat, chunk: nat)
    requires m > 0 && m % 8 == 0
    requires AtChunk(len, m, k, q) && 8 * q < len && chunk == NextChunk(len, m, 8 * q)
    ensures 8 * q + chunk < len ==>
              BlocksWire(bpw, p, 0, q) + ChunkWire(bpw, p, 8 * q, chunk) == BlocksWire(bpw, p, 0, q + Blocks(chunk))
    ensures 8 * q + chunk == len ==>
              BlocksWire(bpw, p, 0, q) + ChunkWire(bpw, p, 8 * q, chunk) == DataWire(bpw, p, len, m)
  {
    hide BlocksWire, ChunkWire, TailIsPadded, SourceChunk, DataWire, NextChunk, AtChunk;
    var c, r := chunk / 8, chunk % 8;
    if r == 0 {
      assert Blocks(8 * c) == c;
      FullChunk(bpw, p, q, c);
      WholeBlocksOnly(bpw, p, q + c, m);
    } else {
      ChunkShape(len, m, k, q, c, r);
      if c == 0 {
        LastPadded(bpw, p, m, q, r);
      } else {
        LastOverrun(bpw, p, m, q, c, r);
      }
    }
  }

  // One turn of the chunk loop, for the indices.
  lemma TurnIndex(len: nat, m: nat, k: nat, q: nat, chunk: nat)
    requires m > 0 && m % 8 == 0
    requires AtChunk(len, m, k, q) && 8 * q < len && chunk == NextChunk(len, m, 8 * q)
    ensures 8 * q + chunk < len ==> chunk == 8 * Blocks(chunk) && Blocks(chunk) > 0
    ensures 8 * q + chunk < len ==> AtChunk(len, m, k + 1, q + Blocks(chunk))
    ensures 9 * Blocks(chunk) <= SourceChunk(m, len) + SourceChunk(m, len) / 8
  {
    var s := SourceChunk(m, len);
    var u := s / 8;
    assert chunk <= 8 * u;
    assert Blocks(chunk) <= u;
    assert (k + 1) * s == k * s + s;
  }

  // What mipi_dbi_spi1e_transfer puts on the wire when every step succeeds; None
  // where it refuses its arguments.
  function TransferWire(maxDma: nat, bpw: nat, dc: bool, p: Ptr, len: nat, maxChunk: nat): Option<seq<byte>>
  {
    var c := ClampSize(maxDma, maxChunk);
    if c < 9 then None
    else if !dc then
      if len != 1 || bpw != 8 then None else Some(Pack(Nops(7) + [Word(false, p(0))]))
    else Some(DataWire(bpw, p, len, c / 9 * 8))
  }

  // It refuses chunks that leave no room for a block, and commands of another shape.
  lemma RefusedExactly(maxDma: nat, bpw: nat, dc: bool, p: Ptr, len: nat, maxChunk: nat)
    ensures TransferWire(maxDma, bpw, dc, p, len, maxChunk).None? <==>
            maxDma < 12 || 0 < maxChunk < 12 || (!dc && (len != 1 || bpw != 8))
  {
    hide Pack, Nops, DataWire;
    EightNinths(if ClampSize(maxDma, maxChunk) < 9 then 9 else ClampSize(maxDma, maxChunk));
  }

  // The command half (mipi-dbi.c:158-175): padding at the beginning of the block.
  method SendCommand(spi: SpiMaster, cmd: byte) returns (ret: int)
    modifies spi`log, spi`asked
    ensures old(spi.log) <= spi.log
    ensures ret == 0 ==> spi.log[|old(spi.log)|..] == [Transfer(spi.dc, Pack(Nops(7) + [Word(false, cmd)]))]
    ensures ret != 0 ==> spi.log == old(spi.log) && ret < 0 && ret != -ENOTSUPP
    ensures old(spi.asked) <= spi.asked && (spi.Smooth(old(spi.asked), spi.asked) ==> ret == 0)
  {
    hide Pack, Nops;
    CommandWire(cmd);
    var ok := spi.Alloc();
    if !ok {
      return -ENOMEM;
    }
    var dst: seq<byte> := [0, 0, 0, 0, 0, 0, 0, 0, cmd];
    ret := spi.SpiSync(dst);
  }

  lemma SentOne(t: Transfer)
    ensures Sent([t]) == t.data
  {
    SentAppend([], t);
    assert [] + [t] == [t];
  }

  // mipi_dbi_spi1e_transfer (mipi-dbi.c:133-268).
  method Spi1eTransfer(spi: SpiMaster, bpw: nat, dc: bool, p: Ptr, len: nat, maxChunk: nat) returns (ret: int)
    requires bpw == 8 || bpw == 16
    modifies spi`log, spi`asked
    ensures old(spi.log) <= spi.log
    ensures var wire := TransferWire(spi.maxDmaLen, bpw, dc, p, len, maxChunk);
            var sent := Sent(spi.log[|old(spi.log)|..]);
            if wire.None? then ret == -EINVAL && sent == []
            else sent <= wire.value && (ret == 0 ==> sent == wire.value) && (ret != 0 ==> |sent| % 9 == 0)
    ensures forall i | |old(spi.log)| <= i < |spi.log| ::
              spi.log[i].pin == spi.dc && |spi.log[i].data| <= spi.maxDmaLen
    ensures maxChunk != 0 ==> forall i | |old(spi.log)| <= i < |spi.log| :: |spi.log[i].data| <= maxChunk
    ensures old(spi.asked) <= spi.asked
    ensures
      TransferWire(spi.maxDmaLen, bpw, dc, p, len, maxChunk).Some? && spi.Smooth(old(spi.asked), spi.asked) ==> ret == 0
    ensures ret != 0 ==> ret < 0 && ret != -ENOTSUPP
  {
    hide DataWire, Pack, Nops, Sent;
    SentNothing();
    SentOne(Transfer(spi.dc, Pack(Nops(7) + [Word(false, p(0))])));
    var c := ClampSize(spi.maxDmaLen, maxChunk);
    assert spi.log[|old(spi.log)|..] == [];
    if c < 9 {
      return -EINVAL;
    }
    if !dc {
      if len != 1 || bpw != 8 {
        return -EINVAL;
      }
      ret := SendCommand(spi, p(0));
      if ret != 0 {
        assert spi.log[|old(spi.log)|..] == [];
      }
      return;
    }
    EightNinths(c);
    ret := SendData(spi, bpw, p, len, c / 9 * 8);
  }

  // One turn of the chunk loop (mipi-dbi.c:193-261).
  method SendChunk(spi: SpiMaster, bpw: nat, p: Ptr, at: nat, chunk: nat, buf: array<byte>) returns (src: nat, ret: int)
    requires bpw == 8 || bpw == 16
    requires bpw == 16 ==> at % 2 == 0
    requires 0 < chunk && 9 * Blocks(chunk) <= buf.Length
    modifies spi`log, spi`asked, buf
    ensures chunk >= 8 ==> src == at + 8 * Blocks(chunk)
    ensures |ChunkWire(bpw, p, at, chunk)| <= buf.Length
    ensures ret == 0 ==> spi.log == old(spi.log) + [Transfer(spi.dc, ChunkWire(bpw, p, at, chunk))]
    ensures spi.asked == old(spi.asked) + 1 && (ret == 0 <==> spi.meets(old(spi.asked)))
    ensures ret != 0 ==> spi.log == old(spi.log) && ret < 0 && ret != -ENOTSUPP
  {
    hide Blocks, ChunkWire;
    var txLen;
    src, txLen := EncodeChunk(bpw, p, at, chunk, buf);
    ret := spi.SpiSync(buf[..txLen]);
  }

  // The loop's progress: after k chunks the q blocks sent are a prefix of the wire image.
  ghost predicate Progress(bpw: nat, p: Ptr, len: nat, m: nat, k: nat, q: nat, rest: int, sent: seq<byte>)
    requires m > 0 && m % 8 == 0
  {
    && 0 <= rest <= len
    && sent <= DataWire(bpw, p, len, m)
    && (rest != 0 ==> 8 * q == len - rest && AtChunk(len, m, k, q) && sent == BlocksWire(bpw, p, 0, q))
    && (rest == 0 ==> sent == DataWire(bpw, p, len, m))
  }

  lemma ProgressStart(bpw: nat, p: Ptr, len: nat, m: nat)
    requires m > 0 && m % 8 == 0
    ensures Progress(bpw, p, len, m, 0, 0, len, [])
  {
    hide DataWire, BlocksWire;
    EmptyBlocks(bpw, p);
    BlocksPrefix(bpw, p, len, m, 0);
    WholeBlocksOnly(bpw, p, 0, m);
    FirstChunk(len, m);
  }

  lemma ProgressStep(bpw: nat, p: Ptr, len: nat, m: nat, k: nat, q: nat, rest: int, sent: seq<byte>, chunk: nat)
    requires m > 0 && m % 8 == 0
    requires Progress(bpw, p, len, m, k, q, rest, sent) && rest > 0
    requires chunk == NextChunk(len, m, len - rest)
    ensures (len - rest) % 2 == 0
    ensures 9 * Blocks(chunk) <= SourceChunk(m, len) + SourceChunk(m, len) / 8
    ensures rest > chunk ==> chunk == 8 * Blocks(chunk) && chunk >= 8
    ensures Progress(bpw, p, len, m, k + 1, q + Blocks(chunk), rest - chunk,
                     sent + ChunkWire(bpw, p, len - rest, chunk))
  {
    hide DataWire, BlocksWire, ChunkWire, AtChunk, NextChunk, Blocks, SourceChunk;
    TurnWire(bpw, p, len, m, k, q, chunk);
    TurnIndex(len, m, k, q, chunk);
    if rest > chunk {
      BlocksPrefix(bpw, p, len, m, q + Blocks(chunk));
    }
  }

  lemma ProgressDone(bpw: nat, p: Ptr, len: nat, m: nat, k: nat, q: nat, rest: int, sent: seq<byte>)
    requires m > 0 && m % 8 == 0
    requires Progress(bpw, p, len, m, k, q, rest, sent)
    ensures sent <= DataWire(bpw, p, len, m)
    ensures rest == 0 ==> sent == DataWire(bpw, p, len, m)
    ensures rest != 0 ==> |sent| % 9 == 0
  {
    hide DataWire;
    NineTimes(q);
  }

  // The data half: chunks of the source go through one bounce buffer.
  method SendData(spi: SpiMaster, bpw: nat, p: Ptr, len: nat, m: nat) returns (ret: int)
    requires bpw == 8 || bpw == 16
    requires m > 0 && m % 8 == 0
    modifies spi`log, spi`asked
    ensures old(spi.log) <= spi.log
    ensures Sent(spi.log[|old(spi.log)|..]) <= DataWire(bpw, p, len, m)
    ensures ret == 0 ==> Sent(spi.log[|old(spi.log)|..]) == DataWire(bpw, p, len, m)
    ensures ret != 0 ==> |Sent(spi.log[|old(spi.log)|..])| % 9 == 0
    ensures forall i | |old(spi.log)| <= i < |spi.log| :: spi.log[i].pin == spi.dc && |spi.log[i].data| <= m + m / 8
    ensures var s := SourceChunk(m, len);
            forall i | |old(spi.log)| <= i < |spi.log| - 1 :: |spi.log[i].data| == s + s / 8
    ensures old(spi.asked) <= spi.asked && (spi.Smooth(old(spi.asked), spi.asked) ==> ret == 0)
    ensures ret != 0 ==> ret < 0 && ret != -ENOTSUPP
  {
    hide DataWire, Blocks, ChunkWire, SourceChunk, Sent, Progress;
    ret := 0;
    var maxSrcChunk := SourceChunk(m, len);
    var maxBuf := maxSrcChunk + maxSrcChunk / 8;
    ghost var ts: seq<Transfer> := [];
    SentNothing();
    ProgressStart(bpw, p, len, m);
    ProgressDone(bpw, p, len, m, 0, 0, len, []);
    assert spi.log[|old(spi.log)|..] == ts;
    var ok := spi.Alloc();
    if !ok {
      return -ENOMEM;
    }
    var buf := new byte[maxBuf];
    var rest: nat, src := len, 0;
    ghost var k: nat, q: nat := 0, 0;
    while rest != 0
      invariant rest <= len && ret == 0 && old(spi.asked) <= spi.asked
      invariant rest != 0 ==> src == len - rest
      invariant spi.log == old(spi.log) + ts
      invariant Progress(bpw, p, len, m, k, q, rest, Sent(ts))
      invariant forall i | 0 <= i < |ts| :: ts[i].pin == spi.dc && |ts[i].data| <= maxBuf
      invariant forall i | 0 <= i < |ts| :: rest != 0 || i < |ts| - 1 ==> |ts[i].data| == maxBuf
    {
      var chunk: nat := if rest < maxSrcChunk then rest else maxSrcChunk;
      ghost var t := Transfer(spi.dc, ChunkWire(bpw, p, src, chunk));
      ProgressDone(bpw, p, len, m, k, q, rest, Sent(ts));
      ProgressStep(bpw, p, len, m, k, q, rest, Sent(ts), chunk);
      SentAppend(ts, t);
      FullWire(bpw, p, src, len, m, chunk);
      rest := rest - chunk;
      src, ret := SendChunk(spi, bpw, p, src, chunk, buf);
      if ret != 0 {
        assert spi.log[|old(spi.log)|..] == ts;
        return;
      }
      ts := ts + [t];
      k, q := k + 1, q + Blocks(chunk);
    }
    ProgressDone(bpw, p, len, m, k, q, rest, Sent(ts));
    assert spi.log[|old(spi.log)|..] == ts;
  }

  // A chunk of the full size fills the bounce buffer.
  lemma FullWire(bpw: nat, p: Ptr, at: nat, len: nat, m: nat, chunk: nat)
    requires m > 0 && m % 8 == 0
    ensures var s := SourceChunk(m, len); chunk == s ==> |ChunkWire(bpw, p, at, chunk)| == s + s / 8
  {
    hide BlocksWire, Pack, TailWords;
    var s := SourceChunk(m, len);
    if chunk == s {
      WholeChunk(bpw, p, at, chunk);
      assert Blocks(s) == s / 8;
    }
  }

  lemma SentNothing()
    ensures Sent([]) == []
  {
  }

  // A clamp of at least nine bytes leaves room for at least one block.
  lemma EightNinths(c: nat)
    requires c >= 9
    ensures var m := c / 9 * 8;
            m >= 8 && m % 8 == 0 && m + m / 8 <= c
  {
  }

  // The 72-bit block of a command: seven no-ops, then the command (mipi-dbi.c:158-170).
  lemma CommandWire(cmd: byte)
    ensures [0, 0, 0, 0, 0, 0, 0, 0, cmd] == Pack(Nops(7) + [Word(false, cmd)])
  {
  }
}
