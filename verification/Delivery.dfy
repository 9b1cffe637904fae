// What a flush leaves in the panel's frame memory, over a given link and whatever becomes
// of its three register writes, and exactly when that is the picture.
module Delivery {
  import opened Base
  import opened Bytes
  import opened Arith
  import opened Transport
  import opened Wire
  import opened Clips
  import opened Panel
  import opened Flush
  import opened Pipeline
  import Option1
  import Option1Decode
  import Option3
  import Regmap

  // The pixel write of a flush, with the pixels in memory order behind a pointer.
  function PixelCall(mem: Ptr, fb: Fb, c: Clip): Call
  {
    Call(RAM, PtrTo16(FlushPixels(mem, fb, c)), Length(c))
  }

  // The bytes of the pixel write that reach the panel.
  function PixelsGot(l: Link, mem: Ptr, fb: Fb, c: Clip, io: DirtyIo): seq<byte>
  {
    if Attempted(fb, io) then Got(io.pixels, Arrived(l, PixelCall(mem, fb, c))) else []
  }

  // The commands of a flush as far as they reach the panel.
  function Delivered(l: Link, mem: Ptr, fb: Fb, c: Clip, io: DirtyIo): seq<Command>
  {
    Reached(Command(SET_COLUMN_ADDRESS, WindowParams(c.x1, c.x2)), io.column) +
    Reached(Command(SET_PAGE_ADDRESS, WindowParams(c.y1, c.y2)), io.page) +
    if Attempted(fb, io) then Reached(Command(RAM, Arrived(l, PixelCall(mem, fb, c))), io.pixels) else []
  }

  // At least n parameters got through.
  predicate Full(r: Reach, n: nat) { r.All? || (r.Part? && r.n >= n) }

  predicate WindowSet(io: DirtyIo) { Full(io.column, 4) && Full(io.page, 4) }

  // On a controller with 16-bit words the two bytes of a pixel arrive exchanged.
  predicate Exchanged(l: Link) { l.option3 && Option3.BpwSupported(l.mask, 16) }

  // The pixel the panel takes for x.
  function Seen(l: Link, x: Pixel): Pixel { if Exchanged(l) then Option3.Swab16(x) else x }

  function SeenPixels(l: Link, px: seq<Pixel>): (r: seq<Pixel>)
    ensures |r| == |px|
  {
    seq(|px|, k requires 0 <= k < |px| => Seen(l, px[k]))
  }

  // The lengths of pixel data a link carries to the end.
  predicate Carries(l: Link, len: nat)
  {
    l.option3 ||
    (Usable1(l.maxDma) &&
     (Chunk1Positive(l.maxDma);
      len % 8 == 0 || len % 8 == 2 || !Option1.TailIsPadded(len, Chunk1(l.maxDma))))
  }

  // ---- The pixels that arrive ----

  lemma HoldsPtrTo16(px: seq<Pixel>)
    ensures Holds(PtrTo16(px), px)
  {
    forall k | 0 <= k < |px|
      ensures PtrTo16(px)(2 * k) == Option3.Lo(px[k]) && PtrTo16(px)(2 * k + 1) == Option3.Hi(px[k])
    {
      HalfOf(k);
    }
  }

  lemma HalvesExchanged(x: Pixel)
    ensures PixelOf(Option3.Lo(x), Option3.Hi(x)) == Option3.Swab16(x)
  {
  }

  // Bytes sent as they lie in memory give exchanged pixels.
  lemma ExchangedPixels(val: Ptr, px: seq<Pixel>)
    requires Holds(val, px)
    ensures |Pixels(Load(val, 0, 2 * |px|))| == |px|
    ensures forall k :: 0 <= k < |px| ==> Pixels(Load(val, 0, 2 * |px|))[k] == Option3.Swab16(px[k])
  {
    hide Option3.Lo, Option3.Hi, PixelOf, Option3.Swab16;
    var s := Load(val, 0, 2 * |px|);
    forall k | 0 <= k < |px|
      ensures Pixels(s)[k] == Option3.Swab16(px[k])
    {
      HalfOf(k);
      assert s[2 * k] == val(2 * k) && s[2 * k + 1] == val(2 * k + 1);
      HalvesExchanged(px[k]);
    }
  }

  // Option 1 carries a start of the parameters.
  lemma CarriedPrefix(val: Ptr, len: nat, n: nat)
    requires len % 2 == 0 && n <= len
    ensures CarriedBytes(16, val, n) == Params(Call(RAM, val, len))[..n]
  {
    hide Option1.SrcByte, SwapPairs;
    var c := Call(RAM, val, len);
    SrcWordsAreParams(c);
    var ws := Option1.SrcWords(16, val, 0, len);
    forall i | 0 <= i < n
      ensures CarriedBytes(16, val, n)[i] == Params(c)[i]
    {
      assert ws[i] == Word(true, Option1.SrcByte(16, val, 0 + i));
      assert ws[i] == DataWords(Params(c))[i];
    }
  }

  lemma CarriesAll(l: Link, len: nat)
    requires !l.option3 && Usable1(l.maxDma) && len % 2 == 0
    ensures Chunk1(l.maxDma) > 0
    ensures CarriedLength(16, len, Chunk1(l.maxDma)) == len <==> Carries(l, len)
  {
    Chunk1Positive(l.maxDma);
    Option1Decode.SentExactly(len % 8);
  }

  // What arrives of a pixel write: a start of the pixels, each as the panel sees it, and
  // all of them exactly if the link carries the length.
  lemma ArrivedPixels(l: Link, call: Call, px: seq<Pixel>)
    requires call.reg == RAM && call.len == 2 * |px| > 0 && Holds(call.val, px)
    ensures |Arrived(l, call)| <= call.len && Pixels(Arrived(l, call)) <= SeenPixels(l, px)
    ensures |Arrived(l, call)| == call.len <==> Carries(l, call.len)
  {
    hide Holds, Load, SwapPairs, Option3.Swab16, Option3.BpwSupported, CarriedLength, Carries, CarriedBytes, Pixels;
    PixelsArrive(call, px);
    if l.option3 {
      CarriesOption3(l, call.len);
      if Exchanged(l) {
        ExchangedPixels(call.val, px);
      } else {
        assert SeenPixels(l, px) == px;
      }
    } else {
      assert SeenPixels(l, px) == px;
      if Usable1(l.maxDma) {
        CarriesAll(l, call.len);
        var n := CarriedLength(16, call.len, Chunk1(l.maxDma));
        CarriedPrefix(call.val, call.len, n);
        PixelsOfPrefix(Params(call), n);
      } else {
        NoPixels(l, call.len);
      }
    }
  }

  lemma CarriesOption3(l: Link, len: nat)
    requires l.option3
    ensures Carries(l, len)
  {
  }

  lemma NoPixels(l: Link, len: nat)
    requires !l.option3 && !Usable1(l.maxDma)
    ensures !Carries(l, len) && Pixels([]) == []
  {
  }

  // The same for the pixels of a flush, however far its pixel write came.
  lemma GotPixels(l: Link, mem: Ptr, fb: Fb, c: Clip, io: DirtyIo)
    requires Sound(fb, c)
    ensures
      var got := PixelsGot(l, mem, fb, c, io);
      && Pixels(got) <= SeenPixels(l, FlushPixels(mem, fb, c))
      && |got| <= 2 * NumPixels(c) == Length(c)
      && (|got| == Length(c) <==> Attempted(fb, io) && Full(io.pixels, Length(c)) && Carries(l, Length(c)))
  {
    hide Pixels, Arrived, FlushPixels, Holds, PtrTo16, NumPixels, Length, Attempted, Carries, SeenPixels, Sound;
    SomePixels(fb, c);
    var px, call := FlushPixels(mem, fb, c), PixelCall(mem, fb, c);
    HoldsPtrTo16(px);
    ArrivedPixels(l, call, px);
    var got, all := PixelsGot(l, mem, fb, c, io), Arrived(l, call);
    if Attempted(fb, io) {
      PixelsOfPrefix(all, |got|);
      assert all[..|got|] == got;
    } else {
      PixelsOfPrefix(all, 0);
      assert all[..0] == [];
    }
  }

  lemma SomePixels(fb: Fb, c: Clip)
    requires Sound(fb, c)
    ensures Fits(fb, c) && Length(c) == 2 * NumPixels(c) > 0
    ensures NumPixels(c) == (c.x2 - c.x1) * (c.y2 - c.y1)
  {
    FlushWithinMap(fb, c);
    MulAtLeast(c.x2 - c.x1, c.y2 - c.y1);
  }

  // ---- Frame memory after the flush ----

  // With the window set, what counts is the pixels that arrived.
  lemma DeliveredMemory(l: Link, mem: Ptr, fb: Fb, c: Clip, io: DirtyIo, p: Panel)
    requires WindowSet(io)
    ensures ExecuteAll(p, Delivered(l, mem, fb, c, io)).mem
         == ExecuteAll(p, FlushCommands(c, PixelsGot(l, mem, fb, c, io))).mem
  {
    hide Execute, WindowParams, Arrived, Attempted;
    WindowLength(c.x1, c.x2);
    WindowLength(c.y1, c.y2);
    var a, b := Command(SET_COLUMN_ADDRESS, WindowParams(c.x1, c.x2)), Command(SET_PAGE_ADDRESS, WindowParams(c.y1, c.y2));
    var got := PixelsGot(l, mem, fb, c, io);
    assert a.params[..4] == a.params && b.params[..4] == b.params;
    assert Reached(a, io.column) == [a] && Reached(b, io.page) == [b];
    ThreeCommands(p, a, b, Command(RAM, got));
    if Attempted(fb, io) && !io.pixels.Nothing? {
      assert Delivered(l, mem, fb, c, io) == FlushCommands(c, got);
    } else {
      assert Delivered(l, mem, fb, c, io) == [a, b];
      TwoCommands(p, a, b);
      HarmlessStep(Execute(Execute(p, a), b), Command(RAM, []));
    }
  }

  lemma TwoCommands(p: Panel, a: Command, b: Command)
    ensures ExecuteAll(p, [a, b]) == Execute(Execute(p, a), b)
  {
    hide Execute;
    assert [a][..0] == [];
    assert ExecuteAll(p, [a]) == Execute(p, a);
    assert [a, b][..1] == [a];
  }

  // Less than a pixel changes nothing, whatever the window.
  lemma NoPixelNoChange(l: Link, mem: Ptr, fb: Fb, c: Clip, io: DirtyIo, p: Panel)
    requires |PixelsGot(l, mem, fb, c, io)| < 2
    ensures ExecuteAll(p, Delivered(l, mem, fb, c, io)).mem == p.mem
  {
    hide WindowParams, Arrived, Attempted;
    var cs := Delivered(l, mem, fb, c, io);
    forall d | d in cs
      ensures d.cmd == RAM ==> |d.params| < 2
    {
    }
    SmallKeeps(p, cs);
  }

  lemma {:induction false} SmallKeeps(p: Panel, cs: seq<Command>)
    requires forall d :: d in cs ==> d.cmd == RAM ==> |d.params| < 2
    ensures ExecuteAll(p, cs).mem == p.mem
    decreases |cs|
  {
    hide Execute;
    if cs != [] {
      SmallKeeps(p, cs[..|cs| - 1]);
      SmallStep(ExecuteAll(p, cs[..|cs| - 1]), cs[|cs| - 1]);
    }
  }

  lemma SmallStep(p: Panel, c: Command)
    requires c.cmd == RAM ==> |c.params| < 2
    ensures Execute(p, c).mem == p.mem
  {
  }

  // The panel shows a framebuffer's pixel at a position.
  predicate Shows(panel: Panel, mem: Ptr, fb: Fb, q: (int, int))
    requires 0 <= q.0 && 0 <= q.1
  {
    q in panel.mem && panel.mem[q] == FbPixel(mem, fb, q.0, q.1)
  }

  // The panel shows it as the link presents it.
  predicate Mirrors(l: Link, panel: Panel, mem: Ptr, fb: Fb, q: (int, int))
    requires 0 <= q.0 && 0 <= q.1
  {
    q in panel.mem && panel.mem[q] == Seen(l, FbPixel(mem, fb, q.0, q.1))
  }

  // That is the picture unless the bytes arrive exchanged.
  lemma MirrorsShows(l: Link, panel: Panel, mem: Ptr, fb: Fb, q: (int, int))
    requires 0 <= q.0 && 0 <= q.1 && !Exchanged(l)
    ensures Mirrors(l, panel, mem, fb, q) <==> Shows(panel, mem, fb, q)
  {
    hide FbPixel;
  }

  // The positions of a clip whose pixels are among the first n bytes.
  predicate Refreshed(c: Clip, n: nat, q: (int, int))
  {
    Contains(c, q.0, q.1) && ClipIndex(c, q.0, q.1) < n / 2
  }

  // A flush with the window set, of a clip it is exact for: the positions whose pixels
  // arrived show the framebuffer, as the link presents it, and the others are unchanged.
  lemma DeliveryMirrors(l: Link, mem: Ptr, fb: Fb, c: Clip, io: DirtyIo, p: Panel, x: nat, y: nat)
    requires WindowSet(io) && Exact(fb, c)
    ensures
      var p', q := ExecuteAll(p, Delivered(l, mem, fb, c, io)), (x, y);
      if Refreshed(c, |PixelsGot(l, mem, fb, c, io)|, q) then Mirrors(l, p', mem, fb, q)
      else (q in p'.mem <==> q in p.mem) && (q in p.mem ==> p'.mem[q] == p.mem[q])
  {
    hide FbPixel, FlushPixel, Pixels, WritePixels, FlushCommands, ExecuteAll, Offset, NumPixels, Delivered;
    hide Contiguous, Placing, ClipWindow, ClipIndex, Seen, PixelsGot, WindowSet, Attempted, Length, Carries;
    var got := PixelsGot(l, mem, fb, c, io);
    GotPixels(l, mem, fb, c, io);
    SomePixels(fb, c);
    DeliveredMemory(l, mem, fb, c, io, p);
    FlushWindow(p, c, got);
    PlacedAt(c, p.mem, Pixels(got), x, y);
    if Contains(c, x, y) {
      FlushPixelIs(mem, fb, c, x, y);
    }
  }

  // ---- Exactly when a flush shows its clip ----

  lemma {:induction false} ExecuteConcat(p: Panel, a: seq<Command>, b: seq<Command>)
    ensures ExecuteAll(p, a + b) == ExecuteAll(ExecuteAll(p, a), b)
    decreases |b|
  {
    hide Execute;
    if b == [] {
      assert a + b == a;
    } else {
      ExecuteConcat(p, a, b[..|b| - 1]);
      assert (a + b)[..|a + b| - 1] == a + b[..|b| - 1];
    }
  }

  lemma OneCommand(p: Panel, c: Command, r: Reach)
    ensures ExecuteAll(p, Reached(c, r)) == if r.Nothing? then p else Execute(p, Command(c.cmd, Got(r, c.params)))
  {
    hide Execute;
    var cs := Reached(c, r);
    if !r.Nothing? {
      assert cs[..0] == [];
    }
  }

  // An address command sets its addresses if all its parameters get through, and nothing
  // otherwise.
  lemma ColumnReached(p: Panel, first: u16, last: u16, r: Reach)
    ensures ExecuteAll(p, Reached(Command(SET_COLUMN_ADDRESS, WindowParams(first, last)), r))
         == if Full(r, 4) then p.(win := p.win.(sc := first, ec := EndAddress(last))) else p
  {
    hide WindowParams, Address, EndAddress;
    WindowLength(first, last);
    var s := WindowParams(first, last);
    assert s[..4] == s;
    WindowStart(first, last);
    WindowEnd(first, last);
    OneCommand(p, Command(SET_COLUMN_ADDRESS, s), r);
  }

  lemma PageReached(p: Panel, first: u16, last: u16, r: Reach)
    ensures ExecuteAll(p, Reached(Command(SET_PAGE_ADDRESS, WindowParams(first, last)), r))
         == if Full(r, 4) then p.(win := p.win.(sp := first, ep := EndAddress(last))) else p
  {
    hide WindowParams, Address, EndAddress;
    WindowLength(first, last);
    var s := WindowParams(first, last);
    assert s[..4] == s;
    WindowStart(first, last);
    WindowEnd(first, last);
    OneCommand(p, Command(SET_PAGE_ADDRESS, s), r);
  }

  // A panel without contents whose window lies beside the clip.
  function Beside(c: Clip): Panel
  {
    Panel(Window(c.x2, c.x2, c.y2, c.y2), map[])
  }

  // If the window is not set, the pixels may go elsewhere.
  lemma WindowUnset(l: Link, mem: Ptr, fb: Fb, c: Clip, io: DirtyIo)
    requires NonEmpty(c) && !WindowSet(io)
    ensures (c.x1 as int, c.y1 as int) !in ExecuteAll(Beside(c), Delivered(l, mem, fb, c, io)).mem
  {
    hide WindowParams, Arrived, Attempted, ExecuteAll, WritePixels, Pixels;
    var a := Reached(Command(SET_COLUMN_ADDRESS, WindowParams(c.x1, c.x2)), io.column);
    var b := Reached(Command(SET_PAGE_ADDRESS, WindowParams(c.y1, c.y2)), io.page);
    var all := Delivered(l, mem, fb, c, io);
    var p, rest := Beside(c), all[|a + b|..];
    assert all == a + b + rest;
    ExecuteConcat(p, a + b, rest);
    ExecuteConcat(p, a, b);
    ColumnReached(p, c.x1, c.x2, io.column);
    PageReached(ExecuteAll(p, a), c.y1, c.y2, io.page);
    var p2 := ExecuteAll(p, a + b);
    var call := Command(RAM, Arrived(l, PixelCall(mem, fb, c)));
    NothingExecuted(p2);
    if rest != [] {
      OneCommand(p2, call, io.pixels);
      var got := Got(io.pixels, call.params);
      OnlyWindow(p2.win, p2.mem, p2.win.sc, p2.win.sp, Pixels(got), (c.x1 as int, c.y1 as int));
    }
  }

  lemma NothingExecuted(p: Panel)
    ensures ExecuteAll(p, []) == p
  {
  }

  // A memory that tells addresses apart.
  function Probe(at: nat): Ptr
  {
    (a: nat) => if a == at then 8 else if a == at + 1 then 16 else 0
  }

  // The pixel read elsewhere, or read there and exchanged, is another one.
  lemma ProbeDiffers(l: Link, f: Format, lies: nat, read: nat)
    requires f != OtherFormat && (read != lies || Exchanged(l))
    ensures Seen(l, PixelAt(Probe(lies), f, read)) != PixelAt(Probe(lies), f, lies)
  {
    hide Option3.BpwSupported;
    var mem := Probe(lies);
    assert mem(lies) == 8 && mem(lies + 1) == 16 && mem(lies + 2) == 0 && mem(lies + 3) == 0;
    if f == RGB565 {
      Probe565(mem(read), mem(read + 1));
    } else {
      Probe8888(mem(read), mem(read + 1), mem(read + 2), mem(read + 3));
    }
  }

  lemma Probe565(lo: byte, hi: byte)
    ensures Option3.U16(8, 16) == 0x1008
    ensures Option3.U16(lo, hi) == 0x1008 ==> lo == 8
    ensures Option3.Swab16(Option3.U16(lo, hi)) == 0x1008 ==> lo == 16 && hi == 8
  {
  }

  lemma Probe8888(b0: byte, b1: byte, b2: byte, b3: byte)
    requires b0 in {0, 8, 16} && b1 in {0, 8, 16} && b2 in {0, 8, 16}
    ensures ToRgb565((8 as bv32) | ((16 as bv32) << 8)) == 0x0081
    ensures
      var x := (b0 as bv32) | ((b1 as bv32) << 8) | ((b2 as bv32) << 16) | ((b3 as bv32) << 24);
      (ToRgb565(x) == 0x0081 ==> b0 == 8) && Option3.Swab16(ToRgb565(x)) != 0x0081
  {
  }

  // Whether a flush shows its clip on every panel, whatever the memory holds.
  ghost predicate ShowsClip(l: Link, fb: Fb, c: Clip, io: DirtyIo)
  {
    forall mem: Ptr, p: Panel, x: nat, y: nat | Contains(c, x, y) ::
      Shows(ExecuteAll(p, Delivered(l, mem, fb, c, io)), mem, fb, (x, y))
  }

  // All of the pixel data arrives.
  predicate AllArrives(l: Link, fb: Fb, c: Clip, io: DirtyIo)
  {
    Attempted(fb, io) && Full(io.pixels, Length(c)) && Carries(l, Length(c))
  }

  function Blank(): Panel { Panel(Window(0, 0, 0, 0), map[]) }

  // The last pixel of the clip is not written if the window is too wide for it, or if the
  // data ends before it.
  lemma LastPixelUnwritten(l: Link, mem: Ptr, fb: Fb, c: Clip, io: DirtyIo)
    requires Sound(fb, c) && WindowSet(io) && !(Placing(c) && AllArrives(l, fb, c, io))
    ensures (c.x2 - 1, c.y2 - 1) !in ExecuteAll(Blank(), Delivered(l, mem, fb, c, io)).mem
  {
    hide Pixels, WritePixels, FlushCommands, ExecuteAll, NumPixels, Delivered, ClipWindow, PixelsGot, Placing;
    hide WindowSet, Attempted, Full, Length, Carries, SeenPixels, FlushPixels, ClipIndex;
    var got := PixelsGot(l, mem, fb, c, io);
    GotPixels(l, mem, fb, c, io);
    SomePixels(fb, c);
    DeliveredMemory(l, mem, fb, c, io, Blank());
    FlushWindow(Blank(), c, got);
    if Placing(c) {
      PlacedAt(c, map[], Pixels(got), c.x2 - 1, c.y2 - 1);
      LastIndex(c);
    } else {
      LastPixelMissed(c, map[], Pixels(got));
    }
  }

  lemma LastIndex(c: Clip)
    requires NonEmpty(c)
    ensures Contains(c, c.x2 - 1, c.y2 - 1)
    ensures ClipIndex(c, c.x2 - 1, c.y2 - 1) == (c.x2 - c.x1) * (c.y2 - c.y1) - 1
  {
    var w, h := c.x2 - c.x1, c.y2 - c.y1;
    assert (h - 1) * w == h * w - w;
    assert h * w == w * h;
  }

  // A pixel that arrives from the wrong address, or exchanged, shows.
  lemma WrongPixel(l: Link, fb: Fb, c: Clip, io: DirtyIo, x: nat, y: nat)
    requires Sound(fb, c) && WindowSet(io) && Placing(c) && AllArrives(l, fb, c, io) && Contains(c, x, y)
    requires ReadAt(fb, c, x - c.x1, y - c.y1) != LiesAt(fb, c, x - c.x1, y - c.y1) || Exchanged(l)
    ensures
      var mem := Probe(fb.base + LiesAt(fb, c, x - c.x1, y - c.y1));
      !Shows(ExecuteAll(Blank(), Delivered(l, mem, fb, c, io)), mem, fb, (x, y))
  {
    hide Pixels, WritePixels, FlushCommands, ExecuteAll, NumPixels, Delivered, ClipWindow, PixelsGot, Placing;
    hide WindowSet, Full, Length, Carries, ClipIndex, FlushPixel, Seen, PixelAt, ReadAt, Exchanged, Probe;
    var lies := fb.base + LiesAt(fb, c, x - c.x1, y - c.y1);
    var mem := Probe(lies);
    var got := PixelsGot(l, mem, fb, c, io);
    GotPixels(l, mem, fb, c, io);
    SomePixels(fb, c);
    DeliveredMemory(l, mem, fb, c, io, Blank());
    FlushWindow(Blank(), c, got);
    PlacedAt(c, map[], Pixels(got), x, y);
    FlushPixelRead(mem, fb, c, x, y);
    ProbeDiffers(l, fb.format, lies, fb.base + ReadAt(fb, c, x - c.x1, y - c.y1));
  }

  // A clip that is not contiguous has a pixel that is read from the wrong address.
  lemma WrongAddress(fb: Fb, c: Clip) returns (x: nat, y: nat)
    requires Sound(fb, c) && !Contiguous(fb, c)
    ensures Contains(c, x, y)
    ensures ReadAt(fb, c, x - c.x1, y - c.y1) != LiesAt(fb, c, x - c.x1, y - c.y1)
  {
    hide ReadAt, LiesAt, Contiguous;
    SourceExact(fb, c);
    FlushWithinMap(fb, c);
    var i: nat, j: nat :| i < Flush.Width(c) && j < Height(c) && ReadAt(fb, c, i, j) != LiesAt(fb, c, i, j);
    x, y := c.x1 + i, c.y1 + j;
  }

  // A flush shows its clip, whatever the panel and the memory held, if and only if both
  // address commands and all pixel data get through, the clip is one the addresses and the
  // window are right for, and the link does not exchange the bytes of a pixel.
  lemma FlushShowsIff(l: Link, fb: Fb, c: Clip, io: DirtyIo)
    requires Sound(fb, c)
    ensures ShowsClip(l, fb, c, io) <==>
            WindowSet(io) && AllArrives(l, fb, c, io) && Exact(fb, c) && !Exchanged(l)
  {
    hide WindowSet, AllArrives, Contiguous, Placing, Exchanged, ExecuteAll, Delivered, FbPixel, ReadAt, LiesAt;
    if WindowSet(io) && AllArrives(l, fb, c, io) && Exact(fb, c) && !Exchanged(l) {
      forall mem: Ptr, p: Panel, x: nat, y: nat | Contains(c, x, y)
        ensures Shows(ExecuteAll(p, Delivered(l, mem, fb, c, io)), mem, fb, (x, y))
      {
        CompleteShows(l, mem, fb, c, io, p, x, y);
      }
    } else {
      NotAlways(l, fb, c, io);
    }
  }

  lemma CompleteShows(l: Link, mem: Ptr, fb: Fb, c: Clip, io: DirtyIo, p: Panel, x: nat, y: nat)
    requires WindowSet(io) && AllArrives(l, fb, c, io) && Exact(fb, c) && Contains(c, x, y)
    ensures Mirrors(l, ExecuteAll(p, Delivered(l, mem, fb, c, io)), mem, fb, (x, y))
    ensures !Exchanged(l) ==> Shows(ExecuteAll(p, Delivered(l, mem, fb, c, io)), mem, fb, (x, y))
  {
    hide WindowSet, Contiguous, Placing, Exchanged, ExecuteAll, Delivered, FbPixel, PixelsGot, Mirrors, Shows, ClipIndex;
    GotPixels(l, mem, fb, c, io);
    SomePixels(fb, c);
    DeliveryMirrors(l, mem, fb, c, io, p, x, y);
    IndexInClip(c, x, y);
    if !Exchanged(l) {
      MirrorsShows(l, ExecuteAll(p, Delivered(l, mem, fb, c, io)), mem, fb, (x, y));
    }
  }

  lemma IndexInClip(c: Clip, x: nat, y: nat)
    requires Contains(c, x, y)
    ensures ClipIndex(c, x, y) < (c.x2 - c.x1) * (c.y2 - c.y1)
  {
    var w, h := c.x2 - c.x1, c.y2 - c.y1;
    MulLe(y - c.y1 + 1, h, w);
    Distribute2(y - c.y1, 1, w);
    assert h * w == w * h;
  }

  lemma NotAlways(l: Link, fb: Fb, c: Clip, io: DirtyIo)
    requires Sound(fb, c)
    requires !(WindowSet(io) && AllArrives(l, fb, c, io) && Exact(fb, c) && !Exchanged(l))
    ensures !ShowsClip(l, fb, c, io)
  {
    hide WindowSet, AllArrives, Contiguous, Placing, Exchanged, ExecuteAll, Delivered, FbPixel, ReadAt, LiesAt;
    var zero: Ptr := (a: nat) => 0;
    if !WindowSet(io) {
      WindowUnset(l, zero, fb, c, io);
      assert Contains(c, c.x1, c.y1);
      assert !Shows(ExecuteAll(Beside(c), Delivered(l, zero, fb, c, io)), zero, fb, (c.x1 as nat, c.y1 as nat));
    } else if !Placing(c) || !AllArrives(l, fb, c, io) {
      LastPixelUnwritten(l, zero, fb, c, io);
      LastIndex(c);
      assert !Shows(ExecuteAll(Blank(), Delivered(l, zero, fb, c, io)), zero, fb, (c.x2 - 1, c.y2 - 1));
    } else {
      var x: nat, y: nat := c.x1, c.y1;
      if !Contiguous(fb, c) {
        x, y := WrongAddress(fb, c);
      } else {
        KnownFormat(l, fb, c, io);
      }
      WrongPixel(l, fb, c, io, x, y);
      var mem := Probe(fb.base + LiesAt(fb, c, x - c.x1, y - c.y1));
      assert !Shows(ExecuteAll(Blank(), Delivered(l, mem, fb, c, io)), mem, fb, (x, y));
    }
  }

  lemma KnownFormat(l: Link, fb: Fb, c: Clip, io: DirtyIo)
    requires AllArrives(l, fb, c, io)
    ensures fb.format != OtherFormat
  {
  }
}
