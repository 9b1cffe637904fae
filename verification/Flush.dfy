// From a dirty rectangle to the panel's frame memory (mipi-dbi.c:594-602,
// tinydrm-regmap.c:132-166, tinydrm-helpers.c:78-89).
module Flush {
  import opened Base
  import opened Bytes
  import opened Arith
  import opened Transport
  import opened Clips
  import opened Panel
  import Option3

  datatype Format = RGB565 | XRGB8888 | OtherFormat

  // A framebuffer: its mapping starts at the address base.
  datatype Fb = Fb(id: nat, width: nat, height: nat, pitch: nat, format: Format, base: nat)

  const U32: nat := 0x1_0000_0000

  function Bpp(f: Format): (r: nat)
    ensures r == 2 || r == 4
  {
    if f == XRGB8888 then 4 else 2
  }

  function LoadU16(mem: Ptr, a: nat): bv16 { Option3.U16(mem(a), mem(a + 1)) }

  function LoadU32(mem: Ptr, a: nat): bv32
  {
    (mem(a) as bv32) | ((mem(a + 1) as bv32) << 8) | ((mem(a + 2) as bv32) << 16) | ((mem(a + 3) as bv32) << 24)
  }

  function ToRgb565(x: bv32): Pixel
  {
    ((((x & 0x00F80000) >> 8) | ((x & 0x0000FC00) >> 5) | ((x & 0x000000F8) >> 3)) & 0xFFFF) as bv16
  }

  // Red, green and blue of a pixel are the top five, six and five bits of three bytes.
  predicate HasChannels(px: Pixel, red: byte, green: byte, blue: byte)
  {
    && px >> 11 == (red >> 3) as Pixel
    && (px >> 5) & 0x3F == (green >> 2) as Pixel
    && px & 0x1F == (blue >> 3) as Pixel
  }

  lemma Channels(b0: byte, b1: byte, b2: byte, b3: byte)
    ensures
      var x := (b0 as bv32) | ((b1 as bv32) << 8) | ((b2 as bv32) << 16) | ((b3 as bv32) << 24);
      HasChannels(ToRgb565(x), b2, b1, b0)
  {
  }

  // An XRGB8888 pixel is stored with blue first; its fourth byte counts for nothing.
  lemma ConvertedChannels(mem: Ptr, a: nat)
    ensures HasChannels(ToRgb565(LoadU32(mem, a)), mem(a + 2), mem(a + 1), mem(a))
  {
    hide ToRgb565, HasChannels;
    Channels(mem(a), mem(a + 1), mem(a + 2), mem(a + 3));
  }

  // The RGB565 value of the pixel stored at an address.
  function PixelAt(mem: Ptr, f: Format, a: nat): Pixel
  {
    if f == XRGB8888 then ToRgb565(LoadU32(mem, a)) else LoadU16(mem, a)
  }

  // What the framebuffer shows at column x of line y.
  function FbPixel(mem: Ptr, fb: Fb, x: nat, y: nat): Pixel
  {
    PixelAt(mem, fb.format, fb.base + (y * fb.pitch + x * Bpp(fb.format)))
  }

  // The unsigned int arithmetic of tinydrm_regmap_flush_rgb565.
  function Width(c: Clip): nat { (c.x2 - c.x1) % U32 }
  function Height(c: Clip): nat { (c.y2 - c.y1) % U32 }
  function NumPixels(c: Clip): nat { Width(c) * Height(c) % U32 }
  function Offset(f: Format, c: Clip): nat { c.y1 * Width(c) % U32 * Bpp(f) % U32 }
  function Length(c: Clip): nat { NumPixels(c) * 2 % U32 }

  // Pixel k of the flush.
  function FlushPixel(mem: Ptr, fb: Fb, c: Clip, k: nat): Pixel
  {
    PixelAt(mem, fb.format, fb.base + (Offset(fb.format, c) + k * Bpp(fb.format)))
  }

  function FlushPixels(mem: Ptr, fb: Fb, c: Clip): (px: seq<Pixel>)
    ensures |px| == NumPixels(c)
  {
    seq(NumPixels(c), k requires 0 <= k < NumPixels(c) => FlushPixel(mem, fb, c, k))
  }

  // ---- Address window ----

  function AddressByte(x: int): byte { (x % 256) as byte }

  lemma Successor(b: byte)
    requires b as int < 255
    ensures (b + 1) as int == b as int + 1
  {
  }

  lemma ThereAndBack(b: byte)
    ensures (b as int) as byte == b
  {
  }

  lemma {:induction false} ByteValue(n: nat)
    requires n < 256
    ensures (n as byte) as int == n
  {
    if n > 0 {
      ByteValue(n - 1);
      Successor((n - 1) as byte);
      ThereAndBack((n - 1) as byte + 1);
    }
  }

  lemma AddressByteIs(x: int)
    ensures AddressByte(x) as int == x % 256
  {
    ByteValue(x % 256);
  }

  // The four parameters of the two address commands: start, then end.
  function WindowParams(first: nat, last: nat): seq<byte>
  {
    [AddressByte(first / 256), AddressByte(first), AddressByte(last / 256), AddressByte(last - 1)]
  }

  lemma SplitBytes(x: u16)
    ensures 256 * (x / 256 % 256) + x % 256 == x
  {
  }

  lemma SplitLast(x: u16)
    ensures 256 * (x / 256 % 256) + (x - 1) % 256 == if x % 256 != 0 then x - 1 else x + 255
  {
  }

  lemma WindowStart(first: u16, last: u16)
    ensures var s := WindowParams(first, last); Address(s[0], s[1]) == first
  {
    AddressByteIs(first / 256);
    AddressByteIs(first);
    SplitBytes(first);
  }

  // The end address the panel is told.
  function EndAddress(last: u16): nat
  {
    if last % 256 != 0 then last - 1 else last + 255
  }

  // The end address is the last column exactly when the exclusive end is no multiple of
  // 256; otherwise it is 256 too large.
  lemma WindowEnd(first: u16, last: u16)
    ensures var s := WindowParams(first, last); Address(s[2], s[3]) == EndAddress(last)
    ensures EndAddress(last) == last - 1 <==> last % 256 != 0
  {
    AddressByteIs(last / 256);
    AddressByteIs(last - 1);
    SplitLast(last);
  }

  // An exclusive end of 256 is sent as 511.
  lemma WindowEndAt256()
    ensures var s := WindowParams(0, 256); Address(s[2], s[3]) == 511
  {
    WindowEnd(0, 256);
  }

  // ---- Source addresses ----

  // A clip the flush arithmetic is meant for.
  predicate Sound(fb: Fb, c: Clip)
  {
    && InBounds(c, fb.width, fb.height)
    && fb.width * Bpp(fb.format) <= fb.pitch
    && fb.height * fb.pitch < U32
  }

  // A clip that stays in a framebuffer whose lines fit the pitch, possibly an empty one.
  predicate Fits(fb: Fb, c: Clip)
  {
    && c.x1 <= c.x2 <= fb.width && c.y1 <= c.y2 <= fb.height
    && fb.width * Bpp(fb.format) <= fb.pitch
    && fb.height * fb.pitch < U32
  }

  // Whatever clips are reported, the merged rectangle fits.
  lemma MergedFits(fb: Fb, cs: seq<Clip>)
    requires fb.width * Bpp(fb.format) <= fb.pitch && fb.height * fb.pitch < U32
    ensures Fits(fb, Merged(cs, fb.width, fb.height))
  {
    hide Box;
  }

  lemma Distribute2(a: int, b: int, n: int)
    ensures (a + b) * n == a * n + b * n
  {
  }

  lemma MulLe(a: int, b: int, n: int)
    requires a <= b && n >= 0
    ensures a * n <= b * n
  {
    Distribute(b, a, n);
    if a < b {
      MulAtLeast(b - a, n);
    }
  }

  lemma MulSwap(a: int, b: int, n: int)
    ensures a * b * n == a * (b * n)
  {
  }

  lemma NoWrap(x: nat)
    requires x < U32
    ensures x % U32 == x
  {
  }

  // The products of the flush stay within the framebuffer's size.
  lemma ProductsBounded(w: nat, h: nat, y1: nat, b: nat, width: nat, height: nat, pitch: nat)
    requires w <= width && y1 + h <= height && 2 <= b && width * b <= pitch
    ensures y1 * w * b == y1 * (w * b) && w * h * b == h * (w * b)
    ensures y1 * w * b + w * h * b <= height * pitch
    ensures 0 <= y1 * w <= y1 * w * b && 0 <= w * h && w * h * 2 <= w * h * b
  {
    var row := w * b;
    MulLe(w, width, b);
    MulLe(y1 + h, height, pitch);
    MulLe2(y1 + h, row, pitch);
    Distribute2(y1, h, row);
    MulSwap(y1, w, b);
    MulSwap(h, w, b);
    assert h * w == w * h;
    Positive(y1, w);
    Positive(w, h);
    Smaller(y1 * w, b);
    Smaller(w * h, b);
  }

  // The bytes read lie inside the mapping and no 32-bit product wraps.
  lemma FlushWithinMap(fb: Fb, c: Clip)
    requires Fits(fb, c)
    ensures Width(c) == c.x2 - c.x1 && Height(c) == c.y2 - c.y1
    ensures NumPixels(c) == Width(c) * Height(c)
    ensures Length(c) == 2 * NumPixels(c)
    ensures Offset(fb.format, c) == c.y1 * (Width(c) * Bpp(fb.format))
    ensures Offset(fb.format, c) + NumPixels(c) * Bpp(fb.format) <= fb.height * fb.pitch
  {
    var w, h, b := c.x2 - c.x1, c.y2 - c.y1, Bpp(fb.format);
    ProductsBounded(w, h, c.y1, b, fb.width, fb.height, fb.pitch);
    NoWrap(w);
    NoWrap(h);
    NoWrap(w * h);
    NoWrap(w * h * 2);
    NoWrap(c.y1 * w);
    NoWrap(c.y1 * w * b);
  }

  lemma MulLe2(n: nat, a: nat, b: nat)
    requires a <= b
    ensures n * a <= n * b
  {
    MulLe(a, b, n);
  }

  lemma Positive(a: nat, b: nat)
    ensures a * b >= 0
  {
  }

  lemma Smaller(a: int, b: nat)
    requires a >= 0 && 2 <= b
    ensures a <= a * b && a * 2 <= a * b
  {
    MulLe2(a, 2, b);
  }

  // Where the flush reads pixel (i, j) of the clip, and where that pixel lies.
  function ReadAt(fb: Fb, c: Clip, i: nat, j: nat): nat
  {
    (c.y1 + j) * (Width(c) * Bpp(fb.format)) + i * Bpp(fb.format)
  }

  function LiesAt(fb: Fb, c: Clip, i: nat, j: nat): nat
  {
    (c.y1 + j) * fb.pitch + (c.x1 + i) * Bpp(fb.format)
  }

  // The clips the source address is right for: from the left edge, and either as wide as
  // a line in memory or a single first line.
  predicate Contiguous(fb: Fb, c: Clip)
  {
    c.x1 == 0 && (c.x2 * Bpp(fb.format) == fb.pitch || (c.y1 == 0 && c.y2 == 1))
  }

  ghost predicate ReadsRightPixels(fb: Fb, c: Clip)
  {
    forall i: nat, j: nat :: i < Width(c) && j < Height(c) ==> ReadAt(fb, c, i, j) == LiesAt(fb, c, i, j)
  }

  // Exactly those clips are read from the right addresses.
  lemma SourceExact(fb: Fb, c: Clip)
    requires Sound(fb, c)
    ensures ReadsRightPixels(fb, c) <==> Contiguous(fb, c)
  {
    var w, h, b := c.x2 - c.x1, c.y2 - c.y1, Bpp(fb.format);
    NoWrap(w);
    NoWrap(h);
    if ReadsRightPixels(fb, c) {
      assert ReadAt(fb, c, 0, 0) == LiesAt(fb, c, 0, 0);
      ReadsLeft(c.y1, w * b, fb.pitch, c.x1, b, fb.width, w);
      if h > 1 {
        assert ReadAt(fb, c, 0, 1) == LiesAt(fb, c, 0, 1);
        ReadsLeft(c.y1 + 1, w * b, fb.pitch, c.x1, b, fb.width, w);
      }
    }
    if Contiguous(fb, c) {
      forall i: nat, j: nat | i < Width(c) && j < Height(c)
        ensures ReadAt(fb, c, i, j) == LiesAt(fb, c, i, j)
      {
      }
    }
  }

  // The second pixel of a line is read from where the first one lies.
  lemma SourceAtSecondPixel()
    ensures
      var fb, c := Fb(1, 4, 2, 8, RGB565, 0), Clip(1, 0, 2, 1);
      ReadAt(fb, c, 0, 0) == 0 && LiesAt(fb, c, 0, 0) == 2
  {
    hide Width;
  }

  // If a line starts at the right address the clip starts at the left edge, and every
  // line but the first needs a tight pitch.
  lemma ReadsLeft(y: nat, row: nat, pitch: nat, x1: nat, b: nat, width: nat, w: nat)
    requires y * row == y * pitch + x1 * b
    requires row == w * b && w <= width && width * b <= pitch && b >= 1
    ensures x1 == 0
    ensures y > 0 ==> row == pitch
  {
    MulLe(w, width, b);
    MulLe2(y, row, pitch);
    Positive(x1, b);
    if x1 > 0 {
      MulAtLeast(x1, b);
    }
    if y > 0 && row < pitch {
      Distribute(pitch, row, y);
      MulAtLeast(pitch - row, y);
    }
  }

  // ---- The write ----

  // tinydrm_xrgb8888_to_rgb565.
  method XrgbToRgb565(mem: Ptr, src: nat, dst: array<bv16>)
    modifies dst
    ensures forall k :: 0 <= k < dst.Length ==> dst[k] == ToRgb565(LoadU32(mem, src + k * 4))
    ensures forall k :: 0 <= k < dst.Length ==>
              HasChannels(dst[k], mem(src + k * 4 + 2), mem(src + k * 4 + 1), mem(src + k * 4))
  {
    hide ToRgb565, LoadU32, HasChannels;
    var i := 0;
    while i < dst.Length
      invariant i <= dst.Length
      invariant forall k :: 0 <= k < i ==> dst[k] == ToRgb565(LoadU32(mem, src + k * 4))
    {
      dst[i] := ToRgb565(LoadU32(mem, src + i * 4));
      i := i + 1;
    }
    forall k | 0 <= k < dst.Length
      ensures HasChannels(dst[k], mem(src + k * 4 + 2), mem(src + k * 4 + 1), mem(src + k * 4))
    {
      ConvertedChannels(mem, src + k * 4);
    }
  }

  // The bytes of a u16 array behind a pointer.
  function PtrTo16(s: seq<bv16>): Ptr
  {
    (i: nat) => if i / 2 < |s| then (if i % 2 == 0 then Option3.Lo(s[i / 2]) else Option3.Hi(s[i / 2])) else 0
  }

  // The pixel values at tr, each in memory order.
  ghost predicate Holds(tr: Ptr, px: seq<Pixel>)
  {
    forall k :: 0 <= k < |px| ==> tr(2 * k) == Option3.Lo(px[k]) && tr(2 * k + 1) == Option3.Hi(px[k])
  }

  datatype Flushed = Refused(error: int) | Send(call: Call)

  // tinydrm_regmap_flush_rgb565 up to the register write: the pixels to send.
  // allocOk tells whether the conversion buffer can be allocated.
  method FlushRgb565(mem: Ptr, fb: Fb, c: Clip, allocOk: bool) returns (r: Flushed)
    ensures r.Send? <==> fb.format == RGB565 || (fb.format == XRGB8888 && allocOk)
    ensures r.Refused? ==> r == Refused(if fb.format == XRGB8888 then -ENOMEM else -EINVAL)
    ensures r.Send? ==> r.call.reg == RAM && r.call.len == Length(c) && Holds(r.call.val, FlushPixels(mem, fb, c))
  {
    hide Option3.Lo, Option3.Hi, ToRgb565, LoadU32, LoadU16, NumPixels, Length, Offset;
    var start := fb.base + Offset(fb.format, c);
    if fb.format == RGB565 {
      var tr: Ptr := (i: nat) => mem(start + i);
      InPlace(mem, fb, c, tr);
      return Send(Call(RAM, tr, Length(c)));
    } else if fb.format == XRGB8888 {
      if !allocOk {
        return Refused(-ENOMEM);
      }
      var buf := new bv16[NumPixels(c)];
      XrgbToRgb565(mem, start, buf);
      Converted(mem, fb, c, buf[..]);
      return Send(Call(RAM, PtrTo16(buf[..]), Length(c)));
    } else {
      return Refused(-EINVAL);
    }
  }

  lemma BytesOfU16(mem: Ptr, a: nat)
    ensures Option3.Lo(LoadU16(mem, a)) == mem(a) && Option3.Hi(LoadU16(mem, a)) == mem(a + 1)
  {
  }

  lemma InPlace(mem: Ptr, fb: Fb, c: Clip, tr: Ptr)
    requires fb.format == RGB565
    requires forall i: nat :: tr(i) == mem(fb.base + Offset(fb.format, c) + i)
    ensures Holds(tr, FlushPixels(mem, fb, c))
  {
    hide Option3.Lo, Option3.Hi, LoadU16, NumPixels, Offset;
    var px := FlushPixels(mem, fb, c);
    forall k | 0 <= k < |px|
      ensures tr(2 * k) == Option3.Lo(px[k]) && tr(2 * k + 1) == Option3.Hi(px[k])
    {
      BytesOfU16(mem, fb.base + (Offset(fb.format, c) + k * 2));
    }
  }

  lemma Converted(mem: Ptr, fb: Fb, c: Clip, s: seq<bv16>)
    requires fb.format == XRGB8888 && |s| == NumPixels(c)
    requires forall k :: 0 <= k < |s| ==> s[k] == ToRgb565(LoadU32(mem, fb.base + Offset(fb.format, c) + k * 4))
    ensures Holds(PtrTo16(s), FlushPixels(mem, fb, c))
  {
    hide Option3.Lo, Option3.Hi, ToRgb565, LoadU32, NumPixels, Offset;
    var px := FlushPixels(mem, fb, c);
    forall k | 0 <= k < |px|
      ensures PtrTo16(s)(2 * k) == Option3.Lo(px[k]) && PtrTo16(s)(2 * k + 1) == Option3.Hi(px[k])
    {
      assert fb.base + (Offset(fb.format, c) + k * 4) == fb.base + Offset(fb.format, c) + k * 4;
      assert px[k] == s[k];
      HalfOf(k);
    }
  }

  lemma HalfOf(k: nat)
    ensures 2 * k / 2 == k && 2 * k % 2 == 0 && (2 * k + 1) / 2 == k && (2 * k + 1) % 2 == 1
  {
  }

  lemma PixelOfHalves(x: Pixel)
    ensures PixelOf(Option3.Hi(x), Option3.Lo(x)) == x
  {
  }

  // The panel assembles the pixel values the driver sent.
  lemma PixelsArrive(call: Call, px: seq<Pixel>)
    requires call.reg == RAM && call.len == 2 * |px| && Holds(call.val, px)
    ensures Pixels(Params(call)) == px
  {
    hide Option3.Lo, Option3.Hi, PixelOf;
    var val, sent := Load(call.val, 0, call.len), Params(call);
    forall k | 0 <= k < |px|
      ensures Pixels(sent)[k] == px[k]
    {
      SwapPairsAt(val, 2 * k);
      SwapPairsAt(val, 2 * k + 1);
      HalfOf(k);
      assert sent[2 * k] == call.val(2 * k + 1) && sent[2 * k + 1] == call.val(2 * k);
      PixelOfHalves(px[k]);
    }
  }

  // ---- The three commands of a flush ----

  // The commands of a flush whose pixel write delivers the given bytes.
  function FlushCommands(c: Clip, pixels: seq<byte>): seq<Command>
  {
    [Command(SET_COLUMN_ADDRESS, WindowParams(c.x1, c.x2)),
     Command(SET_PAGE_ADDRESS, WindowParams(c.y1, c.y2)),
     Command(RAM, pixels)]
  }

  lemma ThreeCommands(p: Panel, a: Command, b: Command, c: Command)
    ensures ExecuteAll(p, [a, b, c]) == Execute(Execute(Execute(p, a), b), c)
  {
    hide Execute;
    assert [a][..0] == [];
    assert ExecuteAll(p, [a]) == Execute(p, a);
    assert [a, b][..1] == [a];
    assert ExecuteAll(p, [a, b]) == Execute(Execute(p, a), b);
    assert [a, b, c][..2] == [a, b];
  }

  // The window the first two commands set.
  function ClipWindow(c: Clip): Window
  {
    Window(c.x1, EndAddress(c.x2), c.y1, EndAddress(c.y2))
  }

  lemma FlushWindow(p: Panel, c: Clip, pixels: seq<byte>)
    ensures ExecuteAll(p, FlushCommands(c, pixels))
         == Panel(ClipWindow(c), WritePixels(ClipWindow(c), p.mem, c.x1, c.y1, Pixels(pixels)))
  {
    hide WindowParams, Pixels, WritePixels, Address, EndAddress;
    var cmds := FlushCommands(c, pixels);
    ThreeCommands(p, cmds[0], cmds[1], cmds[2]);
    WindowLength(c.x1, c.x2);
    WindowLength(c.y1, c.y2);
    WindowStart(c.x1, c.x2);
    WindowStart(c.y1, c.y2);
    WindowEnd(c.x1, c.x2);
    WindowEnd(c.y1, c.y2);
  }

  lemma WindowLength(first: nat, last: nat)
    ensures |WindowParams(first, last)| == 4
  {
  }

  predicate NonEmpty(c: Clip) { c.x1 < c.x2 && c.y1 < c.y2 }

  // The place of a position of the clip in the stream of its pixels.
  function ClipIndex(c: Clip, x: int, y: int): int
  {
    (y - c.y1) * (c.x2 - c.x1) + (x - c.x1)
  }

  // The clips whose pixels go where they belong: the window has their width, or there is
  // one line only. A window with too many lines does no harm.
  predicate Placing(c: Clip)
  {
    c.x2 % 256 != 0 || c.y2 == c.y1 + 1
  }

  lemma WindowHolds(c: Clip)
    requires NonEmpty(c)
    ensures
      var win := ClipWindow(c);
      && win.sc <= win.ec && win.sp <= win.ep
      && 0 < (c.x2 - c.x1) * (c.y2 - c.y1) <= (win.ep - win.sp + 1) * (win.ec - win.sc + 1)
  {
    var win, w, h := ClipWindow(c), c.x2 - c.x1, c.y2 - c.y1;
    var w', h' := win.ec - win.sc + 1, win.ep - win.sp + 1;
    MulLe(h, h', w);
    MulLe(w, w', h');
    assert h * w == w * h && w * h' == h' * w && w' * h' == h' * w';
    MulAtLeast(h, w);
  }

  // A pixel before the end of the stream lies in a line of the clip.
  lemma LineOf(i: int, j: int, w: int, h: int)
    requires 0 <= i && 0 <= j && j * w + i < h * w && w > 0
    ensures j < h
  {
    if j >= h {
      MulLe(h, j, w);
    }
  }

  lemma FirstLine(i: int, j: int, w: int, n: int)
    requires 0 <= i && 0 <= j && 0 < n <= w && j * w + i < n
    ensures j == 0 && i < n
  {
    if j > 0 {
      MulAtLeast(j, w);
    }
  }

  // A position of the window that gets a pixel is one of the clip, at the same index.
  lemma WindowIsClip(c: Clip, n: nat, x: int, y: int)
    requires NonEmpty(c) && Placing(c) && n <= (c.x2 - c.x1) * (c.y2 - c.y1)
    ensures
      var win := ClipWindow(c);
      var k := (y - win.sp) * (win.ec - win.sc + 1) + (x - win.sc);
      && (InWindow(win, (x, y)) && k < n <==> Contains(c, x, y) && ClipIndex(c, x, y) < n)
      && (Contains(c, x, y) ==> k == ClipIndex(c, x, y))
  {
    var win, w, h := ClipWindow(c), c.x2 - c.x1, c.y2 - c.y1;
    var i, j, w' := x - c.x1, y - c.y1, win.ec - win.sc + 1;
    if c.x2 % 256 != 0 {
      if InWindow(win, (x, y)) && j * w + i < n {
        assert w * h == h * w;
        LineOf(i, j, w, h);
      }
    } else {
      if InWindow(win, (x, y)) && j * w' + i < n {
        FirstLine(i, j, w', n);
      }
    }
  }

  // Where the pixels of a stream that is not longer than the clip end up.
  lemma PlacedAt(c: Clip, m: Memory, px: seq<Pixel>, x: int, y: int)
    requires NonEmpty(c) && Placing(c) && |px| <= (c.x2 - c.x1) * (c.y2 - c.y1)
    ensures
      var r, k := WritePixels(ClipWindow(c), m, c.x1, c.y1, px), ClipIndex(c, x, y);
      if Contains(c, x, y) && k < |px| then (x, y) in r && k >= 0 && r[(x, y)] == px[k]
      else ((x, y) in r <==> (x, y) in m) && ((x, y) in m ==> r[(x, y)] == m[(x, y)])
  {
    hide WritePixels, ClipIndex, Placing, EndAddress, InWindow;
    WindowHolds(c);
    WindowIsClip(c, |px|, x, y);
    assert (c.x2 - c.x1) * (c.y2 - c.y1) <= (EndAddress(c.y2) - c.y1 + 1) * (EndAddress(c.x2) - c.x1 + 1);
    FillWindow(ClipWindow(c), m, px, (x, y));
  }

  // With a window that is too wide, the last pixel of a clip of several lines is not
  // written.
  lemma LastPixelMissed(c: Clip, m: Memory, px: seq<Pixel>)
    requires NonEmpty(c) && !Placing(c) && |px| <= (c.x2 - c.x1) * (c.y2 - c.y1)
    ensures
      var r, q := WritePixels(ClipWindow(c), m, c.x1, c.y1, px), (c.x2 - 1, c.y2 - 1);
      (q in r <==> q in m) && (q in m ==> r[q] == m[q])
  {
    hide WritePixels;
    var w, h := c.x2 - c.x1, c.y2 - c.y1;
    WindowHolds(c);
    FillWindow(ClipWindow(c), m, px, (c.x2 - 1, c.y2 - 1));
    Distribute2(w, 256, h - 1);
    assert (h - 1) * (w + 256) + w - 1 >= w * h by { WideLast(w, h); }
  }

  lemma WideLast(w: int, h: int)
    requires w >= 1 && h >= 2
    ensures (h - 1) * (w + 256) + w - 1 >= w * h
  {
    assert (h - 1) * (w + 256) == (h - 1) * w + (h - 1) * 256;
    assert (h - 1) * w == h * w - w;
  }

  // The clips the whole flush is right for.
  predicate Exact(fb: Fb, c: Clip)
  {
    && fb.format != OtherFormat
    && Sound(fb, c) && Contiguous(fb, c) && Placing(c)
  }

  // The address pixel k of the flush is read from.
  lemma FlushPixelRead(mem: Ptr, fb: Fb, c: Clip, x: nat, y: nat)
    requires Sound(fb, c) && Contains(c, x, y)
    ensures
      var k := ClipIndex(c, x, y);
      && 0 <= k < NumPixels(c)
      && FlushPixel(mem, fb, c, k) == PixelAt(mem, fb.format, fb.base + ReadAt(fb, c, x - c.x1, y - c.y1))
  {
    hide PixelAt;
    FlushWithinMap(fb, c);
    var w, h, b, i, j := c.x2 - c.x1, c.y2 - c.y1, Bpp(fb.format), x - c.x1, y - c.y1;
    Positive(j, w);
    MulLe(j + 1, h, w);
    Distribute2(j, 1, w);
    assert h * w == w * h;
    var k := j * w + i;
    Distribute2(c.y1, j, w * b);
    Distribute2(j * w, i, b);
    MulSwap(j, w, b);
    assert Offset(fb.format, c) + k * b == ReadAt(fb, c, i, j);
  }

  // Pixel k of an exact flush is the framebuffer's pixel at that place of the clip.
  lemma FlushPixelIs(mem: Ptr, fb: Fb, c: Clip, x: nat, y: nat)
    requires Sound(fb, c) && Contiguous(fb, c) && Contains(c, x, y)
    ensures
      var k := ClipIndex(c, x, y);
      0 <= k < NumPixels(c) && FlushPixel(mem, fb, c, k) == FbPixel(mem, fb, x, y)
  {
    hide PixelAt, Contiguous;
    FlushPixelRead(mem, fb, c, x, y);
    FlushWithinMap(fb, c);
    SourceExact(fb, c);
    assert ReadAt(fb, c, x - c.x1, y - c.y1) == LiesAt(fb, c, x - c.x1, y - c.y1);
  }

  // After an exact flush that was cut short after some bytes, or was not, the panel shows
  // the framebuffer at the positions whose pixels arrived and is unchanged elsewhere.
  lemma FlushMirrors(mem: Ptr, fb: Fb, c: Clip, pixels: seq<byte>, p: Panel, x: nat, y: nat)
    requires Exact(fb, c) && Pixels(pixels) <= FlushPixels(mem, fb, c)
    ensures
      var p' := ExecuteAll(p, FlushCommands(c, pixels));
      if Contains(c, x, y) && ClipIndex(c, x, y) < |pixels| / 2
      then (x, y) in p'.mem && p'.mem[(x, y)] == FbPixel(mem, fb, x, y)
      else ((x, y) in p'.mem <==> (x, y) in p.mem) && ((x, y) in p.mem ==> p'.mem[(x, y)] == p.mem[(x, y)])
  {
    hide FbPixel, FlushPixel, Pixels, WritePixels, FlushCommands, ExecuteAll, Offset, NumPixels;
    hide Contiguous, Placing, ClipWindow, ClipIndex;
    FlushWithinMap(fb, c);
    FlushWindow(p, c, pixels);
    PlacedAt(c, p.mem, Pixels(pixels), x, y);
    if Contains(c, x, y) {
      FlushPixelIs(mem, fb, c, x, y);
    }
  }

  lemma PixelsOfPrefix(s: seq<byte>, n: nat)
    requires n <= |s|
    ensures Pixels(s[..n]) <= Pixels(s)
  {
    hide PixelOf;
  }

  // Whatever buffer holds the pixels, the bytes of the write are the same.
  lemma HoldsLoad(p: Ptr, q: Ptr, len: nat, px: seq<Pixel>)
    requires len <= 2 * |px| && Holds(p, px) && Holds(q, px)
    ensures Load(p, 0, len) == Load(q, 0, len)
  {
    hide Option3.Lo, Option3.Hi;
    var a, b := Load(p, 0, len), Load(q, 0, len);
    forall i: nat | i < len
      ensures a[i] == b[i]
    {
      var k := i / 2;
      assert i == 2 * k || i == 2 * k + 1;
      assert p(2 * k) == Option3.Lo(px[k]) == q(2 * k);
      assert p(2 * k + 1) == Option3.Hi(px[k]) == q(2 * k + 1);
      assert p(i) == q(i);
      assert 0 + i == i;
    }
  }

  // The length of a pixel write is even, with or without wrap-around.
  lemma LengthEven(c: Clip)
    ensures Length(c) % 2 == 0
  {
    var n := NumPixels(c);
    var q := n * 2 / U32;
    assert Length(c) == 2 * (n - q * 0x8000_0000);
    TwiceEven(Length(c), n - q * 0x8000_0000);
  }

  lemma LengthBound(c: Clip)
    ensures Length(c) <= 2 * NumPixels(c)
  {
    hide NumPixels;
  }
}
