// The display controller: the part of the MIPI Display Command Set that writes the
// frame memory (set_column_address, set_page_address, write_memory_start).
module Panel {
  import opened Bytes
  import opened Arith
  import opened Transport

  type Pixel = bv16
  type Memory = map<(int, int), Pixel>

  const SET_COLUMN_ADDRESS: byte := 0x2A
  const SET_PAGE_ADDRESS: byte := 0x2B

  // The address window and the frame memory, by column and page.
  datatype Panel = Panel(win: Window, mem: Memory)

  // A 16-bit parameter pair.
  function Address(hi: byte, lo: byte): nat
  {
    256 * (hi as int) + lo as int
  }

  function PixelOf(hi: byte, lo: byte): Pixel
  {
    ((hi as bv16) << 8) | (lo as bv16)
  }

  // Pixels arrive high byte first; an odd byte at the end is no pixel.
  function Pixels(s: seq<byte>): (r: seq<Pixel>)
    ensures |r| == |s| / 2
  {
    seq(|s| / 2, k requires 0 <= k < |s| / 2 => PixelOf(s[2 * k], s[2 * k + 1]))
  }

  // The address window: columns sc..ec of pages sp..ep.
  datatype Window = Window(sc: int, ec: int, sp: int, ep: int)

  // Pixels fill the window row by row from the cursor.
  function WritePixels<T>(win: Window, m: map<(int, int), T>, x: int, y: int, px: seq<T>): map<(int, int), T>
    decreases |px|
  {
    if px == [] then m
    else
      var m' := m[(x, y) := px[0]];
      if x < win.ec then WritePixels(win, m', x + 1, y, px[1..])
      else if y < win.ep then WritePixels(win, m', win.sc, y + 1, px[1..])
      else WritePixels(win, m', win.sc, win.sp, px[1..])
  }

  function Execute(p: Panel, c: Command): Panel
  {
    if c.cmd == SET_COLUMN_ADDRESS && |c.params| == 4 then
      p.(win := p.win.(sc := Address(c.params[0], c.params[1]), ec := Address(c.params[2], c.params[3])))
    else if c.cmd == SET_PAGE_ADDRESS && |c.params| == 4 then
      p.(win := p.win.(sp := Address(c.params[0], c.params[1]), ep := Address(c.params[2], c.params[3])))
    else if c.cmd == RAM then
      p.(mem := WritePixels(p.win, p.mem, p.win.sc, p.win.sp, Pixels(c.params)))
    else p
  }

  function ExecuteAll(p: Panel, cs: seq<Command>): Panel
  {
    if cs == [] then p else Execute(ExecuteAll(p, cs[..|cs| - 1]), cs[|cs| - 1])
  }

  // The position in the stream, counted from column i of row j, of column i' of row j'.
  function Index(w: int, i: int, j: int, i': int, j': int): int
  {
    (j' - j) * w + i' - i
  }

  // Row j' column i' comes at or after row j column i.
  predicate After(i: int, j: int, i': int, j': int)
  {
    j' > j || (j' == j && i' >= i)
  }

  lemma IndexBounds(w: int, h: int, i: int, j: int, i': int, j': int)
    requires 0 <= i < w && 0 <= j < h && 0 <= i' < w && 0 <= j' < h && After(i, j, i', j')
    ensures 0 <= Index(w, i, j, i', j') < (h - j) * w - i
  {
    Distribute(h - j, j' - j, w);
    if j' > j {
      MulAtLeast(j' - j, w);
    }
    MulAtLeast(h - j', w);
  }

  lemma IndexNext(w: int, i: int, j: int, i': int, j': int)
    ensures Index(w, i + 1, j, i', j') == Index(w, i, j, i', j') - 1
    ensures i == w - 1 ==> Index(w, 0, j + 1, i', j') == Index(w, i, j, i', j') - 1
  {
    Distribute(j' - j, 1, w);
  }

  lemma RemainingNext(w: int, h: int, i: int, j: int)
    requires 0 <= i < w && 0 <= j < h
    ensures i == w - 1 ==> (h - (j + 1)) * w == (h - j) * w - i - 1
    ensures (h - j) * w - i >= 1
    ensures i < w - 1 ==> (h - j) * w - i >= 2
  {
    Distribute(h - j, 1, w);
    MulAtLeast(h - j, w);
  }

  // Position q is written when filling continues from column i of row j.
  predicate InRest(win: Window, w: int, h: int, i: int, j: int, q: (int, int))
  {
    0 <= q.0 - win.sc < w && 0 <= q.1 - win.sp < h && After(i, j, q.0 - win.sc, q.1 - win.sp)
  }

  function IndexOf(win: Window, w: int, i: int, j: int, q: (int, int)): int
  {
    Index(w, i, j, q.0 - win.sc, q.1 - win.sp)
  }

  // What a position holds after pixels, no more than the rest of the window takes, were
  // written from column i of row j.
  lemma {:induction false} FilledAt<T>(win: Window, w: int, h: int, i: int, j: int, px: seq<T>,
                                       m: map<(int, int), T>, q: (int, int))
    requires w == win.ec - win.sc + 1 && h == win.ep - win.sp + 1
    requires 0 <= i < w && 0 <= j < h && |px| <= (h - j) * w - i
    ensures
      var r, k := WritePixels(win, m, win.sc + i, win.sp + j, px), IndexOf(win, w, i, j, q);
      if InRest(win, w, h, i, j, q) && k < |px| then q in r && k >= 0 && r[q] == px[k]
      else (q in r <==> q in m) && (q in m ==> r[q] == m[q])
    decreases |px|
  {
    hide Index;
    RemainingNext(w, h, i, j);
    var i', j' := q.0 - win.sc, q.1 - win.sp;
    if InRest(win, w, h, i, j, q) {
      IndexBounds(w, h, i, j, i', j');
    }
    if px != [] {
      var here := (win.sc + i, win.sp + j);
      var m' := m[here := px[0]];
      IndexNext(w, i, j, i', j');
      IndexHere(w, i, j);
      if i < w - 1 {
        FilledAt(win, w, h, i + 1, j, px[1..], m', q);
      } else if j < h - 1 {
        FilledAt(win, w, h, 0, j + 1, px[1..], m', q);
      } else {
        assert |px| == 1 by { OnePixel(w, h, i, j); }
        assert px[1..] == [];
      }
    }
  }

  lemma OnePixel(w: int, h: int, i: int, j: int)
    requires i == w - 1 && j == h - 1
    ensures (h - j) * w - i == 1
  {
  }

  lemma IndexHere(w: int, i: int, j: int)
    ensures Index(w, i, j, i, j) == 0
  {
  }

  predicate InWindow(win: Window, q: (int, int))
  {
    win.sc <= q.0 <= win.ec && win.sp <= q.1 <= win.ep
  }

  // Pixels, no more than the window takes, go to its positions in reading order, and
  // nothing else is touched.
  lemma FillWindow<T>(win: Window, m: map<(int, int), T>, px: seq<T>, q: (int, int))
    requires win.sc <= win.ec && win.sp <= win.ep
    requires |px| <= (win.ep - win.sp + 1) * (win.ec - win.sc + 1)
    ensures
      var w, r := win.ec - win.sc + 1, WritePixels(win, m, win.sc, win.sp, px);
      var k := (q.1 - win.sp) * w + (q.0 - win.sc);
      if InWindow(win, q) && k < |px| then q in r && k >= 0 && r[q] == px[k]
      else (q in r <==> q in m) && (q in m ==> r[q] == m[q])
  {
    FilledAt(win, win.ec - win.sc + 1, win.ep - win.sp + 1, 0, 0, px, m, q);
  }

  // However many pixels are written, only positions of the window are touched.
  lemma {:induction false} OnlyWindow<T>(win: Window, m: map<(int, int), T>, x: int, y: int, px: seq<T>, q: (int, int))
    requires InWindow(win, (x, y)) && !InWindow(win, q)
    ensures
      var r := WritePixels(win, m, x, y, px);
      (q in r <==> q in m) && (q in m ==> r[q] == m[q])
    decreases |px|
  {
    if px != [] {
      var m' := m[(x, y) := px[0]];
      if x < win.ec {
        OnlyWindow(win, m', x + 1, y, px[1..], q);
      } else if y < win.ep {
        OnlyWindow(win, m', win.sc, y + 1, px[1..], q);
      } else {
        OnlyWindow(win, m', win.sc, win.sp, px[1..], q);
      }
    }
  }
}
