// From the dirty rectangle over the wire to the frame memory: what the panel makes of
// the bits of a flush, over either serial interface.
module EndToEnd {
  import opened Bytes
  import opened Transport
  import opened Clips
  import opened Panel
  import opened Flush
  import opened Delivery
  import Option1Decode
  import Option3
  import Regmap

  // The register writes of a flush (mipi-dbi.c:594-602).
  function FlushCalls(c: Clip, call: Call): seq<Call>
  {
    [Call(SET_COLUMN_ADDRESS, Regmap.PtrTo(WindowParams(c.x1, c.x2)), 4),
     Call(SET_PAGE_ADDRESS, Regmap.PtrTo(WindowParams(c.y1, c.y2)), 4),
     call]
  }

  lemma AddressParams(reg: byte, first: nat, last: nat)
    requires reg != RAM
    ensures Params(Call(reg, Regmap.PtrTo(WindowParams(first, last)), 4)) == WindowParams(first, last)
  {
    hide AddressByte;
    var s := WindowParams(first, last);
    Regmap.LoadPtrTo(s, 4);
    assert s[..4] == s;
  }

  lemma FourCovered(maxDma: nat, reg: byte, val: Ptr)
    requires Usable1(maxDma) && reg != RAM
    ensures CallCovered(maxDma, Call(reg, val, 4))
  {
    Chunk1Positive(maxDma);
    Option1Decode.CoveredIs(4, Chunk1(maxDma));
  }

  // The writes mean the three commands.
  lemma CallsMean(c: Clip, call: Call)
    requires call.reg == RAM
    ensures Commands(FlushCalls(c, call)) == FlushCommands(c, Params(call))
  {
    hide Params, WindowParams, Regmap.PtrTo;
    AddressParams(SET_COLUMN_ADDRESS, c.x1, c.x2);
    AddressParams(SET_PAGE_ADDRESS, c.y1, c.y2);
  }

  // What arrives over either interface.
  lemma FlushArrives(maxDma: nat, mask: bv32, c: Clip, call: Call)
    requires Usable1(maxDma) && CallCovered(maxDma, call) && call.reg == RAM
    requires !Option3.BpwSupported(mask, 16)
    ensures Parse(Strip(Receive(AllWire1(maxDma, FlushCalls(c, call))))) == FlushCommands(c, Params(call))
    ensures Parse(AllWords3(mask, FlushCalls(c, call))) == FlushCommands(c, Params(call))
  {
    hide CallCovered, Usable1, Option3.BpwSupported, Parse, Strip, Receive, AllWire1, AllWords3, WindowParams, Regmap.PtrTo;
    var cs := FlushCalls(c, call);
    FourCovered(maxDma, SET_COLUMN_ADDRESS, cs[0].val);
    FourCovered(maxDma, SET_PAGE_ADDRESS, cs[1].val);
    CallsMean(c, call);
    CommandsArrive(maxDma, mask, cs);
  }

  // The panel that decodes the bits of an exact flush shows the framebuffer inside the
  // clip and is unchanged outside it, whichever interface carried them.
  lemma WireMirrors(maxDma: nat, mask: bv32, mem: Ptr, fb: Fb, c: Clip, call: Call, p: Panel, x: nat, y: nat)
    requires Usable1(maxDma) && !Option3.BpwSupported(mask, 16)
    requires Exact(fb, c)
    requires call.reg == RAM && call.len == Length(c) && Holds(call.val, FlushPixels(mem, fb, c))
    requires CallCovered(maxDma, call)
    ensures
      var p1 := ExecuteAll(p, Parse(Strip(Receive(AllWire1(maxDma, FlushCalls(c, call))))));
      var p3 := ExecuteAll(p, Parse(AllWords3(mask, FlushCalls(c, call))));
      && p1 == p3
      && (if Contains(c, x, y) then (x, y) in p1.mem && p1.mem[(x, y)] == FbPixel(mem, fb, x, y)
          else ((x, y) in p1.mem <==> (x, y) in p.mem) && ((x, y) in p.mem ==> p1.mem[(x, y)] == p.mem[(x, y)]))
  {
    hide CallCovered, Usable1, Option3.BpwSupported, Parse, Strip, Receive, AllWire1, AllWords3, FlushCalls;
    hide Contiguous, Placing, FlushPixels, Holds, Params, ExecuteAll, FlushCommands, FbPixel, ClipIndex;
    hide Length, NumPixels, Pixels;
    FlushArrives(maxDma, mask, c, call);
    SomePixels(fb, c);
    PixelsArrive(call, FlushPixels(mem, fb, c));
    FlushMirrors(mem, fb, c, Params(call), p, x, y);
    if Contains(c, x, y) {
      IndexInClip(c, x, y);
    }
  }

  // Which clips the Option 1 encoder carries exactly, by their number of pixels: all
  // whose pixels fill whole blocks of four, and those with one pixel over in a chunk of
  // their own.
  lemma ClipCovered(maxDma: nat, c: Clip, call: Call, n: nat)
    requires Usable1(maxDma) && call.reg == RAM && call.len == 2 * n && n > 0
    ensures Chunk1(maxDma) > 0
    ensures
      CallCovered(maxDma, call) <==>
      n % 4 == 0 || (n % 4 == 1 && (2 * n <= Chunk1(maxDma) || 2 * n % Chunk1(maxDma) < 8))
  {
    Chunk1Positive(maxDma);
    var m := Chunk1(maxDma);
    Option1Decode.CoveredIs(2 * n, m);
    Quarters(n);
  }

  lemma Quarters(n: nat)
    ensures 2 * n % 8 == 0 <==> n % 4 == 0
    ensures 2 * n % 8 == 2 <==> n % 4 == 1
  {
    var q, r := n / 4, n % 4;
    assert 2 * n == 8 * q + 2 * r;
  }
}
