// The panel's frame memory against the framebuffers over whole runs: which pixels are
// known to agree, after any sequence of drawing and pipeline events, over a given link.
module Mirror {
  import opened Base
  import opened Bytes
  import opened Wire
  import opened Clips
  import opened Panel
  import opened Flush
  import opened FbList
  import opened Pipeline
  import opened Delivery

  type Positions = iset<(int, int)>

  // The pipeline with memory, panel, whether the receiver was left inside a frame and, for
  // each listed framebuffer, the positions at which the panel may differ from it.
  datatype World = World(s: State, mem: Ptr, panel: Panel, midFrame: bool, stale: seq<Positions>)

  // What happens: the application draws, or the driver handles an event. A reset, a power
  // cycle or words out of frame leave the panel in some state of its own. resync tells
  // whether the receiver has returned to the start of a frame before the event.
  datatype Happening = Draw(mem: Ptr) | Handle(event: Event, panel: Panel, resync: bool)

  ghost function AllOf(fb: Fb): Positions
  {
    iset q: (int, int) | 0 <= q.0 < fb.width && 0 <= q.1 < fb.height
  }

  ghost function RefreshedBy(c: Clip, n: nat): Positions
  {
    iset q: (int, int) | Refreshed(c, n, q)
  }

  // The positions of a framebuffer whose pixel a change of memory alters.
  ghost function Altered(fb: Fb, before: Ptr, after: Ptr): Positions
  {
    iset q: (int, int) | 0 <= q.0 < fb.width && 0 <= q.1 < fb.height
                         && FbPixel(before, fb, q.0, q.1) != FbPixel(after, fb, q.0, q.1)
  }

  // The panel shows a framebuffer, as the link presents it, wherever it is not stale.
  ghost predicate Agrees(l: Link, panel: Panel, mem: Ptr, fb: Fb, stale: Positions)
  {
    forall q :: q in AllOf(fb) && q !in stale ==> Mirrors(l, panel, mem, fb, q)
  }

  ghost predicate MirrorInv(l: Link, w: World)
  {
    && |w.stale| == |w.s.fbs|
    && forall k :: 0 <= k < |w.s.fbs| ==> Agrees(l, w.panel, w.mem, w.s.fbs[k], w.stale[k])
  }

  ghost function Everything(fbs: seq<Fb>): (r: seq<Positions>)
    ensures |r| == |fbs|
  {
    seq(|fbs|, k requires 0 <= k < |fbs| => AllOf(fbs[k]))
  }

  // What a flush does to the stale sets. Without a whole pixel nothing changes. Pixels that
  // arrive in a window that is right for the clip refresh their positions for the flushed
  // framebuffer and spoil them for the others. After anything else nothing is known.
  ghost function StaleAfterFlush(l: Link, w: World, k: nat, c: Clip, io: DirtyIo): (r: seq<Positions>)
    requires k < |w.s.fbs| == |w.stale|
    ensures |r| == |w.stale|
  {
    var fb := w.s.fbs[k];
    var n := |PixelsGot(l, w.mem, fb, c, io)|;
    if n < 2 then w.stale
    else if WindowSet(io) && Exact(fb, c) then
      seq(|w.stale|, i requires 0 <= i < |w.stale| =>
        if i == k then w.stale[i] - RefreshedBy(c, n) else w.stale[i] + RefreshedBy(c, n))
    else Everything(w.s.fbs)
  }

  // A flush whose pixel write leaves the receiver inside a frame.
  predicate LeavesFrame(l: Link, mem: Ptr, fb: Fb, c: Clip, io: DirtyIo)
  {
    PixelsSent(fb, io) && Overruns(l, PixelCall(mem, fb, c))
  }

  // Whether an event may leave the panel in a state of its own.
  predicate Disturbs(cfg: Config, s: State, e: Event)
  {
    && ((e.PipeEnable? && !s.prepared && (cfg.regulator ==> e.enableIo.supplyOk))
        || (e.PipeDisable? && s.prepared && cfg.regulator))
  }

  // Whether the driver says something to the panel.
  predicate Says(cfg: Config, s: State, e: Event)
  {
    match e
    case PipeEnable(io) => EnableCommands(cfg, s, io) != []
    case PipeDisable => DisableCommands(cfg, s) != []
    case FbDirty(id, _, _, _, _) => Target(s, id).Some?
    case _ => false
  }

  // The panel can be in any state afterwards: the event disturbs it, or it hears something
  // out of frame or over the 9-bit branch.
  predicate Upsets(cfg: Config, l: Link, s: State, e: Event, midFrame: bool)
  {
    Disturbs(cfg, s, e) || (Says(cfg, s, e) && (midFrame || !Emulated(l)))
  }

  ghost function NextWorld(cfg: Config, l: Link, w: World, h: Happening): World
    requires |w.stale| == |w.s.fbs|
    requires h.Handle? ==> WellFormed(h.event)
  {
    match h
    case Draw(mem) =>
      w.(mem := mem,
         stale := seq(|w.stale|, k requires 0 <= k < |w.stale| => w.stale[k] + Altered(w.s.fbs[k], w.mem, mem)))
    case Handle(e, panel, resync) =>
      var s', mid := Step(cfg, w.s, e), w.midFrame && !resync;
      if Upsets(cfg, l, w.s, e, mid) then World(s', w.mem, panel, mid, Everything(s'.fbs))
      else
        match e
        case FbCreate(fb, ok) =>
          w.(s := s', midFrame := mid, stale := if ok then [AllOf(fb)] + w.stale else w.stale)
        case FbDestroy(id) =>
          var k := FirstIndex(w.s.fbs, id);
          w.(s := s', midFrame := mid, stale := if k == |w.s.fbs| then w.stale else Dropped(w.stale, k))
        case FbDirty(id, _, _, _, io) =>
          var t := Target(w.s, id);
          if t.None? then w.(s := s', midFrame := mid)
          else
            var c := DirtyClip(w.s, t.value, e);
            World(s', w.mem, ExecuteAll(w.panel, Delivered(l, w.mem, t.value, c, io)),
                  mid || LeavesFrame(l, w.mem, t.value, c, io),
                  StaleAfterFlush(l, w, FirstIndex(w.s.fbs, id), c, io))
        case PipeDisable => World(s', w.mem, Panel(panel.win, w.panel.mem), mid, w.stale)
        case _ => w.(s := s', midFrame := mid)
  }

  // ---- One step ----

  lemma DrawKeeps(l: Link, panel: Panel, before: Ptr, after: Ptr, fb: Fb, stale: Positions)
    requires Agrees(l, panel, before, fb, stale)
    ensures Agrees(l, panel, after, fb, stale + Altered(fb, before, after))
  {
    hide FbPixel, Seen;
    forall q | q in AllOf(fb) && q !in stale + Altered(fb, before, after)
      ensures Mirrors(l, panel, after, fb, q)
    {
      assert Mirrors(l, panel, before, fb, q);
    }
  }

  lemma NothingKnown(l: Link, panel: Panel, mem: Ptr, fb: Fb)
    ensures Agrees(l, panel, mem, fb, AllOf(fb))
  {
  }

  // What agreed before a flush agrees after it, outside the refreshed positions.
  lemma FlushSpoils(l: Link, panel: Panel, mem: Ptr, fb: Fb, c: Clip, io: DirtyIo, other: Fb, stale: Positions)
    requires WindowSet(io) && Exact(fb, c) && Agrees(l, panel, mem, other, stale)
    ensures
      var n := |PixelsGot(l, mem, fb, c, io)|;
      Agrees(l, ExecuteAll(panel, Delivered(l, mem, fb, c, io)), mem, other, stale + RefreshedBy(c, n))
  {
    hide FbPixel, Seen, ExecuteAll, Delivered, PixelsGot, Exact, WindowSet, Refreshed;
    var panel' := ExecuteAll(panel, Delivered(l, mem, fb, c, io));
    forall q | q in AllOf(other) && q !in stale + RefreshedBy(c, |PixelsGot(l, mem, fb, c, io)|)
      ensures Mirrors(l, panel', mem, other, q)
    {
      DeliveryMirrors(l, mem, fb, c, io, panel, q.0, q.1);
      assert Mirrors(l, panel, mem, other, q);
    }
  }

  // The flushed framebuffer agrees at the refreshed positions as well.
  lemma FlushRefreshes(l: Link, panel: Panel, mem: Ptr, fb: Fb, c: Clip, io: DirtyIo, stale: Positions)
    requires WindowSet(io) && Exact(fb, c) && Agrees(l, panel, mem, fb, stale)
    ensures
      var n := |PixelsGot(l, mem, fb, c, io)|;
      Agrees(l, ExecuteAll(panel, Delivered(l, mem, fb, c, io)), mem, fb, stale - RefreshedBy(c, n))
  {
    hide FbPixel, Seen, ExecuteAll, Delivered, PixelsGot, Exact, WindowSet, Refreshed, Mirrors;
    var n := |PixelsGot(l, mem, fb, c, io)|;
    var panel' := ExecuteAll(panel, Delivered(l, mem, fb, c, io));
    FlushSpoils(l, panel, mem, fb, c, io, fb, stale);
    forall q | q in AllOf(fb) && q !in stale - RefreshedBy(c, n)
      ensures Mirrors(l, panel', mem, fb, q)
    {
      DeliveryMirrors(l, mem, fb, c, io, panel, q.0, q.1);
    }
  }

  lemma SameMemory(l: Link, panel: Panel, panel': Panel, mem: Ptr, fb: Fb, stale: Positions)
    requires panel'.mem == panel.mem && Agrees(l, panel, mem, fb, stale)
    ensures Agrees(l, panel', mem, fb, stale)
  {
    hide FbPixel, Seen;
    forall q | q in AllOf(fb) && q !in stale
      ensures Mirrors(l, panel', mem, fb, q)
    {
      assert Mirrors(l, panel, mem, fb, q);
    }
  }

  // The stale sets are right after every flush, complete, cut short or gone astray.
  lemma FlushKeeps(l: Link, w: World, k: nat, c: Clip, io: DirtyIo)
    requires MirrorInv(l, w) && k < |w.s.fbs|
    ensures
      var fb := w.s.fbs[k];
      var panel', stale' := ExecuteAll(w.panel, Delivered(l, w.mem, fb, c, io)), StaleAfterFlush(l, w, k, c, io);
      forall i :: 0 <= i < |w.s.fbs| ==> Agrees(l, panel', w.mem, w.s.fbs[i], stale'[i])
  {
    hide Agrees, ExecuteAll, Delivered, PixelsGot, Exact, WindowSet, RefreshedBy;
    var fb := w.s.fbs[k];
    var panel', stale' := ExecuteAll(w.panel, Delivered(l, w.mem, fb, c, io)), StaleAfterFlush(l, w, k, c, io);
    forall i | 0 <= i < |w.s.fbs|
      ensures Agrees(l, panel', w.mem, w.s.fbs[i], stale'[i])
    {
      assert Agrees(l, w.panel, w.mem, w.s.fbs[i], w.stale[i]);
      if |PixelsGot(l, w.mem, fb, c, io)| < 2 {
        NoPixelNoChange(l, w.mem, fb, c, io, w.panel);
        SameMemory(l, w.panel, panel', w.mem, w.s.fbs[i], w.stale[i]);
      } else if WindowSet(io) && Exact(fb, c) {
        if i == k {
          FlushRefreshes(l, w.panel, w.mem, fb, c, io, w.stale[i]);
        } else {
          FlushSpoils(l, w.panel, w.mem, fb, c, io, w.s.fbs[i], w.stale[i]);
        }
      } else {
        NothingKnown(l, panel', w.mem, w.s.fbs[i]);
      }
    }
  }

  lemma DestroyKeeps(l: Link, w: World, id: nat)
    requires MirrorInv(l, w) && FirstIndex(w.s.fbs, id) < |w.s.fbs|
    ensures
      var k := FirstIndex(w.s.fbs, id);
      var fbs', stale' := Dropped(w.s.fbs, k), Dropped(w.stale, k);
      |fbs'| == |stale'| && forall i :: 0 <= i < |fbs'| ==> Agrees(l, w.panel, w.mem, fbs'[i], stale'[i])
  {
    hide Agrees;
    var k := FirstIndex(w.s.fbs, id);
    forall i | 0 <= i < |Dropped(w.s.fbs, k)|
      ensures Agrees(l, w.panel, w.mem, Dropped(w.s.fbs, k)[i], Dropped(w.stale, k)[i])
    {
      DroppedAt(w.s.fbs, k, i);
      DroppedAt(w.stale, k, i);
    }
  }

  // The mirror invariant is kept by everything that can happen.
  lemma MirrorStep(cfg: Config, l: Link, w: World, h: Happening)
    requires MirrorInv(l, w) && (h.Handle? ==> WellFormed(h.event))
    ensures MirrorInv(l, NextWorld(cfg, l, w, h))
  {
    hide Agrees, ExecuteAll, Delivered, StaleAfterFlush, Dropped, EnableStep, DisableStep;
    hide DirtyClip, PixelsSent, DisplayIsOn, Upsets, LeavesFrame, Step;
    var w' := NextWorld(cfg, l, w, h);
    match h
    case Draw(mem) =>
      forall k | 0 <= k < |w.s.fbs|
        ensures Agrees(l, w.panel, mem, w.s.fbs[k], w'.stale[k])
      {
        DrawKeeps(l, w.panel, w.mem, mem, w.s.fbs[k], w.stale[k]);
      }
    case Handle(e, panel, resync) =>
      StepFbs(cfg, w.s, e);
      if Upsets(cfg, l, w.s, e, w.midFrame && !resync) {
        forall k | 0 <= k < |w'.s.fbs|
          ensures Agrees(l, panel, w.mem, w'.s.fbs[k], w'.stale[k])
        {
          NothingKnown(l, panel, w.mem, w'.s.fbs[k]);
        }
      } else if e.FbCreate? {
        NothingKnown(l, w.panel, w.mem, e.fb);
      } else if e.FbDestroy? {
        if FirstIndex(w.s.fbs, e.destroyId) < |w.s.fbs| {
          DestroyKeeps(l, w, e.destroyId);
        }
      } else if e.FbDirty? {
        if Target(w.s, e.id).Some? {
          FlushKeeps(l, w, FirstIndex(w.s.fbs, e.id), DirtyClip(w.s, Target(w.s, e.id).value, e), e.io);
        }
      } else if e.PipeDisable? {
        forall k | 0 <= k < |w.s.fbs|
          ensures Agrees(l, w'.panel, w.mem, w.s.fbs[k], w.stale[k])
        {
          SameMemory(l, w.panel, w'.panel, w.mem, w.s.fbs[k], w.stale[k]);
        }
      }
  }

  // Only create and destroy change the list.
  lemma StepFbs(cfg: Config, s: State, e: Event)
    requires WellFormed(e)
    ensures Step(cfg, s, e).fbs ==
            if e.FbCreate? && e.ok then [e.fb] + s.fbs
            else if e.FbDestroy? then Destroyed(s.fbs, e.destroyId)
            else s.fbs
  {
    hide Destroyed, DirtyClip, PixelsSent, DisplayIsOn;
  }

  // ---- Whole runs ----

  ghost predicate AllWellFormed(hs: seq<Happening>)
  {
    forall h :: h in hs && h.Handle? ==> WellFormed(h.event)
  }

  ghost function RunWorld(cfg: Config, l: Link, mem: Ptr, panel: Panel, hs: seq<Happening>): (w: World)
    requires AllWellFormed(hs)
    ensures |w.stale| == |w.s.fbs|
    decreases |hs|
  {
    if hs == [] then World(START, mem, panel, false, [])
    else
      var w := RunWorld(cfg, l, mem, panel, hs[..|hs| - 1]);
      NextLength(cfg, l, w, hs[|hs| - 1]);
      NextWorld(cfg, l, w, hs[|hs| - 1])
  }

  lemma NextLength(cfg: Config, l: Link, w: World, h: Happening)
    requires |w.stale| == |w.s.fbs| && (h.Handle? ==> WellFormed(h.event))
    ensures |NextWorld(cfg, l, w, h).stale| == |NextWorld(cfg, l, w, h).s.fbs|
  {
    hide ExecuteAll, Delivered, EnableStep, DisableStep, DirtyClip, PixelsSent, DisplayIsOn, Upsets, LeavesFrame, Step;
    if h.Handle? {
      StepFbs(cfg, w.s, h.event);
    }
  }

  // In every reachable world the panel shows each listed framebuffer outside its stale set.
  lemma {:induction false} MirrorRun(cfg: Config, l: Link, mem: Ptr, panel: Panel, hs: seq<Happening>)
    requires AllWellFormed(hs)
    ensures MirrorInv(l, RunWorld(cfg, l, mem, panel, hs))
    decreases |hs|
  {
    hide NextWorld;
    if hs != [] {
      MirrorRun(cfg, l, mem, panel, hs[..|hs| - 1]);
      MirrorStep(cfg, l, RunWorld(cfg, l, mem, panel, hs[..|hs| - 1]), hs[|hs| - 1]);
    }
  }

  // A dirty event that reaches a framebuffer, is heard in frame, is transferred to the end
  // over a link that carries it, and is exact.
  predicate Refreshes(l: Link, w: World, fb: Fb, e: Event, resync: bool)
  {
    && e.FbDirty? && WellFormed(e)
    && Target(w.s, e.id) == Some(fb)
    && fb.width < 0x10000 && fb.height < 0x10000
    && Emulated(l) && !(w.midFrame && !resync)
    && WindowSet(e.io) && PixelsSent(fb, e.io)
    && var c := DirtyClip(w.s, fb, e); Exact(fb, c) && Carries(l, Length(c))
  }

  // Such an event refreshes its whole rectangle.
  lemma RefreshesAll(l: Link, w: World, fb: Fb, e: Event, resync: bool, mem: Ptr)
    requires Refreshes(l, w, fb, e, resync)
    ensures
      var c := DirtyClip(w.s, fb, e);
      forall q: (int, int) :: Contains(c, q.0, q.1) ==> q in RefreshedBy(c, |PixelsGot(l, mem, fb, c, e.io)|)
  {
    hide Exact, Carries, DirtyClip, PixelsGot, WindowSet, ClipIndex, Length, NumPixels;
    var c := DirtyClip(w.s, fb, e);
    ExactSound(fb, c);
    GotPixels(l, mem, fb, c, e.io);
    SomePixels(fb, c);
    forall q: (int, int) | Contains(c, q.0, q.1)
      ensures q in RefreshedBy(c, |PixelsGot(l, mem, fb, c, e.io)|)
    {
      IndexInClip(c, q.0, q.1);
    }
  }

  lemma ExactSound(fb: Fb, c: Clip)
    requires Exact(fb, c)
    ensures Sound(fb, c)
  {
  }

  // After such an event everything the clips cover is shown; the first one after the
  // pipeline was enabled shows the whole framebuffer.
  lemma DirtyShows(cfg: Config, l: Link, w: World, fb: Fb, e: Event, panel: Panel, resync: bool, q: (int, int))
    requires |w.stale| == |w.s.fbs| && Refreshes(l, w, fb, e, resync) && q in AllOf(fb)
    requires w.s.enabled ==> exists c :: c in Considered(e.clips, e.num, e.copy) && Contains(c, q.0, q.1)
    ensures Mirrors(l, NextWorld(cfg, l, w, Handle(e, panel, resync)).panel, w.mem, fb, q)
    ensures !Exchanged(l) ==> Shows(NextWorld(cfg, l, w, Handle(e, panel, resync)).panel, w.mem, fb, q)
  {
    hide FbPixel, ExecuteAll, Exact, Considered, Merged, Delivered, PixelsGot, Carries, WindowSet, Refreshed;
    hide Step, StaleAfterFlush, Mirrors, Shows, Exchanged, LeavesFrame;
    var c := DirtyClip(w.s, fb, e);
    RefreshCovers(l, w, fb, e, resync, q);
    RefreshesAll(l, w, fb, e, resync, w.mem);
    DeliveryMirrors(l, w.mem, fb, c, e.io, w.panel, q.0, q.1);
    if !Exchanged(l) {
      MirrorsShows(l, NextWorld(cfg, l, w, Handle(e, panel, resync)).panel, w.mem, fb, q);
    }
  }

  lemma RefreshCovers(l: Link, w: World, fb: Fb, e: Event, resync: bool, q: (int, int))
    requires Refreshes(l, w, fb, e, resync) && q in AllOf(fb)
    requires w.s.enabled ==> exists c :: c in Considered(e.clips, e.num, e.copy) && Contains(c, q.0, q.1)
    ensures Contains(DirtyClip(w.s, fb, e), q.0, q.1)
  {
    hide Considered, Exact, Box;
    if w.s.enabled {
      var cs := Considered(e.clips, e.num, e.copy);
      var c :| c in cs && Contains(c, q.0, q.1);
      MergeCovers(cs, fb.width, fb.height, c, q.0, q.1);
    }
  }

  // A frame: the application changes memory, then reports what it changed.
  datatype Frame = Frame(mem: Ptr, dirty: Event, resync: bool)

  // Every pixel the drawing alters is reported, and the report is refreshed from.
  ghost predicate GoodFrame(l: Link, w: World, fb: Fb, f: Frame)
  {
    && w.s.enabled
    && Refreshes(l, w, fb, f.dirty, f.resync)
    && forall q :: q in Altered(fb, w.mem, f.mem) ==>
         exists c :: c in Considered(f.dirty.clips, f.dirty.num, f.dirty.copy) && Contains(c, q.0, q.1)
  }

  ghost function AfterFrame(cfg: Config, l: Link, w: World, f: Frame): World
    requires |w.stale| == |w.s.fbs| && WellFormed(f.dirty)
  {
    NextLength(cfg, l, w, Draw(f.mem));
    NextWorld(cfg, l, NextWorld(cfg, l, w, Draw(f.mem)), Handle(f.dirty, w.panel, f.resync))
  }

  // If the panel shows the whole framebuffer, it does so after a good frame.
  lemma FrameShows(cfg: Config, l: Link, w: World, fb: Fb, f: Frame)
    requires |w.stale| == |w.s.fbs| && GoodFrame(l, w, fb, f)
    requires Agrees(l, w.panel, w.mem, fb, iset{})
    ensures var w' := AfterFrame(cfg, l, w, f); Agrees(l, w'.panel, w'.mem, fb, iset{})
    ensures AfterFrame(cfg, l, w, f).s == w.s.(planeFb := Some(f.dirty.id))
  {
    hide FbPixel, ExecuteAll, Exact, Considered, Merged, Agrees, Delivered, PixelsGot, Carries, WindowSet, Refreshed;
    hide StaleAfterFlush, LeavesFrame;
    var e := f.dirty;
    NextLength(cfg, l, w, Draw(f.mem));
    var drawn := NextWorld(cfg, l, w, Draw(f.mem));
    var c := DirtyClip(w.s, fb, e);
    var altered := Altered(fb, w.mem, f.mem);
    DrawKeeps(l, w.panel, w.mem, f.mem, fb, iset{});
    assert iset{} + altered == altered;
    FlushRefreshes(l, w.panel, f.mem, fb, c, e.io, altered);
    RefreshesAll(l, w, fb, e, f.resync, f.mem);
    var n := |PixelsGot(l, f.mem, fb, c, e.io)|;
    forall q | q in altered
      ensures q in RefreshedBy(c, n)
    {
      RefreshCovers(l, w, fb, e, f.resync, q);
    }
    assert altered - RefreshedBy(c, n) == iset{};
  }

  ghost predicate GoodFrames(cfg: Config, l: Link, w: World, fb: Fb, fs: seq<Frame>)
    requires |w.stale| == |w.s.fbs|
    decreases |fs|
  {
    fs == [] ||
    (GoodFrame(l, w, fb, fs[0]) &&
     (AfterLength(cfg, l, w, fs[0]); GoodFrames(cfg, l, AfterFrame(cfg, l, w, fs[0]), fb, fs[1..])))
  }

  lemma AfterLength(cfg: Config, l: Link, w: World, f: Frame)
    requires |w.stale| == |w.s.fbs| && WellFormed(f.dirty)
    ensures |AfterFrame(cfg, l, w, f).stale| == |AfterFrame(cfg, l, w, f).s.fbs|
  {
    hide NextWorld;
    NextLength(cfg, l, w, Draw(f.mem));
    NextLength(cfg, l, NextWorld(cfg, l, w, Draw(f.mem)), Handle(f.dirty, w.panel, f.resync));
  }

  ghost function AfterFrames(cfg: Config, l: Link, w: World, fb: Fb, fs: seq<Frame>): World
    requires |w.stale| == |w.s.fbs| && GoodFrames(cfg, l, w, fb, fs)
    decreases |fs|
  {
    if fs == [] then w
    else
      AfterLength(cfg, l, w, fs[0]);
      AfterFrames(cfg, l, AfterFrame(cfg, l, w, fs[0]), fb, fs[1..])
  }

  // Any number of good frames later, the panel still shows the framebuffer as it is.
  lemma {:induction false} FramesShow(cfg: Config, l: Link, w: World, fb: Fb, fs: seq<Frame>)
    requires |w.stale| == |w.s.fbs| && GoodFrames(cfg, l, w, fb, fs)
    requires Agrees(l, w.panel, w.mem, fb, iset{})
    ensures var w' := AfterFrames(cfg, l, w, fb, fs); Agrees(l, w'.panel, w'.mem, fb, iset{})
    decreases |fs|
  {
    hide AfterFrame, Agrees, GoodFrame;
    if fs != [] {
      assert WellFormed(fs[0].dirty) by { FrameWellFormed(l, w, fb, fs[0]); }
      AfterLength(cfg, l, w, fs[0]);
      FrameShows(cfg, l, w, fb, fs[0]);
      FramesShow(cfg, l, AfterFrame(cfg, l, w, fs[0]), fb, fs[1..]);
    }
  }

  lemma FrameWellFormed(l: Link, w: World, fb: Fb, f: Frame)
    requires GoodFrame(l, w, fb, f)
    ensures WellFormed(f.dirty)
  {
  }

  // The first refreshing event after enabling makes the panel show the framebuffer.
  lemma FirstFlushShows(cfg: Config, l: Link, w: World, fb: Fb, e: Event, panel: Panel, resync: bool)
    requires |w.stale| == |w.s.fbs| && Refreshes(l, w, fb, e, resync) && !w.s.enabled
    ensures
      var w' := NextWorld(cfg, l, w, Handle(e, panel, resync));
      w'.s.enabled && Agrees(l, w'.panel, w'.mem, fb, iset{})
  {
    hide FbPixel, ExecuteAll, Delivered, Exact, Considered, Merged, StaleAfterFlush, Carries, WindowSet, Mirrors;
    hide LeavesFrame;
    var w' := NextWorld(cfg, l, w, Handle(e, panel, resync));
    forall q | q in AllOf(fb) && q !in iset{}
      ensures Mirrors(l, w'.panel, w'.mem, fb, q)
    {
      DirtyShows(cfg, l, w, fb, e, panel, resync, q);
    }
  }

  // ---- The light can come on over a wrong picture ----

  // Enable, create, and a flush whose column command fails.
  function UnsetRun(fb: Fb): seq<Happening>
  {
    var panel := Beside(Clips.Full(fb.width, fb.height));
    [Handle(PipeEnable(EnableIo(true, None, true)), panel, true),
     Handle(FbCreate(fb, true), panel, true),
     Handle(FbDirty(fb.id, false, [], 0, DirtyIo(Nothing, All, true, All)), panel, true)]
  }

  // The pipeline counts as enabled and the backlight is on, but the framebuffer's first
  // pixel was never written.
  lemma LightOverNothing(cfg: Config, l: Link, mem: Ptr, panel: Panel, fb: Fb)
    requires cfg.backlight && Emulated(l) && fb.format != OtherFormat
    requires 0 < fb.width < 0x10000 && 0 < fb.height < 0x10000
    ensures AllWellFormed(UnsetRun(fb))
    ensures
      var w := RunWorld(cfg, l, mem, panel, UnsetRun(fb));
      w.s.enabled && w.s.light && w.s.fbs == [fb] && !Shows(w.panel, mem, fb, (0, 0))
  {
    var hs := UnsetRun(fb);
    UnsetWellFormed(fb);
    assert hs[..1][..0] == [] && hs[..2][..1] == hs[..1] && hs[..3] == hs && hs[..3][..2] == hs[..2];
    var w0 := RunWorld(cfg, l, mem, panel, []);
    var w1, w2 := RunWorld(cfg, l, mem, panel, hs[..1]), RunWorld(cfg, l, mem, panel, hs[..2]);
    UnsetEnable(cfg, l, w0, fb);
    UnsetCreate(cfg, l, w1, fb);
    UnsetDirty(cfg, l, w2, fb);
  }

  lemma UnsetWellFormed(fb: Fb)
    ensures AllWellFormed(UnsetRun(fb))
    ensures AllWellFormed(UnsetRun(fb)[..1]) && AllWellFormed(UnsetRun(fb)[..2])
  {
  }

  // The state in between: prepared, not enabled, nothing on the panel.
  ghost predicate Waiting(w: World, fbs: seq<Fb>, c: Clip)
  {
    w.s.prepared && !w.s.enabled && w.s.fbs == fbs && |w.stale| == |fbs| && w.panel == Beside(c)
  }

  lemma UnsetEnable(cfg: Config, l: Link, w: World, fb: Fb)
    requires w.s == START && w.stale == []
    ensures
      var w' := NextWorld(cfg, l, w, UnsetRun(fb)[0]);
      Waiting(w', [], Clips.Full(fb.width, fb.height)) && w'.mem == w.mem
  {
    hide EnableCommands, Emulated;
  }

  lemma UnsetCreate(cfg: Config, l: Link, w: World, fb: Fb)
    requires Waiting(w, [], Clips.Full(fb.width, fb.height))
    ensures
      var w' := NextWorld(cfg, l, w, UnsetRun(fb)[1]);
      Waiting(w', [fb], Clips.Full(fb.width, fb.height)) && w'.mem == w.mem
  {
    hide Emulated;
  }

  lemma UnsetDirty(cfg: Config, l: Link, w: World, fb: Fb)
    requires Waiting(w, [fb], Clips.Full(fb.width, fb.height)) && WellFormed(UnsetRun(fb)[2].event)
    requires cfg.backlight && Emulated(l) && fb.format != OtherFormat
    requires 0 < fb.width < 0x10000 && 0 < fb.height < 0x10000
    ensures
      var w' := NextWorld(cfg, l, w, UnsetRun(fb)[2]);
      w'.s.enabled && w'.s.light && w'.s.fbs == [fb] && !Shows(w'.panel, w.mem, fb, (0, 0)) && w'.mem == w.mem
  {
    hide ExecuteAll, Delivered, StaleAfterFlush, LeavesFrame, FbPixel, Emulated, WindowSet, Beside;
    var e := UnsetRun(fb)[2].event;
    var c := Clips.Full(fb.width, fb.height);
    assert DirtyClip(w.s, fb, e) == c;
    NotSet(e.io);
    WindowUnset(l, w.mem, fb, c, e.io);
  }

  lemma NotSet(io: DirtyIo)
    requires io.column.Nothing?
    ensures !WindowSet(io)
  {
  }
}
