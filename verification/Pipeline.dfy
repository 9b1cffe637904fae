// The display pipeline as a state machine (mi0283qt.c:74-181, mipi-dbi.c:568-708,
// 799-815, tinydrm-core.c:145-160, utinydrm.c:316-397). What the hardware answers is
// part of each event.
module Pipeline {
  import opened Base
  import opened Bytes
  import opened Clips
  import opened Flush
  import opened FbList
  import opened Transport
  import opened Panel
  import opened Wire

  // What probe found: a backlight pin, a regulator, a panel that can be read, the rotation.
  datatype Config = Config(backlight: bool, regulator: bool, readable: bool, rotation: nat)

  datatype State = State(
    prepared: bool,
    enabled: bool,
    light: bool,          // the backlight pin
    supply: int,          // enable count of the regulator
    fbs: seq<Fb>,
    planeFb: Option<nat>) // the framebuffer of the plane, by id

  // The answers of the hardware while the pipeline is enabled: the regulator, the power
  // mode register (if it can be read) and the soft reset command.
  datatype EnableIo = EnableIo(supplyOk: bool, powerMode: Option<byte>, resetOk: bool)

  // What becomes of the three register writes of a flush, and the pixel buffer's kmalloc.
  datatype DirtyIo = DirtyIo(column: Reach, page: Reach, allocOk: bool, pixels: Reach)

  datatype Event =
    | PipeEnable(enableIo: EnableIo)
    | PipeDisable
    | FbCreate(fb: Fb, ok: bool)
    | FbDestroy(destroyId: nat)
    | FbDirty(id: nat, copy: bool, clips: seq<Clip>, num: nat, io: DirtyIo)
    | UnknownEvent

  predicate WellFormed(e: Event)
  {
    e.FbDirty? ==> ReadCount(e.num, e.copy) <= |e.clips|
  }

  // mipi_dbi_display_is_on: display, normal mode and sleep-out bits, reserved bits masked.
  function DisplayIsOn(powerMode: Option<byte>): bool
  {
    powerMode.Some? && powerMode.value & 0x7C == 0x1C
  }

  function EnableStep(cfg: Config, s: State, io: EnableIo): State
  {
    if s.prepared then s
    else if cfg.regulator && !io.supplyOk then s
    else
      var s1 := if cfg.regulator then s.(supply := s.supply + 1) else s;
      if DisplayIsOn(io.powerMode) then s1.(prepared := true)
      else if !io.resetOk then s1
      else s1.(prepared := true)
  }

  function DisableStep(cfg: Config, s: State): State
  {
    var s1 := s.(light := if s.enabled && cfg.backlight then false else s.light, enabled := false);
    if !s1.prepared then s1
    else
      s1.(supply := if cfg.regulator then s1.supply - 1 else s1.supply,
          prepared := !cfg.backlight && !cfg.regulator)
  }

  // The rectangle a dirty event flushes: until enabled, the clips are dropped.
  function DirtyClip(s: State, fb: Fb, e: Event): Clip
    requires e.FbDirty? && WellFormed(e)
  {
    Merged(if s.enabled then Considered(e.clips, e.num, e.copy) else [], fb.width, fb.height)
  }

  // Whether a flush comes to the pixel write.
  predicate Attempted(fb: Fb, io: DirtyIo)
  {
    fb.format == RGB565 || (fb.format == XRGB8888 && io.allocOk)
  }

  // Whether the pixel write succeeds: only its result decides about the flush.
  predicate PixelsSent(fb: Fb, io: DirtyIo)
  {
    Attempted(fb, io) && io.pixels.All?
  }

  // The framebuffer a dirty event reaches, if it is listed and the panel is prepared.
  function Target(s: State, id: nat): Option<Fb>
  {
    var k := FirstIndex(s.fbs, id);
    if k < |s.fbs| && s.prepared then Some(s.fbs[k]) else None
  }

  function DirtyStep(cfg: Config, s: State, e: Event): State
    requires e.FbDirty? && WellFormed(e)
  {
    if FirstIndex(s.fbs, e.id) == |s.fbs| then s
    else
      var s1 := s.(planeFb := Some(e.id));
      var t := Target(s, e.id);
      if t.None? || !PixelsSent(t.value, e.io) || s.enabled then s1
      else s1.(light := cfg.backlight || s.light, enabled := true)
  }

  function Step(cfg: Config, s: State, e: Event): State
    requires WellFormed(e)
  {
    match e
    case PipeEnable(io) => EnableStep(cfg, s, io)
    case PipeDisable => DisableStep(cfg, s)
    case FbCreate(fb, ok) => if ok then s.(fbs := [fb] + s.fbs) else s
    case FbDestroy(id) => s.(fbs := Destroyed(s.fbs, id))
    case FbDirty(_, _, _, _, _) => DirtyStep(cfg, s, e)
    case UnknownEvent => s
  }

  // ---- The commands beside the flushes ----

  const SOFT_RESET: byte := 0x01
  const GET_POWER_MODE: byte := 0x0A
  const ENTER_SLEEP_MODE: byte := 0x10
  const EXIT_SLEEP_MODE: byte := 0x11
  const SET_GAMMA_CURVE: byte := 0x26
  const SET_DISPLAY_OFF: byte := 0x28
  const SET_DISPLAY_ON: byte := 0x29
  const SET_ADDRESS_MODE: byte := 0x36
  const SET_PIXEL_FORMAT: byte := 0x3A

  // The bits MV, MY, MX and BGR for a rotation.
  function AddressMode(rotation: nat): byte
  {
    (if rotation == 90 then 0x80 else if rotation == 180 then 0x20 else if rotation == 270 then 0x40 else 0xE0) | 0x08
  }

  // The initialisation of the controller: power and timing.
  function PowerCommands(): seq<Command>
  {
    [Command(SET_DISPLAY_OFF, []),
     Command(0xcf, [0x00, 0x83, 0x30]),
     Command(0xed, [0x64, 0x03, 0x12, 0x81]),
     Command(0xe8, [0x85, 0x01, 0x79]),
     Command(0xcb, [0x39, 0x2c, 0x00, 0x34, 0x02]),
     Command(0xf7, [0x20]),
     Command(0xea, [0x00, 0x00]),
     Command(0xc0, [0x26]),
     Command(0xc1, [0x11]),
     Command(0xc5, [0x35, 0x3e]),
     Command(0xc7, [0xbe])]
  }

  // Orientation and gamma.
  function PictureCommands(rotation: nat): seq<Command>
  {
    [Command(SET_PIXEL_FORMAT, [0x55]),
     Command(SET_ADDRESS_MODE, [AddressMode(rotation)]),
     Command(0xb1, [0x00, 0x1b]),
     Command(0xf2, [0x08]),
     Command(SET_GAMMA_CURVE, [0x01]),
     Command(0xe0, [0x1f, 0x1a, 0x18, 0x0a, 0x0f, 0x06, 0x45, 0x87, 0x32, 0x0a, 0x07, 0x02, 0x07, 0x05, 0x00]),
     Command(0xe1, [0x00, 0x25, 0x27, 0x05, 0x10, 0x09, 0x3a, 0x78, 0x4d, 0x05, 0x18, 0x0d, 0x38, 0x3a, 0x1f]),
     Command(0xb7, [0x07]),
     Command(0xb6, [0x0a, 0x82, 0x27, 0x00]),
     Command(EXIT_SLEEP_MODE, []),
     Command(SET_DISPLAY_ON, [])]
  }

  function InitCommands(rotation: nat): seq<Command>
  {
    PowerCommands() + PictureCommands(rotation)
  }

  function PowerModeCommands(cfg: Config): seq<Command>
  {
    if cfg.readable then [Command(GET_POWER_MODE, [])] else []
  }

  // The soft reset, and the initialisation if it succeeded.
  function ResetCommands(rotation: nat, ok: bool): seq<Command>
  {
    [Command(SOFT_RESET, [])] + if ok then InitCommands(rotation) else []
  }

  function SleepCommands(): seq<Command>
  {
    [Command(SET_DISPLAY_OFF, []), Command(ENTER_SLEEP_MODE, [])]
  }

  // What enabling says to the panel.
  function EnableCommands(cfg: Config, s: State, io: EnableIo): seq<Command>
  {
    if s.prepared || (cfg.regulator && !io.supplyOk) then []
    else
      PowerModeCommands(cfg) +
      if DisplayIsOn(io.powerMode) then [] else ResetCommands(cfg.rotation, io.resetOk)
  }

  // Blanking with the display sizes it reads, which are never set: a window that ends at
  // 255, and no pixels.
  function BlankCommands(): seq<Command>
  {
    [Command(SET_COLUMN_ADDRESS, [0, 0, 0, 0xff]), Command(SET_PAGE_ADDRESS, [0, 0, 0, 0xff]), Command(RAM, [])]
  }

  function DarkCommands(cfg: Config, enabled: bool): seq<Command>
  {
    if enabled && !cfg.backlight && !cfg.regulator then BlankCommands() else []
  }

  // What disabling says to the panel.
  function DisableCommands(cfg: Config, s: State): seq<Command>
  {
    DarkCommands(cfg, s.enabled) +
    if s.prepared && cfg.backlight then SleepCommands() else []
  }

  // A command that leaves the frame memory alone, with few enough parameters for one block
  // or two.
  predicate Harmless(c: Command)
  {
    c.cmd != 0 && |c.params| < 16 && (c.cmd == RAM ==> c.params == [])
  }

  lemma AllHarmless(cfg: Config, s: State, io: EnableIo)
    ensures forall c :: c in EnableCommands(cfg, s, io) ==> Harmless(c)
    ensures forall c :: c in DisableCommands(cfg, s) ==> Harmless(c)
  {
    hide AddressMode, DisplayIsOn;
    InitHarmless(cfg.rotation);
  }

  lemma InitHarmless(rotation: nat)
    ensures forall c :: c in InitCommands(rotation) ==> Harmless(c)
  {
    hide AddressMode;
    PowerHarmless();
    PictureHarmless(rotation);
    hide PowerCommands, PictureCommands;
  }

  lemma PowerHarmless()
    ensures forall c :: c in PowerCommands() ==> Harmless(c)
  {
  }

  lemma PictureHarmless(rotation: nat)
    ensures forall c :: c in PictureCommands(rotation) ==> Harmless(c)
  {
    hide AddressMode;
  }

  // Nothing of what enabling or disabling says reaches the frame memory.
  lemma {:induction false} HarmlessKeeps(p: Panel, cs: seq<Command>, rs: seq<Reach>)
    requires |cs| == |rs| && forall c :: c in cs ==> Harmless(c)
    ensures ExecuteAll(p, ReachedAll(cs, rs)).mem == p.mem
    decreases |cs|
  {
    hide Execute, Harmless;
    if cs != [] {
      var n := |cs| - 1;
      assert cs[n] in cs;
      ReachedHarmless(cs[n], rs[n]);
      HarmlessKeeps(p, cs[..n], rs[..n]);
      var before, last := ReachedAll(cs[..n], rs[..n]), Reached(cs[n], rs[n]);
      if last == [] {
        assert before + last == before;
      } else {
        assert (before + last)[..|before|] == before;
        HarmlessStep(ExecuteAll(p, before), last[0]);
      }
    }
  }

  lemma HandlersKeep(cfg: Config, s: State, io: EnableIo, p: Panel, rs: seq<Reach>, ds: seq<Reach>)
    requires |rs| == |EnableCommands(cfg, s, io)| && |ds| == |DisableCommands(cfg, s)|
    ensures ExecuteAll(p, ReachedAll(EnableCommands(cfg, s, io), rs)).mem == p.mem
    ensures ExecuteAll(p, ReachedAll(DisableCommands(cfg, s), ds)).mem == p.mem
  {
    hide EnableCommands, DisableCommands, Harmless, ReachedAll, ExecuteAll;
    AllHarmless(cfg, s, io);
    HarmlessKeeps(p, EnableCommands(cfg, s, io), rs);
    HarmlessKeeps(p, DisableCommands(cfg, s), ds);
  }

  lemma ReachedHarmless(c: Command, r: Reach)
    requires Harmless(c)
    ensures |Reached(c, r)| <= 1 && forall d :: d in Reached(c, r) ==> d.cmd == RAM ==> d.params == []
  {
  }

  lemma HarmlessStep(p: Panel, c: Command)
    requires c.cmd == RAM ==> c.params == []
    ensures Execute(p, c).mem == p.mem
  {
  }

  // The panel is asked first whether it is on, before it is told anything.
  lemma AskedFirst(cfg: Config, s: State, io: EnableIo)
    requires cfg.readable && EnableCommands(cfg, s, io) != []
    ensures EnableCommands(cfg, s, io)[0] == Command(GET_POWER_MODE, [])
  {
    hide ResetCommands, DisplayIsOn;
  }

  // Blanking is a flush of the empty clip.
  lemma BlankWindow()
    ensures BlankCommands() == FlushCommands(Clip(0, 0, 0, 0), [])
  {
    assert WindowParams(0, 0) == [0, 0, 0, 0xff];
  }

  // A pipeline is blanked on disabling exactly if it was enabled and disabling changes
  // neither the light nor the supply.
  lemma BlankedIfNothingElse(cfg: Config, s: State)
    requires s.enabled ==> s.prepared && s.light == cfg.backlight
    ensures
      var t := DisableStep(cfg, s);
      var nothingElse := t.light == s.light && t.supply == s.supply;
      DarkCommands(cfg, s.enabled) == if s.enabled && nothingElse then BlankCommands() else []
  {
    hide BlankCommands;
  }

  const START := State(false, false, false, 0, [], None)

  // What a run is judged by, beside the state: soft resets that failed, and whether the
  // whole framebuffer has been flushed since the pipeline was last disabled.
  datatype History = History(failedResets: nat, flushed: bool)

  predicate ResetFails(cfg: Config, s: State, e: Event)
  {
    && e.PipeEnable? && !s.prepared
    && (cfg.regulator ==> e.enableIo.supplyOk)
    && !DisplayIsOn(e.enableIo.powerMode) && !e.enableIo.resetOk
  }

  predicate FlushesAll(s: State, e: Event)
    requires WellFormed(e)
  {
    && e.FbDirty?
    && var t := Target(s, e.id);
       && t.Some? && PixelsSent(t.value, e.io)
       && DirtyClip(s, t.value, e) == Full(t.value.width, t.value.height)
  }

  function Record(cfg: Config, s: State, h: History, e: Event): History
    requires WellFormed(e)
  {
    History(if ResetFails(cfg, s, e) then h.failedResets + 1 else h.failedResets,
            if e.PipeDisable? then false else h.flushed || FlushesAll(s, e))
  }

  // A run from the start, with its history.
  function Run(cfg: Config, es: seq<Event>): (r: (State, History))
    requires forall e :: e in es ==> WellFormed(e)
  {
    if es == [] then (START, History(0, false))
    else
      var (s, h) := Run(cfg, es[..|es| - 1]);
      (Step(cfg, s, es[|es| - 1]), Record(cfg, s, h, es[|es| - 1]))
  }

  // What holds after every run:
  // enabled only while prepared; the backlight, where there is one, exactly while enabled;
  // never before a whole flush; and the regulator count is one for a prepared panel plus
  // one for every failed soft reset.
  predicate Invariant(cfg: Config, s: State, h: History)
  {
    && (s.enabled ==> s.prepared)
    && (s.light <==> cfg.backlight && s.enabled)
    && (s.enabled ==> h.flushed)
    && s.supply == (if cfg.regulator then (if s.prepared then 1 else 0) + h.failedResets else 0)
  }

  lemma InvariantStep(cfg: Config, s: State, h: History, e: Event)
    requires WellFormed(e) && Invariant(cfg, s, h)
    ensures Invariant(cfg, Step(cfg, s, e), Record(cfg, s, h, e))
  {
    hide Considered, Box, Destroyed;
  }

  lemma {:induction false} InvariantRun(cfg: Config, es: seq<Event>)
    requires forall e :: e in es ==> WellFormed(e)
    ensures var (s, h) := Run(cfg, es); Invariant(cfg, s, h)
  {
    if es != [] {
      var es', e := es[..|es| - 1], es[|es| - 1];
      InvariantRun(cfg, es');
      InvariantStep(cfg, Run(cfg, es').0, Run(cfg, es').1, e);
    }
  }

  // The backlight is switched on by a whole flush and by nothing else.
  lemma LightNeedsFlush(cfg: Config, s: State, h: History, e: Event)
    requires WellFormed(e) && Invariant(cfg, s, h)
    requires !s.light && Step(cfg, s, e).light
    ensures FlushesAll(s, e)
  {
    hide Considered, Box;
  }

  // On runs without a failed soft reset the regulator is held exactly while prepared.
  lemma SupplyBalanced(cfg: Config, es: seq<Event>)
    requires cfg.regulator && forall e :: e in es ==> WellFormed(e)
    ensures var (s, h) := Run(cfg, es);
            (s.supply == if s.prepared then 1 else 0) <==> h.failedResets == 0
  {
    InvariantRun(cfg, es);
  }

  // Enabling prepares the panel exactly if its supply comes up and it is on already or can
  // be reset; the supply is taken exactly when the panel needs preparing, and nothing is lit.
  lemma EnablePrepares(cfg: Config, s: State, io: EnableIo)
    ensures
      var t := EnableStep(cfg, s, io);
      && (t.prepared <==>
          s.prepared || ((cfg.regulator ==> io.supplyOk) && (DisplayIsOn(io.powerMode) || io.resetOk)))
      && (t.supply == s.supply + 1 <==> cfg.regulator && !s.prepared && io.supplyOk)
      && (t.supply == s.supply || t.supply == s.supply + 1)
      && t == s.(prepared := t.prepared, supply := t.supply)
  {
  }

  // A run that ends with disabling the pipeline leaves the light off; with a backlight or a
  // regulator it leaves the panel unprepared, and with a regulator only the failed soft
  // resets still hold the supply. With neither the panel stays as it was.
  lemma DisabledRun(cfg: Config, es: seq<Event>)
    requires es != [] && es[|es| - 1].PipeDisable? && forall e :: e in es ==> WellFormed(e)
    ensures
      var (s0, h0) := Run(cfg, es[..|es| - 1]);
      var (s, h) := Run(cfg, es);
      && !s.enabled && !s.light
      && (s.prepared <==> s0.prepared && !cfg.backlight && !cfg.regulator)
      && s.supply == (if cfg.regulator then h.failedResets else 0)
      && (cfg.regulator ==> (s.supply == s0.supply - 1 <==> s0.prepared))
      && s.fbs == s0.fbs && s.planeFb == s0.planeFb
  {
    var s0 := Run(cfg, es[..|es| - 1]).0;
    InvariantRun(cfg, es[..|es| - 1]);
    InvariantRun(cfg, es);
    assert Run(cfg, es).0 == DisableStep(cfg, s0);
  }

  // With a backlight or a regulator, disabling undoes enabling, unless the soft reset failed.
  lemma PowerCycle(cfg: Config, s: State, io: EnableIo)
    requires (cfg.backlight || cfg.regulator) && !s.prepared && !s.enabled
    ensures DisableStep(cfg, EnableStep(cfg, s, io)) == s <==> !ResetFails(cfg, s, PipeEnable(io)) || !cfg.regulator
  {
  }

  // A dirty event enables the pipeline if its pixels go through, whatever it was before; the
  // framebuffer it names becomes the plane's as soon as it is listed, and the framebuffers,
  // the supply and the panel's preparation stay.
  lemma DirtyEnables(cfg: Config, s: State, e: Event)
    requires e.FbDirty? && WellFormed(e)
    ensures
      var t, target := DirtyStep(cfg, s, e), Target(s, e.id);
      && (t.enabled <==> s.enabled || (target.Some? && PixelsSent(target.value, e.io)))
      && (t.light <==> s.light || (cfg.backlight && t.enabled && !s.enabled))
      && t.planeFb == (if exists k :: 0 <= k < |s.fbs| && s.fbs[k].id == e.id then Some(e.id) else s.planeFb)
      && t.fbs == s.fbs && t.supply == s.supply && t.prepared == s.prepared
  {
    hide PixelsSent;
  }

  // One failed soft reset: the supply is on, the panel is not prepared.
  lemma FailedReset(cfg: Config)
    requires cfg.regulator
    ensures
      var es := [PipeEnable(EnableIo(true, None, false))];
      && (forall e :: e in es ==> WellFormed(e))
      && Run(cfg, es).0.supply == 1 && !Run(cfg, es).0.prepared
  {
    var es := [PipeEnable(EnableIo(true, None, false))];
    assert es[..0] == [];
    assert forall e :: e in es ==> WellFormed(e);
    assert Run(cfg, es).0 == Step(cfg, Run(cfg, es[..0]).0, es[0]);
  }
}
