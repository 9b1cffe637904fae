// The controller as far as power and picture go (MIPI Display Command Set: soft_reset,
// sleep, display, partial and idle modes, set_pixel_format, set_address_mode), and what
// enabling and disabling the pipeline make of it (mi0283qt.c:92-166, mipi-dbi.c:31-39,
// 685-704, 799-815).
module Power {
  import opened Base
  import opened Bytes
  import opened Transport
  import opened Panel
  import opened Clips
  import opened Flush
  import opened FbList
  import opened Pipeline

  datatype Power = Power(on: bool, normal: bool, awake: bool, partial: bool, idle: bool, format: byte, address: byte)

  const ENTER_PARTIAL_MODE: byte := 0x12
  const ENTER_NORMAL_MODE: byte := 0x13
  const EXIT_IDLE_MODE: byte := 0x38
  const ENTER_IDLE_MODE: byte := 0x39

  function Hear(p: Power, c: Command): Power
  {
    if c.cmd == SOFT_RESET then p.(on := false, normal := true, awake := false, partial := false, idle := false)
    else if c.cmd == ENTER_SLEEP_MODE then p.(awake := false)
    else if c.cmd == EXIT_SLEEP_MODE then p.(awake := true)
    else if c.cmd == ENTER_PARTIAL_MODE then p.(partial := true, normal := false)
    else if c.cmd == ENTER_NORMAL_MODE then p.(partial := false, normal := true)
    else if c.cmd == SET_DISPLAY_OFF then p.(on := false)
    else if c.cmd == SET_DISPLAY_ON then p.(on := true)
    else if c.cmd == ENTER_IDLE_MODE then p.(idle := true)
    else if c.cmd == EXIT_IDLE_MODE then p.(idle := false)
    else if c.cmd == SET_PIXEL_FORMAT && |c.params| == 1 then p.(format := c.params[0])
    else if c.cmd == SET_ADDRESS_MODE && |c.params| == 1 then p.(address := c.params[0])
    else p
  }

  function HearAll(p: Power, cs: seq<Command>): Power
  {
    if cs == [] then p else Hear(HearAll(p, cs[..|cs| - 1]), cs[|cs| - 1])
  }

  lemma {:induction false} HearConcat(p: Power, a: seq<Command>, b: seq<Command>)
    ensures HearAll(p, a + b) == HearAll(HearAll(p, a), b)
    decreases |b|
  {
    hide Hear;
    if b == [] {
      assert a + b == a;
    } else {
      assert (a + b)[..|a + b| - 1] == a + b[..|b| - 1];
      HearConcat(p, a, b[..|b| - 1]);
    }
  }

  // Two commands, one after the other.
  lemma HearTwo(p: Power, a: Command, b: Command)
    ensures HearAll(p, [a, b]) == Hear(Hear(p, a), b)
  {
    hide Hear;
    HearOne(p, a);
    HearOne(Hear(p, a), b);
    HearConcat(p, [a], [b]);
    assert [a, b] == [a] + [b];
  }

  lemma HearOne(p: Power, a: Command)
    ensures HearAll(p, [a]) == Hear(p, a)
  {
    hide Hear;
    assert [a][..0] == [];
  }

  // A command about something else.
  predicate Neutral(c: Command)
  {
    c.cmd !in [SOFT_RESET, ENTER_SLEEP_MODE, EXIT_SLEEP_MODE, ENTER_PARTIAL_MODE, ENTER_NORMAL_MODE, SET_DISPLAY_OFF,
               SET_DISPLAY_ON, ENTER_IDLE_MODE, EXIT_IDLE_MODE, SET_PIXEL_FORMAT, SET_ADDRESS_MODE]
  }

  lemma {:induction false} NeutralKeeps(p: Power, cs: seq<Command>)
    requires forall c :: c in cs ==> Neutral(c)
    ensures HearAll(p, cs) == p
    decreases |cs|
  {
    if cs != [] {
      NeutralKeeps(p, cs[..|cs| - 1]);
      assert cs[|cs| - 1] in cs;
    }
  }

  // Flushing and blanking change none of it.
  lemma FlushNeutral(p: Power, c: Clip, bytes: seq<byte>)
    ensures HearAll(p, FlushCommands(c, bytes)) == p && HearAll(p, BlankCommands()) == p
  {
    hide WindowParams;
    NeutralKeeps(p, FlushCommands(c, bytes));
    NeutralKeeps(p, BlankCommands());
  }

  // The power mode register; bits 0, 1 and 7 tell of something else.
  function PowerMode(p: Power, rest: byte): byte
  {
    (if p.on then 0x04 else 0) | (if p.normal then 0x08 else 0) | (if p.awake then 0x10 else 0)
    | (if p.partial then 0x20 else 0) | (if p.idle then 0x40 else 0) | (rest & 0x83)
  }

  // The panel shows the frame memory, all of it and in full colour.
  predicate Lit(p: Power)
  {
    p.on && p.normal && p.awake && !p.partial && !p.idle
  }

  // The check for a display that is on holds exactly for such a panel.
  lemma DisplayIsOnExactly(p: Power, rest: byte)
    ensures DisplayIsOn(Some(PowerMode(p, rest))) <==> Lit(p)
  {
  }

  predicate Configured(p: Power, rotation: nat)
  {
    p.format == 0x55 && p.address == AddressMode(rotation) // 16 bits a pixel
  }

  // The power and timing commands turn the display off; the rest is about something else.
  lemma HearPowerCommands(p: Power)
    ensures HearAll(p, PowerCommands()) == p.(on := false)
  {
    var cs := PowerCommands();
    forall i | 1 <= i < |cs|
      ensures Neutral(cs[i])
    {
    }
    hide Neutral;
    var off := Command(SET_DISPLAY_OFF, []);
    assert cs[0] == off;
    hide PowerCommands;
    HearOne(p, off);
    HearConcat(p, [off], cs[1..]);
    assert cs == [off] + cs[1..];
    NeutralKeeps(Hear(p, off), cs[1..]);
    hide HearAll;
  }

  lemma PictureNeutral(rotation: nat, i: nat)
    requires 2 <= i < 9
    ensures Neutral(PictureCommands(rotation)[i])
  {
    hide AddressMode;
  }

  lemma PictureEnds(rotation: nat)
    ensures var cs := PictureCommands(rotation);
            && |cs| == 11 && cs[0] == Command(SET_PIXEL_FORMAT, [0x55])
            && cs[1] == Command(SET_ADDRESS_MODE, [AddressMode(rotation)])
            && cs[9] == Command(EXIT_SLEEP_MODE, []) && cs[10] == Command(SET_DISPLAY_ON, [])
  {
    hide AddressMode;
  }

  // The picture commands set format and orientation and wake the panel; the last of them
  // turns it on.
  lemma HearPictureCommands(p: Power, rotation: nat)
    ensures
      var woken := p.(awake := true, format := 0x55, address := AddressMode(rotation));
      && HearAll(p, PictureCommands(rotation)[..10]) == woken
      && HearAll(p, PictureCommands(rotation)) == woken.(on := true)
  {
    var cs := PictureCommands(rotation);
    PictureEnds(rotation);
    forall c | c in cs[2..9]
      ensures Neutral(c)
    {
      var i :| 2 <= i < 9 && cs[i] == c;
      PictureNeutral(rotation, i);
    }
    hide PictureCommands, AddressMode, Neutral;
    HearFirstLast(p, cs);
  }

  lemma HearFirstLast(p: Power, cs: seq<Command>)
    requires |cs| == 11 && forall c :: c in cs[2..9] ==> Neutral(c)
    ensures HearAll(p, cs[..10]) == Hear(Hear(Hear(p, cs[0]), cs[1]), cs[9])
    ensures HearAll(p, cs) == Hear(HearAll(p, cs[..10]), cs[10])
  {
    hide Hear, Neutral;
    var q := Hear(Hear(p, cs[0]), cs[1]);
    HearTwo(p, cs[0], cs[1]);
    HearOne(q, cs[9]);
    NeutralKeeps(q, cs[2..9]);
    HearConcat(p, [cs[0], cs[1]], cs[2..9]);
    HearConcat(p, [cs[0], cs[1]] + cs[2..9], [cs[9]]);
    assert cs[..10] == [cs[0], cs[1]] + cs[2..9] + [cs[9]];
  }

  // The soft reset and the initialisation, whatever the panel was in before.
  lemma InitLights(p: Power, rotation: nat)
    ensures
      var q := HearAll(p, ResetCommands(rotation, true));
      Lit(q) && Configured(q, rotation)
  {
    hide AddressMode, PowerCommands, PictureCommands;
    var reset := Command(SOFT_RESET, []);
    HearOne(p, reset);
    HearConcat(p, [reset], InitCommands(rotation));
    HearConcat(Hear(p, reset), PowerCommands(), PictureCommands(rotation));
    HearPowerCommands(Hear(p, reset));
    HearPictureCommands(HearAll(Hear(p, reset), PowerCommands()), rotation);
    hide HearAll;
  }

  // Going to sleep turns the display off and changes nothing else, so that the next check
  // finds it off.
  lemma SleepDarkens(p: Power, rest: byte)
    ensures
      var q := HearAll(p, SleepCommands());
      q == p.(on := false, awake := false) && !DisplayIsOn(Some(PowerMode(q, rest)))
  {
    HearTwo(p, Command(SET_DISPLAY_OFF, []), Command(ENTER_SLEEP_MODE, []));
    DisplayIsOnExactly(HearAll(p, SleepCommands()), rest);
    hide DisplayIsOn, PowerMode;
  }

  // Disabling puts a prepared panel with a backlight to sleep and leaves any other as it was.
  lemma DisabledPanel(cfg: Config, s: State, p: Power)
    ensures HearAll(p, DisableCommands(cfg, s))
         == if s.prepared && cfg.backlight then p.(on := false, awake := false) else p
  {
    var dark := DarkCommands(cfg, s.enabled);
    NeutralKeeps(p, dark);
    HearConcat(p, dark, SleepCommands());
    SleepDarkens(p, 0);
    hide DarkCommands, SleepCommands, HearAll;
    assert dark + [] == dark;
  }

  // What the state machine does not decide: what the panel is in when its supply comes up,
  // and what a failed soft reset leaves.
  datatype Chance = Chance(up: Power, failed: Power)

  // The panel when its power mode is read.
  function Found(cfg: Config, p: Power, w: Chance): Power
  {
    if cfg.regulator then w.up else p
  }

  // Every write but a failed soft reset arrives.
  function PowerStep(cfg: Config, s: State, p: Power, e: Event, w: Chance): Power
  {
    if e.PipeEnable? && !s.prepared && (cfg.regulator ==> e.enableIo.supplyOk) then
      if ResetFails(cfg, s, e) then w.failed
      else HearAll(Found(cfg, p, w), EnableCommands(cfg, s, e.enableIo))
    else if e.PipeDisable? then HearAll(p, DisableCommands(cfg, s))
    else p
  }

  // A power mode that was read is the panel's.
  ghost predicate Honest(cfg: Config, s: State, p: Power, e: Event, w: Chance)
  {
    e.PipeEnable? && !s.prepared && e.enableIo.powerMode.Some? ==>
      cfg.readable && exists rest :: e.enableIo.powerMode.value == PowerMode(Found(cfg, p, w), rest)
  }

  // The panel after a run of the pipeline.
  function PowerRun(cfg: Config, p: Power, es: seq<Event>, ws: seq<Chance>): Power
    requires |es| == |ws| && forall e :: e in es ==> WellFormed(e)
  {
    if es == [] then p
    else
      var n := |es| - 1;
      PowerStep(cfg, Run(cfg, es[..n]).0, PowerRun(cfg, p, es[..n], ws[..n]), es[n], ws[n])
  }

  ghost predicate HonestRun(cfg: Config, p: Power, es: seq<Event>, ws: seq<Chance>)
    requires |es| == |ws| && forall e :: e in es ==> WellFormed(e)
  {
    es == [] ||
    var n := |es| - 1;
    && HonestRun(cfg, p, es[..n], ws[..n])
    && Honest(cfg, Run(cfg, es[..n]).0, PowerRun(cfg, p, es[..n], ws[..n]), es[n], ws[n])
  }

  // A panel the driver holds for prepared.
  predicate Fit(cfg: Config, s: State, p: Power)
  {
    s.prepared ==> Lit(p) && (!cfg.readable ==> Configured(p, cfg.rotation))
  }

  lemma FitStep(cfg: Config, s: State, p: Power, e: Event, w: Chance)
    requires WellFormed(e) && Fit(cfg, s, p) && Honest(cfg, s, p, e, w)
    ensures Fit(cfg, Step(cfg, s, e), PowerStep(cfg, s, p, e, w))
  {
    hide Considered, Box, Destroyed, ResetCommands, AddressMode, PowerMode, DisplayIsOn, HearAll;
    match e
    case PipeEnable(io) =>
      if !s.prepared && (cfg.regulator ==> io.supplyOk) && !ResetFails(cfg, s, e) {
        FitEnable(cfg, s, p, io, w);
      }
    case PipeDisable =>
      DisabledPanel(cfg, s, p);
    case _ =>
  }

  lemma FitEnable(cfg: Config, s: State, p: Power, io: EnableIo, w: Chance)
    requires !s.prepared && (cfg.regulator ==> io.supplyOk) && !ResetFails(cfg, s, PipeEnable(io))
    requires Honest(cfg, s, p, PipeEnable(io), w)
    ensures
      var q := HearAll(Found(cfg, p, w), EnableCommands(cfg, s, io));
      Lit(q) && (!cfg.readable ==> Configured(q, cfg.rotation))
  {
    hide ResetCommands, AddressMode, PowerMode, DisplayIsOn, HearAll, Lit, Configured;
    var q := Found(cfg, p, w);
    NeutralKeeps(q, PowerModeCommands(cfg));
    if DisplayIsOn(io.powerMode) {
      assert io.powerMode.Some? by {
        NoAnswer(io.powerMode);
      }
      var rest :| io.powerMode.value == PowerMode(q, rest);
      DisplayIsOnExactly(q, rest);
      assert PowerModeCommands(cfg) + [] == PowerModeCommands(cfg);
    } else {
      HearConcat(q, PowerModeCommands(cfg), ResetCommands(cfg.rotation, true));
      InitLights(q, cfg.rotation);
    }
  }

  lemma NoAnswer(powerMode: Option<byte>)
    ensures DisplayIsOn(powerMode) ==> powerMode.Some?
  {
  }

  // After every run in which the power mode is read as it is, a prepared panel shows its
  // frame memory; one that cannot be read has the driver's pixel format and orientation.
  lemma {:induction false} PreparedIsLit(cfg: Config, p: Power, es: seq<Event>, ws: seq<Chance>)
    requires |es| == |ws| && forall e :: e in es ==> WellFormed(e)
    requires HonestRun(cfg, p, es, ws)
    ensures Fit(cfg, Run(cfg, es).0, PowerRun(cfg, p, es, ws))
    decreases |es|
  {
    hide Fit, Honest, PowerStep, Step;
    if es == [] {
      assert Fit(cfg, START, p) by {
        StartFit(cfg, p);
      }
    } else {
      var n := |es| - 1;
      PreparedIsLit(cfg, p, es[..n], ws[..n]);
      FitStep(cfg, Run(cfg, es[..n]).0, PowerRun(cfg, p, es[..n], ws[..n]), es[n], ws[n]);
    }
  }

  lemma StartFit(cfg: Config, p: Power)
    ensures Fit(cfg, START, p)
  {
  }

  // The results of the initialisation are not looked at: with its last command lost the
  // panel is dark, and prepared all the same.
  lemma LostDisplayOn(cfg: Config, p: Power)
    requires !cfg.regulator
    ensures
      var io, cs := EnableIo(true, None, true), ResetCommands(cfg.rotation, true);
      EnableStep(cfg, START, io).prepared && !Lit(HearAll(p, cs[..|cs| - 1]))
  {
    var r := cfg.rotation;
    var reset, cs := Command(SOFT_RESET, []), PictureCommands(r);
    PictureEnds(r);
    hide AddressMode, PowerCommands, PictureCommands;
    var all := ResetCommands(r, true);
    assert all[..|all| - 1] == [reset] + PowerCommands() + cs[..10];
    HearConcat(p, [reset] + PowerCommands(), cs[..10]);
    HearConcat(p, [reset], PowerCommands());
    HearPowerCommands(HearAll(p, [reset]));
    HearPictureCommands(HearAll(p, [reset] + PowerCommands()), r);
    hide HearAll;
  }

  // ---- The orientation ----

  const NATIVE_WIDTH: int := 240
  const NATIVE_HEIGHT: int := 320

  // Where on the glass a pixel of the picture goes: bit 5 exchanges columns and lines, bits
  // 6 and 7 mirror them.
  function OnGlass(mode: byte, x: int, y: int): (int, int)
  {
    var (c, l) := if mode & 0x20 != 0 then (y, x) else (x, y);
    (if mode & 0x40 != 0 then NATIVE_WIDTH - 1 - c else c, if mode & 0x80 != 0 then NATIVE_HEIGHT - 1 - l else l)
  }

  function PictureWidth(rotation: nat): int
  {
    if rotation == 90 || rotation == 270 then NATIVE_WIDTH else NATIVE_HEIGHT
  }

  // Every further quarter turns the picture counter clockwise by a quarter: its columns,
  // from the right, are the lines it had before.
  lemma QuarterTurn(rotation: nat, x: int, y: int)
    requires rotation in [0, 90, 180, 270]
    ensures
      var next := (rotation + 90) % 360;
      OnGlass(AddressMode(next), x, y) == OnGlass(AddressMode(rotation), y, PictureWidth(next) - 1 - x)
  {
  }

  // Without rotation the picture's first pixel is the last one on the glass.
  lemma FirstPixel(x: int, y: int)
    ensures OnGlass(AddressMode(0), x, y) == (NATIVE_WIDTH - 1 - y, NATIVE_HEIGHT - 1 - x)
  {
  }
}
