// The objects behind the pipeline: struct utinydrm, struct tinydrm_device and
// struct mipi_dbi, changed in place by the event handlers, and what the handlers say to
// the panel through the register map.
module Device {
  import opened Base
  import opened Bytes
  import opened SpiBus
  import opened Transport
  import opened Wire
  import opened Clips
  import opened Flush
  import opened FbList
  import opened Pipeline
  import opened Panel
  import opened Delivery
  import opened Mirror
  import Readback
  import Regmap

  // An event with the hardware's answers filled in.
  predicate Answered(e: Event, answered: Event)
  {
    match e
    case PipeEnable(io) =>
      && answered.PipeEnable? && answered.enableIo.supplyOk == io.supplyOk
      && (answered.enableIo.powerMode.Some? ==>
           answered.enableIo.powerMode.value == if io.powerMode.Some? then io.powerMode.value else 0)
    case FbDirty(_, _, _, _, io) => answered.FbDirty? && answered.(io := io) == e
    case _ => answered == e
  }

  lemma CommandByte(cmd: byte)
    ensures Regmap.RegByte(cmd as bv32, 0, 0) == cmd
  {
  }

  // A harmless command arrives with its parameters and ends on a frame boundary.
  lemma HarmlessArrives(l: Link, c: Command)
    requires Harmless(c) && Usable(l)
    ensures
      var call := Call(c.cmd, Regmap.PtrTo(c.params), |c.params|);
      Arrived(l, call) == c.params && !Overruns(l, call)
  {
    hide Regmap.PtrTo;
    var call := Call(c.cmd, Regmap.PtrTo(c.params), |c.params|);
    Regmap.LoadPtrTo(c.params, |c.params|);
    assert c.params[..|c.params|] == c.params;
    if c.cmd != RAM {
      ShortWrite(l, call);
    }
  }

  class Device {
    const cfg: Config
    const writeOnly: bool
    const reg: Regmap.Regmap
    const list: FbList
    var prepared: bool
    var enabled: bool
    var light: bool
    var supply: int
    var planeFb: FbNode?

    ghost predicate Valid()
      reads this, list, list.spine, reg, reg.bus
    {
      list.Valid() && Connected()
    }

    // 8-bit registers without flags (mipi-dbi.c:532-536).
    ghost predicate Connected()
      reads reg, reg.bus
    {
      && reg.Valid() && reg.regShift == 0 && reg.writeFlagMask == 0
      && cfg.readable == (reg.option3 && !writeOnly)
    }

    // The objects behind the register map that change when something is sent.
    ghost function Bus(): set<object>
      reads reg.bus
    {
      {reg.workBuf, reg.bus, reg.bus.spi} + if reg.bus.txBuf != null then {reg.bus.txBuf} else {}
    }

    ghost function State(): State
      reads this, list, list.spine
    {
      Pipeline.State(prepared, enabled, light, supply, list.Contents(),
                     if planeFb == null then None else Some(planeFb.fb.id))
    }

    constructor (cfg: Config, reg: Regmap.Regmap, writeOnly: bool)
      requires reg.Valid() && reg.regShift == 0 && reg.writeFlagMask == 0
      requires cfg.readable == (reg.option3 && !writeOnly)
      ensures Valid() && State() == START && this.cfg == cfg && this.reg == reg && fresh(list)
    {
      this.cfg, this.reg, this.writeOnly := cfg, reg, writeOnly;
      list := new FbList();
      prepared, enabled, light, supply, planeFb := false, false, false, 0, null;
    }

    // So many writes may not have got through from one point to another: as many as there
    // were failures, on a link that is ready.
    ghost predicate Excused(a: nat, b: nat, misses: nat)
    {
      a <= b && (reg.Ready() ==> misses <= reg.bus.spi.Failures(a, b))
    }

    // The failures since some point.
    ghost function Failed(since: nat): nat
      reads reg.bus.spi
    {
      if since <= reg.bus.spi.asked then reg.bus.spi.Failures(since, reg.bus.spi.asked) else 0
    }

    lemma ExcusedMore(a: nat, b: nat, c: nat, m: nat, n: nat)
      requires Excused(a, b, m) && Excused(b, c, n)
      ensures Excused(a, c, m + n)
    {
      reg.bus.spi.FailuresSplit(a, b, c);
    }

    lemma ExcusedLess(a: nat, b: nat, m: nat, n: nat)
      requires Excused(a, b, m) && n <= m
      ensures Excused(a, b, n)
    {
    }

    lemma ExcusedNothing(a: nat)
      ensures Excused(a, a, Misses([]))
    {
    }

    lemma ExcusedOne(a: nat, b: nat, failed: bool)
      requires a <= b && (reg.Ready() && reg.bus.spi.Smooth(a, b) ==> !failed)
      ensures Excused(a, b, if failed then 1 else 0)
    {
      reg.bus.spi.SmoothIs(a, b);
    }

    // mipi_dbi_write_buf.
    method WriteBuf(c: Command) returns (ret: int, ghost r: Reach)
      requires Connected() && Harmless(c)
      modifies Bus()
      ensures Connected() && fresh(Bus() - old(Bus()))
      ensures Said(reg.L(), old(reg.bus.spi.log), reg.bus.spi.log, Reached(c, r))
      ensures InFrame(reg.L(), old(reg.bus.spi.log), reg.bus.spi.log)
      ensures ret == 0 <==> r.All?
      ensures Excused(old(reg.bus.spi.asked), reg.bus.spi.asked, Misses([r]))
    {
      hide Heard, Parse, Aligned, Arrived, Overruns, CommandFirst, Accounted, Regmap.RegByte, Regmap.PtrTo, Harmless;
      hide Misses, Excused, Regmap.Regmap.Ready;
      ghost var before, start := reg.bus.spi.log, reg.bus.spi.asked;
      var ok := reg.bus.spi.Alloc();
      if !ok {
        SaidNothing(reg.L(), before);
        ExcusedOne(start, reg.bus.spi.asked, true);
        OneMiss(Nothing);
        return -ENOMEM, Nothing;
      }
      CommandByte(c.cmd);
      var call := Call(c.cmd, Regmap.PtrTo(c.params), |c.params|);
      ret := reg.RawWrite(c.cmd as bv32, call.val, call.len);
      r := HarmlessSaid(reg.L(), c, reg.bus.spi.log[|before|..], ret == 0);
      ExcusedOne(start, reg.bus.spi.asked, ret != 0);
      OneMiss(r);
    }

    // Commands one after another, their results ignored.
    method WriteAll(cs: seq<Command>) returns (ghost rs: seq<Reach>)
      requires Connected() && forall c :: c in cs ==> Harmless(c)
      modifies Bus()
      ensures Connected() && fresh(Bus() - old(Bus()))
      ensures Talked(reg.L(), old(reg.bus.spi.log), reg.bus.spi.log, cs, rs)
      ensures Excused(old(reg.bus.spi.asked), reg.bus.spi.asked, Misses(rs))
    {
      hide Said, InFrame, Harmless, Reached, Talked, Excused, Misses, Connected;
      rs := [];
      var i := 0;
      ghost var l, before, start := reg.L(), reg.bus.spi.log, reg.bus.spi.asked;
      TalkedNothing(l, before);
      ExcusedNothing(start);
      while i < |cs|
        invariant i <= |cs|
        invariant Connected() && fresh(Bus() - old(Bus()))
        invariant Talked(l, before, reg.bus.spi.log, cs[..i], rs)
        invariant Excused(start, reg.bus.spi.asked, Misses(rs))
      {
        ghost var mid, next := reg.bus.spi.log, reg.bus.spi.asked;
        var ret;
        ghost var r;
        ret, r := WriteBuf(cs[i]);
        TalkedOne(l, mid, reg.bus.spi.log, cs[i], r);
        TalkedMore(l, before, mid, reg.bus.spi.log, cs[..i], rs, [cs[i]], [r]);
        assert cs[..i] + [cs[i]] == cs[..i + 1];
        ExcusedMore(start, next, reg.bus.spi.asked, Misses(rs), Misses([r]));
        MissesConcat(rs, [r]);
        rs := rs + [r];
        i := i + 1;
      }
      assert cs[..i] == cs;
    }

    // mipi_dbi_display_is_on up to the comparison; answer is the power mode the panel has.
    method ReadPowerMode(answer: byte) returns (powerMode: Option<byte>, ghost rs: seq<Reach>)
      requires Connected()
      modifies Bus()
      ensures Connected() && fresh(Bus() - old(Bus()))
      ensures Talked(reg.L(), old(reg.bus.spi.log), reg.bus.spi.log, PowerModeCommands(cfg), rs)
      ensures powerMode.Some? ==> cfg.readable && powerMode.value == answer
      ensures powerMode.None? && cfg.readable ==> Misses(rs) == 1
      ensures Excused(old(reg.bus.spi.asked), reg.bus.spi.asked, Misses(rs))
    {
      hide Talked, Regmap.RegByte, Misses, Excused;
      ghost var start := reg.bus.spi.asked;
      OneMiss(All);
      OneMiss(Nothing);
      ExcusedNothing(start);
      ghost var before := reg.bus.spi.log;
      powerMode, rs := None, if cfg.readable then [Nothing] else [];
      ReadNothing(reg.L(), before, cfg, rs);
      if !cfg.readable {
        assert rs == [];
      }
      if !reg.option3 {
        return; // -ENOTSUPP
      }
      reg.FormatReg(GET_POWER_MODE as bv32);
      CommandByte(GET_POWER_MODE);
      var cmd := reg.workBuf[0];
      var val := new byte[1];
      var ret := Readback.Spi3Read(reg.bus.spi, writeOnly, cmd, [answer, 0], val);
      if ret == 0 {
        assert val[..] == [answer, 0][..1] && val[0] == val[..][0];
        powerMode, rs := Some(val[0]), [All];
        ReadSaid(reg.L(), before);
        assert reg.bus.spi.log == before + [Transfer(false, [GET_POWER_MODE])];
        assert PowerModeCommands(cfg) == [Command(GET_POWER_MODE, [])];
      } else {
        assert reg.bus.spi.log == before;
      }
      if cfg.readable {
        ExcusedOne(start, reg.bus.spi.asked, ret != 0);
      } else {
        NoMisses();
        ExcusedOne(start, reg.bus.spi.asked, false);
      }
    }

    // Soft reset and, if it succeeds, the initialisation (mi0283qt.c:105-173).
    method Initialise() returns (ok: bool, ghost rs: seq<Reach>)
      requires Connected()
      modifies Bus()
      ensures Connected() && fresh(Bus() - old(Bus()))
      ensures Talked(reg.L(), old(reg.bus.spi.log), reg.bus.spi.log, ResetCommands(cfg.rotation, ok), rs)
      ensures rs != [] && (ok <==> rs[0].All?)
      ensures Excused(old(reg.bus.spi.asked), reg.bus.spi.asked, Misses(rs))
    {
      hide Said, InFrame, InitCommands, Reached, Harmless, Talked, Excused, Misses, Connected;
      ghost var l, log0, start := reg.L(), reg.bus.spi.log, reg.bus.spi.asked;
      var reset := Command(SOFT_RESET, []);
      ResetHarmless();
      var ret;
      ghost var r;
      ret, r := WriteBuf(reset);
      ghost var log1, next := reg.bus.spi.log, reg.bus.spi.asked;
      TalkedOne(l, log0, log1, reset, r);
      if ret != 0 {
        assert [reset] + [] == [reset];
        return false, [r];
      }
      InitHarmless(cfg.rotation);
      ghost var more := WriteAll(InitCommands(cfg.rotation));
      TalkedMore(l, log0, log1, reg.bus.spi.log, [reset], [r], InitCommands(cfg.rotation), more);
      ExcusedMore(start, next, reg.bus.spi.asked, Misses([r]), Misses(more));
      MissesConcat([r], more);
      return true, [r] + more;
    }

    // mi0283qt_enable.
    method Enable(supplyOk: bool, answer: byte) returns (ghost io: EnableIo, ghost rs: seq<Reach>)
      requires Connected()
      modifies this`prepared, this`supply, Bus()
      ensures Connected() && fresh(Bus() - old(Bus()))
      ensures var s := EnableStep(cfg, old(State()), io); prepared == s.prepared && supply == s.supply
      ensures io.supplyOk == supplyOk
      ensures Talked(reg.L(), old(reg.bus.spi.log), reg.bus.spi.log, EnableCommands(cfg, old(State()), io), rs)
      ensures Honest(cfg, old(State()), io, rs) && (io.powerMode.Some? ==> io.powerMode.value == answer)
      ensures Excused(old(reg.bus.spi.asked), reg.bus.spi.asked, Misses(rs))
    {
      hide DisplayIsOn, Said, InFrame, PowerModeCommands, ResetCommands, Talked, FbList.Contents, Connected;
      hide Misses, Excused;
      ghost var l, log0, start := reg.L(), reg.bus.spi.log, reg.bus.spi.asked;
      TalkedNothing(l, log0);
      ExcusedNothing(start);
      io, rs := EnableIo(supplyOk, None, false), [];
      if prepared {
        return;
      }
      if cfg.regulator {
        if !supplyOk {
          return;
        }
        supply := supply + 1;
      }
      var powerMode;
      powerMode, rs := ReadPowerMode(answer);
      ghost var log1, next := reg.bus.spi.log, reg.bus.spi.asked;
      TalkedLength(l, log0, log1, PowerModeCommands(cfg), rs);
      if DisplayIsOn(powerMode) {
        io := EnableIo(supplyOk, powerMode, false);
        prepared := true;
        assert PowerModeCommands(cfg) + [] == PowerModeCommands(cfg);
        assert rs[..|rs|] == rs;
        return;
      }
      var ok;
      ghost var more;
      ok, more := Initialise();
      io := EnableIo(supplyOk, powerMode, ok);
      TalkedMore(l, log0, log1, reg.bus.spi.log, PowerModeCommands(cfg), rs, ResetCommands(cfg.rotation, ok), more);
      ExcusedMore(start, next, reg.bus.spi.asked, Misses(rs), Misses(more));
      MissesConcat(rs, more);
      assert (rs + more)[..|rs|] == rs && (rs + more)[|rs|..] == more;
      rs := rs + more;
      if !ok {
        return;
      }
      prepared := true;
    }

    // Switching the light off or, without one and without a regulator, blanking
    // (mipi-dbi.c:676-681, 635-654).
    method Darken() returns (ghost rs: seq<Reach>)
      requires Connected()
      modifies this`light, Bus()
      ensures Connected() && fresh(Bus() - old(Bus()))
      ensures light == (old(light) && !(enabled && cfg.backlight))
      ensures Talked(reg.L(), old(reg.bus.spi.log), reg.bus.spi.log, DarkCommands(cfg, enabled), rs)
      ensures Excused(old(reg.bus.spi.asked), reg.bus.spi.asked, DarkMisses(rs))
    {
      hide Talked, BlankCommands, Harmless, Connected, Misses, Excused;
      ghost var start := reg.bus.spi.asked;
      ExcusedNothing(start);
      TalkedNothing(reg.L(), reg.bus.spi.log);
      rs := [];
      if enabled {
        if cfg.backlight {
          light := false;
        } else if !cfg.regulator {
          var ok := reg.bus.spi.Alloc();
          if !ok {
            BlankNothing(reg.L(), reg.bus.spi.log);
            ExcusedOne(start, reg.bus.spi.asked, true);
            return [Nothing, Nothing, Nothing]; // no memory
          }
          BlankHarmless();
          ghost var next := reg.bus.spi.asked;
          rs := WriteAll(BlankCommands());
          ExcusedOne(start, next, false);
          ExcusedMore(start, next, reg.bus.spi.asked, 0, Misses(rs));
          NoneReachedMisses(rs);
          ExcusedLess(start, reg.bus.spi.asked, Misses(rs), DarkMisses(rs));
        }
      }
    }

    // mipi_dbi_pipe_disable.
    method Disable() returns (ghost rs: seq<Reach>)
      requires Connected()
      modifies this`prepared, this`enabled, this`light, this`supply, Bus()
      ensures Connected() && fresh(Bus() - old(Bus()))
      ensures
        var s := DisableStep(cfg, old(State()));
        prepared == s.prepared && enabled == s.enabled && light == s.light && supply == s.supply
      ensures Talked(reg.L(), old(reg.bus.spi.log), reg.bus.spi.log, DisableCommands(cfg, old(State())), rs)
      ensures |rs| >= |DarkCommands(cfg, old(enabled))|
      ensures Excused(old(reg.bus.spi.asked), reg.bus.spi.asked, DisableMisses(cfg, old(enabled), rs))
    {
      hide Talked, SleepCommands, DarkCommands, Harmless, FbList.Contents, Connected, Excused, Misses, DarkMisses;
      ghost var l, log0, dark, start := reg.L(), reg.bus.spi.log, DarkCommands(cfg, enabled), reg.bus.spi.asked;
      rs := Darken();
      TalkedLength(l, log0, reg.bus.spi.log, dark, rs);
      NoMisses();
      assert rs[..|dark|] == rs && rs[|dark|..] == [];
      enabled := false;
      assert dark + [] == dark;
      if prepared {
        if cfg.backlight {
          ghost var log1, next := reg.bus.spi.log, reg.bus.spi.asked;
          SleepHarmless();
          ghost var more := WriteAll(SleepCommands());
          TalkedMore(l, log0, log1, reg.bus.spi.log, dark, rs, SleepCommands(), more);
          ExcusedMore(start, next, reg.bus.spi.asked, DarkMisses(rs), Misses(more));
          assert (rs + more)[..|dark|] == rs && (rs + more)[|dark|..] == more;
          rs := rs + more;
          prepared := false;
        }
        if cfg.regulator {
          supply := supply - 1;
          prepared := false;
        }
      }
    }

    // tinydrm_check_dirty.
    method CheckDirty(hasClips: bool, num: nat) returns (go: bool, hasClips': bool, num': nat)
      ensures go == prepared
      ensures go ==> hasClips' == (hasClips && enabled) && num' == if enabled then num else 0
    {
      hasClips', num' := hasClips, num;
      if !prepared {
        return false, hasClips', num';
      }
      if !enabled {
        hasClips', num' := false, 0;
      }
      go := true;
    }

    // The pixel write of a flush (tinydrm-regmap.c:132-166).
    method SendPixels(mem: Ptr, fb: Fb, c: Clip) returns (ret: int, ghost allocOk: bool, ghost r: Reach)
      requires Connected()
      modifies Bus()
      ensures Connected() && fresh(Bus() - old(Bus()))
      ensures
        var io := DirtyIo(Nothing, Nothing, allocOk, r);
        && Said(reg.L(), old(reg.bus.spi.log), reg.bus.spi.log, PixelCommands(reg.L(), mem, fb, c, io))
        && (ret == 0 <==> PixelsSent(fb, io))
        && (InFrame(reg.L(), old(reg.bus.spi.log), reg.bus.spi.log) <==> !LeavesFrame(reg.L(), mem, fb, c, io))
        && Excused(old(reg.bus.spi.asked), reg.bus.spi.asked, PixelMisses(fb, io))
    {
      hide Said, InFrame, FlushPixels, Holds, Length, PtrTo16, Regmap.RegByte, Accounted, PixelCall, Overruns, Arrived;
      hide Excused, Regmap.Regmap.Ready;
      ghost var l, before, start := reg.L(), reg.bus.spi.log, reg.bus.spi.asked;
      SaidNothing(l, before);
      var memoryLeft := true;
      if fb.format == XRGB8888 {
        memoryLeft := reg.bus.spi.Alloc();
      }
      allocOk, r := memoryLeft, Nothing;
      ExcusedOne(start, reg.bus.spi.asked, !memoryLeft);
      var f := FlushRgb565(mem, fb, c, memoryLeft);
      if f.Refused? {
        return f.error, allocOk, r;
      }
      CommandByte(RAM);
      ret := reg.RawWrite(RAM as bv32, f.call.val, f.call.len);
      r := PixelsSaid(l, mem, fb, c, f.call, before, reg.bus.spi.log, ret == 0);
      ExcusedOne(start, reg.bus.spi.asked, ret != 0);
    }

    // The three register writes of a flush; only the result of the last one counts.
    method SendFlush(mem: Ptr, fb: Fb, c: Clip) returns (ret: int, ghost io: DirtyIo)
      requires Connected()
      modifies Bus()
      ensures Connected() && fresh(Bus() - old(Bus()))
      ensures Said(reg.L(), old(reg.bus.spi.log), reg.bus.spi.log, Delivered(reg.L(), mem, fb, c, io))
      ensures InFrame(reg.L(), old(reg.bus.spi.log), reg.bus.spi.log) <==> !LeavesFrame(reg.L(), mem, fb, c, io)
      ensures ret == 0 <==> PixelsSent(fb, io)
      ensures Excused(old(reg.bus.spi.asked), reg.bus.spi.asked, FlushMisses(fb, io))
    {
      hide Said, InFrame, WindowParams, Harmless, LeavesFrame, Reached, PixelsSent, PixelCommands, Connected;
      hide Excused, Misses;
      ghost var l, log0, a0 := reg.L(), reg.bus.spi.log, reg.bus.spi.asked;
      var column := Command(SET_COLUMN_ADDRESS, WindowParams(c.x1, c.x2));
      var page := Command(SET_PAGE_ADDRESS, WindowParams(c.y1, c.y2));
      WindowHarmless(c);
      var ignored;
      ghost var r1, r2, r3, allocOk;
      ignored, r1 := WriteBuf(column);
      ghost var log1, a1 := reg.bus.spi.log, reg.bus.spi.asked;
      ignored, r2 := WriteBuf(page);
      ghost var log2, a2 := reg.bus.spi.log, reg.bus.spi.asked;
      ret, allocOk, r3 := SendPixels(mem, fb, c);
      io := DirtyIo(r1, r2, allocOk, r3);
      ghost var pixels := PixelCommands(l, mem, fb, c, io);
      SamePixels(l, mem, fb, c, io);
      SaidMore(l, log0, log1, log2, Reached(column, r1), Reached(page, r2));
      SaidMore(l, log0, log2, reg.bus.spi.log, Reached(column, r1) + Reached(page, r2), pixels);
      DeliveredIs(l, mem, fb, c, io);
      ExcusedMore(a0, a1, a2, Misses([r1]), Misses([r2]));
      ExcusedMore(a0, a2, reg.bus.spi.asked, Misses([r1]) + Misses([r2]), PixelMisses(fb, io));
    }

    // mipi_dbi_fb_dirty for a listed framebuffer.
    method FlushDirty(mem: Ptr, fb: Fb, copy: bool, clips: seq<Clip>, num: nat) returns (ret: int, ghost io: DirtyIo)
      requires Connected() && ReadCount(num, copy) <= |clips|
      modifies this`enabled, this`light, Bus()
      ensures Connected() && fresh(Bus() - old(Bus()))
      ensures
        var c := Merged(if old(enabled) then Considered(clips, num, copy) else [], fb.width, fb.height);
        var l, before, after := reg.L(), old(reg.bus.spi.log), reg.bus.spi.log;
        if prepared then
          && Said(l, before, after, Delivered(l, mem, fb, c, io))
          && (InFrame(l, before, after) <==> !LeavesFrame(l, mem, fb, c, io))
        else after == before
      ensures
        var flushed := prepared && PixelsSent(fb, io);
        && enabled == (old(enabled) || flushed)
        && light == (old(light) || (flushed && !old(enabled) && cfg.backlight))
        && (ret == 0 <==> !prepared || flushed)
      ensures prepared ==> Excused(old(reg.bus.spi.asked), reg.bus.spi.asked, FlushMisses(fb, io))
      ensures old(reg.bus.spi.asked) <= reg.bus.spi.asked
    {
      hide Considered, Merged, Delivered, PixelsSent, Said, InFrame, LeavesFrame, Connected, FlushMisses;
      ret, io := 0, DirtyIo(Nothing, Nothing, false, Nothing);
      var go, hasClips, n := CheckDirty(true, num);
      if !go {
        return;
      }
      NoneToMerge(clips, copy);
      var c := MergeClips(hasClips, clips, n, copy, fb.width, fb.height);
      ret, io := SendFlush(mem, fb, c);
      if ret != 0 {
        return;
      }
      if !enabled {
        if cfg.backlight {
          light := true;
        }
        enabled := true;
      }
    }

    // The list is no part of the bus.
    lemma Apart()
      ensures list !in Bus() && this !in Bus()
      ensures forall n :: n in list.spine ==> n !in Bus()
    {
    }

    // utinydrm_pipe_enable; the hardware's answers are those of the event, except for what
    // the bus decides.
    method PipeEnable(mem: Ptr, e: Event) returns (ghost answered: Event)
      requires Valid() && e.PipeEnable?
      modifies this`prepared, this`supply, Bus()
      ensures Valid() && Answered(e, answered) && answered.PipeEnable?
      ensures State() == EnableStep(cfg, old(State()), answered.enableIo)
      ensures Spoken(cfg, reg.L(), old(State()), mem, answered, old(reg.bus.spi.log), reg.bus.spi.log,
                     reg.Ready(), Failed(old(reg.bus.spi.asked)))
    {
      hide Talked, EnableCommands, Connected, Bus, FbList.Valid, FbList.Contents, DisplayIsOn;
      Apart();
      var answer := if e.enableIo.powerMode.Some? then e.enableIo.powerMode.value else 0;
      ghost var io, rs;
      io, rs := Enable(e.enableIo.supplyOk, answer);
      answered := Event.PipeEnable(io);
    }

    // utinydrm_pipe_disable.
    method PipeDisable(ghost mem: Ptr)
      requires Valid()
      modifies this`prepared, this`enabled, this`light, this`supply, Bus()
      ensures Valid() && State() == DisableStep(cfg, old(State()))
      ensures Spoken(cfg, reg.L(), old(State()), mem, Event.PipeDisable, old(reg.bus.spi.log), reg.bus.spi.log,
                     reg.Ready(), Failed(old(reg.bus.spi.asked)))
    {
      hide Talked, DisableCommands, Connected, Bus, FbList.Valid, FbList.Contents;
      Apart();
      ghost var rs := Disable();
    }

    // utinydrm_fb_dirty.
    method Dirty(mem: Ptr, e: Event) returns (ret: int, ghost answered: Event)
      requires Valid() && e.FbDirty? && WellFormed(e)
      modifies this`enabled, this`light, this`planeFb, Bus()
      ensures Valid() && ret == 0 && Answered(e, answered) && answered.FbDirty? && WellFormed(answered)
      ensures State() == DirtyStep(cfg, old(State()), answered)
      ensures Spoken(cfg, reg.L(), old(State()), mem, answered, old(reg.bus.spi.log), reg.bus.spi.log,
                     reg.Ready(), Failed(old(reg.bus.spi.asked)))
    {
      hide Delivered, Merged, Considered, Said, InFrame, LeavesFrame, PixelsSent, Connected, DirtyStep, Spoken, Target, Bus;
      hide FbList.Valid, FbList.Contents, ReadCount;
      Apart();
      ret, answered := 0, e;
      ghost var s, l, before, start := State(), reg.L(), reg.bus.spi.log, reg.bus.spi.asked;
      var ufb := list.Find(e.id);
      if ufb == null {
        DirtyUnlisted(cfg, l, s, mem, e, before, reg.Ready(), Failed(reg.bus.spi.asked));
        return;
      }
      assert ufb.fb == s.fbs[FirstIndex(s.fbs, e.id)];
      planeFb := ufb;
      var flushed;
      ghost var io;
      flushed, io := FlushDirty(mem, ufb.fb, e.copy, e.clips, e.num);
      answered := e.(io := io);
      DirtyDone(cfg, l, s, mem, answered, before, reg.bus.spi.log, reg.Ready(), Failed(start));
    }

    // utinydrm_event.
    method Handle(mem: Ptr, e: Event) returns (ret: int, ghost answered: Event)
      requires Valid() && WellFormed(e)
      modifies this, list, list.spine, Bus()
      ensures Valid() && Answered(e, answered) && WellFormed(answered)
      ensures State() == Step(cfg, old(State()), answered)
      ensures Spoken(cfg, reg.L(), old(State()), mem, answered, old(reg.bus.spi.log), reg.bus.spi.log,
                     reg.Ready(), Failed(old(reg.bus.spi.asked)))
      ensures ret == 0 || e.FbCreate? || e.FbDestroy?
      ensures e.FbCreate? ==> (ret == 0 <==> e.ok)
      ensures e.FbDestroy? ==>
                (ret == 0 <==> FirstIndex(old(State()).fbs, e.destroyId) < |old(State()).fbs|)
    {
      hide DirtyStep, EnableStep, DisableStep, Destroyed, Target, Delivered, DirtyClip, Talked, Connected;
      hide EnableCommands, DisableCommands, Said, InFrame, LeavesFrame;
      ret, answered := 0, e;
      match e
      case PipeEnable(_) => answered := PipeEnable(mem, e);
      case PipeDisable => PipeDisable(mem);
      case FbCreate(fb, ok) =>
        if ok {
          list.Create(fb);
        } else {
          ret := -EIO;
        }
      case FbDestroy(id) => ret := list.Destroy(id);
      case FbDirty(_, _, _, _, _) => ret, answered := Dirty(mem, e);
      case UnknownEvent =>
    }
  }

  // The writes of a flush that did not get through.
  function PixelMisses(fb: Fb, io: DirtyIo): nat
  {
    if fb.format != OtherFormat && !PixelsSent(fb, io) then 1 else 0
  }

  function FlushMisses(fb: Fb, io: DirtyIo): nat
  {
    Misses([io.column]) + Misses([io.page]) + PixelMisses(fb, io)
  }

  // What the driver says to the panel while it handles an event in a state: the commands
  // of the handler, each as far as it got, or those of a flush. On a link that is ready, no
  // more of them are missing than there were failures.
  ghost predicate Spoken(cfg: Config, l: Link, s: State, mem: Ptr, e: Event, before: seq<Transfer>, after: seq<Transfer>,
                         ready: bool, failures: nat)
    requires WellFormed(e)
  {
    match e
    case PipeEnable(io) =>
      exists rs ::
        && Talked(l, before, after, EnableCommands(cfg, s, io), rs)
        && Honest(cfg, s, io, rs)
        && (ready ==> Misses(rs) <= failures)
    case PipeDisable =>
      exists rs ::
        && Talked(l, before, after, DisableCommands(cfg, s), rs)
        && |rs| >= |DarkCommands(cfg, s.enabled)|
        && (ready ==> DisableMisses(cfg, s.enabled, rs) <= failures)
    case FbDirty(id, _, _, _, io) =>
      if Target(s, id).None? then after == before
      else
        var fb := Target(s, id).value;
        var c := DirtyClip(s, fb, e);
        && Said(l, before, after, Delivered(l, mem, fb, c, io))
        && (InFrame(l, before, after) <==> !LeavesFrame(l, mem, fb, c, io))
        && (ready ==> FlushMisses(fb, io) <= failures)
    case _ => after == before
  }

  lemma DirtyUnlisted(cfg: Config, l: Link, s: State, mem: Ptr, e: Event, log: seq<Transfer>, ready: bool, failures: nat)
    requires e.FbDirty? && WellFormed(e) && FirstIndex(s.fbs, e.id) == |s.fbs|
    ensures DirtyStep(cfg, s, e) == s && Spoken(cfg, l, s, mem, e, log, log, ready, failures)
  {
  }

  lemma DirtyDone(cfg: Config, l: Link, s: State, mem: Ptr, e: Event, before: seq<Transfer>, after: seq<Transfer>,
                  ready: bool, failures: nat)
    requires e.FbDirty? && WellFormed(e) && FirstIndex(s.fbs, e.id) < |s.fbs|
    requires
      var fb := s.fbs[FirstIndex(s.fbs, e.id)];
      var c := Merged(if s.enabled then Considered(e.clips, e.num, e.copy) else [], fb.width, fb.height);
      if s.prepared then
        && Said(l, before, after, Delivered(l, mem, fb, c, e.io))
        && (InFrame(l, before, after) <==> !LeavesFrame(l, mem, fb, c, e.io))
      else after == before
    requires s.prepared && ready ==> FlushMisses(s.fbs[FirstIndex(s.fbs, e.id)], e.io) <= failures
    ensures Spoken(cfg, l, s, mem, e, before, after, ready, failures)
    ensures
      var flushed := s.prepared && PixelsSent(s.fbs[FirstIndex(s.fbs, e.id)], e.io);
      DirtyStep(cfg, s, e) == s.(planeFb := Some(e.id), enabled := s.enabled || flushed,
                                 light := s.light || (flushed && !s.enabled && cfg.backlight))
  {
    hide Delivered, Merged, Considered, Said, InFrame, LeavesFrame, PixelsSent, FlushMisses;
  }

  // The panel that hears what the driver says while it handles an event, unless the event
  // upsets it, is the panel of the world's step for that event.
  lemma WorldHears(cfg: Config, l: Link, w: World, e: Event, before: seq<Transfer>, after: seq<Transfer>,
                   ready: bool, failures: nat)
    requires |w.stale| == |w.s.fbs| && WellFormed(e) && !w.midFrame
    requires Spoken(cfg, l, w.s, w.mem, e, before, after, ready, failures) && !Upsets(cfg, l, w.s, e, false)
    ensures before <= after
    ensures
      var panel' := ExecuteAll(w.panel, Parse(Heard(l, after[|before|..])));
      var w' := NextWorld(cfg, l, w, Handle(e, panel', false));
      && w'.s == Step(cfg, w.s, e) && w'.panel == panel'
      && (w'.midFrame <==> !InFrame(l, before, after))
  {
    hide ExecuteAll, Heard, Parse, Step, Delivered, LeavesFrame, StaleAfterFlush, DirtyClip, Aligned, CommandFirst;
    hide ReachedAll, EnableCommands, DisableCommands, Destroyed, Dropped;
    SaidNothing(l, before);
    NothingExecuted(w.panel);
    match e
    case PipeEnable(io) =>
      NothingEnabled(cfg, l, w.s, io, before, after, ready, failures);
    case PipeDisable =>
      var rs :| Talked(l, before, after, DisableCommands(cfg, w.s), rs);
      var none := EnableIo(false, None, false);
      HandlersKeep(cfg, w.s, none, w.panel, seq(|EnableCommands(cfg, w.s, none)|, i => Nothing), rs);
    case FbCreate(_, _) =>
    case FbDestroy(_) =>
    case FbDirty(_, _, _, _, _) =>
    case UnknownEvent =>
  }

  // Where nothing fails, enabling says all it has to say, reads the power mode if it can be
  // read, and its reset succeeds.
  lemma CalmEnable(cfg: Config, l: Link, s: State, mem: Ptr, io: EnableIo, before: seq<Transfer>, after: seq<Transfer>)
    requires Spoken(cfg, l, s, mem, Event.PipeEnable(io), before, after, true, 0)
    ensures Said(l, before, after, EnableCommands(cfg, s, io))
    ensures EnableCommands(cfg, s, io) != [] ==>
      (io.powerMode.Some? <==> cfg.readable) && (DisplayIsOn(io.powerMode) || io.resetOk)
  {
    hide Said, InFrame, EnableCommands, DisplayIsOn, PowerModeCommands, ReachedAll;
    var rs :| Talked(l, before, after, EnableCommands(cfg, s, io), rs)
           && Honest(cfg, s, io, rs) && Misses(rs) == 0;
    AllReached(EnableCommands(cfg, s, io), rs);
    if EnableCommands(cfg, s, io) != [] {
      var k := |PowerModeCommands(cfg)|;
      MissesConcat(rs[..k], rs[k..]);
      assert rs == rs[..k] + rs[k..];
      if !DisplayIsOn(io.powerMode) {
        assert rs[k] in rs;
      }
    }
  }

  lemma CalmDisable(cfg: Config, l: Link, s: State, mem: Ptr, before: seq<Transfer>, after: seq<Transfer>)
    requires Spoken(cfg, l, s, mem, Event.PipeDisable, before, after, true, 0)
    ensures Said(l, before, after, DisableCommands(cfg, s))
  {
    hide Said, InFrame, DisableCommands, DarkCommands, ReachedAll;
    var rs :| Talked(l, before, after, DisableCommands(cfg, s), rs)
           && |rs| >= |DarkCommands(cfg, s.enabled)| && DisableMisses(cfg, s.enabled, rs) == 0;
    var k := |DarkCommands(cfg, s.enabled)|;
    MissesConcat(rs[..k], rs[k..]);
    assert rs == rs[..k] + rs[k..];
    AllReached(DisableCommands(cfg, s), rs);
  }

  // Where nothing fails, a flush of a known format sets its window and sends its pixels.
  lemma CalmDirty(cfg: Config, l: Link, s: State, mem: Ptr, e: Event, before: seq<Transfer>, after: seq<Transfer>)
    requires e.FbDirty? && WellFormed(e) && Target(s, e.id).Some?
    requires Spoken(cfg, l, s, mem, e, before, after, true, 0)
    ensures
      var fb := Target(s, e.id).value;
      var c := DirtyClip(s, fb, e);
      fb.format != OtherFormat ==>
        && WindowSet(e.io) && PixelsSent(fb, e.io)
        && Said(l, before, after, FlushCommands(c, Arrived(l, PixelCall(mem, fb, c))))
  {
    hide Said, InFrame, Target, DirtyClip, Delivered, FlushCommands, Misses;
    OneMiss(e.io.column);
    OneMiss(e.io.page);
    var fb := Target(s, e.id).value;
    if fb.format != OtherFormat {
      DeliveredWhole(l, mem, fb, DirtyClip(s, fb, e), e.io);
    }
  }

  lemma DeliveredWhole(l: Link, mem: Ptr, fb: Fb, c: Clip, io: DirtyIo)
    requires io.column.All? && io.page.All? && PixelsSent(fb, io)
    ensures Delivered(l, mem, fb, c, io) == FlushCommands(c, Arrived(l, PixelCall(mem, fb, c)))
  {
    hide Arrived, PixelCall, WindowParams;
  }

  // Enabling says nothing unless it may disturb the panel.
  lemma NothingEnabled(cfg: Config, l: Link, s: State, io: EnableIo, before: seq<Transfer>, after: seq<Transfer>,
                       ready: bool, failures: nat)
    requires Spoken(cfg, l, s, (a: nat) => 0, Event.PipeEnable(io), before, after, ready, failures)
    requires !Disturbs(cfg, s, Event.PipeEnable(io))
    ensures Said(l, before, after, []) && InFrame(l, before, after)
  {
    hide Said, InFrame;
    var rs :| Talked(l, before, after, EnableCommands(cfg, s, io), rs);
    assert EnableCommands(cfg, s, io) == [];
  }

  lemma OneMiss(r: Reach)
    ensures Misses([r]) == if r.All? then 0 else 1
  {
    assert [r][..0] == [];
  }

  lemma NoMisses()
    ensures Misses([]) == 0
  {
  }

  lemma TalkedLength(l: Link, before: seq<Transfer>, after: seq<Transfer>, cs: seq<Command>, rs: seq<Reach>)
    requires Talked(l, before, after, cs, rs)
    ensures |rs| == |cs|
  {
  }

  // The answers enabling acts on: there is a power mode unless the panel cannot be read or
  // the read failed; and the reset succeeded exactly if it got through.
  ghost predicate Honest(cfg: Config, s: State, io: EnableIo, rs: seq<Reach>)
  {
    EnableCommands(cfg, s, io) != [] ==>
      var k := |PowerModeCommands(cfg)|;
      && k <= |rs|
      && (io.powerMode.Some? ==> cfg.readable)
      && (io.powerMode.None? && cfg.readable ==> Misses(rs[..k]) == 1)
      && (!DisplayIsOn(io.powerMode) ==> k < |rs| && (io.resetOk <==> rs[k].All?))
  }

  // Blanking that finds no memory counts as one miss.
  function DarkMisses(rs: seq<Reach>): nat
  {
    if rs == [Nothing, Nothing, Nothing] then 1 else Misses(rs)
  }

  lemma NoneReachedMisses(rs: seq<Reach>)
    ensures DarkMisses(rs) <= Misses(rs)
  {
    if rs == [Nothing, Nothing, Nothing] {
      assert rs[0] in rs;
    }
  }

  function DisableMisses(cfg: Config, enabled: bool, rs: seq<Reach>): nat
    requires |rs| >= |DarkCommands(cfg, enabled)|
  {
    var k := |DarkCommands(cfg, enabled)|;
    DarkMisses(rs[..k]) + Misses(rs[k..])
  }

  // A series of commands was said, each as far as it got.
  ghost predicate Talked(l: Link, before: seq<Transfer>, after: seq<Transfer>, cs: seq<Command>, rs: seq<Reach>)
  {
    |cs| == |rs| && Said(l, before, after, ReachedAll(cs, rs)) && InFrame(l, before, after)
  }

  lemma TalkedNothing(l: Link, log: seq<Transfer>)
    ensures Talked(l, log, log, [], [])
  {
    hide Said, InFrame;
    SaidNothing(l, log);
  }

  lemma TalkedOne(l: Link, before: seq<Transfer>, after: seq<Transfer>, c: Command, r: Reach)
    requires Said(l, before, after, Reached(c, r)) && InFrame(l, before, after)
    ensures Talked(l, before, after, [c], [r])
  {
    hide Said, InFrame, Reached, ReachedAll;
    ReachedSingle(c, r);
  }

  lemma ReachedSingle(c: Command, r: Reach)
    ensures ReachedAll([c], [r]) == Reached(c, r)
  {
    hide Reached;
    ReachedLast([], [], c, r);
    assert [] + [c] == [c] && [] + [r] == [r] && [] + Reached(c, r) == Reached(c, r);
  }

  lemma TalkedFailed(l: Link, log: seq<Transfer>, c: Command)
    ensures Talked(l, log, log, [c], [Nothing])
  {
    hide Said, InFrame;
    SaidNothing(l, log);
    TalkedOne(l, log, log, c, Nothing);
  }

  lemma TalkedMore(l: Link, a: seq<Transfer>, b: seq<Transfer>, c: seq<Transfer>,
                   cs: seq<Command>, rs: seq<Reach>, ds: seq<Command>, more: seq<Reach>)
    requires Talked(l, a, b, cs, rs) && Talked(l, b, c, ds, more)
    ensures Talked(l, a, c, cs + ds, rs + more)
  {
    hide Said, InFrame, ReachedAll;
    SaidMore(l, a, b, c, ReachedAll(cs, rs), ReachedAll(ds, more));
    ReachedConcat(cs, rs, ds, more);
  }

  lemma ReadNothing(l: Link, log: seq<Transfer>, cfg: Config, rs: seq<Reach>)
    requires rs == if cfg.readable then [Nothing] else []
    ensures Talked(l, log, log, PowerModeCommands(cfg), rs)
  {
    hide Talked;
    TalkedNothing(l, log);
    TalkedFailed(l, log, Command(GET_POWER_MODE, []));
  }

  lemma BlankNothing(l: Link, log: seq<Transfer>)
    ensures Talked(l, log, log, BlankCommands(), [Nothing, Nothing, Nothing])
  {
    hide Talked;
    var cs := BlankCommands();
    TalkedFailed(l, log, cs[0]);
    TalkedFailed(l, log, cs[1]);
    TalkedFailed(l, log, cs[2]);
    TalkedMore(l, log, log, log, [cs[0]], [Nothing], [cs[1]], [Nothing]);
    TalkedMore(l, log, log, log, [cs[0]] + [cs[1]], [Nothing] + [Nothing], [cs[2]], [Nothing]);
    assert [cs[0]] + [cs[1]] + [cs[2]] == cs;
    assert [Nothing] + [Nothing] + [Nothing] == [Nothing, Nothing, Nothing];
  }

  lemma ReachedLast(cs: seq<Command>, rs: seq<Reach>, c: Command, r: Reach)
    requires |cs| == |rs|
    ensures ReachedAll(cs + [c], rs + [r]) == ReachedAll(cs, rs) + Reached(c, r)
  {
    assert (cs + [c])[..|cs|] == cs && (rs + [r])[..|cs|] == rs;
  }

  lemma {:induction false} ReachedConcat(a: seq<Command>, rs: seq<Reach>, b: seq<Command>, more: seq<Reach>)
    requires |a| == |rs| && |b| == |more|
    ensures ReachedAll(a + b, rs + more) == ReachedAll(a, rs) + ReachedAll(b, more)
    decreases |b|
  {
    hide Reached;
    if b == [] {
      assert a + b == a && rs + more == rs;
    } else {
      hide ReachedAll;
      var n := |b| - 1;
      var c, r := b[n], more[n];
      ReachedConcat(a, rs, b[..n], more[..n]);
      ReachedLast(a + b[..n], rs + more[..n], c, r);
      ReachedLast(b[..n], more[..n], c, r);
      assert a + b == a + b[..n] + [c] && rs + more == rs + more[..n] + [r];
      assert b == b[..n] + [c] && more == more[..n] + [r];
    }
  }

  // The read command is heard like a write without parameters.
  lemma ReadSaid(l: Link, before: seq<Transfer>)
    requires l.option3
    ensures Talked(l, before, before + [Transfer(false, [GET_POWER_MODE])], [Command(GET_POWER_MODE, [])], [All])
  {
    hide Said, InFrame;
    var c := Command(GET_POWER_MODE, []);
    var t, w := Transfer(false, [GET_POWER_MODE]), Word(false, GET_POWER_MODE);
    var after := before + [t];
    assert after[|before|..] == [t];
    OneWord(l, t, w);
    assert Said(l, before, after, [c]) && InFrame(l, before, after) by {
      SaidIs(l, before, after, [c]);
    }
    TalkedOne(l, before, after, c, All);
  }

  lemma OneWord(l: Link, t: Transfer, w: Word)
    requires l.option3 && t == Transfer(false, [w.data]) && !w.dc && w.data != 0
    ensures Heard(l, [t]) == [w] && Parse([w]) == [Command(w.data, [])]
  {
    assert [t][..0] == [] && [w][..0] == [];
    assert Tagged(t) == [w];
    assert PinWords([t]) == PinWords([]) + [w];
    assert Strip([w]) == Strip([]) + [w];
    assert Parse([w]) == Parse([]) + [Command(w.data, [])];
  }

  lemma SaidIs(l: Link, before: seq<Transfer>, after: seq<Transfer>, cs: seq<Command>)
    requires l.option3 && before <= after
    requires CommandFirst(Heard(l, after[|before|..])) && Parse(Heard(l, after[|before|..])) == cs
    ensures Said(l, before, after, cs) && InFrame(l, before, after)
  {
    hide Heard, Parse;
  }

  lemma ResetHarmless()
    ensures Harmless(Command(SOFT_RESET, []))
  {
  }

  lemma BlankHarmless()
    ensures forall c :: c in BlankCommands() ==> Harmless(c)
  {
  }

  lemma SleepHarmless()
    ensures forall c :: c in SleepCommands() ==> Harmless(c)
  {
  }

  lemma HarmlessSaid(l: Link, c: Command, ts: seq<Transfer>, done: bool) returns (r: Reach)
    requires Harmless(c) && Accounted(l, Call(c.cmd, Regmap.PtrTo(c.params), |c.params|), ts, done)
    ensures CommandFirst(Heard(l, ts)) && Parse(Heard(l, ts)) == Reached(c, r) && Aligned(l, ts)
    ensures r.All? <==> done
  {
    hide Heard, Parse, Aligned, Arrived, Overruns, CommandFirst, Regmap.PtrTo, CallCovered, Wire1, WriteWords;
    var call := Call(c.cmd, Regmap.PtrTo(c.params), |c.params|);
    if Usable(l) {
      HarmlessArrives(l, c);
    }
    r := HeardReach(l, call, c.params, ts, done);
  }

  lemma NoneToMerge(clips: seq<Clip>, copy: bool)
    ensures ReadCount(0, copy) == 0
    ensures Considered(clips, 0, copy) == []
  {
  }

  lemma WindowHarmless(c: Clip)
    ensures Harmless(Command(SET_COLUMN_ADDRESS, WindowParams(c.x1, c.x2)))
    ensures Harmless(Command(SET_PAGE_ADDRESS, WindowParams(c.y1, c.y2)))
  {
    hide WindowParams;
    WindowLength(c.x1, c.x2);
    WindowLength(c.y1, c.y2);
  }

  // The last part of what a flush delivers.
  function PixelCommands(l: Link, mem: Ptr, fb: Fb, c: Clip, io: DirtyIo): seq<Command>
  {
    if Attempted(fb, io) then Reached(Command(RAM, Arrived(l, PixelCall(mem, fb, c))), io.pixels) else []
  }

  lemma DeliveredIs(l: Link, mem: Ptr, fb: Fb, c: Clip, io: DirtyIo)
    ensures Delivered(l, mem, fb, c, io)
         == Reached(Command(SET_COLUMN_ADDRESS, WindowParams(c.x1, c.x2)), io.column)
            + Reached(Command(SET_PAGE_ADDRESS, WindowParams(c.y1, c.y2)), io.page) + PixelCommands(l, mem, fb, c, io)
  {
    hide Reached, Arrived, PixelCall, WindowParams;
  }

  // What becomes of the pixel write does not depend on the address writes.
  lemma SamePixels(l: Link, mem: Ptr, fb: Fb, c: Clip, io: DirtyIo)
    ensures
      var io' := DirtyIo(Nothing, Nothing, io.allocOk, io.pixels);
      && PixelCommands(l, mem, fb, c, io') == PixelCommands(l, mem, fb, c, io)
      && (PixelsSent(fb, io') <==> PixelsSent(fb, io))
      && (LeavesFrame(l, mem, fb, c, io') <==> LeavesFrame(l, mem, fb, c, io))
  {
    hide Reached, Arrived, PixelCall, Overruns;
  }

  lemma PixelsSaid(l: Link, mem: Ptr, fb: Fb, c: Clip, call: Call, before: seq<Transfer>, after: seq<Transfer>, done: bool)
    returns (r: Reach)
    requires before <= after && Accounted(l, call, after[|before|..], done)
    requires call.reg == RAM && call.len == Length(c) && Holds(call.val, FlushPixels(mem, fb, c))
    ensures Said(l, before, after, Reached(Command(RAM, Arrived(l, PixelCall(mem, fb, c))), r))
    ensures InFrame(l, before, after) <==> !(done && Overruns(l, PixelCall(mem, fb, c)))
    ensures r.All? <==> done
  {
    hide Heard, Parse, Aligned, Arrived, Overruns, CommandFirst, FlushPixels, Holds, Length, PtrTo16, Load, Reached;
    var px, ts := FlushPixels(mem, fb, c), after[|before|..];
    HoldsPtrTo16(px);
    LengthBound(c);
    LengthEven(c);
    HoldsLoad(call.val, PtrTo16(px), Length(c), px);
    SameAccounted(l, RAM, call.val, PtrTo16(px), Length(c), ts, done);
    r := PixelReach(l, PixelCall(mem, fb, c), ts, done);
  }

  lemma PixelReach(l: Link, call: Call, ts: seq<Transfer>, done: bool) returns (r: Reach)
    requires Accounted(l, call, ts, done) && call.reg == RAM && call.len % 2 == 0
    ensures CommandFirst(Heard(l, ts)) && Parse(Heard(l, ts)) == Reached(Command(RAM, Arrived(l, call)), r)
    ensures Aligned(l, ts) <==> !(done && Overruns(l, call))
    ensures r.All? <==> done
  {
    hide Heard, Parse, Aligned, Arrived, Overruns, CommandFirst, Reached, WriteWords, CallCovered, Wire1;
    r := HeardReach(l, call, Arrived(l, call), ts, done);
  }
}
