// A serial link from the driver to the panel, and what the panel hears over it.
module Wire {
  import opened Bytes
  import opened SpiBus
  import opened Arith
  import opened Transport
  import Interface
  import Option1
  import Option1Decode
  import Option3

  // Option 3 or Option 1, the controller's word sizes and its DMA limit.
  datatype Link = Link(option3: bool, mask: bv32, maxDma: nat)

  // The emulated Option 1 needs room for one block.
  predicate Usable(l: Link) { l.option3 || Usable1(l.maxDma) }

  // A controller with 9-bit words takes another branch.
  predicate Emulated(l: Link) { l.option3 || !Option3.BpwSupported(l.mask, 9) }

  // How many of the data bytes Option 1 carries.
  function CarriedLength(bpw: nat, len: nat, m: nat): (n: nat)
    requires m > 0
    ensures n <= len
  {
    var r := len % 8;
    if r != 0 && Option1.TailIsPadded(len, m) then len - r + Option1.TailSent(bpw, r) else len
  }

  function CarriedBytes(bpw: nat, p: Ptr, n: nat): (s: seq<byte>)
    ensures |s| == n
  {
    seq(n, i requires 0 <= i < n => Option1.SrcByte(bpw, p, i))
  }

  // The parameters Option 1 delivers.
  function Params1(maxDma: nat, c: Call): (s: seq<byte>)
    requires Usable1(maxDma)
    ensures |s| <= c.len
  {
    if c.len == 0 then []
    else
      Chunk1Positive(maxDma);
      CarriedBytes(Width(c.reg), c.val, CarriedLength(Width(c.reg), c.len, Chunk1(maxDma)))
  }

  // The parameters a register write delivers.
  function Arrived(l: Link, c: Call): seq<byte>
  {
    if l.option3 then Params3(l.mask, c) else if Usable1(l.maxDma) then Params1(l.maxDma, c) else []
  }

  // What the panel hears in some transfers, apart from no-ops.
  function Heard(l: Link, ts: seq<Transfer>): seq<Word>
  {
    Strip(if l.option3 then PinWords(ts) else Receive(Sent(ts)))
  }

  // What it hears of a complete register write.
  function WriteWords(l: Link, c: Call): seq<Word>
  {
    Strip([Word(false, c.reg)] + DataWords(Arrived(l, c)))
  }

  // The receiver is at the start of a frame after the transfers if it was before.
  predicate Aligned(l: Link, ts: seq<Transfer>)
  {
    l.option3 || |Sent(ts)| % 9 == 0
  }

  // A write whose last block is cut short inside a frame.
  predicate Overruns(l: Link, c: Call)
  {
    && !l.option3 && Usable1(l.maxDma) && c.len % 8 != 0
    && (Chunk1Positive(l.maxDma); !Option1.TailIsPadded(c.len, Chunk1(l.maxDma)))
  }

  // The lengths of 16-bit data whose pairs of bytes all have two bytes.
  predicate WholeWords(c: Call) { Width(c.reg) == 8 || c.len % 2 == 0 }

  // What a register write left on the link, whether it succeeded or not.
  ghost predicate Accounted(l: Link, c: Call, ts: seq<Transfer>, done: bool)
  {
    && (WholeWords(c) ==> Heard(l, ts) <= WriteWords(l, c) && (done ==> Heard(l, ts) == WriteWords(l, c)))
    && (!Usable(l) ==> Heard(l, ts) == [] && !done)
    && (Aligned(l, ts) <==> !(done && Overruns(l, c)))
    && (!l.option3 && Usable1(l.maxDma) && CallCovered(l.maxDma, c) ==>
         Sent(ts) <= Wire1(l.maxDma, c) && (done ==> Sent(ts) == Wire1(l.maxDma, c)))
  }

  lemma StripPrefix(a: seq<Word>, b: seq<Word>)
    requires a <= b
    ensures Strip(a) <= Strip(b)
  {
    StripConcat(a, b[|a|..]);
    assert b == a + b[|a|..];
  }

  // The data half of Option 1 as the panel hears it.
  lemma CarriedWords(bpw: nat, p: Ptr, len: nat, m: nat)
    requires m > 0
    ensures
      var s := CarriedBytes(bpw, p, CarriedLength(bpw, len, m));
      Strip(Option1Decode.Carried(bpw, p, len, m)) == DataWords(s)
  {
    hide Strip, Option1.SrcByte, Option1.TailIsPadded, Option1.TailSent;
    var n, r := CarriedLength(bpw, len, m), len % 8;
    var s := CarriedBytes(bpw, p, n);
    assert Option1.SrcWords(bpw, p, 0, n) == DataWords(s);
    StripData(s);
    if r != 0 && Option1.TailIsPadded(len, m) {
      StripConcat(DataWords(s), Option1.Nops(8 - Option1.TailSent(bpw, r)));
      StripNops(8 - Option1.TailSent(bpw, r));
      assert DataWords(s) + [] == DataWords(s);
    }
  }

  // A register write over Option 1, as the panel hears it, and where it leaves the frame.
  lemma WireHeard(l: Link, c: Call)
    requires !l.option3 && Usable1(l.maxDma)
    ensures Strip(Receive(Wire1(l.maxDma, c))) == WriteWords(l, c)
    ensures |Wire1(l.maxDma, c)| % 9 == 0 <==> !Overruns(l, c)
  {
    hide Receive, NineBit.Pack, Option1.DataWire, Strip, Option1Decode.Carried, Option1.TailIsPadded, DataWords;
    hide CarriedBytes, CarriedLength;
    Chunk1Positive(l.maxDma);
    var m, w := Chunk1(l.maxDma), Width(c.reg);
    var cmd, head := CommandBlock(c.reg), [Word(false, c.reg)];
    NineBit.ReceivePack(Option1.Nops(7) + head);
    StripConcat(Option1.Nops(7), head);
    StripNops(7);
    assert [] + Strip(head) == Strip(head);
    StripConcat(head, DataWords(Arrived(l, c)));
    StripData(Arrived(l, c));
    if c.len == 0 {
      assert cmd + [] == cmd;
      NoData();
      assert Strip(head) + [] == Strip(head);
    } else {
      var data := Option1.DataWire(w, c.val, c.len, m);
      Option1Decode.ReceiveData(w, c.val, c.len, m);
      ReceiveConcat(cmd, data);
      StripConcat(Option1.Nops(7) + head, Receive(data));
      CarriedWords(w, c.val, c.len, m);
      Frames(|data|);
    }
  }

  lemma NoData()
    ensures DataWords([]) == [] && Strip([]) == []
  {
  }

  lemma Frames(n: nat)
    ensures (9 + n) % 9 == 0 <==> 8 * n % 9 == 0
  {
    Interface.NineMore(n);
    if 8 * n % 9 == 0 {
      NineDivides(n);
    }
    if n % 9 == 0 {
      NineBlocks(n / 9);
    }
  }

  lemma NineBlocks(q: nat)
    ensures 8 * (9 * q) % 9 == 0
  {
    assert 8 * (9 * q) == 9 * (8 * q);
  }

  // Whatever start of the wire image was sent, the panel hears a start of the write.
  lemma WireAccounted(l: Link, c: Call, ts: seq<Transfer>, done: bool)
    requires !l.option3 && Usable1(l.maxDma)
    requires Sent(ts) <= Wire1(l.maxDma, c)
    requires if done then Sent(ts) == Wire1(l.maxDma, c) else |Sent(ts)| % 9 == 0
    ensures Accounted(l, c, ts, done)
  {
    hide Receive, Wire1, Strip, CallCovered, WriteWords, Overruns;
    var wire, sent := Wire1(l.maxDma, c), Sent(ts);
    WireHeard(l, c);
    Option1Decode.ReceivePrefix(wire, |sent|);
    assert wire[..|sent|] == sent;
    StripPrefix(Receive(sent), Receive(wire));
  }

  lemma PinAccounted(l: Link, c: Call, ts: seq<Transfer>, done: bool)
    requires l.option3
    requires WholeWords(c) ==> PinWords(ts) <= Words3(l.mask, c) && (done ==> PinWords(ts) == Words3(l.mask, c))
    ensures Accounted(l, c, ts, done)
  {
    hide PinWords, Params3, Strip;
    if WholeWords(c) {
      StripPrefix(PinWords(ts), Words3(l.mask, c));
    }
  }

  lemma NothingHeard()
    ensures Strip(Receive([])) == [] && Strip([]) == []
  {
    assert Receive([]) == [];
  }

  lemma NothingAccounted(l: Link, c: Call, ts: seq<Transfer>)
    requires if l.option3 then PinWords(ts) == [] else Sent(ts) == []
    ensures Accounted(l, c, ts, false) && Heard(l, ts) == []
  {
    hide Receive, Wire1, CallCovered;
    NothingHeard();
  }

  // ---- The same bytes at another place ----

  lemma SameBytes(p: Ptr, q: Ptr, n: nat)
    requires Load(p, 0, n) == Load(q, 0, n)
    ensures forall i: nat :: i < n ==> p(i) == q(i)
  {
    forall i: nat | i < n
      ensures p(i) == q(i)
    {
      assert Load(p, 0, n)[i] == Load(q, 0, n)[i];
      assert 0 + i == i;
    }
  }

  lemma SameSource(bpw: nat, p: Ptr, q: Ptr, len: nat, i: nat)
    requires Load(p, 0, len) == Load(q, 0, len)
    requires i < len && (bpw == 8 || len % 2 == 0)
    ensures Option1.SrcByte(bpw, p, i) == Option1.SrcByte(bpw, q, i)
  {
    SameBytes(p, q, len);
    if bpw != 8 && i % 2 == 0 {
      NextInPair(i, len);
    }
  }

  lemma NextInPair(i: nat, len: nat)
    requires i < len && i % 2 == 0 && len % 2 == 0
    ensures i + 1 < len
  {
  }

  lemma SameCarried(bpw: nat, p: Ptr, q: Ptr, len: nat, n: nat)
    requires Load(p, 0, len) == Load(q, 0, len)
    requires n <= len && (bpw == 8 || len % 2 == 0)
    ensures CarriedBytes(bpw, p, n) == CarriedBytes(bpw, q, n)
  {
    hide Option1.SrcByte, Load;
    forall i | 0 <= i < n
      ensures CarriedBytes(bpw, p, n)[i] == CarriedBytes(bpw, q, n)[i]
    {
      SameSource(bpw, p, q, len, i);
    }
  }

  lemma SameWords(bpw: nat, p: Ptr, q: Ptr, len: nat, lo: nat, hi: nat)
    requires Load(p, 0, len) == Load(q, 0, len)
    requires lo <= hi <= len && (bpw == 8 || len % 2 == 0)
    ensures Option1.SrcWords(bpw, p, lo, hi) == Option1.SrcWords(bpw, q, lo, hi)
  {
    hide Option1.SrcByte, Load;
    forall i | 0 <= i < hi - lo
      ensures Option1.SrcWords(bpw, p, lo, hi)[i] == Option1.SrcWords(bpw, q, lo, hi)[i]
    {
      SameSource(bpw, p, q, len, lo + i);
    }
  }

  lemma {:induction false} SameBlocks(bpw: nat, p: Ptr, q: Ptr, len: nat, n: nat)
    requires Load(p, 0, len) == Load(q, 0, len)
    requires 8 * n <= len && (bpw == 8 || len % 2 == 0)
    ensures Option1.BlocksWire(bpw, p, 0, n) == Option1.BlocksWire(bpw, q, 0, n)
    decreases n
  {
    hide Option1.SrcWords, NineBit.Pack, Load;
    if n > 0 {
      SameBlocks(bpw, p, q, len, n - 1);
      SameWords(bpw, p, q, len, 8 * (n - 1), 8 * n);
    }
  }

  // The wire image of data that does not run past its end is decided by its bytes.
  lemma SameData(bpw: nat, p: Ptr, q: Ptr, len: nat, m: nat)
    requires m > 0 && Load(p, 0, len) == Load(q, 0, len) && (bpw == 8 || len % 2 == 0)
    requires len % 8 == 0 || Option1.TailIsPadded(len, m)
    ensures Option1.DataWire(bpw, p, len, m) == Option1.DataWire(bpw, q, len, m)
  {
    hide Option1.SrcWords, NineBit.Pack, Load, Option1.BlocksWire, Option1.TailIsPadded, Option1.TailSent;
    var r := len % 8;
    SameBlocks(bpw, p, q, len, len / 8);
    if r != 0 {
      SameWords(bpw, p, q, len, len - r, len - r + Option1.TailSent(bpw, r));
    }
  }

  // For covered lengths equal value bytes give equal wire images.
  lemma SameWire(maxDma: nat, reg: byte, p: Ptr, q: Ptr, n: nat)
    requires Usable1(maxDma) && Load(p, 0, n) == Load(q, 0, n) && CallCovered(maxDma, Call(reg, p, n))
    ensures Wire1(maxDma, Call(reg, p, n)) == Wire1(maxDma, Call(reg, q, n))
  {
    hide Load, Option1.DataWire, Option1.TailIsPadded, Option1.TailSent;
    if reg == RAM {
      CoveredEven(maxDma, Call(reg, p, n));
    }
    if n != 0 {
      Chunk1Positive(maxDma);
      SameData(Width(reg), p, q, n, Chunk1(maxDma));
    }
  }

  // What a register write leaves is decided by the register and the value bytes, not by
  // where they lie.
  lemma SameAccounted(l: Link, reg: byte, p: Ptr, q: Ptr, n: nat, ts: seq<Transfer>, done: bool)
    requires Load(p, 0, n) == Load(q, 0, n) && Accounted(l, Call(reg, p, n), ts, done)
    ensures Accounted(l, Call(reg, q, n), ts, done)
  {
    hide Load, Strip, DataWords, Heard, CarriedBytes, CarriedLength, Option3.Swaps, Wire1, Option1.TailIsPadded;
    var c, d := Call(reg, p, n), Call(reg, q, n);
    if WholeWords(c) && !l.option3 && Usable1(l.maxDma) && n != 0 {
      Chunk1Positive(l.maxDma);
      SameCarried(Width(reg), p, q, n, CarriedLength(Width(reg), n, Chunk1(l.maxDma)));
    }
    if !l.option3 && Usable1(l.maxDma) && CallCovered(l.maxDma, c) {
      SameWire(l.maxDma, reg, p, q, n);
    }
  }

  // ---- Several writes ----

  // What became of a register write: it succeeded, it failed with the command and some
  // parameter bytes sent, or with nothing.
  datatype Reach = All | Part(n: nat) | Nothing

  function Got(r: Reach, s: seq<byte>): (g: seq<byte>)
    ensures g <= s
  {
    match r
    case All => s
    case Part(n) => if n < |s| then s[..n] else s
    case Nothing => []
  }

  // The command as far as it reached the panel.
  function Reached(c: Command, r: Reach): seq<Command>
  {
    if r.Nothing? then [] else [Command(c.cmd, Got(r, c.params))]
  }

  function ReachedAll(cs: seq<Command>, rs: seq<Reach>): seq<Command>
    requires |cs| == |rs|
  {
    if cs == [] then []
    else ReachedAll(cs[..|cs| - 1], rs[..|cs| - 1]) + Reached(cs[|cs| - 1], rs[|cs| - 1])
  }

  predicate CommandFirst(ws: seq<Word>) { ws == [] || !ws[0].dc }

  lemma {:induction false} CommandsStart(ws: seq<Word>)
    requires CommandFirst(ws) && ws != []
    ensures Parse(ws) != []
    decreases |ws|
  {
    if |ws| > 1 {
      CommandsStart(ws[..|ws| - 1]);
    }
  }

  lemma ParseLast(ws: seq<Word>, w: Word)
    requires w.dc ==> Parse(ws) != []
    ensures Parse(ws + [w]) == if w.dc then Extend(Parse(ws), [w.data]) else Parse(ws) + [Command(w.data, [])]
  {
    hide Extend;
    assert (ws + [w])[..|ws|] == ws;
  }

  lemma ExtendLast(a: seq<Command>, b: seq<Command>, s: seq<byte>)
    requires b != []
    ensures Extend(a + b, s) == a + Extend(b, s)
  {
    assert (a + b)[..|a + b| - 1] == a + b[..|b| - 1];
  }

  // Words that begin with a command do not depend on what came before.
  lemma {:induction false} ParseConcat(a: seq<Word>, b: seq<Word>)
    requires CommandFirst(b)
    ensures Parse(a + b) == Parse(a) + Parse(b)
    decreases |b|
  {
    hide Extend;
    if b == [] {
      assert a + b == a;
    } else {
      hide Parse;
      var b', w := b[..|b| - 1], b[|b| - 1];
      ParseConcat(a, b');
      assert a + b == a + b' + [w] && b == b' + [w];
      if w.dc {
        CommandsStart(b');
        ExtendLast(Parse(a), Parse(b'), [w.data]);
      }
      ParseLast(a + b', w);
      ParseLast(b', w);
    }
  }

  lemma PrefixReach(reg: byte, params: seq<byte>, ws: seq<Word>, done: bool) returns (r: Reach)
    requires ws <= [Word(false, reg)] + DataWords(params)
    requires done ==> ws == [Word(false, reg)] + DataWords(params)
    ensures CommandFirst(ws) && Parse(ws) == Reached(Command(reg, params), r)
    ensures r.All? <==> done
  {
    hide DataWords, Parse;
    if ws == [] {
      r := Nothing;
      ParseNothing();
    } else {
      var n := |ws| - 1;
      var start := params[..n];
      DataPrefix(params, n);
      assert ws == [] + ([Word(false, reg)] + DataWords(start));
      ParseWrite([], reg, start);
      ParseNothing();
      assert params[..|params|] == params;
      r := if done then All else Part(n);
    }
  }

  lemma ParseNothing()
    ensures Parse([]) == []
  {
  }

  // The panel makes of a register write the command as far as it was sent.
  lemma HeardReach(l: Link, c: Call, params: seq<byte>, ts: seq<Transfer>, done: bool) returns (r: Reach)
    requires Accounted(l, c, ts, done) && WholeWords(c) && c.reg != 0
    requires Usable(l) ==> params == Arrived(l, c)
    ensures CommandFirst(Heard(l, ts)) && Parse(Heard(l, ts)) == Reached(Command(c.reg, params), r)
    ensures r.All? <==> done
  {
    hide Heard, Parse, DataWords, CallCovered, Wire1, Aligned, Overruns, Arrived, Reached, WriteWords, CommandFirst;
    if Usable(l) {
      WriteIs(l, c);
      r := PrefixReach(c.reg, params, Heard(l, ts), done);
    } else {
      r := PrefixReach(c.reg, params, [], false);
    }
  }

  lemma WriteIs(l: Link, c: Call)
    requires c.reg != 0
    ensures WriteWords(l, c) == [Word(false, c.reg)] + DataWords(Arrived(l, c))
  {
    hide Arrived;
    StripConcat([Word(false, c.reg)], DataWords(Arrived(l, c)));
    StripData(Arrived(l, c));
  }

  lemma DataPrefix(s: seq<byte>, n: nat)
    requires n <= |s|
    ensures DataWords(s)[..n] == DataWords(s[..n])
  {
  }

  // Transfers that end on a frame boundary do not disturb the next ones.
  lemma HeardConcat(l: Link, a: seq<Transfer>, b: seq<Transfer>)
    requires Aligned(l, a)
    ensures Heard(l, a + b) == Heard(l, a) + Heard(l, b)
    ensures Aligned(l, a + b) == Aligned(l, b)
  {
    hide Receive, Strip, Sent, PinWords;
    if l.option3 {
      Interface.PinWordsConcat(a, b);
      StripConcat(PinWords(a), PinWords(b));
    } else {
      Interface.SentConcat(a, b);
      ReceiveConcat(Sent(a), Sent(b));
      StripConcat(Receive(Sent(a)), Receive(Sent(b)));
      SameFrame(|Sent(a)|, |Sent(b)|);
    }
  }

  lemma SameFrame(m: nat, n: nat)
    requires m % 9 == 0
    ensures (m + n) % 9 == n % 9
  {
    var q := m / 9;
    assert m == 9 * q;
  }

  // Writes of a few parameters are carried whole and end on a frame boundary.
  lemma ShortWrite(l: Link, c: Call)
    requires Usable(l) && c.len < 16 && c.reg != RAM
    ensures Arrived(l, c) == Params(c) && !Overruns(l, c)
  {
    hide SwapPairs;
    if !l.option3 && c.len != 0 {
      Chunk1Positive(l.maxDma);
      var m := Chunk1(l.maxDma);
      ShortLength(c.len, m);
      Option1Decode.SentExactly(c.len % 8);
      assert CarriedLength(8, c.len, m) == c.len;
      assert CarriedBytes(8, c.val, c.len) == Load(c.val, 0, c.len);
    }
  }

  lemma ShortLength(len: nat, m: nat)
    requires len < 16 && m >= 8 && m % 8 == 0
    ensures Option1.TailIsPadded(len, m)
  {
    if m > 8 {
      assert m >= 16;
    }
  }

  // What the panel makes of the transfers between two states of the log.
  ghost predicate Said(l: Link, before: seq<Transfer>, after: seq<Transfer>, cs: seq<Command>)
  {
    before <= after
    && var ws := Heard(l, after[|before|..]);
       CommandFirst(ws) && Parse(ws) == cs
  }

  // They end on a frame boundary.
  ghost predicate InFrame(l: Link, before: seq<Transfer>, after: seq<Transfer>)
  {
    before <= after && Aligned(l, after[|before|..])
  }

  lemma SaidNothing(l: Link, log: seq<Transfer>)
    ensures Said(l, log, log, []) && InFrame(l, log, log)
  {
    hide Receive;
    assert log[|log|..] == [];
    NothingHeard();
    ParseNothing();
    assert Sent([]) == [];
  }

  lemma SaidMore(l: Link, a: seq<Transfer>, b: seq<Transfer>, c: seq<Transfer>, cs: seq<Command>, ds: seq<Command>)
    requires Said(l, a, b, cs) && InFrame(l, a, b) && Said(l, b, c, ds)
    ensures Said(l, a, c, cs + ds) && (InFrame(l, a, c) <==> InFrame(l, b, c))
  {
    hide Heard, Parse, Aligned, CommandFirst;
    var s, t := b[|a|..], c[|b|..];
    assert c[|a|..] == s + t;
    HeardConcat(l, s, t);
    ParseConcat(Heard(l, s), Heard(l, t));
    FirstOfTwo(Heard(l, s), Heard(l, t));
  }

  lemma FirstOfTwo(a: seq<Word>, b: seq<Word>)
    requires CommandFirst(a) && CommandFirst(b)
    ensures CommandFirst(a + b)
  {
    assert a == [] ==> a + b == b;
  }

  // How many of several writes did not get through.
  function Misses(rs: seq<Reach>): (n: nat)
    ensures n == 0 <==> forall r :: r in rs ==> r.All?
  {
    if rs == [] then 0 else Misses(rs[..|rs| - 1]) + if rs[|rs| - 1].All? then 0 else 1
  }

  lemma {:induction false} MissesConcat(a: seq<Reach>, b: seq<Reach>)
    ensures Misses(a + b) == Misses(a) + Misses(b)
    decreases |b|
  {
    if b == [] {
      assert a + b == a;
    } else {
      MissesConcat(a, b[..|b| - 1]);
      assert (a + b)[..|a + b| - 1] == a + b[..|b| - 1];
    }
  }

  // Commands that all get through arrive as they are.
  lemma {:induction false} AllReached(cs: seq<Command>, rs: seq<Reach>)
    requires |cs| == |rs| && Misses(rs) == 0
    ensures ReachedAll(cs, rs) == cs
    decreases |cs|
  {
    if cs != [] {
      var n := |cs| - 1;
      assert rs[n] in rs;
      AllReached(cs[..n], rs[..n]);
      assert cs == cs[..n] + [cs[n]];
    }
  }
}
