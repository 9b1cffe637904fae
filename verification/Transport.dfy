// Register writes over the two serial transports (mipi-dbi.c:342-371, 389-429) and
// what the panel receives.
module Transport {
  import opened Bytes
  import opened NineBit
  import opened SpiBus
  import opened Arith
  import Option1
  import Option1Decode
  import Option3

  const RAM: byte := 0x2C // MIPI_DCS_WRITE_MEMORY_START
  const CHUNK1: nat := 4096

  // One register write: the register, the value bytes and how many there are.
  datatype Call = Call(reg: byte, val: Ptr, len: nat)

  // A command with its parameters, as the panel sees it.
  datatype Command = Command(cmd: byte, params: seq<byte>)

  function Width(reg: byte): nat { if reg == RAM then 16 else 8 }

  // The source bytes one chunk of Option 1 takes.
  function Chunk1(maxDma: nat): nat { Option1.ClampSize(maxDma, CHUNK1) / 9 * 8 }

  predicate Usable1(maxDma: nat) { Option1.ClampSize(maxDma, CHUNK1) >= 9 }

  lemma Chunk1Positive(maxDma: nat)
    requires Usable1(maxDma)
    ensures Chunk1(maxDma) >= 8
  {
  }

  // However large the DMA limit, a chunk takes 3640 bytes of the source.
  lemma Chunk1Limit(maxDma: nat)
    ensures Chunk1(maxDma) <= 3640
    ensures maxDma >= CHUNK1 ==> Chunk1(maxDma) == 3640 && Usable1(maxDma)
  {
    Option1.ClampIsLargest(maxDma, CHUNK1, if maxDma >= CHUNK1 then CHUNK1 else 0);
  }

  function CommandBlock(reg: byte): (s: seq<byte>)
    ensures |s| == 9
  {
    Pack(Option1.Nops(7) + [Word(false, reg)])
  }

  // The wire image of a write over emulated Option 1.
  function Wire1(maxDma: nat, c: Call): seq<byte>
    requires Usable1(maxDma)
  {
    Chunk1Positive(maxDma);
    CommandBlock(c.reg) + if c.len == 0 then [] else Option1.DataWire(Width(c.reg), c.val, c.len, Chunk1(maxDma))
  }

  function DataWords(s: seq<byte>): (ws: seq<Word>)
    ensures |ws| == |s|
  {
    seq(|s|, i requires 0 <= i < |s| => Word(true, s[i]))
  }

  // The bytes of a transfer tagged with the pin: what Option 3 delivers.
  function Tagged(t: Transfer): (ws: seq<Word>)
    ensures |ws| == |t.data|
  {
    seq(|t.data|, i requires 0 <= i < |t.data| => Word(t.pin, t.data[i]))
  }

  function PinWords(ts: seq<Transfer>): seq<Word>
  {
    if ts == [] then [] else PinWords(ts[..|ts| - 1]) + Tagged(ts[|ts| - 1])
  }

  // The parameters a write means: pixels are 16-bit values sent high byte first.
  function Params(c: Call): seq<byte>
  {
    var val := Load(c.val, 0, c.len);
    if c.reg == RAM then SwapPairs(val) else val
  }

  // The words a write means.
  function Words(c: Call): seq<Word>
  {
    [Word(false, c.reg)] + DataWords(Params(c))
  }

  function AllWords(cs: seq<Call>): seq<Word>
  {
    if cs == [] then [] else AllWords(cs[..|cs| - 1]) + Words(cs[|cs| - 1])
  }

  function AllWire1(maxDma: nat, cs: seq<Call>): seq<byte>
    requires Usable1(maxDma)
  {
    if cs == [] then [] else AllWire1(maxDma, cs[..|cs| - 1]) + Wire1(maxDma, cs[|cs| - 1])
  }

  // No-operation commands removed.
  function Strip(ws: seq<Word>): seq<Word>
  {
    if ws == [] then []
    else if ws[|ws| - 1] == NOP then Strip(ws[..|ws| - 1])
    else Strip(ws[..|ws| - 1]) + [ws[|ws| - 1]]
  }

  // The command interpreter: a command word starts a command, data words extend it.
  function Parse(ws: seq<Word>): seq<Command>
  {
    if ws == [] then []
    else
      var cs, w := Parse(ws[..|ws| - 1]), ws[|ws| - 1];
      if !w.dc then cs + [Command(w.data, [])]
      else if cs == [] then []
      else Extend(cs, [w.data])
  }

  // More parameters for the last command.
  function Extend(cs: seq<Command>, s: seq<byte>): (r: seq<Command>)
    requires cs != []
    ensures |r| == |cs|
  {
    var last := cs[|cs| - 1];
    cs[..|cs| - 1] + [Command(last.cmd, last.params + s)]
  }

  // The commands a sequence of writes means.
  function Commands(cs: seq<Call>): (r: seq<Command>)
    ensures |r| == |cs|
  {
    seq(|cs|, i requires 0 <= i < |cs| => Command(cs[i].reg, Params(cs[i])))
  }

  // The lengths the Option 1 encoder handles as intended.
  ghost predicate CallCovered(maxDma: nat, c: Call)
    requires Usable1(maxDma)
  {
    Chunk1Positive(maxDma);
    c.len == 0 || Option1Decode.Covered(Width(c.reg), c.len, Chunk1(maxDma))
  }

  lemma {:induction false} StripConcat(a: seq<Word>, b: seq<Word>)
    ensures Strip(a + b) == Strip(a) + Strip(b)
    decreases |b|
  {
    if b == [] {
      assert a + b == a;
    } else {
      StripConcat(a, b[..|b| - 1]);
      assert (a + b)[..|a + b| - 1] == a + b[..|b| - 1];
    }
  }

  lemma {:induction false} StripNops(n: nat)
    ensures Strip(Option1.Nops(n)) == []
  {
    if n > 0 {
      StripNops(n - 1);
      assert Option1.Nops(n)[..n - 1] == Option1.Nops(n - 1);
    }
  }

  lemma {:induction false} StripData(s: seq<byte>)
    ensures Strip(DataWords(s)) == DataWords(s)
    decreases |s|
  {
    if s != [] {
      StripData(s[..|s| - 1]);
      assert DataWords(s)[..|s| - 1] == DataWords(s[..|s| - 1]);
    }
  }

  lemma ExtendTwice(cs: seq<Command>, s: seq<byte>, t: seq<byte>)
    requires cs != []
    ensures Extend(Extend(cs, s), t) == Extend(cs, s + t)
    ensures Extend(cs, []) == cs
  {
    var last := cs[|cs| - 1];
    assert last.params + s + t == last.params + (s + t);
    assert last.params + [] == last.params;
  }

  lemma ParseStep(ws: seq<Word>, b: byte)
    requires Parse(ws) != []
    ensures Parse(ws + [Word(true, b)]) == Extend(Parse(ws), [b])
  {
    assert (ws + [Word(true, b)])[..|ws|] == ws;
  }

  lemma {:induction false} ParseData(ws: seq<Word>, s: seq<byte>)
    requires Parse(ws) != []
    ensures Parse(ws + DataWords(s)) == Extend(Parse(ws), s)
    decreases |s|
  {
    hide Extend, Parse;
    if s == [] {
      assert ws + DataWords(s) == ws;
      ExtendTwice(Parse(ws), [], []);
    } else {
      var s', b := s[..|s| - 1], s[|s| - 1];
      ParseData(ws, s');
      ParseStep(ws + DataWords(s'), b);
      ExtendTwice(Parse(ws), s', [b]);
      assert ws + DataWords(s) == ws + DataWords(s') + [Word(true, b)];
      assert s == s' + [b];
    }
  }

  lemma ParseWrite(ws: seq<Word>, reg: byte, params: seq<byte>)
    ensures Parse(ws + ([Word(false, reg)] + DataWords(params))) == Parse(ws) + [Command(reg, params)]
  {
    var head := ws + [Word(false, reg)];
    assert head[..|head| - 1] == ws;
    assert ws + ([Word(false, reg)] + DataWords(params)) == head + DataWords(params);
    ParseData(head, params);
    assert [] + params == params;
  }

  // ---- Option 1 ----

  // The words of the data half are the parameters.
  lemma SrcWordsAreParams(c: Call)
    requires c.reg == RAM ==> c.len % 2 == 0
    ensures Option1.SrcWords(Width(c.reg), c.val, 0, c.len) == DataWords(Params(c))
  {
    var ws, ds := Option1.SrcWords(Width(c.reg), c.val, 0, c.len), DataWords(Params(c));
    forall i | 0 <= i < c.len
      ensures ws[i] == ds[i]
    {
      if c.reg == RAM {
        SwapPairsAt(Load(c.val, 0, c.len), i);
      }
    }
  }

  lemma CoveredEven(maxDma: nat, c: Call)
    requires Usable1(maxDma) && CallCovered(maxDma, c) && c.reg == RAM
    ensures c.len % 2 == 0
  {
    if c.len != 0 {
      Chunk1Positive(maxDma);
      Option1Decode.CoveredIs(c.len, Chunk1(maxDma));
      EvenByEighth(c.len);
    }
  }

  // One covered write decodes to its words, up to no-ops, and leaves no partial frame.
  lemma DecodeWire1(maxDma: nat, c: Call)
    requires Usable1(maxDma) && CallCovered(maxDma, c)
    ensures |Wire1(maxDma, c)| % 9 == 0
    ensures Strip(Receive(Wire1(maxDma, c))) == Strip(Words(c))
  {
    hide Receive, Pack, Params, Option1.DataWire, Option1Decode.Covered, Strip, Option1.SrcWords;
    Chunk1Positive(maxDma);
    var m := Chunk1(maxDma);
    var cmd, head := CommandBlock(c.reg), [Word(false, c.reg)];
    ReceivePack(Option1.Nops(7) + head);
    StripConcat(Option1.Nops(7), head);
    StripNops(7);
    StripConcat(head, DataWords(Params(c)));
    if c.len == 0 {
      assert cmd + [] == cmd;
      assert DataWords(Params(c)) == [] by { NoParams(c); }
      assert [] + Strip(head) == Strip(head);
      assert head + [] == head;
    } else {
      if c.reg == RAM { CoveredEven(maxDma, c); }
      SrcWordsAreParams(c);
      var data := Option1.DataWire(Width(c.reg), c.val, c.len, m);
      Option1Decode.RoundTrip(Width(c.reg), c.val, c.len, m);
      var n :| 0 <= n < 8 && Receive(data) == DataWords(Params(c)) + Option1.Nops(n);
      StripConcat(DataWords(Params(c)), Option1.Nops(n));
      StripNops(n);
      ReceiveConcat(cmd, data);
      StripConcat(Option1.Nops(7) + head, Receive(data));
      WholeFrames(data);
    }
  }

  lemma NoParams(c: Call)
    requires c.len == 0
    ensures Params(c) == []
  {
  }

  lemma WholeFrames(s: seq<byte>)
    requires Unfinished(s) == 0
    ensures |s| % 9 == 0
  {
    NineDivides(|s|);
  }

  // The Option 1 receiver gets the words of every write of a covered sequence.
  lemma {:induction false} DecodeAll1(maxDma: nat, cs: seq<Call>)
    requires Usable1(maxDma) && forall c :: c in cs ==> CallCovered(maxDma, c)
    ensures |AllWire1(maxDma, cs)| % 9 == 0
    ensures Strip(Receive(AllWire1(maxDma, cs))) == Strip(AllWords(cs))
    decreases |cs|
  {
    hide Receive, Wire1, Words, Strip, CallCovered;
    if cs == [] {
      Option1.ReceiveNothing();
    } else {
      var cs', c := cs[..|cs| - 1], cs[|cs| - 1];
      DecodeAll1(maxDma, cs');
      DecodeWire1(maxDma, c);
      ReceiveConcat(AllWire1(maxDma, cs'), Wire1(maxDma, c));
      StripConcat(Receive(AllWire1(maxDma, cs')), Receive(Wire1(maxDma, c)));
      StripConcat(AllWords(cs'), Words(c));
      NineSum(|AllWire1(maxDma, cs')|, |Wire1(maxDma, c)|);
    }
  }

  lemma NineSum(a: nat, b: nat)
    requires a % 9 == 0 && b % 9 == 0
    ensures (a + b) % 9 == 0
  {
  }

  // ---- The commands ----

  lemma {:induction false} ParseAll(cs: seq<Call>)
    ensures Parse(AllWords(cs)) == Commands(cs)
    decreases |cs|
  {
    hide Params;
    if cs != [] {
      var cs', c := cs[..|cs| - 1], cs[|cs| - 1];
      ParseAll(cs');
      ParseWrite(AllWords(cs'), c.reg, Params(c));
      assert Commands(cs) == Commands(cs') + [Command(c.reg, Params(c))];
    }
  }

  lemma StripWords(c: Call)
    requires c.reg != 0
    ensures Strip(Words(c)) == Words(c)
  {
    hide Params;
    StripConcat([Word(false, c.reg)], DataWords(Params(c)));
    StripData(Params(c));
  }

  lemma {:induction false} StripAll(cs: seq<Call>)
    requires forall c :: c in cs ==> c.reg != 0
    ensures Strip(AllWords(cs)) == AllWords(cs)
    decreases |cs|
  {
    hide Words;
    if cs != [] {
      var cs', c := cs[..|cs| - 1], cs[|cs| - 1];
      StripAll(cs');
      StripWords(c);
      StripConcat(AllWords(cs'), Words(c));
    }
  }

  // ---- Option 3 ----

  // The parameters Option 3 really delivers: spi_sync always asks for 8-bit words, so
  // 16-bit values are exchanged only where the bounce buffer is used.
  function Params3(mask: bv32, c: Call): seq<byte>
  {
    var val := Load(c.val, 0, c.len);
    if Option3.Swaps(mask, Width(c.reg)) then SwapPairs(val) else val
  }

  function Words3(mask: bv32, c: Call): seq<Word>
  {
    [Word(false, c.reg)] + DataWords(Params3(mask, c))
  }

  function AllWords3(mask: bv32, cs: seq<Call>): seq<Word>
  {
    if cs == [] then [] else AllWords3(mask, cs[..|cs| - 1]) + Words3(mask, cs[|cs| - 1])
  }

  // Option 3 delivers a write as meant exactly when it is not a pixel write, or the
  // controller lacks 16-bit words, or the exchange would not change the pixels.
  lemma Words3Meant(mask: bv32, c: Call)
    ensures Words3(mask, c) == Words(c) <==>
            c.reg != RAM || !Option3.BpwSupported(mask, 16) || SwapPairs(Load(c.val, 0, c.len)) == Load(c.val, 0, c.len)
  {
    hide Option3.BpwSupported, Load;
    var a, b := Params3(mask, c), Params(c);
    if Words3(mask, c) == Words(c) {
      assert DataWords(a) == Words3(mask, c)[1..] && DataWords(b) == Words(c)[1..];
      forall i | 0 <= i < |a|
        ensures a[i] == b[i]
      {
        assert DataWords(a)[i] == DataWords(b)[i];
      }
      assert a == b;
    }
  }

  lemma {:induction false} AllWords3Meant(mask: bv32, cs: seq<Call>)
    requires forall c :: c in cs ==> c.reg != RAM || !Option3.BpwSupported(mask, 16)
    ensures AllWords3(mask, cs) == AllWords(cs)
    decreases |cs|
  {
    hide Words, Words3, Option3.BpwSupported;
    if cs != [] {
      AllWords3Meant(mask, cs[..|cs| - 1]);
      Words3Meant(mask, cs[|cs| - 1]);
    }
  }

  // ---- Both transports ----

  // Whatever sequence of covered writes is sent on a controller without 16-bit words,
  // the two transports deliver the same words apart from no-ops, and Option 1 ends on a
  // frame boundary.
  lemma TransportEquivalence(maxDma: nat, mask: bv32, cs: seq<Call>)
    requires Usable1(maxDma) && forall c :: c in cs ==> CallCovered(maxDma, c)
    requires forall c :: c in cs ==> c.reg != RAM || !Option3.BpwSupported(mask, 16)
    ensures |AllWire1(maxDma, cs)| % 9 == 0
    ensures Strip(Receive(AllWire1(maxDma, cs))) == Strip(AllWords3(mask, cs))
  {
    hide Receive, CallCovered, Option3.BpwSupported;
    DecodeAll1(maxDma, cs);
    AllWords3Meant(mask, cs);
  }

  // And what they deliver is the sequence of commands the writes mean.
  lemma CommandsArrive(maxDma: nat, mask: bv32, cs: seq<Call>)
    requires Usable1(maxDma)
    requires forall c :: c in cs ==> CallCovered(maxDma, c) && c.reg != 0
    requires forall c :: c in cs ==> c.reg != RAM || !Option3.BpwSupported(mask, 16)
    ensures Parse(Strip(Receive(AllWire1(maxDma, cs)))) == Commands(cs)
    ensures Parse(AllWords3(mask, cs)) == Commands(cs)
  {
    hide Receive, CallCovered, Strip, Parse, Option3.BpwSupported;
    DecodeAll1(maxDma, cs);
    StripAll(cs);
    ParseAll(cs);
    AllWords3Meant(mask, cs);
  }

  // A controller with 16-bit words breaks the equivalence on a one-pixel write.
  lemma NativeWidthDiffers(mask: bv32)
    requires Option3.BpwSupported(mask, 16)
    ensures var c := Call(RAM, (i: nat) => if i == 0 then 0x12 else 0x34, 2);
            Params(c) == [0x34, 0x12] && Params3(mask, c) == [0x12, 0x34]
  {
    hide Option3.BpwSupported;
    var p: Ptr := (i: nat) => if i == 0 then 0x12 else 0x34;
    assert Load(p, 0, 2) == [0x12, 0x34];
  }
}
