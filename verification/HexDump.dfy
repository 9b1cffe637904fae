// hex_dump_to_buffer (tinydrm-regmap.c:15-119): one line of a memory dump printed into a
// buffer of bounded size.
module HexDump {
  import opened Arith
  import Kernel

  type Octet = x: int | 0 <= x < 256

  function Pow16(n: nat): (r: nat)
    ensures r >= 1
  {
    if n == 0 then 1 else 16 * Pow16(n - 1)
  }

  // get_unaligned: the first byte is the least significant one on every machine.
  function Le(b: seq<Octet>): nat
  {
    if b == [] then 0 else b[0] + 256 * Le(b[1..])
  }

  function LeBytes(v: nat, n: nat): seq<Octet>
  {
    if n == 0 then [] else [v % 256] + LeBytes(v / 256, n - 1)
  }

  lemma ByteOf(b: Octet, rest: nat)
    ensures (b + 256 * rest) % 256 == b && (b + 256 * rest) / 256 == rest
  {
  }

  lemma {:induction false} LeInverse(b: seq<Octet>)
    ensures LeBytes(Le(b), |b|) == b
  {
    if b != [] {
      LeInverse(b[1..]);
      ByteOf(b[0], Le(b[1..]));
    }
  }

  lemma {:induction false} LeBound(b: seq<Octet>)
    ensures Le(b) < Pow256(|b|)
  {
    if b != [] {
      LeBound(b[1..]);
    }
  }

  const HEX_ASC: string := "0123456789abcdef"

  // printf's x conversion with width and precision w, of a value of at most w digits.
  function Hex(v: nat, w: nat): (r: string)
    ensures |r| == w
  {
    if w == 0 then "" else Hex(v / 16, w - 1) + [HEX_ASC[v % 16]]
  }

  function Digit(c: char): nat
  {
    if '0' <= c <= '9' then (c - '0') as nat
    else if 'a' <= c <= 'f' then (c - 'a') as nat + 10
    else 0
  }

  function ParseHex(s: string): nat
  {
    if s == [] then 0 else 16 * ParseHex(s[..|s| - 1]) + Digit(s[|s| - 1])
  }

  lemma DigitInverse(d: nat)
    requires d < 16
    ensures Digit(HEX_ASC[d]) == d
  {
  }

  lemma {:induction false} HexInverse(v: nat, w: nat)
    requires v < Pow16(w)
    ensures ParseHex(Hex(v, w)) == v
  {
    if w > 0 {
      HexInverse(v / 16, w - 1);
      DigitInverse(v % 16);
      assert Hex(v, w)[..w - 1] == Hex(v / 16, w - 1);
    }
  }

  lemma {:induction false} TwoDigitsAByte(n: nat)
    ensures Pow16(2 * n) == Pow256(n)
  {
    if n > 0 {
      TwoDigitsAByte(n - 1);
      assert Pow16(2 * n) == 16 * Pow16(2 * n - 1);
      assert Pow16(2 * n - 1) == 16 * Pow16(2 * (n - 1));
    }
  }

  // Parameter normalisation: the row and group size in effect.
  function RowSize(rowsize: int): (r: nat)
  {
    if rowsize == 16 || rowsize == 32 then rowsize else 16
  }

  predicate GroupWidth(g: int)
  {
    g == 1 || g == 2 || g == 4 || g == 8
  }

  function GroupSize(len: nat, groupsize: int): (r: nat)
    ensures GroupWidth(r) && len % r == 0
  {
    if GroupWidth(groupsize) && len % groupsize == 0 then groupsize else 1
  }

  function Line(buf: seq<Octet>, rowsize: int): (r: seq<Octet>)
  {
    if |buf| > RowSize(rowsize) then buf[..RowSize(rowsize)] else buf
  }

  function AsciiColumn(rowsize: nat, g: nat): nat
    requires GroupWidth(g)
  {
    rowsize * 2 + rowsize / g + 1
  }

  // Where group n starts in the memory and in the printed line.
  function At(g: nat, n: nat): nat
  {
    n * g
  }

  function Start(g: nat, n: nat): nat
  {
    n * (2 * g + 1)
  }

  lemma NextGroup(g: nat, n: nat)
    ensures At(g, n + 1) == At(g, n) + g && Start(g, n + 1) == Start(g, n) + 2 * g + 1
  {
  }

  lemma StartIs(g: nat, n: nat)
    ensures Start(g, n) == 2 * At(g, n) + n
  {
  }

  lemma AtMonotone(g: nat, m: nat, n: nat)
    requires m <= n
    ensures At(g, m) <= At(g, n)
  {
  }

  lemma AllGroups(len: nat, g: nat)
    requires GroupWidth(g) && len % g == 0
    ensures At(g, len / g) == len
  {
  }

  // The complete rendering: groups in hexadecimal with a space between them, and the
  // printable characters from a fixed column on.
  function Group(b: seq<Octet>, g: nat, j: nat): (r: seq<Octet>)
    requires At(g, j) + g <= |b|
    ensures |r| == g
  {
    b[At(g, j)..At(g, j) + g]
  }

  function GroupText(b: seq<Octet>, g: nat, j: nat): (r: string)
    requires At(g, j) + g <= |b|
    ensures |r| == 2 * g
  {
    Hex(Le(Group(b, g, j)), 2 * g)
  }

  function Groups(b: seq<Octet>, g: nat, n: nat): (r: string)
    requires At(g, n) <= |b|
    ensures |r| == if n == 0 then 0 else Start(g, n) - 1
  {
    if n == 0 then ""
    else
      NextGroup(g, n - 1);
      Groups(b, g, n - 1) + (if n > 1 then " " else "") + GroupText(b, g, n - 1)
  }

  function HexColumn(b: seq<Octet>, g: nat): string
    requires GroupWidth(g) && |b| % g == 0
  {
    AllGroups(|b|, g);
    Groups(b, g, |b| / g)
  }

  function Spaces(n: nat): (r: string)
    ensures |r| == n
  {
    seq(n, _ => ' ')
  }

  function Printed(ch: Octet): char
  {
    if 0x20 <= ch <= 0x7e then ch as char else '.'
  }

  function AsciiText(b: seq<Octet>): (r: string)
    ensures |r| == |b|
  {
    seq(|b|, i requires 0 <= i < |b| => Printed(b[i]))
  }

  lemma GroupCount(len: nat, rowsize: nat, g: nat)
    requires GroupWidth(g) && len <= rowsize
    ensures len / g <= rowsize / g
  {
  }

  lemma HexFits(b: seq<Octet>, rowsize: nat, g: nat)
    requires GroupWidth(g) && |b| % g == 0 && |b| <= rowsize && (rowsize == 16 || rowsize == 32)
    ensures |HexColumn(b, g)| <= AsciiColumn(rowsize, g)
  {
    var n := |b| / g;
    AllGroups(|b|, g);
    StartIs(g, n);
    GroupCount(|b|, rowsize, g);
  }

  function Rendering(buf: seq<Octet>, rowsize: int, groupsize: int, ascii: bool): (r: string)
  {
    var b := Line(buf, rowsize);
    var g := GroupSize(|b|, groupsize);
    var hex := HexColumn(b, g);
    HexFits(b, RowSize(rowsize), g);
    if ascii then hex + Spaces(AsciiColumn(RowSize(rowsize), g) - |hex|) + AsciiText(b) else hex
  }

  // Reading the hexadecimal column back, group by group.
  function ParseGroups(text: string, g: nat, n: nat): seq<Octet>
    requires n > 0 ==> |text| >= Start(g, n) - 1
  {
    if n == 0 then []
    else
      NextGroup(g, n - 1);
      var at := Start(g, n - 1);
      ParseGroups(text, g, n - 1) + LeBytes(ParseHex(text[at..at + 2 * g]), g)
  }

  lemma GroupInverse(b: seq<Octet>, g: nat, j: nat)
    requires At(g, j) + g <= |b|
    ensures LeBytes(ParseHex(GroupText(b, g, j)), g) == Group(b, g, j)
  {
    var group := Group(b, g, j);
    LeBound(group);
    TwoDigitsAByte(g);
    HexInverse(Le(group), 2 * g);
    LeInverse(group);
  }

  lemma {:induction false} GroupsEnd(b: seq<Octet>, g: nat, n: nat)
    requires At(g, n + 1) <= |b|
    ensures At(g, n) + g <= |b| && Start(g, n) + 2 * g == |Groups(b, g, n + 1)|
    ensures Groups(b, g, n + 1)[Start(g, n)..] == GroupText(b, g, n)
    ensures Groups(b, g, n) <= Groups(b, g, n + 1)
    ensures n > 0 ==> Groups(b, g, n) + " " <= Groups(b, g, n + 1)
  {
    hide At, Start, GroupText;
    NextGroup(g, n);
    var head := Groups(b, g, n) + (if n > 0 then " " else "");
    assert Groups(b, g, n + 1) == head + GroupText(b, g, n);
    assert n == 0 ==> Start(g, n) == 0 by {
      StartIs(g, n);
      StartZero(g);
    }
    assert |head| == Start(g, n);
  }

  lemma StartZero(g: nat)
    ensures Start(g, 0) == 0 && At(g, 0) == 0
  {
  }

  lemma {:induction false} GroupsGrow(b: seq<Octet>, g: nat, i: nat, n: nat)
    requires i <= n && At(g, n) <= |b|
    ensures At(g, i) <= |b| && Groups(b, g, i) <= Groups(b, g, n)
    ensures 0 < i < n ==> Groups(b, g, i) + " " <= Groups(b, g, n)
    decreases n - i
  {
    hide At, Start, Groups;
    AtMonotone(g, i, n);
    if i < n {
      AtMonotone(g, i + 1, n);
      GroupsGrow(b, g, i + 1, n);
      GroupsEnd(b, g, i);
    }
  }

  lemma {:induction false} GroupsInverse(b: seq<Octet>, g: nat, n: nat, text: string)
    requires At(g, n) <= |b| && Groups(b, g, n) <= text
    ensures ParseGroups(text, g, n) == b[..At(g, n)]
  {
    hide At, Start, Groups, GroupText, LeBytes, ParseHex;
    if n == 0 {
      StartZero(g);
    } else {
      NextGroup(g, n - 1);
      GroupsEnd(b, g, n - 1);
      GroupsInverse(b, g, n - 1, text);
      GroupInverse(b, g, n - 1);
      var at := Start(g, n - 1);
      assert text[at..at + 2 * g] == Groups(b, g, n)[at..];
      assert b[..At(g, n)] == b[..At(g, n - 1)] + Group(b, g, n - 1);
    }
  }

  // How many bytes one line shows.
  function Shows(len: nat, rowsize: int): nat
  {
    var k := if rowsize == 32 then 32 else 16;
    if len < k then len else k
  }

  lemma LineIs(buf: seq<Octet>, rowsize: int)
    ensures Line(buf, rowsize) == buf[..Shows(|buf|, rowsize)]
  {
    assert buf[..|buf|] == buf;
  }

  // Whatever part of the line fits the buffer, its complete groups can be read back: they
  // are the first bytes of the memory.
  lemma PrefixRoundTrip(buf: seq<Octet>, rowsize: int, groupsize: int, ascii: bool, text: string, n: nat)
    requires n <= Shows(|buf|, rowsize) / GroupSize(Shows(|buf|, rowsize), groupsize)
    requires text <= Rendering(buf, rowsize, groupsize, ascii)
    requires n > 0 ==> |text| >= Start(GroupSize(Shows(|buf|, rowsize), groupsize), n) - 1
    ensures
      var g := GroupSize(Shows(|buf|, rowsize), groupsize);
      At(g, n) <= |buf| && ParseGroups(text, g, n) == buf[..At(g, n)]
  {
    hide At, Start, Groups;
    LineIs(buf, rowsize);
    var b := Line(buf, rowsize);
    var g := GroupSize(|b|, groupsize);
    AllGroups(|b|, g);
    AtMonotone(g, n, |b| / g);
    GroupsGrow(b, g, n, |b| / g);
    assert Groups(b, g, n) <= Rendering(buf, rowsize, groupsize, ascii);
    GroupsInverse(b, g, n, text);
    assert b[..At(g, n)] == buf[..At(g, n)];
  }

  // The first bytes of the dumped memory, up to the row size, can be read back from the
  // hexadecimal column of the untruncated line.
  lemma DumpRoundTrip(buf: seq<Octet>, rowsize: int, groupsize: int, ascii: bool)
    ensures
      var k := Shows(|buf|, rowsize);
      var g := GroupSize(k, groupsize);
      var text := Rendering(buf, rowsize, groupsize, ascii);
      && (k > 0 ==> |text| >= Start(g, k / g) - 1)
      && ParseGroups(text, g, k / g) == buf[..k]
  {
    hide At, Start, Groups;
    LineIs(buf, rowsize);
    var b := Line(buf, rowsize);
    var g := GroupSize(|b|, groupsize);
    AllGroups(|b|, g);
    GroupsInverse(b, g, |b| / g, Rendering(buf, rowsize, groupsize, ascii));
  }

  // The characters stand at a column that depends on the sizes only, one for every byte
  // shown: the byte itself if it is printable, a full stop otherwise.
  lemma CharactersAt(buf: seq<Octet>, rowsize: int, groupsize: int, i: nat)
    requires i < Shows(|buf|, rowsize)
    ensures
      var row := if rowsize == 32 then 32 else 16;
      var column := 2 * row + row / GroupSize(Shows(|buf|, rowsize), groupsize) + 1;
      var text := Rendering(buf, rowsize, groupsize, true);
      && |text| == column + Shows(|buf|, rowsize)
      && (if ' ' as int <= buf[i] <= '~' as int then text[column + i] as int == buf[i] else text[column + i] == '.')
  {
    hide HexColumn, GroupSize;
    LineIs(buf, rowsize);
    var b := Line(buf, rowsize);
    HexFits(b, RowSize(rowsize), GroupSize(|b|, groupsize));
  }

  // The group sizes that are kept are the powers of two up to eight; the others, and those
  // that do not divide the length, become one.
  lemma GroupSizeIs(len: nat, groupsize: bv32)
    ensures
      var size := if groupsize & 0x8000_0000 == 0 then Kernel.Val(groupsize) else Kernel.Val(groupsize) - 0x1_0000_0000;
      var kept := Kernel.LongIsPowerOf2(Kernel.ToLong(groupsize)) && size <= 8 && len % Kernel.Val(groupsize) == 0;
      GroupSize(len, size) == if kept then Kernel.Val(groupsize) else 1
  {
    hide Kernel.LongIsPowerOf2, Kernel.ToLong, Kernel.Val, Kernel.IsPowerOf2;
    Kernel.LongPower(groupsize);
    Kernel.SignBit(groupsize);
    Kernel.BelowTwo32(groupsize);
    SmallPower(groupsize);
    Kernel.ValZero(groupsize);
    if Kernel.IsPowerOf2(groupsize) {
      Kernel.PowerNotZero(groupsize);
    }
  }

  lemma SmallPower(n: bv32)
    ensures Kernel.IsPowerOf2(n) && Kernel.Val(n) <= 8 <==> GroupWidth(Kernel.Val(n))
  {
    hide Kernel.IsPowerOf2, Kernel.Val, Kernel.Pow2;
    Kernel.PowersOf2(n);
    SmallPowers();
    if Kernel.IsPowerOf2(n) && Kernel.Val(n) <= 8 {
      var k: nat :| k < 32 && Kernel.Val(n) == Kernel.Pow2(k);
      if k > 3 {
        Kernel.Pow2Less(3, k);
      }
      assert k == 0 || k == 1 || k == 2 || k == 3;
    }
    if GroupWidth(Kernel.Val(n)) {
      var v := Kernel.Val(n);
      var k := if v == 1 then 0 else if v == 2 then 1 else if v == 4 then 2 else 3;
      assert Kernel.Val(n) == Kernel.Pow2(k);
    }
  }

  lemma SmallPowers()
    ensures Kernel.Pow2(0) == 1 && Kernel.Pow2(1) == 2 && Kernel.Pow2(2) == 4 && Kernel.Pow2(3) == 8
  {
  }

  // The buffer starts with text, has room for the terminator, and what follows the
  // terminator's place is untouched.
  ghost predicate Holds(a: seq<char>, was: seq<char>, text: string)
  {
    |a| == |was| && |text| < |a| && a[..|text|] == text && a[|text| + 1..] == was[|text| + 1..]
  }

  ghost function Terminated(was: seq<char>, text: string): seq<char>
    requires |text| < |was|
  {
    text + ['\0'] + was[|text| + 1..]
  }

  lemma Put(a: seq<char>, was: seq<char>, text: string, c: char)
    requires Holds(a, was, text) && |text| + 1 < |a|
    ensures Holds(a[|text| := c], was, text + [c])
  {
    var b, more := a[|text| := c], text + [c];
    assert b[..|more|] == more;
    assert b[|more| + 1..] == a[|text| + 1..][1..];
    assert was[|more| + 1..] == was[|text| + 1..][1..];
  }

  lemma Terminate(a: seq<char>, was: seq<char>, text: string)
    requires Holds(a, was, text)
    ensures a[|text| := '\0'] == Terminated(was, text)
  {
    assert a == a[..|text|] + [a[|text|]] + a[|text| + 1..];
  }

  lemma BackUp(a: seq<char>, was: seq<char>, text: string, c: char)
    requires Holds(a, was, text + [c]) && a[|text| + 1] == was[|text| + 1]
    ensures Holds(a, was, text)
  {
    assert a[..|text|] == a[..|text| + 1][..|text|];
    assert a[|text| + 1..] == [a[|text| + 1]] + a[|text| + 2..];
    assert was[|text| + 1..] == [was[|text| + 1]] + was[|text| + 2..];
  }

  // The C library's snprintf with a positive size.
  method Snprintf(a: array<char>, at: nat, size: nat, text: string, ghost was: seq<char>, ghost head: string)
    returns (ret: nat)
    requires size > 0 && at + size <= a.Length
    requires at == |head| && Holds(a[..], was, head)
    modifies a
    ensures ret == |text|
    ensures ret < size ==> Holds(a[..], was, head + text)
    ensures ret >= size ==> a[..] == Terminated(was, (head + text)[..at + size - 1])
  {
    var i := 0;
    assert head + text[..0] == head;
    while i < |text| && i + 1 < size
      invariant i <= |text| && i < size
      invariant Holds(a[..], was, head + text[..i])
    {
      Put(a[..], was, head + text[..i], text[i]);
      a[at + i] := text[i];
      assert head + text[..i] + [text[i]] == head + text[..i + 1];
      i := i + 1;
    }
    Terminate(a[..], was, head + text[..i]);
    a[at + i] := '\0';
    if |text| < size {
      assert text[..i] == text;
      TerminatedHolds(was, head + text);
    } else {
      assert (head + text)[..at + size - 1] == head + text[..i];
    }
    return |text|;
  }

  lemma TerminatedHolds(was: seq<char>, text: string)
    requires |text| < |was|
    ensures Holds(Terminated(was, text), was, text)
  {
  }

  lemma GroupsStep(b: seq<Octet>, g: nat, j: nat)
    requires At(g, j + 1) <= |b|
    ensures At(g, j) + g <= |b|
    ensures Groups(b, g, j + 1) == Groups(b, g, j) + ((if j > 0 then " " else "") + GroupText(b, g, j))
  {
    hide At, Start, GroupText;
    NextGroup(g, j);
  }

  // The loops for group sizes 8, 4 and 2.
  method DumpGroups(a: array<char>, n: nat, b: seq<Octet>, g: nat) returns (lx: nat, fits: bool)
    requires 0 < n <= a.Length && GroupWidth(g) && |b| % g == 0
    modifies a
    ensures fits ==> lx == |HexColumn(b, g)| < n && Holds(a[..], old(a[..]), HexColumn(b, g))
    ensures !fits ==> |HexColumn(b, g)| >= n - 1
    ensures !fits ==> a[..] == Terminated(old(a[..]), HexColumn(b, g)[..n - 1])
  {
    hide At, Start, Holds, Terminated, GroupText;
    ghost var was := a[..];
    var ngroups := |b| / g;
    AllGroups(|b|, g);
    assert HexColumn(b, g) == Groups(b, g, ngroups);
    assert At(g, 0) == 0 && Groups(b, g, 0) == "" by {
      StartZero(g);
    }
    hide HexColumn, Groups;
    lx := 0;
    HoldsNothing(was);
    var j := 0;
    while j < ngroups
      invariant j <= ngroups && At(g, j) <= |b|
      invariant lx == |Groups(b, g, j)| < n
      invariant Holds(a[..], was, Groups(b, g, j))
    {
      AtMonotone(g, j + 1, ngroups);
      GroupsStep(b, g, j);
      GroupsGrow(b, g, j + 1, ngroups);
      var text := (if j > 0 then " " else "") + GroupText(b, g, j);
      var ret := Snprintf(a, lx, n - lx, text, was, Groups(b, g, j));
      if ret >= n - lx {
        assert Groups(b, g, j + 1)[..n - 1] == HexColumn(b, g)[..n - 1];
        return lx, false;
      }
      lx := lx + ret;
      j := j + 1;
    }
    return lx, true;
  }

  lemma HoldsNothing(was: seq<char>)
    requires |was| > 0
    ensures Holds(was, was, "")
  {
  }

  lemma ByteText(b: seq<Octet>, j: nat)
    requires j < |b|
    ensures At(1, j) + 1 <= |b| && GroupText(b, 1, j) == [HEX_ASC[b[j] / 16], HEX_ASC[b[j] % 16]]
  {
    assert Group(b, 1, j) == [b[j]];
    assert Le([b[j]]) == b[j];
    assert Hex(b[j], 2) == Hex(b[j] / 16, 1) + [HEX_ASC[b[j] % 16]];
    assert Hex(b[j] / 16, 1) == Hex(b[j] / 16 / 16, 0) + [HEX_ASC[b[j] / 16 % 16]];
  }

  // One character, unless only the terminator fits any more (label overflow2).
  method PutChar(a: array<char>, n: nat, lx: nat, c: char, ghost was: seq<char>, ghost text: string)
    returns (next: nat, fits: bool)
    requires lx == |text| < n <= a.Length && Holds(a[..], was, text)
    modifies a
    ensures fits <==> lx + 1 < n
    ensures fits ==> next == lx + 1 && Holds(a[..], was, text + [c]) && a[next] == old(a[next])
    ensures !fits ==> next == n && a[..] == Terminated(was, text)
  {
    if n < lx + 2 {
      Terminate(a[..], was, text);
      a[lx] := '\0';
      return lx + 1, false;
    }
    Put(a[..], was, text, c);
    a[lx] := c;
    return lx + 1, true;
  }

  lemma NextByte(b: seq<Octet>, j: nat)
    requires j < |b|
    ensures At(1, j) == j && At(1, j + 1) == j + 1
    ensures
      Groups(b, 1, j + 1) == Groups(b, 1, j) + (if j > 0 then " " else "") + [HEX_ASC[b[j] / 16], HEX_ASC[b[j] % 16]]
  {
    ByteText(b, j);
  }

  // Printed up to byte j: the groups so far, each with a space behind it.
  ghost function Bytes(b: seq<Octet>, j: nat): (r: string)
    requires j <= |b|
  {
    assert At(1, j) == j;
    Groups(b, 1, j) + (if j > 0 then " " else "")
  }

  lemma BytesNone(b: seq<Octet>)
    ensures Bytes(b, 0) == ""
  {
  }

  lemma BytesStep(b: seq<Octet>, j: nat)
    requires j < |b|
    ensures HexColumn(b, 1) == Groups(b, 1, |b|)
    ensures At(1, j + 1) == j + 1 && Bytes(b, j + 1) == Groups(b, 1, j + 1) + " "
    ensures Groups(b, 1, j + 1) == Bytes(b, j) + [HEX_ASC[b[j] / 16]] + [HEX_ASC[b[j] % 16]]
    ensures Groups(b, 1, j + 1) <= HexColumn(b, 1)
  {
    NextByte(b, j);
    GroupsGrow(b, 1, j + 1, |b|);
    hide Groups, Hex, Le;
  }

  // The loop for group size 1.
  method DumpBytes(a: array<char>, n: nat, b: seq<Octet>) returns (lx: nat, fits: bool)
    requires 0 < n <= a.Length && |b| > 0
    modifies a
    ensures fits ==> lx == |HexColumn(b, 1)| < n && Holds(a[..], old(a[..]), HexColumn(b, 1))
    ensures !fits ==> |HexColumn(b, 1)| >= n - 1
    ensures !fits ==> a[..] == Terminated(old(a[..]), HexColumn(b, 1)[..n - 1])
  {
    hide At, Start, Holds, Terminated, Groups, HexColumn;
    ghost var was := a[..];
    HoldsNothing(was);
    BytesNone(b);
    lx, fits := 0, true;
    var j := 0;
    while j < |b|
      invariant j <= |b|
      invariant lx == |Bytes(b, j)| < n
      invariant Holds(a[..], was, Bytes(b, j)) && a[lx] == was[lx]
    {
      BytesStep(b, j);
      ghost var full := HexColumn(b, 1);
      ghost var text := Bytes(b, j);
      var hi, lo := HEX_ASC[b[j] / 16], HEX_ASC[b[j] % 16];
      assert text + [hi] + [lo] <= full;
      lx, fits := PutChar(a, n, lx, hi, was, text);
      if !fits {
        assert text == full[..n - 1];
        return;
      }
      lx, fits := PutChar(a, n, lx, lo, was, text + [hi]);
      if !fits {
        assert text + [hi] == full[..n - 1];
        return;
      }
      lx, fits := PutChar(a, n, lx, ' ', was, text + [hi] + [lo]);
      if !fits {
        assert text + [hi] + [lo] == full[..n - 1];
        return;
      }
      j := j + 1;
    }
    BytesStep(b, j - 1);
    lx := lx - 1;
    BackUp(a[..], was, HexColumn(b, 1), ' ');
  }

  // The characters behind the hexadecimal column.
  method DumpAscii(a: array<char>, n: nat, at: nat, b: seq<Octet>, column: nat, ghost was: seq<char>, ghost hex: string)
    returns (lx: nat, fits: bool)
    requires at == |hex| < n <= a.Length && at <= column && Holds(a[..], was, hex)
    modifies a
    ensures
      var full := hex + Spaces(column - |hex|) + AsciiText(b);
      && (fits ==> lx == |full| < n && Holds(a[..], was, full))
      && (!fits ==> |full| >= n - 1 && a[..] == Terminated(was, full[..n - 1]))
  {
    hide Holds, Terminated;
    ghost var full := hex + Spaces(column - |hex|) + AsciiText(b);
    lx, fits := at, true;
    assert full[..at] == hex;
    while lx < column
      invariant at <= lx <= column && lx < n
      invariant Holds(a[..], was, full[..lx])
    {
      ghost var text := full[..lx];
      lx, fits := PutChar(a, n, lx, ' ', was, text);
      if !fits {
        return;
      }
      assert text + [' '] == full[..lx];
    }
    var j := 0;
    while j < |b|
      invariant j <= |b| && lx == column + j < n
      invariant Holds(a[..], was, full[..lx])
    {
      ghost var text := full[..lx];
      lx, fits := PutChar(a, n, lx, Printed(b[j]), was, text);
      if !fits {
        return;
      }
      assert text + [Printed(b[j])] == full[..lx];
      j := j + 1;
    }
    assert full[..lx] == full;
  }

  lemma SomeGroup(len: nat, g: nat)
    requires GroupWidth(g) && len % g == 0 && len > 0
    ensures len / g > 0
  {
  }

  lemma StartCommutes(g: nat, n: nat)
    ensures Start(g, n) == (g * 2 + 1) * n
  {
  }

  lemma HexLength(b: seq<Octet>, g: nat)
    requires GroupWidth(g) && |b| % g == 0 && |b| > 0
    ensures |HexColumn(b, g)| == (g * 2 + 1) * (|b| / g) - 1
  {
    AllGroups(|b|, g);
    SomeGroup(|b|, g);
    StartCommutes(g, |b| / g);
    hide At, Start, Groups;
  }

  // What the two exits for a full buffer return is the length of the complete line.
  lemma RenderingLength(buf: seq<Octet>, rowsize: int, groupsize: int, ascii: bool)
    requires |buf| > 0
    ensures
      var b := Line(buf, rowsize);
      var g := GroupSize(|b|, groupsize);
      var hex := HexColumn(b, g);
      var column := AsciiColumn(RowSize(rowsize), g);
      var full := Rendering(buf, rowsize, groupsize, ascii);
      && |full| == (if ascii then column + |b| else (g * 2 + 1) * (|b| / g) - 1)
      && |hex| <= column && hex <= full
      && full == if ascii then hex + Spaces(column - |hex|) + AsciiText(b) else hex
  {
    hide HexColumn, GroupSize, AsciiColumn;
    var b := Line(buf, rowsize);
    var g := GroupSize(|b|, groupsize);
    HexFits(b, RowSize(rowsize), g);
    HexLength(b, g);
  }

  // What the buffer holds afterwards: the longest prefix of the line that fits.
  ghost function Shown(was: seq<char>, full: string, n: nat): seq<char>
    requires 0 < n <= |was|
  {
    if |full| < n then Terminated(was, full) else Terminated(was, full[..n - 1])
  }

  // The part of hex_dump_to_buffer behind the parameter checks.
  method PrintLine(linebuf: array<char>, n: nat, b: seq<Octet>, groupsize: nat, column: nat, ascii: bool, ghost full: string)
    returns (lx: nat, fits: bool)
    requires 0 < n <= linebuf.Length && |b| > 0 && GroupWidth(groupsize) && |b| % groupsize == 0
    requires |HexColumn(b, groupsize)| <= column
    requires
      var hex := HexColumn(b, groupsize);
      full == if ascii then hex + Spaces(column - |hex|) + AsciiText(b) else hex
    modifies linebuf
    ensures fits ==> lx == |full| < n
    ensures linebuf[..] == Shown(old(linebuf[..]), full, n)
  {
    hide Holds, HexColumn, Terminated, Spaces, AsciiText;
    ghost var was := linebuf[..];
    ghost var hex := HexColumn(b, groupsize);
    if groupsize != 1 {
      lx, fits := DumpGroups(linebuf, n, b, groupsize);
    } else {
      lx, fits := DumpBytes(linebuf, n, b);
    }
    if !fits {
      assert hex[..n - 1] == full[..n - 1];
      assert |full| == n - 1 ==> full[..n - 1] == full;
      return;
    }
    if ascii {
      lx, fits := DumpAscii(linebuf, n, lx, b, column, was, hex);
      if !fits {
        assert |full| == n - 1 ==> full[..n - 1] == full;
        return;
      }
    }
    Terminate(linebuf[..], was, full);
    linebuf[lx] := '\0';
  }

  lemma NothingShown(was: seq<char>)
    requires |was| > 0
    ensures was[0 := '\0'] == Terminated(was, "")
  {
  }

  // hex_dump_to_buffer: with something to print, the buffer gets the longest prefix of the
  // complete line that fits, and a terminator; the result is the length of the complete
  // line, whatever the buffer's size.
  method HexDumpToBuffer(buf: seq<Octet>, rowsize_: int, groupsize_: int, linebuf: array<char>, linebuflen: nat, ascii: bool)
    returns (r: int)
    requires linebuflen <= linebuf.Length
    modifies linebuf
    ensures |buf| > 0 ==> r == |Rendering(buf, rowsize_, groupsize_, ascii)|
    ensures |buf| > 0 && linebuflen > 0 ==>
      linebuf[..] == Shown(old(linebuf[..]), Rendering(buf, rowsize_, groupsize_, ascii), linebuflen)
    ensures linebuflen == 0 ==> linebuf[..] == old(linebuf[..])
    ensures buf == [] && linebuflen > 0 ==> r == 0 && linebuf[..] == Terminated(old(linebuf[..]), "")
    ensures buf == [] && linebuflen == 0 ==>
      r == if ascii then AsciiColumn(RowSize(rowsize_), GroupSize(0, groupsize_)) else -1
  {
    hide HexColumn, Rendering, Spaces, AsciiText, Terminated, Shown;
    var rowsize := if rowsize_ != 16 && rowsize_ != 32 then 16 else rowsize_;
    var b := if |buf| > rowsize then buf[..rowsize] else buf;
    var groupsize := if !GroupWidth(groupsize_) then 1 else groupsize_;
    if |b| % groupsize != 0 {
      groupsize := 1;
    }
    var ngroups := |b| / groupsize;
    var asciiColumn := rowsize * 2 + rowsize / groupsize + 1;
    assert rowsize == RowSize(rowsize_) && b == Line(buf, rowsize_) && groupsize == GroupSize(|b|, groupsize_);
    assert asciiColumn == AsciiColumn(rowsize, groupsize);
    hide RowSize, Line, GroupSize, AsciiColumn, GroupWidth;
    var needed := if ascii then asciiColumn + |b| else (groupsize * 2 + 1) * ngroups - 1;
    if |b| > 0 {
      RenderingLength(buf, rowsize_, groupsize_, ascii);
    }
    if linebuflen == 0 {
      return needed;
    }
    if |b| == 0 {
      NothingShown(linebuf[..]);
      linebuf[0] := '\0';
      return 0;
    }
    var lx, fits := PrintLine(linebuf, linebuflen, b, groupsize, asciiColumn, ascii,
                              Rendering(buf, rowsize_, groupsize_, ascii));
    return if fits then lx else needed;
  }
}
