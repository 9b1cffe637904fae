// Merging dirty rectangles (tinydrm-helpers.c:30-67).
module Clips {
  type u16 = x: int | 0 <= x < 0x10000

  // struct drm_clip_rect: x1 <= x < x2 and y1 <= y < y2.
  datatype Clip = Clip(x1: u16, y1: u16, x2: u16, y2: u16)

  function U16(x: nat): u16 { x % 0x10000 }

  predicate Contains(c: Clip, x: int, y: int)
  {
    c.x1 <= x < c.x2 && c.y1 <= y < c.y2
  }

  // Every coordinate of a lies within b.
  predicate Within(a: Clip, b: Clip)
  {
    b.x1 <= a.x1 && a.x2 <= b.x2 && b.y1 <= a.y1 && a.y2 <= b.y2
  }

  predicate InBounds(c: Clip, width: nat, height: nat)
  {
    c.x1 < c.x2 <= width && c.y1 < c.y2 <= height
  }

  function Min(a: u16, b: u16): u16 { if a < b then a else b }
  function Max(a: u16, b: u16): u16 { if a > b then a else b }

  const NOTHING := Clip(0xFFFF, 0xFFFF, 0, 0)

  function Join(a: Clip, b: Clip): Clip
  {
    Clip(Min(a.x1, b.x1), Min(a.y1, b.y1), Max(a.x2, b.x2), Max(a.y2, b.y2))
  }

  function Box(cs: seq<Clip>): Clip
  {
    if cs == [] then NOTHING else Join(Box(cs[..|cs| - 1]), cs[|cs| - 1])
  }

  function Full(width: nat, height: nat): Clip
  {
    Clip(0, 0, U16(width), U16(height))
  }

  // The box is used as it is, or the whole framebuffer is.
  predicate Legal(box: Clip, width: nat, height: nat)
  {
    box.x1 < box.x2 <= width && box.y1 < box.y2 <= height
  }

  // The rectangle to flush for the considered clips.
  function Merged(cs: seq<Clip>, width: nat, height: nat): Clip
  {
    if cs != [] && Legal(Box(cs), width, height) then Box(cs) else Full(width, height)
  }

  // How many clips are read: in copy mode they come in pairs and the odd-indexed ones count.
  function ReadCount(num: nat, copy: bool): nat
  {
    if copy && num % 2 == 1 then num + 1 else num
  }

  function Considered(src: seq<Clip>, num: nat, copy: bool): seq<Clip>
    requires ReadCount(num, copy) <= |src|
  {
    if !copy then src[..num]
    else if num == 0 then []
    else if num == 1 then [src[1]]
    else Considered(src, num - 2, copy) + [src[ReadCount(num, copy) - 1]]
  }

  lemma {:induction false} ConsideredAre(src: seq<Clip>, num: nat, copy: bool)
    requires ReadCount(num, copy) <= |src|
    ensures forall i :: 0 <= i < ReadCount(num, copy) && (copy ==> i % 2 == 1) ==> src[i] in Considered(src, num, copy)
    ensures forall c :: c in Considered(src, num, copy) ==>
              exists i :: 0 <= i < ReadCount(num, copy) && (copy ==> i % 2 == 1) && src[i] == c
    decreases num
  {
    if copy && num >= 2 {
      ConsideredAre(src, num - 2, copy);
    }
  }

  // The loop stands at the start of a clip, or of a pair in copy mode.
  predicate AtClip(i: nat, num: nat, copy: bool)
  {
    i <= ReadCount(num, copy) && (copy ==> i % 2 == 0)
  }

  lemma ClipStep(i: nat, num: nat, copy: bool)
    requires AtClip(i, num, copy) && i < num
    ensures i + (if copy then 2 else 1) <= ReadCount(num, copy)
    ensures AtClip(i + (if copy then 2 else 1), num, copy)
    ensures ReadCount(i + (if copy then 2 else 1), copy) == i + (if copy then 2 else 1)
    ensures copy ==> i % 2 == 0
  {
  }

  lemma ClipsDone(i: nat, num: nat, copy: bool)
    requires AtClip(i, num, copy) && i >= num
    ensures i == ReadCount(num, copy)
  {
  }

  lemma NoneConsidered(src: seq<Clip>, copy: bool)
    ensures ReadCount(0, copy) == 0
    ensures Considered(src, 0, copy) == [] && Box([]) == NOTHING
  {
  }

  // tinydrm_merge_clips; an absent clip list is hasSrc == false.
  method MergeClips(hasSrc: bool, src: seq<Clip>, num: nat, copy: bool, maxWidth: nat, maxHeight: nat)
    returns (dst: Clip)
    requires hasSrc ==> ReadCount(num, copy) <= |src|
    ensures dst == Merged(if hasSrc then Considered(src, num, copy) else [], maxWidth, maxHeight)
  {
    hide Considered, Box, ReadCount, U16;
    if !hasSrc || num == 0 {
      NoneConsidered(src, copy);
      return Full(maxWidth, maxHeight);
    }
    dst := Clip(0xFFFF, 0xFFFF, 0, 0);
    var i := 0;
    NoneConsidered(src, copy);
    while i < num
      invariant AtClip(i, num, copy)
      invariant ReadCount(i, copy) <= |src|
      invariant dst == Box(Considered(src, i, copy))
    {
      ghost var before := i;
      ClipStep(i, num, copy);
      if copy {
        i := i + 1;
      }
      dst := Clip(Min(dst.x1, src[i].x1), Min(dst.y1, src[i].y1), Max(dst.x2, src[i].x2), Max(dst.y2, src[i].y2));
      i := i + 1;
      ConsideredStep(src, before, copy);
    }
    ClipsDone(i, num, copy);
    ConsideredRounded(src, num, copy);
    if dst.x2 > maxWidth || dst.y2 > maxHeight || dst.x1 >= dst.x2 || dst.y1 >= dst.y2 {
      dst := Full(maxWidth, maxHeight);
    }
  }

  lemma ConsideredStep(src: seq<Clip>, i: nat, copy: bool)
    requires copy ==> i % 2 == 0
    requires i + (if copy then 2 else 1) <= |src|
    ensures Considered(src, i + (if copy then 2 else 1), copy)
         == Considered(src, i, copy) + [src[if copy then i + 1 else i]]
    ensures Box(Considered(src, i + (if copy then 2 else 1), copy))
         == Join(Box(Considered(src, i, copy)), src[if copy then i + 1 else i])
  {
    var a, c := Considered(src, i, copy), src[if copy then i + 1 else i];
    assert (a + [c])[..|a|] == a;
  }

  lemma {:induction false} ConsideredRounded(src: seq<Clip>, num: nat, copy: bool)
    requires ReadCount(num, copy) <= |src|
    ensures Considered(src, num, copy) == Considered(src, ReadCount(num, copy), copy)
    ensures num > 0 ==> Considered(src, num, copy) != []
    decreases num
  {
    if copy && num % 2 == 1 && num > 1 {
      ConsideredRounded(src, num - 2, copy);
      assert ReadCount(num - 2, copy) == num - 1;
      assert ReadCount(num + 1, copy) == num + 1;
    }
  }

  lemma {:induction false} BoxBounds(cs: seq<Clip>, c: Clip)
    requires c in cs
    ensures Within(c, Box(cs))
    decreases |cs|
  {
    var cs', last := cs[..|cs| - 1], cs[|cs| - 1];
    if c != last {
      BoxBounds(cs', c);
    }
  }

  lemma {:induction false} BoxIsLeast(cs: seq<Clip>, r: Clip)
    requires cs != [] && forall c :: c in cs ==> Within(c, r)
    ensures Within(Box(cs), r)
    decreases |cs|
  {
    var cs', last := cs[..|cs| - 1], cs[|cs| - 1];
    assert last in cs;
    if cs' != [] {
      assert forall c :: c in cs' ==> c in cs;
      BoxIsLeast(cs', r);
    }
  }

  // Soundness: what a considered clip covers of the framebuffer is flushed.
  lemma MergeCovers(cs: seq<Clip>, width: nat, height: nat, c: Clip, x: nat, y: nat)
    requires width < 0x10000 && height < 0x10000
    requires c in cs && Contains(c, x, y) && x < width && y < height
    ensures Contains(Merged(cs, width, height), x, y)
  {
    BoxBounds(cs, c);
  }

  // The result is never empty and never leaves the framebuffer.
  lemma MergeInBounds(cs: seq<Clip>, width: nat, height: nat)
    requires 0 < width < 0x10000 && 0 < height < 0x10000
    ensures InBounds(Merged(cs, width, height), width, height)
  {
  }

  // Minimality: if any rectangle inside the framebuffer bounds the clips, and they are
  // not all empty, the result lies in it.
  lemma MergeIsLeast(cs: seq<Clip>, width: nat, height: nat, r: Clip, c: Clip)
    requires 0 < width < 0x10000 && 0 < height < 0x10000
    requires forall d :: d in cs ==> Within(d, r)
    requires c in cs && c.x1 < c.x2 && c.y1 < c.y2
    requires InBounds(r, width, height)
    ensures Within(Merged(cs, width, height), r)
  {
    BoxBounds(cs, c);
    BoxIsLeast(cs, r);
  }

  // The fallback to the whole framebuffer: taken if a clip reaches outside, not taken if
  // all clips lie inside and one is not empty.
  lemma FallbackOutside(cs: seq<Clip>, width: nat, height: nat, c: Clip)
    requires c in cs && (c.x2 > width || c.y2 > height)
    ensures Merged(cs, width, height) == Full(width, height)
  {
    BoxBounds(cs, c);
  }

  lemma NoFallback(cs: seq<Clip>, width: nat, height: nat, c: Clip)
    requires width < 0x10000 && height < 0x10000
    requires forall d :: d in cs ==> d.x2 <= width && d.y2 <= height
    requires c in cs && c.x1 < c.x2 && c.y1 < c.y2
    ensures Merged(cs, width, height) == Box(cs)
  {
    BoxBounds(cs, c);
    BoxIsLeast(cs, Clip(0, 0, width, height));
  }

  // Each coordinate of the box is that of some clip.
  lemma {:induction false} BoxAttained(cs: seq<Clip>) returns (left: Clip, top: Clip, right: Clip, bottom: Clip)
    requires cs != []
    ensures left in cs && top in cs && right in cs && bottom in cs
    ensures Box(cs) == Clip(left.x1, top.y1, right.x2, bottom.y2)
    decreases |cs|
  {
    var cs', last := cs[..|cs| - 1], cs[|cs| - 1];
    if cs' == [] {
      left, top, right, bottom := last, last, last, last;
    } else {
      left, top, right, bottom := BoxAttained(cs');
      left, top := if last.x1 < left.x1 then last else left, if last.y1 < top.y1 then last else top;
      right, bottom := if last.x2 > right.x2 then last else right, if last.y2 > bottom.y2 then last else bottom;
    }
  }

  // All clips lie inside, and between them they span a column and a line.
  predicate Mergeable(cs: seq<Clip>, width: nat, height: nat)
  {
    && (forall c :: c in cs ==> c.x2 <= width && c.y2 <= height)
    && (exists c, d | c in cs && d in cs :: c.x1 < d.x2)
    && (exists c, d | c in cs && d in cs :: c.y1 < d.y2)
  }

  // Exactly for such clips the bounding rectangle is flushed, for all others everything.
  lemma FallbackExactly(cs: seq<Clip>, width: nat, height: nat)
    ensures Merged(cs, width, height) == if Mergeable(cs, width, height) then Box(cs) else Full(width, height)
  {
    if cs != [] {
      forall c | c in cs
        ensures Within(c, Box(cs))
      {
        BoxBounds(cs, c);
      }
      var left, top, right, bottom := BoxAttained(cs);
      hide Box;
    }
  }
}
