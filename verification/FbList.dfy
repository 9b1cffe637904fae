// The singly linked list of framebuffers (utinydrm.c:168-272, 326-332; spi.c:90-93).
module FbList {
  import opened Base
  import opened Flush

  // The mapping's size as fb_create computes it, in 32 bits.
  function MapSize(fb: Fb): nat { fb.height * fb.pitch % U32 }

  // The first position of an id, or the length.
  function FirstIndex(s: seq<Fb>, id: nat): (k: nat)
    ensures k <= |s|
    ensures k < |s| ==> s[k].id == id
    ensures forall i :: 0 <= i < k ==> s[i].id != id
  {
    if s == [] then 0 else if s[0].id == id then 0 else 1 + FirstIndex(s[1..], id)
  }

  predicate Maps(fb: Fb, addr: nat) { fb.base <= addr < fb.base + MapSize(fb) }

  // The first position whose mapping contains an address, or the length.
  function FirstMapping(s: seq<Fb>, addr: nat): (k: nat)
    ensures k <= |s|
    ensures k < |s| ==> Maps(s[k], addr)
    ensures forall i :: 0 <= i < k ==> !Maps(s[i], addr)
  {
    if s == [] then 0 else if Maps(s[0], addr) then 0 else 1 + FirstMapping(s[1..], addr)
  }

  // What destroy is meant to leave.
  function Removed(s: seq<Fb>, id: nat): seq<Fb>
  {
    var k := FirstIndex(s, id);
    if k == |s| then s else s[..k] + s[k + 1..]
  }

  // What destroy leaves: prev is one link behind curr's own predecessor.
  function Destroyed(s: seq<Fb>, id: nat): seq<Fb>
  {
    var k := FirstIndex(s, id);
    if k == |s| then s else Dropped(s, k)
  }

  // A sequence without element k and, unless k is 0, without the one before it.
  function Dropped<T>(s: seq<T>, k: nat): (r: seq<T>)
    requires k < |s|
    ensures |r| == if k == 0 then |s| - 1 else |s| - 2
  {
    if k == 0 then s[1..] else s[..k - 1] + s[k + 1..]
  }

  function Origin(k: nat, i: nat): nat { if i + 1 < k then i else if k == 0 then i + 1 else i + 2 }

  lemma DroppedAt<T>(s: seq<T>, k: nat, i: nat)
    requires k < |s| && i < |Dropped(s, k)|
    ensures Origin(k, i) < |s| && Dropped(s, k)[i] == s[Origin(k, i)]
  {
  }

  // Destroy does what it is meant to exactly when the id is absent or at the head.
  lemma DestroyExact(s: seq<Fb>, id: nat)
    ensures Destroyed(s, id) == Removed(s, id) <==> FirstIndex(s, id) == 0 || FirstIndex(s, id) == |s|
  {
    var k := FirstIndex(s, id);
    if 0 < k < |s| {
      assert |Destroyed(s, id)| == |s| - 2 && |Removed(s, id)| == |s| - 1;
    }
  }

  // A match at index k > 0 also loses the framebuffer before it, if ids are unique.
  lemma DestroyLosesPredecessor(s: seq<Fb>, id: nat)
    requires forall i, j :: 0 <= i < j < |s| ==> s[i].id != s[j].id
    requires 0 < FirstIndex(s, id) < |s|
    ensures var lost, left := s[FirstIndex(s, id) - 1].id, Destroyed(s, id);
            lost != id && FirstIndex(left, lost) == |left|
  {
    var k := FirstIndex(s, id);
    var left := Destroyed(s, id);
    forall i | 0 <= i < |left|
      ensures left[i].id != s[k - 1].id
    {
      DroppedAt(s, k, i);
    }
  }

  class FbNode {
    const fb: Fb
    var next: FbNode?

    constructor (fb: Fb, next: FbNode?)
      ensures this.fb == fb && this.next == next
    {
      this.fb, this.next := fb, next;
    }
  }

  ghost function NodeAt(s: seq<FbNode>, i: nat): FbNode?
  {
    if i < |s| then s[i] else null
  }

  class FbList {
    var fbs: FbNode?
    ghost var spine: seq<FbNode>

    ghost predicate Valid()
      reads this, spine
    {
      && fbs == NodeAt(spine, 0)
      && (forall i :: 0 <= i < |spine| ==> spine[i].next == NodeAt(spine, i + 1))
      && (forall i, j :: 0 <= i < j < |spine| ==> spine[i] != spine[j])
    }

    ghost function Contents(): (s: seq<Fb>)
      reads this, spine
      ensures |s| == |spine|
    {
      seq(|spine|, i requires 0 <= i < |spine| reads this, spine => spine[i].fb)
    }

    constructor ()
      ensures Valid() && spine == [] && Contents() == []
    {
      fbs, spine := null, [];
    }

    // The insertion of utinydrm_fb_create.
    method Create(fb: Fb)
      requires Valid()
      modifies this
      ensures Valid() && Contents() == [fb] + old(Contents())
      ensures |spine| == |old(spine)| + 1 && spine[1..] == old(spine) && fresh(spine[0])
    {
      var ufb := new FbNode(fb, fbs);
      fbs := ufb;
      spine := [ufb] + spine;
      forall i | 0 <= i < |spine|
        ensures spine[i].next == NodeAt(spine, i + 1)
      {
        if i > 0 {
          assert spine[i] == old(spine)[i - 1];
        }
      }
    }

    // The lookup of utinydrm_fb_dirty.
    method Find(id: nat) returns (ufb: FbNode?)
      requires Valid()
      ensures ufb == null <==> FirstIndex(Contents(), id) == |spine|
      ensures ufb != null ==> ufb == spine[FirstIndex(Contents(), id)] && ufb.fb == Contents()[FirstIndex(Contents(), id)]
    {
      ufb := fbs;
      ghost var k := 0;
      while ufb != null
        invariant k <= |spine| && ufb == NodeAt(spine, k)
        invariant forall i :: 0 <= i < k ==> spine[i].fb.id != id
        decreases |spine| - k
      {
        assert Contents()[k] == ufb.fb;
        if ufb.fb.id == id {
          return;
        }
        ufb, k := ufb.next, k + 1;
      }
    }

    // The lookup of spi_sync: the framebuffer whose mapping holds the transmit address.
    method FindMapping(addr: nat) returns (ufb: FbNode?)
      requires Valid()
      ensures ufb == null <==> FirstMapping(Contents(), addr) == |spine|
      ensures ufb != null ==> ufb == spine[FirstMapping(Contents(), addr)]
    {
      ufb := fbs;
      ghost var k := 0;
      while ufb != null
        invariant k <= |spine| && ufb == NodeAt(spine, k)
        invariant forall i :: 0 <= i < k ==> !Maps(Contents()[i], addr)
        decreases |spine| - k
      {
        assert Contents()[k] == ufb.fb;
        if addr >= ufb.fb.base && addr < ufb.fb.base + MapSize(ufb.fb) {
          return;
        }
        ufb, k := ufb.next, k + 1;
      }
    }

    // utinydrm_fb_destroy. A link is named by the node that holds it, null standing for
    // the list head; prev and curr are links.
    method Destroy(id: nat) returns (ret: int)
      requires Valid()
      modifies this, spine
      ensures Valid() && Contents() == Destroyed(old(Contents()), id)
      ensures ret == if FirstIndex(old(Contents()), id) == |old(spine)| then -EINVAL else 0
      ensures forall n :: n in spine ==> n in old(spine)
    {
      var prev: FbNode?, curr: FbNode? := null, null;
      var ufb: FbNode? := null;
      ghost var k := 0;
      ghost var s := Contents();
      var at := fbs; // *curr
      while at != null
        invariant k <= |spine| && at == NodeAt(spine, k)
        invariant curr == if k == 0 then null else spine[k - 1]
        invariant prev == if k <= 1 then null else spine[k - 2]
        invariant forall i :: 0 <= i < k ==> s[i].id != id
        invariant Valid() && spine == old(spine) && Contents() == s && ufb == null
        modifies {}
        decreases |spine| - k
      {
        assert s[k] == at.fb;
        if at.fb.id == id {
          ufb := at;
          break;
        }
        prev, curr := curr, at;
        at, k := at.next, k + 1;
      }
      if ufb == null {
        return -EINVAL;
      }
      assert FirstIndex(s, id) == k;
      DroppedDistinct(spine, k);
      Unlink(prev, ufb, k);
      ret := 0;
    }

    // The link two places before the match is set to what follows it.
    method Unlink(prev: FbNode?, ufb: FbNode, ghost k: nat)
      requires Valid() && k < |spine| && ufb == spine[k]
      requires prev == if k <= 1 then null else spine[k - 2]
      modifies this, spine
      ensures Valid()
      ensures spine == Dropped(old(spine), k)
      ensures Contents() == Dropped(old(Contents()), k)
    {
      ghost var was, fbsWas := spine, Contents();
      if prev == null {
        fbs := ufb.next;
      } else {
        prev.next := ufb.next;
      }
      spine := Dropped(was, k);
      forall i | 0 <= i < |spine|
        ensures spine[i].next == NodeAt(spine, i + 1)
        ensures spine[i].fb == Dropped(fbsWas, k)[i]
      {
        DroppedAt(was, k, i);
        DroppedAt(fbsWas, k, i);
        if i + 1 < |spine| {
          DroppedAt(was, k, i + 1);
        }
      }
      DroppedDistinct(was, k);
      if spine != [] {
        DroppedAt(was, k, 0);
      }
    }
  }

  lemma DroppedDistinct<T>(s: seq<T>, k: nat)
    requires k < |s| && forall i, j :: 0 <= i < j < |s| ==> s[i] != s[j]
    ensures var r := Dropped(s, k); forall i, j :: 0 <= i < j < |r| ==> r[i] != r[j]
    ensures forall x :: x in Dropped(s, k) ==> x in s
  {
    var r := Dropped(s, k);
    forall i, j | 0 <= i < j < |r|
      ensures r[i] != r[j]
    {
      DroppedAt(s, k, i);
      DroppedAt(s, k, j);
    }
  }

  // Destroying the second of two framebuffers leaves none.
  lemma DestroySecond(a: Fb, b: Fb)
    requires a.id != b.id
    ensures Destroyed([a, b], b.id) == [] && Removed([a, b], b.id) == [a]
  {
    assert [a, b][1..] == [b];
    assert FirstIndex([a, b], b.id) == 1;
  }
}
