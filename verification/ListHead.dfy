// The circular doubly linked list (include/linux/list.h:56-374) and the message list
// built on it (include/linux/spi/spi.h:215-242).
module ListHead {

  class ListHead {
    var next: ListHead? // null stands for the poison values
    var prev: ListHead?

    constructor ()
      ensures next == null && prev == null
    {
      next, prev := null, null;
    }
  }

  function Succ(n: nat, i: nat): nat
  {
    if i + 1 == n then 0 else i + 1
  }

  predicate Linked(a: ListHead, b: ListHead)
    reads a, b
  {
    a.next == b && b.prev == a
  }

  ghost predicate Distinct(s: seq<ListHead>)
  {
    forall i, j :: 0 <= i < j < |s| ==> s[i] != s[j]
  }

  // The entries of s form one ring in this order, s[0] being the list head.
  ghost predicate Ring(s: seq<ListHead>)
    reads s
  {
    && |s| >= 1 && Distinct(s)
    && forall i :: 0 <= i < |s| ==> Linked(s[i], s[Succ(|s|, i)])
  }

  ghost function Insert(s: seq<ListHead>, k: nat, x: ListHead): seq<ListHead>
    requires k <= |s|
  {
    s[..k] + [x] + s[k..]
  }

  lemma InsertAt(s: seq<ListHead>, k: nat, x: ListHead, i: nat)
    requires k <= |s| && i <= |s|
    ensures Insert(s, k, x)[i] == if i < k then s[i] else if i == k then x else s[i - 1]
  {
  }

  lemma InsertDistinct(s: seq<ListHead>, k: nat, x: ListHead)
    requires k <= |s| && Distinct(s) && x !in s
    ensures Distinct(Insert(s, k, x))
  {
  }

  ghost function Delete(s: seq<ListHead>, k: nat): seq<ListHead>
    requires k < |s|
  {
    s[..k] + s[k + 1..]
  }

  lemma DeleteAt(s: seq<ListHead>, k: nat, i: nat)
    requires k < |s| && i < |s| - 1
    ensures Delete(s, k)[i] == if i < k then s[i] else s[i + 1]
  {
  }

  lemma DeleteDistinct(s: seq<ListHead>, k: nat)
    requires k < |s| && Distinct(s)
    ensures Distinct(Delete(s, k)) && s[k] !in Delete(s, k)
    ensures forall x :: x in Delete(s, k) ==> x in s
  {
    forall i | 0 <= i < |s| - 1
      ensures Delete(s, k)[i] != s[k]
    {
      DeleteAt(s, k, i);
    }
  }

  method InitListHead(list: ListHead)
    modifies list
    ensures Ring([list])
  {
    list.next := list;
    list.prev := list;
  }

  // __list_add: between entry k of a ring and its successor.
  method AddBetween(new_: ListHead, prev: ListHead, next: ListHead, ghost s: seq<ListHead>, ghost k: nat)
    requires Ring(s) && new_ !in s && k < |s| && prev == s[k] && next == s[Succ(|s|, k)]
    modifies new_, prev, next
    ensures Ring(Insert(s, k + 1, new_))
  {
    next.prev := new_;
    new_.next := next;
    new_.prev := prev;
    prev.next := new_;
    ghost var t := Insert(s, k + 1, new_);
    InsertDistinct(s, k + 1, new_);
    forall i | 0 <= i < |t|
      ensures Linked(t[i], t[Succ(|t|, i)])
    {
      InsertAt(s, k + 1, new_, i);
      InsertAt(s, k + 1, new_, Succ(|t|, i));
      if i != k && i != k + 1 {
        var j := if i < k then i else i - 1;
        assert old(Linked(s[j], s[Succ(|s|, j)]));
      }
    }
  }

  method ListAdd(new_: ListHead, head: ListHead, ghost s: seq<ListHead>)
    requires Ring(s) && new_ !in s && head == s[0]
    modifies new_, s
    ensures Ring([head, new_] + s[1..])
  {
    assert Linked(s[0], s[Succ(|s|, 0)]);
    AddBetween(new_, head, head.next, s, 0);
    assert Insert(s, 1, new_) == [head, new_] + s[1..];
  }

  method ListAddTail(new_: ListHead, head: ListHead, ghost s: seq<ListHead>)
    requires Ring(s) && new_ !in s && head == s[0]
    modifies new_, s[0], s[|s| - 1]
    ensures Ring(s + [new_])
  {
    assert Linked(s[|s| - 1], s[Succ(|s|, |s| - 1)]);
    AddBetween(new_, head.prev, head, s, |s| - 1);
    assert Insert(s, |s|, new_) == s + [new_];
  }

  // __list_del_entry: the neighbours of entry k point to each other.
  method DelEntry(entry: ListHead, ghost s: seq<ListHead>, ghost k: nat)
    requires Ring(s) && 1 <= k < |s| && entry == s[k]
    modifies s[k - 1], s[Succ(|s|, k)]
    ensures Ring(Delete(s, k))
  {
    assert Linked(s[k - 1], s[Succ(|s|, k - 1)]) && Linked(s[k], s[Succ(|s|, k)]);
    var prev, next := entry.prev, entry.next;
    next.prev := prev;
    prev.next := next;
    ghost var t := Delete(s, k);
    DeleteDistinct(s, k);
    forall i | 0 <= i < |t|
      ensures Linked(t[i], t[Succ(|t|, i)])
    {
      DeleteAt(s, k, i);
      DeleteAt(s, k, Succ(|t|, i));
      if i != k - 1 {
        var j := if i < k then i else i + 1;
        assert old(Linked(s[j], s[Succ(|s|, j)]));
      }
    }
  }

  method ListDel(entry: ListHead, ghost s: seq<ListHead>, ghost k: nat)
    requires Ring(s) && 1 <= k < |s| && entry == s[k]
    modifies s
    ensures Ring(Delete(s, k)) && entry.next == null && entry.prev == null
  {
    DelEntry(entry, s, k);
    entry.next := null;
    entry.prev := null;
  }

  // Moving an entry of a list to the tail of the same list.
  method ListMoveTail(list: ListHead, head: ListHead, ghost s: seq<ListHead>, ghost k: nat)
    requires Ring(s) && 1 <= k < |s| && list == s[k] && head == s[0]
    modifies s
    ensures Ring(Delete(s, k) + [list])
  {
    DelEntry(list, s, k);
    ListAddTail(list, head, Delete(s, k));
  }

  // Moving an entry to the tail of another list.
  method ListMoveTailTo(list: ListHead, head: ListHead, ghost s: seq<ListHead>, ghost k: nat, ghost t: seq<ListHead>)
    requires Ring(s) && 1 <= k < |s| && list == s[k]
    requires Ring(t) && head == t[0] && forall x :: x in s ==> x !in t
    modifies s, t
    ensures Ring(Delete(s, k)) && Ring(t + [list])
  {
    DeleteDistinct(s, k);
    assert s[k - 1] in s && s[Succ(|s|, k)] in s;
    DelEntry(list, s, k);
    ghost var rest := Delete(s, k);
    assert Ring(t);
    assert t[0] in t && t[|t| - 1] in t;
    assert forall x :: x in rest ==> x in s && x != list && x != t[0] && x != t[|t| - 1];
    ListAddTail(list, head, t);
  }

  method ListEmpty(head: ListHead, ghost s: seq<ListHead>) returns (r: bool)
    requires Ring(s) && head == s[0]
    ensures r <==> |s| == 1
  {
    assert Linked(s[0], s[Succ(|s|, 0)]);
    r := head.next == head;
  }

  method ListIsSingular(head: ListHead, ghost s: seq<ListHead>) returns (r: bool)
    requires Ring(s) && head == s[0]
    ensures r <==> |s| == 2
  {
    assert Linked(s[|s| - 1], s[Succ(|s|, |s| - 1)]);
    assert Linked(s[0], s[Succ(|s|, 0)]);
    r := head.next != head && head.next == head.prev;
  }

  method ListIsLast(list: ListHead, head: ListHead, ghost s: seq<ListHead>, ghost k: nat) returns (r: bool)
    requires Ring(s) && head == s[0] && k < |s| && list == s[k]
    ensures r <==> k == |s| - 1
  {
    assert Linked(s[k], s[Succ(|s|, k)]);
    r := list.next == head;
  }

  method ListRotateLeft(head: ListHead, ghost s: seq<ListHead>)
    requires Ring(s) && head == s[0]
    modifies s
    ensures Ring(if |s| == 1 then s else [head] + s[2..] + [s[1]])
  {
    var empty := ListEmpty(head, s);
    if !empty {
      assert Linked(s[0], s[Succ(|s|, 0)]);
      var first := head.next;
      ListMoveTail(first, head, s, 1);
      assert Delete(s, 1) + [s[1]] == [head] + s[2..] + [s[1]];
    }
  }

  lemma CutParts(list: ListHead, s: seq<ListHead>, k: nat)
    requires Distinct(s) && list !in s && 1 <= k < |s|
    ensures Distinct([list] + s[1..k + 1]) && Distinct([s[0]] + s[k + 1..])
  {
  }

  // __list_cut_position: entries 1..k of a ring get the head list.
  method CutAt(list: ListHead, head: ListHead, entry: ListHead, ghost s: seq<ListHead>, ghost k: nat)
    requires Ring(s) && list !in s && head == s[0] && 1 <= k < |s| && entry == s[k]
    modifies list, s
    ensures Ring([list] + s[1..k + 1]) && Ring([head] + s[k + 1..])
  {
    assert Linked(s[0], s[Succ(|s|, 0)]) && Linked(s[k], s[Succ(|s|, k)]);
    var newFirst := entry.next;
    list.next := head.next;
    list.next.prev := list;
    list.prev := entry;
    entry.next := list;
    head.next := newFirst;
    newFirst.prev := head;
    ghost var a, b := [list] + s[1..k + 1], [head] + s[k + 1..];
    CutParts(list, s, k);
    forall i | 0 <= i < |a|
      ensures Linked(a[i], a[Succ(|a|, i)])
    {
      assert old(Linked(s[i], s[Succ(|s|, i)]));
      assert a[i] == if i == 0 then list else s[i];
      assert a[Succ(|a|, i)] == if i == k then list else s[i + 1];
    }
    forall i | 0 <= i < |b|
      ensures Linked(b[i], b[Succ(|b|, i)])
    {
      var j := if i == 0 then 0 else i + k;
      assert old(Linked(s[j], s[Succ(|s|, j)]));
      assert b[i] == s[j];
      assert b[Succ(|b|, i)] == if i == |b| - 1 then head else s[i + 1 + k];
    }
  }

  // list_cut_position; entry is at index k of the ring, or a foreign entry where the
  // ring has at most one entry.
  method ListCutPosition(list: ListHead, head: ListHead, entry: ListHead, ghost s: seq<ListHead>, ghost k: nat)
    requires Ring(s) && list !in s && head == s[0]
    requires if entry in s then k < |s| && entry == s[k] else |s| <= 2
    modifies list, s
    ensures |s| == 1 || entry !in s ==> Ring(s) && list.next == old(list.next) && list.prev == old(list.prev)
    ensures |s| > 1 && entry == head ==> Ring([list]) && Ring(s)
    ensures |s| > 1 && entry in s && entry != head ==> Ring([list] + s[1..k + 1]) && Ring([head] + s[k + 1..])
  {
    var empty := ListEmpty(head, s);
    if empty {
      return;
    }
    var singular := ListIsSingular(head, s);
    assert Linked(s[0], s[Succ(|s|, 0)]);
    if singular && head.next != entry && head != entry {
      return;
    }
    if entry == head {
      InitListHead(list);
    } else {
      CutAt(list, head, entry, s, k);
    }
  }

  ghost function Spliced(a: seq<ListHead>, b: seq<ListHead>, k: nat): seq<ListHead>
    requires k < |b| && |a| >= 1
  {
    b[..k + 1] + a[1..] + b[k + 1..]
  }

  lemma SplicedAt(a: seq<ListHead>, b: seq<ListHead>, k: nat, i: nat)
    requires k < |b| && |a| >= 1 && i < |a| + |b| - 1
    ensures Spliced(a, b, k)[i] == if i <= k then b[i] else if i < k + |a| then a[i - k] else b[i - (|a| - 1)]
  {
  }

  lemma SplicedDistinct(a: seq<ListHead>, b: seq<ListHead>, k: nat)
    requires k < |b| && |a| >= 1 && Distinct(a) && Distinct(b) && forall x :: x in a ==> x !in b
    ensures Distinct(Spliced(a, b, k))
  {
    forall i, j | 0 <= i < j < |a| + |b| - 1
      ensures Spliced(a, b, k)[i] != Spliced(a, b, k)[j]
    {
      SplicedAt(a, b, k, i);
      SplicedAt(a, b, k, j);
      if k < i < k + |a| && !(k < j < k + |a|) {
        assert a[i - k] in a;
      }
      if k < j < k + |a| && !(k < i < k + |a|) {
        assert a[j - k] in a;
      }
    }
  }

  // __list_splice: the entries of ring a go between entry k of ring b and its successor.
  method SpliceBetween(list: ListHead, prev: ListHead, next: ListHead,
                       ghost a: seq<ListHead>, ghost b: seq<ListHead>, ghost k: nat)
    requires Ring(a) && Ring(b) && |a| > 1 && list == a[0] && forall x :: x in a ==> x !in b
    requires k < |b| && prev == b[k] && next == b[Succ(|b|, k)]
    modifies a[1..], b
    ensures Ring(Spliced(a, b, k))
  {
    assert Linked(a[|a| - 1], a[Succ(|a|, |a| - 1)]) && Linked(a[0], a[Succ(|a|, 0)]);
    assert Linked(b[k], b[Succ(|b|, k)]);
    var first, last := list.next, list.prev;
    first.prev := prev;
    prev.next := first;
    last.next := next;
    next.prev := last;
    ghost var t := Spliced(a, b, k);
    SplicedDistinct(a, b, k);
    forall i | 0 <= i < |t|
      ensures Linked(t[i], t[Succ(|t|, i)])
    {
      SplicedAt(a, b, k, i);
      SplicedAt(a, b, k, Succ(|t|, i));
      if k < i < k + |a| - 1 {
        var j := i - k;
        assert old(Linked(a[j], a[Succ(|a|, j)]));
        assert a[j] in a && a[j + 1] in a;
        assert a[j] != prev && a[j + 1] != next && a[j] != last && a[j + 1] != first;
      } else if i == k + |a| - 1 {
        assert t[i] == last && t[Succ(|t|, i)] == next;
        assert last in a;
      } else if i == k {
        assert t[i] == prev && t[Succ(|t|, i)] == first;
        assert first in a;
      } else {
        var j := if i <= k then i else i - (|a| - 1);
        assert old(Linked(b[j], b[Succ(|b|, j)]));
        assert b[j] != prev && b[Succ(|b|, j)] != next;
        assert first in a && last in a;
      }
    }
  }

  method ListSplice(list: ListHead, head: ListHead, ghost a: seq<ListHead>, ghost b: seq<ListHead>)
    requires Ring(a) && Ring(b) && list == a[0] && head == b[0] && forall x :: x in a ==> x !in b
    modifies a[1..], b
    ensures Ring([head] + a[1..] + b[1..])
  {
    var empty := ListEmpty(list, a);
    if !empty {
      assert Linked(b[0], b[Succ(|b|, 0)]);
      SpliceBetween(list, head, head.next, a, b, 0);
      assert Spliced(a, b, 0) == [head] + a[1..] + b[1..];
    } else {
      assert [head] + a[1..] + b[1..] == b;
    }
  }

  method ListSpliceTail(list: ListHead, head: ListHead, ghost a: seq<ListHead>, ghost b: seq<ListHead>)
    requires Ring(a) && Ring(b) && list == a[0] && head == b[0] && forall x :: x in a ==> x !in b
    modifies a[1..], b
    ensures Ring(b + a[1..])
  {
    var empty := ListEmpty(list, a);
    if !empty {
      assert Linked(b[|b| - 1], b[Succ(|b|, |b| - 1)]);
      SpliceBetween(list, head.prev, head, a, b, |b| - 1);
      assert Spliced(a, b, |b| - 1) == b + a[1..];
    } else {
      assert b + a[1..] == b;
    }
  }

  // Cutting at any entry and splicing the cut part back at the head restores the ring.
  method CutAndSplice(list: ListHead, head: ListHead, entry: ListHead, ghost s: seq<ListHead>, ghost k: nat)
    requires Ring(s) && list !in s && head == s[0] && k < |s| && entry == s[k]
    requires |s| == 1 ==> Ring([list])
    modifies list, s
    ensures Ring(s)
  {
    ListCutPosition(list, head, entry, s, k);
    if entry == head {
      ListSplice(list, head, [list], s);
      assert [head] + [list][1..] + s[1..] == s;
    } else {
      ghost var a, b := [list] + s[1..k + 1], [head] + s[k + 1..];
      ListSplice(list, head, a, b);
      assert [head] + a[1..] + b[1..] == s;
    }
  }

  // spi_message_init_with_transfers: the transfers in array order behind the message.
  method MessageInitWithTransfers(m: ListHead, xfers: seq<ListHead>)
    requires forall i, j :: 0 <= i < j < |xfers| ==> xfers[i] != xfers[j]
    requires m !in xfers
    modifies m, xfers
    ensures Ring([m] + xfers)
  {
    InitListHead(m);
    var i := 0;
    assert [m] + xfers[..0] == [m];
    while i < |xfers|
      invariant i <= |xfers|
      invariant Ring([m] + xfers[..i])
    {
      ListAddTail(xfers[i], m, [m] + xfers[..i]);
      assert [m] + xfers[..i] + [xfers[i]] == [m] + xfers[..i + 1];
      i := i + 1;
    }
    assert xfers[..i] == xfers;
  }

  // The ring determines the order: walking next from the head visits the entries of s.
  lemma RingIsUnique(s: seq<ListHead>, t: seq<ListHead>)
    requires Ring(s) && Ring(t) && s[0] == t[0]
    ensures s == t
  {
    if |s| <= |t| {
      RingSame(s, t);
    } else {
      RingSame(t, s);
    }
  }

  lemma RingSame(s: seq<ListHead>, t: seq<ListHead>)
    requires Ring(s) && Ring(t) && s[0] == t[0] && |s| <= |t|
    ensures s == t
  {
    var n := |s|;
    RingPrefix(s, t, n);
    assert s[n - 1] == s[..n][n - 1] == t[..n][n - 1] == t[n - 1];
    assert Linked(s[n - 1], s[Succ(n, n - 1)]);
    assert Linked(t[n - 1], t[Succ(|t|, n - 1)]);
    assert t[0] == t[Succ(|t|, n - 1)];
    assert |s| == |t|;
    assert s[..n] == s && t[..n] == t;
  }

  lemma {:induction false} RingPrefix(s: seq<ListHead>, t: seq<ListHead>, n: nat)
    requires Ring(s) && Ring(t) && s[0] == t[0] && n <= |s| && n <= |t|
    ensures s[..n] == t[..n]
    decreases n
  {
    if n > 1 {
      RingPrefix(s, t, n - 1);
      assert s[n - 2] == s[..n - 1][n - 2] == t[..n - 1][n - 2] == t[n - 2];
      assert Linked(s[n - 2], s[Succ(|s|, n - 2)]) && Linked(t[n - 2], t[Succ(|t|, n - 2)]);
      assert s[..n] == s[..n - 1] + [s[n - 1]];
      assert t[..n] == t[..n - 1] + [t[n - 1]];
    }
  }
}
