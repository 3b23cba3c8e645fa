/** The intrusive circular doubly linked lists.  A list head and its entries
    form a ring; the ghost sequence handed to each operation names them. */
module CircularList {

  class ListHead {
    var next: ListHead?
    var prev: ListHead?

    constructor ()
      ensures next == null && prev == null
    {
      next, prev := null, null;
    }
  }

  ghost predicate Distinct(r: seq<ListHead>) {
    forall i, j :: 0 <= i < j < |r| ==> r[i] != r[j]
  }

  /** Consecutive members of r point at each other. */
  ghost predicate Chained(r: seq<ListHead>)
    reads r
  {
    forall i :: 0 <= i < |r| - 1 ==> r[i].next == r[i + 1] && r[i + 1].prev == r[i]
  }

  /** r, in order and back to its start, is a ring. */
  ghost predicate Ring(r: seq<ListHead>)
    reads r
  {
    && r != [] && Distinct(r) && Chained(r)
    && r[|r| - 1].next == r[0] && r[0].prev == r[|r| - 1]
  }

  /** The entries of the list headed by head are s, in order. */
  ghost predicate List(head: ListHead, s: seq<ListHead>)
    reads head, s
  {
    Ring([head] + s)
  }

  /** Only the last member of a ring points back at its start. */
  lemma LastIff(head: ListHead, s: seq<ListHead>, k: nat)
    requires List(head, s) && k <= |s|
    ensures ([head] + s)[k].next == head <==> k == |s|
  {
    var r := [head] + s;
    assert k < |s| ==> r[k].next == r[k + 1];
  }

  lemma {:induction false} StepAgrees(head: ListHead, s: seq<ListHead>, t: seq<ListHead>, k: nat)
    requires List(head, s) && List(head, t) && k <= |s| && k <= |t|
    ensures ([head] + s)[k] == ([head] + t)[k]
    ensures k == |s| <==> k == |t|
  {
    if k > 0 {
      StepAgrees(head, s, t, k - 1);
      var r, q := [head] + s, [head] + t;
      assert r[k - 1].next == r[k] && q[k - 1].next == q[k];
    }
    LastIff(head, s, k);
    LastIff(head, t, k);
  }

  /** The heap determines the entries: a list is headed by one sequence only. */
  lemma ListUnique(head: ListHead, s: seq<ListHead>, t: seq<ListHead>)
    requires List(head, s) && List(head, t)
    ensures s == t
  {
    StepAgrees(head, s, t, if |s| < |t| then |s| else |t|);
    forall i | 0 <= i < |s|
      ensures s[i] == t[i]
    {
      StepAgrees(head, s, t, i + 1);
    }
  }

  /** Any member of a ring may be taken as its start. */
  lemma RingRotates(r: seq<ListHead>, k: nat)
    requires Ring(r) && k <= |r|
    ensures Ring(r[k..] + r[..k])
  {
    var q := r[k..] + r[..k];
    var n := |r|;
    forall i | 0 <= i < n
      ensures q[i] == r[if i + k < n then i + k else i + k - n]
    {
    }
    forall i | 0 <= i < n - 1
      ensures q[i].next == q[i + 1] && q[i + 1].prev == q[i]
    {
      var j := if i + k < n then i + k else i + k - n;
      if j < n - 1 {
        assert r[j].next == r[j + 1];
      }
    }
    if 0 < k < n {
      assert r[k - 1].next == r[k];
    }
  }

  method InitListHead(list: ListHead)
    modifies list
    ensures List(list, [])
  {
    list.next := list;
    list.prev := list;
  }

  /** `__list_add`: r is the ring that starts at next and ends at prev. */
  method InsertBetween(nhead: ListHead, prev: ListHead, next: ListHead, ghost r: seq<ListHead>)
    requires Ring(r) && r[0] == next && r[|r| - 1] == prev && nhead !in r
    modifies nhead, prev, next
    ensures Ring(r + [nhead])
  {
    next.prev := nhead;
    nhead.next := next;
    nhead.prev := prev;
    prev.next := nhead;
  }

  method ListAdd(nhead: ListHead, head: ListHead, ghost s: seq<ListHead>)
    requires List(head, s) && nhead !in [head] + s
    modifies nhead, head, head.next
    ensures List(head, [nhead] + s)
  {
    ghost var r := [head] + s;
    RingRotates(r, 1);
    assert r[1..] + r[..1] == s + [head];
    assert s != [] ==> r[0].next == r[1];
    InsertBetween(nhead, head, head.next, s + [head]);
    ghost var q := s + [head] + [nhead];
    RingRotates(q, |s|);
    assert q[|s|..] + q[..|s|] == [head] + ([nhead] + s);
  }

  method ListAddTail(nhead: ListHead, head: ListHead, ghost s: seq<ListHead>)
    requires List(head, s) && nhead !in [head] + s
    modifies nhead, head, head.prev
    ensures List(head, s + [nhead])
  {
    InsertBetween(nhead, head.prev, head, [head] + s);
    assert [head] + s + [nhead] == [head] + (s + [nhead]);
  }

  /** `__list_del`: makes the neighbours of a ring's first member its ends. */
  method Bridge(prev: ListHead?, next: ListHead?, ghost r: seq<ListHead>)
    requires prev != null && next != null ==> Ring(r) && r[0].prev == prev && r[0].next == next
    modifies prev, next
    ensures prev != null && next != null && |r| > 1 ==> Ring(r[1..])
    ensures prev != null && next != null ==> r[0].next == old(r[0].next) && r[0].prev == old(r[0].prev)
    ensures prev == null ==> next != null ==> next.next == old(next.next) && next.prev == old(next.prev)
    ensures next == null ==> prev != null ==> prev.next == old(prev.next) && prev.prev == old(prev.prev)
  {
    if prev != null && next != null {
      assert |r| > 1 ==> r[0].next == r[1];
      next.prev := prev;
      prev.next := next;
    }
  }

  lemma Swap(a: seq<ListHead>, b: seq<ListHead>)
    requires Ring(a + b)
    ensures Ring(b + a)
  {
    RingRotates(a + b, |a|);
    assert (a + b)[|a|..] == b && (a + b)[..|a|] == a;
  }

  /** The ring of a list, started at one of its entries instead of at the head. */
  lemma OpenAt(head: ListHead, t: seq<ListHead>, u: seq<ListHead>)
    requires List(head, t + u)
    ensures Ring(u + ([head] + t))
  {
    assert [head] + (t + u) == ([head] + t) + u;
    Swap([head] + t, u);
  }

  lemma CloseAt(head: ListHead, t: seq<ListHead>, u: seq<ListHead>)
    requires Ring(u + ([head] + t))
    ensures List(head, t + u)
  {
    Swap(u, [head] + t);
    assert ([head] + t) + u == [head] + (t + u);
  }

  lemma EntryApart(head: ListHead, t: seq<ListHead>, entry: ListHead, u: seq<ListHead>)
    requires List(head, t + [entry] + u)
    ensures entry != head && entry !in t && entry !in u
    ensures entry.next != null && entry.prev != null
  {
    var r := [head] + (t + [entry] + u);
    assert r[|t| + 1] == entry;
    assert r[|t|].next == r[|t| + 1] && r[|t| + 1].prev == r[|t|];
    assert u != [] ==> r[|t| + 1].next == r[|t| + 2];
    forall x | x in t || x in u
      ensures x != entry
    {
      if x in t {
        var i :| 0 <= i < |t| && t[i] == x;
        assert r[i + 1] == x;
      } else {
        var i :| 0 <= i < |u| && u[i] == x;
        assert r[|t| + 2 + i] == x;
      }
    }
  }

  /** An entry that is on no list: self-linked after an init, null-linked after
      a delete. */
  ghost predicate Off(entry: ListHead)
    reads entry
  {
    (entry.next == entry && entry.prev == entry) || (entry.next == null && entry.prev == null)
  }

  /** What an unlinking operation is handed: an entry between t and u on head's
      list, or one that is on no list. */
  ghost predicate OnOrOff(entry: ListHead, on: bool, head: ListHead, t: seq<ListHead>, u: seq<ListHead>)
    reads entry, head, t, u
  {
    if on then List(head, t + [entry] + u) else Off(entry)
  }

  /** `__list_del_entry`: the rest of the list keeps its order, and the entry's
      own links stay as they were. */
  method DelEntry(entry: ListHead, ghost on: bool, ghost head: ListHead, ghost t: seq<ListHead>, ghost u: seq<ListHead>)
    requires OnOrOff(entry, on, head, t, u)
    modifies entry.prev, entry.next
    ensures on ==> List(head, t + u) && entry != head && entry !in t + u
    ensures entry.next == old(entry.next) && entry.prev == old(entry.prev)
  {
    ghost var q := [entry];
    if on {
      EntryApart(head, t, entry, u);
      q := [entry] + (u + ([head] + t));
      OpenEntry(entry, head, t, u, q);
    }
    Bridge(entry.prev, entry.next, q);
    if on {
      CloseAt(head, t, u);
    }
  }

  lemma OpenEntry(entry: ListHead, head: ListHead, t: seq<ListHead>, u: seq<ListHead>, q: seq<ListHead>)
    requires List(head, t + [entry] + u) && q == [entry] + (u + ([head] + t))
    ensures Ring(q) && q[1..] == u + ([head] + t)
  {
    assert t + [entry] + u == t + ([entry] + u);
    OpenAt(head, t, [entry] + u);
    assert [entry] + u + ([head] + t) == q;
  }

  /** `list_del`.  Of an entry that is on a list: the rest keeps its order.  Of
      one already deleted: nothing changes.  Either way its links end up null. */
  method ListDel(entry: ListHead, ghost on: bool, ghost head: ListHead, ghost t: seq<ListHead>, ghost u: seq<ListHead>)
    requires OnOrOff(entry, on, head, t, u)
    modifies entry, entry.prev, entry.next
    ensures on ==> List(head, t + u)
    ensures entry.next == null && entry.prev == null
  {
    if on {
      EntryApart(head, t, entry, u);
    }
    if entry.next != null {
      DelEntry(entry, on, head, t, u);
    }
    entry.next := null;
    entry.prev := null;
  }

  /** `list_del_init`: as `list_del`, but the entry ends up an empty list. */
  method ListDelInit(entry: ListHead, ghost on: bool, ghost head: ListHead,
                     ghost t: seq<ListHead>, ghost u: seq<ListHead>)
    requires OnOrOff(entry, on, head, t, u)
    modifies entry, entry.prev, entry.next
    ensures on ==> List(head, t + u)
    ensures List(entry, [])
  {
    DelEntry(entry, on, head, t, u);
    InitListHead(entry);
  }

  /** Where a moved entry goes: its own list, or another one apart from it. */
  ghost predicate Destination(list: ListHead, head: ListHead, on: bool, from: ListHead,
                              t: seq<ListHead>, u: seq<ListHead>, to: seq<ListHead>)
    reads head, to
  {
    if on && from == head then to == t + u
    else List(head, to) && list !in [head] + to
         && (on ==> forall x :: x in [head] + to ==> x !in [from] + (t + u))
  }

  /** The unlinking step of a move: the destination is ready for the entry. */
  method TakeOut(list: ListHead, ghost head: ListHead, ghost on: bool, ghost from: ListHead,
                 ghost t: seq<ListHead>, ghost u: seq<ListHead>, ghost to: seq<ListHead>)
    requires OnOrOff(list, on, from, t, u) && Destination(list, head, on, from, t, u, to)
    modifies list, from, t, u
    ensures List(head, to) && list !in [head] + to
    ensures head.next in [head] + to && head.prev in [head] + to
    ensures on && from != head ==> List(from, t + u) && list !in [from] + (t + u)
  {
    MoveFrame(list, head, on, from, t, u, to);
    DelEntry(list, on, from, t, u);
    if on && from == head {
      assert to == t + u;
    } else {
      assert forall o: ListHead :: o == head || o in to ==> o.next == old(o.next) && o.prev == old(o.prev);
    }
    NeighboursIn(head, to);
  }

  /** `list_move` within one list or from one list to another: to is the
      destination's entries once the moved one is out. */
  method ListMove(list: ListHead, head: ListHead, ghost on: bool, ghost from: ListHead,
                  ghost t: seq<ListHead>, ghost u: seq<ListHead>, ghost to: seq<ListHead>)
    requires OnOrOff(list, on, from, t, u) && Destination(list, head, on, from, t, u, to)
    modifies list, head, to, from, t, u
    ensures List(head, [list] + to)
    ensures on && from != head ==> List(from, t + u)
  {
    TakeOut(list, head, on, from, t, u, to);
    ListAdd(list, head, to);
  }

  /** `list_move_tail`, likewise. */
  method ListMoveTail(list: ListHead, head: ListHead, ghost on: bool, ghost from: ListHead,
                      ghost t: seq<ListHead>, ghost u: seq<ListHead>, ghost to: seq<ListHead>)
    requires OnOrOff(list, on, from, t, u) && Destination(list, head, on, from, t, u, to)
    modifies list, head, to, from, t, u
    ensures List(head, to + [list])
    ensures on && from != head ==> List(from, t + u)
  {
    TakeOut(list, head, on, from, t, u, to);
    ListAddTail(list, head, to);
  }

  lemma NeighboursIn(head: ListHead, s: seq<ListHead>)
    requires List(head, s)
    ensures head.next != null && head.next in [head] + s
    ensures head.prev != null && head.prev in [head] + s
  {
    var r := [head] + s;
    assert s != [] ==> r[0].next == r[1];
  }

  /** Unlinking touches the entry's own list, and another destination not at all. */
  lemma MoveFrame(list: ListHead, head: ListHead, on: bool, from: ListHead,
                  t: seq<ListHead>, u: seq<ListHead>, to: seq<ListHead>)
    requires OnOrOff(list, on, from, t, u) && Destination(list, head, on, from, t, u, to)
    ensures list.next == null || list.next in [list, from] + t + u
    ensures list.prev == null || list.prev in [list, from] + t + u
    ensures !(on && from == head) ==>
              && List(head, to) && head != list.next && head != list.prev
              && forall x :: x in to ==> x != list.next && x != list.prev
  {
    assert head in [head] + to && forall x :: x in to ==> x in [head] + to;
    if on {
      var r := [from] + (t + [list] + u);
      assert r[|t| + 1] == list;
      assert r[|t|].next == r[|t| + 1] && r[|t| + 1].prev == r[|t|];
      assert u != [] ==> r[|t| + 1].next == r[|t| + 2];
      EntryApart(from, t, list, u);
      assert list.next in [from] + (t + u) && list.prev in [from] + (t + u);
    }
  }

  /** `list_rotate_left`: the first entry becomes the last. */
  method ListRotateLeft(head: ListHead, ghost s: seq<ListHead>)
    requires List(head, s)
    modifies head, s
    ensures List(head, if s == [] then [] else s[1..] + [s[0]])
  {
    EmptyIff(head, s);
    if !ListEmpty(head) {
      assert [] + [s[0]] + s[1..] == s && [] + s[1..] == s[1..];
      ghost var r := [head] + s;
      assert r[0].next == r[1];
      var first := head.next;
      ListMoveTail(first, head, true, head, [], s[1..], s[1..]);
    }
  }

  predicate ListEmpty(head: ListHead)
    reads head
  {
    head.next == head
  }

  predicate ListEmptyCareful(head: ListHead)
    reads head
  {
    head.next == head && head.next == head.prev
  }

  predicate ListIsLast(list: ListHead, head: ListHead)
    reads list
  {
    list.next == head
  }

  predicate ListIsSingular(head: ListHead)
    reads head
  {
    !ListEmpty(head) && head.next == head.prev
  }

  /** What the tests tell about the entries. */
  lemma EmptyIff(head: ListHead, s: seq<ListHead>)
    requires List(head, s)
    ensures ListEmpty(head) <==> s == []
    ensures ListEmptyCareful(head) <==> s == []
  {
    LastIff(head, s, 0);
  }

  lemma SingularIff(head: ListHead, s: seq<ListHead>)
    requires List(head, s)
    ensures ListIsSingular(head) <==> |s| == 1
  {
    EmptyIff(head, s);
    var r := [head] + s;
    if s != [] {
      assert r[0].next == r[1];
    }
  }

  lemma LastEntryIff(head: ListHead, s: seq<ListHead>, i: nat)
    requires List(head, s) && i < |s|
    ensures ListIsLast(s[i], head) <==> i == |s| - 1
  {
    LastIff(head, s, i + 1);
  }

  /** `list_replace`, for the ring that starts at the replaced member: nhead
      takes its place, and an empty list stays empty under its new head. */
  method ListReplace(oldHead: ListHead, nhead: ListHead, ghost r: seq<ListHead>)
    requires Ring(r) && r[0] == oldHead && (nhead == oldHead || nhead !in r)
    modifies nhead, oldHead, oldHead.next, oldHead.prev
    ensures Ring([nhead] + r[1..])
  {
    assert |r| > 1 ==> r[0].next == r[1];
    nhead.next := oldHead.next;
    nhead.next.prev := nhead;
    nhead.prev := oldHead.prev;
    nhead.prev.next := nhead;
  }

  /** `list_replace_init`: the replaced member is left an empty list; it must not
      be replaced by itself then, unless it is alone. */
  method ListReplaceInit(oldHead: ListHead, nhead: ListHead, ghost r: seq<ListHead>)
    requires Ring(r) && r[0] == oldHead && (nhead == oldHead || nhead !in r)
    modifies nhead, oldHead, oldHead.next, oldHead.prev
    ensures List(oldHead, [])
    ensures Ring([nhead] + r[1..]) <==> nhead != oldHead || |r| == 1
  {
    ListReplace(oldHead, nhead, r);
    assert oldHead !in r[1..];
    InitListHead(oldHead);
    ghost var after := [nhead] + r[1..];
    assert |r| > 1 ==> after[1] == r[1];
  }

  /** A replaced entry, rather than head, seen from the head again. */
  lemma ReplacedEntry(head: ListHead, t: seq<ListHead>, nhead: ListHead, u: seq<ListHead>)
    requires Ring([nhead] + (u + ([head] + t)))
    ensures List(head, t + [nhead] + u)
  {
    assert [nhead] + (u + ([head] + t)) == ([nhead] + u) + ([head] + t);
    CloseAt(head, t, [nhead] + u);
    assert t + ([nhead] + u) == t + [nhead] + u;
  }

  ghost predicate Apart(list: ListHead, s: seq<ListHead>, head: ListHead, t: seq<ListHead>) {
    forall x :: x in [list] + s ==> x !in [head] + t
  }

  lemma EntriesChained(list: ListHead, s: seq<ListHead>)
    requires List(list, s) && s != []
    ensures Chained(s) && Distinct(s) && list !in s
    ensures list.next == s[0] && list.prev == s[|s| - 1]
  {
    var q := [list] + s;
    assert q[0].next == q[1] && q[|q| - 1] == s[|s| - 1];
    forall i | 0 <= i < |s| - 1
      ensures s[i].next == s[i + 1] && s[i + 1].prev == s[i]
    {
      assert q[i + 1].next == q[i + 2];
    }
    forall i, j | 0 <= i < j < |s|
      ensures s[i] != s[j]
    {
      assert q[i + 1] != q[j + 1];
    }
    forall i | 0 <= i < |s|
      ensures s[i] != list
    {
      assert q[0] != q[i + 1];
    }
  }

  lemma JoinRing(r: seq<ListHead>, s: seq<ListHead>)
    requires r != [] && s != [] && Distinct(r) && Distinct(s) && Chained(r) && Chained(s)
    requires forall x :: x in s ==> x !in r
    requires r[|r| - 1].next == s[0] && s[0].prev == r[|r| - 1]
    requires s[|s| - 1].next == r[0] && r[0].prev == s[|s| - 1]
    ensures Ring(r + s)
  {
    var q := r + s;
    forall i, j | 0 <= i < j < |q|
      ensures q[i] != q[j]
    {
      if i < |r| <= j {
        assert q[j] in s && q[i] in r;
      }
    }
    forall i | 0 <= i < |q| - 1
      ensures q[i].next == q[i + 1] && q[i + 1].prev == q[i]
    {
      if i < |r| - 1 {
        assert r[i].next == r[i + 1];
      } else if i >= |r| {
        assert s[i - |r|].next == s[i - |r| + 1];
      }
    }
  }

  /** `__list_splice` of a non-empty list into the ring that starts at next and
      ends at prev.  The spliced head keeps its stale links. */
  method SpliceBetween(list: ListHead, prev: ListHead, next: ListHead, ghost s: seq<ListHead>, ghost r: seq<ListHead>)
    requires List(list, s) && s != [] && Ring(r) && r[0] == next && r[|r| - 1] == prev
    requires forall x :: x in [list] + s ==> x !in r
    modifies list.next, list.prev, prev, next
    ensures Ring(r + s)
    ensures list.next == old(list.next) && list.prev == old(list.prev)
  {
    EntriesChained(list, s);
    assert list in [list] + s && forall x :: x in s ==> x in [list] + s;
    forall i, j | 0 <= i < |s| && 0 <= j < |r|
      ensures s[i] != r[j]
    {
      assert s[i] in s && r[j] in r;
    }
    var first, last := list.next, list.prev;
    first.prev := prev;
    prev.next := first;
    last.next := next;
    next.prev := last;
    JoinRing(r, s);
  }

  lemma ApartRing(list: ListHead, s: seq<ListHead>, head: ListHead, t: seq<ListHead>)
    requires Apart(list, s, head, t)
    ensures forall x :: x in [list] + s ==> x !in t + [head]
    ensures list != head && list !in t && head !in s
  {
    assert list in [list] + s && head in [head] + t;
    forall x | x in [list] + s
      ensures x !in t + [head]
    {
      assert x in t + [head] ==> x in [head] + t;
    }
    assert forall x :: x in s ==> x in [list] + s;
  }

  /** `list_splice`: list's entries go before head's.  An empty list leaves
      everything alone; the spliced head keeps its links. */
  method ListSplice(list: ListHead, head: ListHead, ghost s: seq<ListHead>, ghost t: seq<ListHead>)
    requires List(list, s) && List(head, t) && Apart(list, s, head, t)
    modifies head, t, s
    ensures List(head, s + t)
    ensures list.next == old(list.next) && list.prev == old(list.prev)
  {
    EmptyIff(list, s);
    ApartRing(list, s, head, t);
    if !ListEmpty(list) {
      NeighboursIn(head, t);
      EntriesChained(list, s);
      assert List(head, [] + t) by { assert [] + t == t; }
      OpenAt(head, [], t);
      assert t + ([head] + []) == t + [head];
      HeadNext(head, t);
      SpliceBetween(list, head, head.next, s, t + [head]);
      assert (t + [head]) + s == t + ([head] + s);
      CloseAt(head, s, t);
    } else {
      assert s + t == t;
    }
  }

  lemma HeadNext(head: ListHead, t: seq<ListHead>)
    requires List(head, t)
    ensures head.next == (t + [head])[0] && head.prev == ([head] + t)[|t|]
  {
    var r := [head] + t;
    assert t != [] ==> r[0].next == r[1];
  }

  /** `list_splice_tail`: list's entries go after head's. */
  method ListSpliceTail(list: ListHead, head: ListHead, ghost s: seq<ListHead>, ghost t: seq<ListHead>)
    requires List(list, s) && List(head, t) && Apart(list, s, head, t)
    modifies head, t, s
    ensures List(head, t + s)
    ensures list.next == old(list.next) && list.prev == old(list.prev)
  {
    EmptyIff(list, s);
    ApartRing(list, s, head, t);
    if !ListEmpty(list) {
      NeighboursIn(head, t);
      EntriesChained(list, s);
      HeadNext(head, t);
      SpliceBetween(list, head.prev, head, s, [head] + t);
      assert ([head] + t) + s == [head] + (t + s);
    } else {
      assert t + s == t;
    }
  }

  method ListSpliceInit(list: ListHead, head: ListHead, ghost s: seq<ListHead>, ghost t: seq<ListHead>)
    requires List(list, s) && List(head, t) && Apart(list, s, head, t)
    modifies list, head, t, s
    ensures List(head, s + t) && List(list, [])
  {
    EmptyIff(list, s);
    EntriesApart(list, s, head, t);
    if !ListEmpty(list) {
      ListSplice(list, head, s, t);
      InitListHead(list);
    } else {
      assert s + t == t;
    }
  }

  method ListSpliceTailInit(list: ListHead, head: ListHead, ghost s: seq<ListHead>, ghost t: seq<ListHead>)
    requires List(list, s) && List(head, t) && Apart(list, s, head, t)
    modifies list, head, t, s
    ensures List(head, t + s) && List(list, [])
  {
    EmptyIff(list, s);
    EntriesApart(list, s, head, t);
    if !ListEmpty(list) {
      ListSpliceTail(list, head, s, t);
      InitListHead(list);
    } else {
      assert t + s == t;
    }
  }

  lemma EntriesApart(list: ListHead, s: seq<ListHead>, head: ListHead, t: seq<ListHead>)
    requires List(list, s) && Apart(list, s, head, t)
    ensures list != head && list !in s && list !in t
  {
    ApartRing(list, s, head, t);
    if s != [] {
      EntriesChained(list, s);
    }
  }

  /** The links inside and around two consecutive parts of a list. */
  lemma PartsChained(head: ListHead, t: seq<ListHead>, u: seq<ListHead>)
    requires List(head, t + u) && t != []
    ensures Chained(t) && Chained(u) && Distinct([head] + t) && Distinct([head] + u)
    ensures forall i, j :: 0 <= i < |t| && 0 <= j < |u| ==> t[i] != u[j]
    ensures head.next == t[0] && t[|t| - 1].next == if u == [] then head else u[0]
    ensures u != [] ==> head.prev == u[|u| - 1] && u[|u| - 1].next == head
  {
    var r, n := [head] + (t + u), |t|;
    assert r[0].next == r[1] && r[n] == t[n - 1];
    assert u != [] ==> r[n].next == r[n + 1] && r[|r| - 1] == u[|u| - 1];
    forall i | 0 <= i < |t| - 1
      ensures t[i].next == t[i + 1] && t[i + 1].prev == t[i]
    {
      assert r[i + 1].next == r[i + 2];
    }
    forall i | 0 <= i < |u| - 1
      ensures u[i].next == u[i + 1] && u[i + 1].prev == u[i]
    {
      assert r[n + i + 1].next == r[n + i + 2];
    }
    PartsDistinct(r, head, t, u);
  }

  lemma PartsDistinct(r: seq<ListHead>, head: ListHead, t: seq<ListHead>, u: seq<ListHead>)
    requires r == [head] + (t + u) && Distinct(r)
    ensures Distinct([head] + t) && Distinct([head] + u)
    ensures forall i, j :: 0 <= i < |t| && 0 <= j < |u| ==> t[i] != u[j]
  {
    forall i, j | 0 <= i < |t| && 0 <= j < |u|
      ensures t[i] != u[j]
    {
      assert r[i + 1] != r[|t| + j + 1];
    }
    var a, b := [head] + t, [head] + u;
    forall i, j | 0 <= i < j < |a|
      ensures a[i] != a[j]
    {
      assert r[i] != r[j];
    }
    forall i, j | 0 <= i < j < |b|
      ensures b[i] != b[j]
    {
      assert r[if i == 0 then 0 else |t| + i] != r[|t| + j];
    }
  }

  /** `__list_cut_position`: entry is the last of t, and goes with it to list. */
  method CutAfter(list: ListHead, head: ListHead, entry: ListHead, ghost t: seq<ListHead>, ghost u: seq<ListHead>)
    requires List(head, t + u) && t != [] && entry == t[|t| - 1] && list !in [head] + (t + u)
    modifies list, head, head.next, entry, entry.next
    ensures List(list, t) && List(head, u)
  {
    PartsChained(head, t, u);
    NewHead(list, head, t, u);
    var newFirst := entry.next;
    list.next := head.next;
    list.next.prev := list;
    list.prev := entry;
    entry.next := list;
    head.next := newFirst;
    newFirst.prev := head;
    JoinRing([list], t);
    if u != [] {
      JoinRing([head], u);
    }
  }

  lemma NewHead(list: ListHead, head: ListHead, t: seq<ListHead>, u: seq<ListHead>)
    requires list !in [head] + (t + u) && Distinct([head] + t) && Distinct([head] + u)
    ensures list != head && (forall i :: 0 <= i < |t| ==> t[i] != list && t[i] != head)
    ensures forall i :: 0 <= i < |u| ==> u[i] != list && u[i] != head
    ensures Distinct(t) && Distinct(u)
  {
    var r, a, b := [head] + (t + u), [head] + t, [head] + u;
    assert r[0] in r;
    forall i | 0 <= i < |t|
      ensures t[i] != list && t[i] != head
    {
      assert r[i + 1] in r && a[0] != a[i + 1];
    }
    forall i | 0 <= i < |u|
      ensures u[i] != list && u[i] != head
    {
      assert r[|t| + i + 1] in r && b[0] != b[i + 1];
    }
    DistinctTail(head, t);
    DistinctTail(head, u);
  }

  lemma DistinctTail(head: ListHead, s: seq<ListHead>)
    requires Distinct([head] + s)
    ensures Distinct(s)
  {
    var r := [head] + s;
    forall i, j | 0 <= i < j < |s|
      ensures s[i] != s[j]
    {
      assert r[i + 1] != r[j + 1];
    }
  }

  /** How many of the entries s a cut at entry takes: none if entry is the head,
      everything through it if it is among them. */
  ghost predicate CutAt(head: ListHead, s: seq<ListHead>, entry: ListHead, k: nat) {
    if entry == head then k == 0 else 0 < k <= |s| && s[k - 1] == entry
  }

  /** `list_cut_position`: the first k entries, through entry, move to list.
      Of an empty head nothing is cut and list is left alone, and likewise of a
      single entry other than the one asked for. */
  method ListCutPosition(list: ListHead, head: ListHead, entry: ListHead, ghost s: seq<ListHead>, ghost k: nat)
    requires List(head, s) && list !in [head] + s
    requires CutAt(head, s, entry, k) || s == [] || (|s| == 1 && entry != s[0] && entry != head)
    modifies list, head, s
    ensures s != [] && CutAt(head, s, entry, k) ==> k <= |s| && List(list, s[..k]) && List(head, s[k..])
    ensures s == [] || !CutAt(head, s, entry, k) ==>
              List(head, s) && list.next == old(list.next) && list.prev == old(list.prev)
  {
    EmptyIff(head, s);
    SingularIff(head, s);
    assert list != head by { assert head in [head] + s; }
    if ListEmpty(head) {
      return;
    }
    HeadNext(head, s);
    if ListIsSingular(head) && (head.next != entry && head != entry) {
      return;
    }
    if entry == head {
      InitListHead(list);
    } else {
      assert s == s[..k] + s[k..];
      NeighboursIn(head, s);
      EntriesChained(head, s);
      assert entry.next == null || entry.next in [head] + s by {
        LastIff(head, s, k);
        assert k < |s| ==> s[k - 1].next == s[k];
      }
      CutAfter(list, head, entry, s[..k], s[k..]);
    }
  }

  /** Cutting a list anywhere and splicing the cut part back restores it. */
  method CutThenSplice(list: ListHead, head: ListHead, entry: ListHead, ghost s: seq<ListHead>, ghost k: nat)
    requires List(head, s) && List(list, []) && list !in [head] + s && CutAt(head, s, entry, k)
    modifies list, head, s
    ensures List(head, s)
  {
    ListCutPosition(list, head, entry, s, k);
    ghost var t := if s == [] then [] else s[..k];
    ghost var u := if s == [] then [] else s[k..];
    assert t + u == s;
    CutApart(list, head, s, t, u);
    ListSplice(list, head, t, u);
  }

  lemma CutApart(list: ListHead, head: ListHead, s: seq<ListHead>, t: seq<ListHead>, u: seq<ListHead>)
    requires s == t + u && list !in [head] + s && Distinct([head] + s)
    ensures Apart(list, t, head, u)
  {
    var r := [head] + s;
    PartsDistinct(r, head, t, u);
    forall x | x in [list] + t
      ensures x !in [head] + u
    {
      assert forall y :: y in [head] + u ==> y in r;
      if x in t {
        var i :| 0 <= i < |t| && t[i] == x;
        assert ([head] + t)[0] != ([head] + t)[i + 1];
      }
    }
  }

  /** The entries a traversal leaves on the list. */
  ghost function Kept(s: seq<ListHead>, doomed: set<ListHead>): seq<ListHead> {
    if s == [] then []
    else Kept(s[..|s| - 1], doomed) + (if s[|s| - 1] in doomed then [] else [s[|s| - 1]])
  }

  /** The body of one turn of a safe traversal. */
  method SafeTurn(pos: ListHead, del: bool, ghost head: ListHead, ghost t: seq<ListHead>, ghost u: seq<ListHead>)
    requires List(head, t + [pos] + u)
    modifies pos, pos.prev, pos.next
    ensures List(head, (if del then t else t + [pos]) + u)
    ensures del ==> pos.next == null && pos.prev == null
    ensures forall x: ListHead :: old(allocated(x)) && old(x.next) == null ==> x.next == null && x.prev == old(x.prev)
  {
    RingLinked(pos, head, t, u);
    if del {
      ListDel(pos, true, head, t, u);
    }
  }

  lemma RingLinked(pos: ListHead, head: ListHead, t: seq<ListHead>, u: seq<ListHead>)
    requires List(head, t + [pos] + u)
    ensures pos != head
    ensures pos.next == (u + [head])[0] && pos.next.next != null
    ensures pos.prev == ([head] + t)[|t|] && pos.prev.next == pos
  {
    var r := [head] + (t + [pos] + u);
    var k := |t| + 1;
    assert r[k] == pos && r[0] != r[k];
    assert r[k - 1] == ([head] + t)[|t|] && r[k - 1].next == r[k];
    if u != [] {
      assert r[k + 1] == u[0] && r[k].next == r[k + 1];
      assert |u| > 1 ==> r[k + 1].next == r[k + 2];
    }
    assert r[0].next == r[1];
  }

  /** They are the entries not in doomed, */
  lemma {:induction false} KeptMembers(s: seq<ListHead>, doomed: set<ListHead>)
    ensures forall x :: x in Kept(s, doomed) ==> x in s && x !in doomed
    ensures forall x :: x in s && x !in doomed ==> x in Kept(s, doomed)
  {
    if s != [] {
      KeptMembers(s[..|s| - 1], doomed);
      assert s == s[..|s| - 1] + [s[|s| - 1]];
    }
  }

  /** in the order they had. */
  lemma {:induction false} KeptInOrder(s: seq<ListHead>, u: seq<ListHead>, doomed: set<ListHead>)
    ensures Kept(s + u, doomed) == Kept(s, doomed) + Kept(u, doomed)
    decreases |u|
  {
    if u == [] {
      assert s + u == s;
    } else {
      assert (s + u)[..|s + u| - 1] == s + u[..|u| - 1];
      KeptInOrder(s, u[..|u| - 1], doomed);
    }
  }

  /** One more entry visited, on values. */
  lemma Advance(head: ListHead, s: seq<ListHead>, visited: seq<ListHead>, rest: seq<ListHead>, doomed: set<ListHead>)
    requires s == visited + rest && rest != []
    ensures s == (visited + [rest[0]]) + rest[1..] && rest[0] in s
    ensures var t := Kept(visited, doomed);
      && Kept(visited + [rest[0]], doomed) == (if rest[0] in doomed then t else t + [rest[0]])
      && t + rest == t + [rest[0]] + rest[1..]
      && ([head] + t)[|t|] in [head] + s && (rest[1..] + [head])[0] in [head] + s
  {
    var t := Kept(visited, doomed);
    KeptMembers(visited, doomed);
    assert (visited + [rest[0]])[..|visited|] == visited;
    assert t != [] ==> t[|t| - 1] in t;
    assert |rest| > 1 ==> rest[1] in rest;
    assert forall x :: x in rest || x in visited ==> x in s;
  }

  lemma FirstNotHead(head: ListHead, t: seq<ListHead>, rest: seq<ListHead>)
    requires List(head, t + rest) && rest != []
    ensures (rest + [head])[0] != head
  {
    var r := [head] + (t + rest);
    assert r[0] != r[|t| + 1];
  }

  /** A `list_for_each_safe` pass that deletes the entries in doomed: it visits
      every original entry once, in order, and keeps exactly the others. */
  method ForEachSafe(head: ListHead, doomed: set<ListHead>, ghost s: seq<ListHead>) returns (visited: seq<ListHead>)
    requires List(head, s)
    modifies head, s
    ensures visited == s
    ensures List(head, Kept(s, doomed))
    ensures forall x :: x in s && x in doomed ==> x.next == null && x.prev == null
  {
    HeadNext(head, s);
    assert Kept([], doomed) + s == s;
    visited := [];
    ghost var rest := s;
    var pos := head.next;
    var n := pos.next;
    while pos != head
      invariant s == visited + rest
      invariant List(head, Kept(visited, doomed) + rest)
      invariant pos == (rest + [head])[0] && n == pos.next
      invariant forall x :: x in visited && x in doomed ==> x.next == null && x.prev == null
      decreases |rest|
    {
      ghost var t, u := Kept(visited, doomed), rest[1..];
      Advance(head, s, visited, rest, doomed);
      RingLinked(pos, head, t, u);
      SafeTurn(pos, pos in doomed, head, t, u);
      visited := visited + [pos];
      rest := u;
      pos := n;
      HeadOrEntryLinked(head, Kept(visited, doomed), rest);
      n := pos.next;
    }
    if rest != [] {
      FirstNotHead(head, Kept(visited, doomed), rest);
    }
    assert Kept(visited, doomed) + [] == Kept(visited, doomed);
  }

  lemma HeadOrEntryLinked(head: ListHead, t: seq<ListHead>, u: seq<ListHead>)
    requires List(head, t + u)
    ensures (u + [head])[0].next != null
  {
    var r := [head] + (t + u);
    if u != [] {
      assert r[|t| + 1] == u[0];
      LastIff(head, t + u, |t| + 1);
      assert |u| > 1 ==> r[|t| + 1].next == r[|t| + 2];
    } else {
      HeadNext(head, t + u);
    }
  }
}
