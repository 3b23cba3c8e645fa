/** The hash-table lists: a head with one pointer, and nodes whose pprev names
    the cell - a head's first or another node's next - that points at them. */
module Hlist {

  class HlistHead {
    var first: HlistNode?

    constructor ()
      ensures first == null
    {
      first := null;
    }
  }

  class HlistNode {
    var next: HlistNode?
    var pprev: Cell

    constructor ()
      ensures next == null && pprev == Nowhere
    {
      next, pprev := null, Nowhere;
    }
  }

  /** The address a pprev holds. */
  datatype Cell = Nowhere | FirstOf(head: HlistHead) | NextOf(node: HlistNode)

  /** The object the cell is a field of. */
  ghost function Owner(c: Cell): set<object> {
    match c
    case Nowhere => {}
    case FirstOf(h) => {h}
    case NextOf(n) => {n}
  }

  /** What the cell holds. */
  function Load(c: Cell): HlistNode?
    requires c != Nowhere
    reads Owner(c)
  {
    if c.FirstOf? then c.head.first else c.node.next
  }

  /** The node at i, or null past the end. */
  ghost function At(s: seq<HlistNode>, i: nat): HlistNode? {
    if i < |s| then s[i] else null
  }

  /** The cell that must hold the node at i. */
  ghost function CellAt(h: HlistHead, s: seq<HlistNode>, i: nat): Cell
    requires i <= |s|
  {
    if i == 0 then FirstOf(h) else NextOf(s[i - 1])
  }

  ghost predicate Distinct(s: seq<HlistNode>) {
    forall i, j :: 0 <= i < j < |s| ==> s[i] != s[j]
  }

  /** The nodes of h are s, in order: every cell along the list holds the next
      node, and that node's pprev names the cell. */
  ghost predicate List(h: HlistHead, s: seq<HlistNode>)
    reads h, s
  {
    Distinct(s) && h.first == At(s, 0) && forall i :: 0 <= i < |s| ==> ListAt(h, s, i)
  }

  ghost predicate ListAt(h: HlistHead, s: seq<HlistNode>, i: nat)
    requires i < |s|
    reads s[i]
  {
    s[i].next == At(s, i + 1) && s[i].pprev == CellAt(h, s, i)
  }

  /** The cell that a node's pprev names holds that node. */
  lemma PprevHolds(h: HlistHead, s: seq<HlistNode>, i: nat)
    requires List(h, s) && i < |s|
    ensures s[i].pprev != Nowhere && Load(s[i].pprev) == s[i]
  {
    assert ListAt(h, s, i);
    assert i > 0 ==> ListAt(h, s, i - 1);
  }

  lemma {:induction false} StepAgrees(h: HlistHead, s: seq<HlistNode>, t: seq<HlistNode>, k: nat)
    requires List(h, s) && List(h, t) && k <= |s| && k <= |t|
    ensures At(s, k) == At(t, k)
  {
    if k > 0 {
      StepAgrees(h, s, t, k - 1);
      assert ListAt(h, s, k - 1) && ListAt(h, t, k - 1);
    }
  }

  /** The heap determines the nodes of a list. */
  lemma ListUnique(h: HlistHead, s: seq<HlistNode>, t: seq<HlistNode>)
    requires List(h, s) && List(h, t)
    ensures s == t
  {
    StepAgrees(h, s, t, if |s| < |t| then |s| else |t|);
    forall i | 0 <= i < |s|
      ensures s[i] == t[i]
    {
      StepAgrees(h, s, t, i);
    }
  }

  method InitHlistNode(n: HlistNode)
    modifies n
    ensures n.next == null && n.pprev == Nowhere
  {
    n.next := null;
    n.pprev := Nowhere;
  }

  predicate HlistUnhashed(n: HlistNode)
    reads n
  {
    n.pprev == Nowhere
  }

  predicate HlistEmpty(h: HlistHead)
    reads h
  {
    h.first == null
  }

  lemma EmptyIff(h: HlistHead, s: seq<HlistNode>)
    requires List(h, s)
    ensures HlistEmpty(h) <==> s == []
  {
  }

  /** `*pprev = v`. */
  method Store(c: Cell, v: HlistNode?)
    requires c != Nowhere
    modifies Owner(c)
    ensures Load(c) == v
    ensures c.NextOf? ==> c.node.pprev == old(c.node.pprev)
  {
    match c {
      case FirstOf(h) => h.first := v;
      case NextOf(n) => n.next := v;
    }
  }

  /** A node marked by `hlist_add_fake`: its pprev names its own next. */
  ghost predicate Fake(n: HlistNode)
    reads n
  {
    n.next == null && n.pprev == NextOf(n)
  }

  ghost predicate OnOrFake(n: HlistNode, on: bool, h: HlistHead, t: seq<HlistNode>, u: seq<HlistNode>)
    reads n, h, t, u
  {
    if on then List(h, t + [n] + u) else Fake(n)
  }

  /** The nodes of t, n and of u are all different. */
  ghost predicate Separate(t: seq<HlistNode>, n: HlistNode, u: seq<HlistNode>) {
    && Distinct(t) && Distinct(u)
    && (forall i :: 0 <= i < |t| ==> t[i] != n)
    && (forall i :: 0 <= i < |u| ==> u[i] != n)
    && (forall i, j :: 0 <= i < |t| && 0 <= j < |u| ==> t[i] != u[j])
  }

  lemma SeparateParts(t: seq<HlistNode>, n: HlistNode, u: seq<HlistNode>)
    requires Distinct(t + [n] + u)
    ensures Separate(t, n, u)
  {
    var s := t + [n] + u;
    assert s[|t|] == n;
    forall i | 0 <= i < |t|
      ensures t[i] != n
    {
      assert s[i] != s[|t|];
    }
    forall i, j | 0 <= i < j < |u|
      ensures u[i] != u[j]
    {
      assert s[|t| + 1 + i] != s[|t| + 1 + j];
    }
    forall i | 0 <= i < |u|
      ensures u[i] != n
    {
      assert s[|t|] != s[|t| + 1 + i];
    }
    forall i, j | 0 <= i < |t| && 0 <= j < |u|
      ensures t[i] != u[j]
    {
      assert s[i] != s[|t| + 1 + j];
    }
    forall i, j | 0 <= i < j < |t|
      ensures t[i] != t[j]
    {
      assert s[i] != s[j];
    }
  }

  lemma DistinctJoin(t: seq<HlistNode>, n: HlistNode, u: seq<HlistNode>)
    requires Separate(t, n, u)
    ensures Distinct(t + u) && Distinct(t + [n] + u) && n !in t + u
  {
  }

  /** The links inside t, and how it is entered: last is what follows it. */
  ghost predicate Front(h: HlistHead, t: seq<HlistNode>, last: HlistNode?)
    reads h, t
  {
    h.first == (if t == [] then last else t[0]) && forall i :: 0 <= i < |t| ==> FrontAt(h, t, last, i)
  }

  ghost predicate FrontAt(h: HlistHead, t: seq<HlistNode>, last: HlistNode?, i: nat)
    requires i < |t|
    reads t[i]
  {
    t[i].next == (if i + 1 < |t| then t[i + 1] else last) && t[i].pprev == CellAt(h, t, i)
  }

  /** The links inside u, whose first node is held by cell c. */
  ghost predicate Back(c: Cell, u: seq<HlistNode>)
    reads u
  {
    forall i :: 0 <= i < |u| ==> BackAt(c, u, i)
  }

  ghost predicate BackAt(c: Cell, u: seq<HlistNode>, i: nat)
    requires i < |u|
    reads u[i]
  {
    u[i].next == At(u, i + 1) && u[i].pprev == (if i == 0 then c else NextOf(u[i - 1]))
  }

  /** A list is a front and a back that meet. */
  lemma ListSplits(h: HlistHead, t: seq<HlistNode>, u: seq<HlistNode>)
    requires List(h, t + u)
    ensures Front(h, t, At(u, 0)) && Back(CellAt(h, t, |t|), u)
  {
    AtConcat(h, t, u, 0);
    forall i | 0 <= i < |t|
      ensures FrontAt(h, t, At(u, 0), i)
    {
      AtConcat(h, t, u, i);
      AtConcat(h, t, u, i + 1);
      assert ListAt(h, t + u, i);
    }
    forall i | 0 <= i < |u|
      ensures BackAt(CellAt(h, t, |t|), u, i)
    {
      AtConcat(h, t, u, |t| + i);
      AtConcat(h, t, u, |t| + i + 1);
      assert ListAt(h, t + u, |t| + i);
    }
  }

  lemma ListJoins(h: HlistHead, t: seq<HlistNode>, u: seq<HlistNode>)
    requires Distinct(t + u) && Front(h, t, At(u, 0)) && Back(CellAt(h, t, |t|), u)
    ensures List(h, t + u)
  {
    AtConcat(h, t, u, 0);
    forall i | 0 <= i < |t + u|
      ensures ListAt(h, t + u, i)
    {
      AtConcat(h, t, u, i);
      AtConcat(h, t, u, i + 1);
      if i < |t| {
        assert FrontAt(h, t, At(u, 0), i);
      } else {
        assert BackAt(CellAt(h, t, |t|), u, i - |t|);
      }
    }
  }

  lemma AtConcat(h: HlistHead, t: seq<HlistNode>, u: seq<HlistNode>, i: nat)
    requires i <= |t + u|
    ensures At(t + u, i) == if i < |t| then t[i] else At(u, i - |t|)
    ensures CellAt(h, t + u, i) == if i <= |t| then CellAt(h, t, i) else NextOf(u[i - |t| - 1])
  {
  }

  /** The links around a node between t and u. */
  lemma Around(n: HlistNode, h: HlistHead, t: seq<HlistNode>, u: seq<HlistNode>)
    requires List(h, t + [n] + u)
    ensures Separate(t, n, u) && Front(h, t, n) && Back(NextOf(n), u)
    ensures n.next == At(u, 0) && n.pprev == CellAt(h, t, |t|)
  {
    SeparateParts(t, n, u);
    assert t + [n] + u == t + ([n] + u);
    ListSplits(h, t, [n] + u);
    BackParts(CellAt(h, t, |t|), n, u);
  }

  lemma BackParts(c: Cell, n: HlistNode, u: seq<HlistNode>)
    ensures Back(c, [n] + u) <==> n.next == At(u, 0) && n.pprev == c && Back(NextOf(n), u)
  {
    var q := [n] + u;
    assert |q| > 0 && BackAt(c, q, 0) <==> n.next == At(u, 0) && n.pprev == c;
    forall i | 0 <= i < |u|
      ensures BackAt(c, q, i + 1) <==> BackAt(NextOf(n), u, i)
    {
    }
    if Back(c, q) {
      assert BackAt(c, q, 0);
      forall i | 0 <= i < |u|
        ensures BackAt(NextOf(n), u, i)
      {
        assert BackAt(c, q, i + 1);
      }
    }
    if n.next == At(u, 0) && n.pprev == c && Back(NextOf(n), u) {
      forall i | 0 <= i < |q|
        ensures BackAt(c, q, i)
      {
        if i > 0 {
          assert BackAt(NextOf(n), u, i - 1);
        }
      }
    }
  }

  /** `__hlist_del`. */
  method Unlink(n: HlistNode, ghost on: bool, ghost h: HlistHead, ghost t: seq<HlistNode>, ghost u: seq<HlistNode>)
    requires OnOrFake(n, on, h, t, u)
    modifies Owner(n.pprev), n.next
    ensures on ==> List(h, t + u) && n !in t + u
    ensures on ==> n.next == old(n.next) && n.pprev == old(n.pprev)
  {
    if on {
      Around(n, h, t, u);
    }
    var next, pprev := n.next, n.pprev;
    Store(pprev, next);
    if next != null {
      next.pprev := pprev;
    }
    if on {
      DistinctJoin(t, n, u);
      forall i | 0 <= i < |t|
        ensures FrontAt(h, t, At(u, 0), i)
      {
        assert old(FrontAt(h, t, n, i));
      }
      forall i | 0 <= i < |u|
        ensures BackAt(CellAt(h, t, |t|), u, i)
      {
        assert old(BackAt(NextOf(n), u, i));
      }
      ListJoins(h, t, u);
    }
  }

  /** `hlist_del`, of a node on a list or of one only marked as if it were. */
  method HlistDel(n: HlistNode, ghost on: bool, ghost h: HlistHead, ghost t: seq<HlistNode>, ghost u: seq<HlistNode>)
    requires OnOrFake(n, on, h, t, u)
    modifies n, Owner(n.pprev), n.next
    ensures on ==> List(h, t + u)
    ensures n.next == null && n.pprev == Nowhere
  {
    Unlink(n, on, h, t, u);
    n.next := null;
    n.pprev := Nowhere;
  }

  /** `hlist_del_init`: does nothing to a node that is on no list, so doing it
      twice is doing it once. */
  method HlistDelInit(n: HlistNode, ghost on: bool, ghost h: HlistHead,
                      ghost t: seq<HlistNode>, ghost u: seq<HlistNode>)
    requires if on then List(h, t + [n] + u) else HlistUnhashed(n)
    modifies n, Owner(n.pprev), n.next
    ensures on ==> List(h, t + u) && n.next == null
    ensures HlistUnhashed(n)
    ensures !on ==> n.next == old(n.next)
    ensures !on && n.next != null ==> n.next.pprev == old(n.next.pprev) && n.next.next == old(n.next.next)
  {
    if on {
      Around(n, h, t, u);
    }
    if !HlistUnhashed(n) {
      Unlink(n, on, h, t, u);
      InitHlistNode(n);
    }
  }

  /** A list, entered through its head. */
  lemma OpenHead(h: HlistHead, s: seq<HlistNode>)
    requires List(h, s)
    ensures Back(FirstOf(h), s) && h.first == At(s, 0) && Distinct(s)
  {
    assert [] + s == s;
    ListSplits(h, [], s);
  }

  lemma CloseHead(h: HlistHead, s: seq<HlistNode>)
    requires Back(FirstOf(h), s) && h.first == At(s, 0) && Distinct(s)
    ensures List(h, s)
  {
    assert [] + s == s;
    ListJoins(h, [], s);
  }

  /** The first node of s, if there is one, gets another cell to be held by. */
  method Enter(first: HlistNode?, c: Cell, ghost was: Cell, ghost s: seq<HlistNode>)
    requires Back(was, s) && Distinct(s) && first == At(s, 0)
    modifies first
    ensures Back(c, s)
  {
    if first != null {
      first.pprev := c;
    }
    forall i | 0 <= i < |s|
      ensures BackAt(c, s, i)
    {
      assert old(BackAt(was, s, i));
      assert i > 0 ==> s[0] != s[i];
    }
  }

  lemma NewFirst(n: HlistNode, s: seq<HlistNode>)
    requires Distinct(s) && n !in s
    ensures Distinct([n] + s)
  {
    var r := [n] + s;
    forall i, j | 0 <= i < j < |r|
      ensures r[i] != r[j]
    {
      assert r[j] == s[j - 1] && s[j - 1] in s;
      assert i > 0 ==> r[i] == s[i - 1];
    }
  }

  method HlistAddHead(n: HlistNode, h: HlistHead, ghost s: seq<HlistNode>)
    requires List(h, s) && n !in s
    modifies n, h, h.first
    ensures List(h, [n] + s)
  {
    OpenHead(h, s);
    NewFirst(n, s);
    var first := h.first;
    n.next := first;
    Enter(first, NextOf(n), FirstOf(h), s);
    h.first := n;
    n.pprev := FirstOf(h);
    assert Back(NextOf(n), s);
    BackParts(FirstOf(h), n, s);
    ghost var all := [n] + s;
    assert h.first == At(all, 0);
    CloseHead(h, all);
  }

  /** `hlist_add_before`: n goes where next was, next right after it. */
  method HlistAddBefore(n: HlistNode, next: HlistNode, ghost h: HlistHead,
                        ghost t: seq<HlistNode>, ghost u: seq<HlistNode>)
    requires List(h, t + [next] + u) && n !in t + [next] + u
    modifies n, next, Owner(next.pprev)
    ensures List(h, t + [n, next] + u)
  {
    Around(next, h, t, u);
    NewSeparate(n, t, [next] + u);
    n.pprev := next.pprev;
    n.next := next;
    next.pprev := NextOf(n);
    Store(n.pprev, n);
    forall i | 0 <= i < |t|
      ensures FrontAt(h, t, n, i)
    {
      assert old(FrontAt(h, t, next, i));
    }
    forall i | 0 <= i < |u|
      ensures BackAt(NextOf(next), u, i)
    {
      assert old(BackAt(NextOf(next), u, i));
    }
    BackParts(NextOf(n), next, u);
    BackParts(CellAt(h, t, |t|), n, [next] + u);
    assert t + ([n] + ([next] + u)) == t + [n, next] + u;
    ListJoins(h, t, [n] + ([next] + u));
  }

  /** A node apart from t and u can go between them. */
  lemma NewSeparate(n: HlistNode, t: seq<HlistNode>, u: seq<HlistNode>)
    requires Distinct(t + u) && n !in t + u
    ensures Distinct(t + ([n] + u))
    ensures forall i :: 0 <= i < |t| ==> t[i] != n
    ensures forall i :: 0 <= i < |u| ==> u[i] != n
  {
    var q, r := t + ([n] + u), t + u;
    forall i | 0 <= i < |r|
      ensures r[i] != n
    {
      assert r[i] in r;
    }
    forall i | 0 <= i < |t|
      ensures t[i] != n
    {
      assert r[i] == t[i];
    }
    forall i | 0 <= i < |u|
      ensures u[i] != n
    {
      assert r[|t| + i] == u[i];
    }
    forall i, j | 0 <= i < j < |q|
      ensures q[i] != q[j]
    {
      if i != |t| && j != |t| {
        assert r[if i < |t| then i else i - 1] != r[if j < |t| then j else j - 1];
      }
    }
  }

  /** `hlist_add_after`: next goes right after n. */
  method HlistAddAfter(n: HlistNode, next: HlistNode, ghost h: HlistHead,
                       ghost t: seq<HlistNode>, ghost u: seq<HlistNode>)
    requires List(h, t + [n] + u) && next !in t + [n] + u
    modifies n, next, n.next
    ensures List(h, t + [n, next] + u)
  {
    Around(n, h, t, u);
    NewSeparate(next, t + [n], u);
    assert (t + [n])[|t|] == n;
    next.next := n.next;
    n.next := next;
    next.pprev := NextOf(n);
    if next.next != null {
      next.next.pprev := NextOf(next);
    }
    forall i | 0 <= i < |t|
      ensures FrontAt(h, t, n, i)
    {
      assert old(FrontAt(h, t, n, i));
      assert (t + [n])[i] == t[i];
    }
    forall i | 0 <= i < |u|
      ensures BackAt(NextOf(next), u, i)
    {
      assert old(BackAt(NextOf(n), u, i));
    }
    BackParts(NextOf(n), next, u);
    BackParts(CellAt(h, t, |t|), n, [next] + u);
    assert t + ([n] + ([next] + u)) == t + [n, next] + u == (t + [n]) + ([next] + u);
    ListJoins(h, t, [n] + ([next] + u));
  }

  /** `hlist_add_fake`. */
  method HlistAddFake(n: HlistNode)
    modifies n
    ensures n.pprev == NextOf(n) && n.next == old(n.next) && !HlistUnhashed(n)
    ensures n.next == null ==> Fake(n)
  {
    n.pprev := NextOf(n);
  }

  /** `hlist_move_list`: whatever nhead held is forgotten. */
  method HlistMoveList(oldHead: HlistHead, nhead: HlistHead, ghost s: seq<HlistNode>)
    requires List(oldHead, s) && oldHead != nhead
    modifies oldHead, nhead, oldHead.first
    ensures List(nhead, s) && List(oldHead, [])
  {
    OpenHead(oldHead, s);
    nhead.first := oldHead.first;
    Enter(nhead.first, FirstOf(nhead), FirstOf(oldHead), s);
    oldHead.first := null;
    CloseHead(nhead, s);
  }
}
