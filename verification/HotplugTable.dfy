/** The hot-plug list: at most one node for each handle, found by walking a
    singly linked list. */
module HotplugTable {
  const RET_OK: int := 0
  const ENOMEM: int := 12
  const EINVAL: int := 22

  type Handle = nat

  /** What is recorded of a plugged device. */
  datatype Info = Info(devId: nat, devType: nat, info: int)

  class HotplugObj {
    var next: HotplugObj?
    var devId: nat
    var devType: nat
    var info: int
    const hdl: Handle

    constructor (hdl: Handle, devId: nat, devType: nat, info: int, next: HotplugObj?)
      ensures Content() == Visit(hdl, Info(devId, devType, info)) && this.next == next
    {
      this.hdl, this.devId, this.devType, this.info, this.next := hdl, devId, devType, info, next;
    }

    function Content(): Visit
      reads this`devId, this`devType, this`info
    {
      Visit(hdl, Info(devId, devType, info))
    }
  }

  ghost function At(s: seq<HotplugObj>, i: nat): HotplugObj? {
    if i < |s| then s[i] else null
  }

  /** A node's contents: the handle and its entry. */
  datatype Visit = Visit(hdl: Handle, entry: Info)

  /** The entries a walk for a type visits: type 0 stands for all. */
  ghost predicate Matches(ty: nat, e: Info) {
    ty == 0 || e.devType == ty
  }

  /** The matching entries, in order, up to and including the first for which
      the callback answers something other than zero. */
  ghost function Visits(vs: seq<Visit>, ty: nat, cb: Visit -> int): seq<Visit> {
    if vs == [] then []
    else if !Matches(ty, vs[0].entry) then Visits(vs[1..], ty, cb)
    else if cb(vs[0]) != 0 then [vs[0]]
    else [vs[0]] + Visits(vs[1..], ty, cb)
  }

  ghost predicate Unique(vs: seq<Visit>) {
    forall i, j :: 0 <= i < j < |vs| ==> vs[i].hdl != vs[j].hdl
  }

  /** The map a list of nodes stands for. */
  ghost function Table(vs: seq<Visit>): map<Handle, Info> {
    if vs == [] then map[] else Table(vs[1..])[vs[0].hdl := vs[0].entry]
  }

  lemma {:induction false} TableHas(vs: seq<Visit>)
    requires Unique(vs)
    ensures forall i :: 0 <= i < |vs| ==> vs[i].hdl in Table(vs) && Table(vs)[vs[i].hdl] == vs[i].entry
    ensures forall h :: h in Table(vs) ==> exists i :: 0 <= i < |vs| && vs[i].hdl == h
  {
    if vs != [] {
      var rest := vs[1..];
      TableHas(rest);
      forall i | 0 <= i < |vs|
        ensures vs[i].hdl in Table(vs) && Table(vs)[vs[i].hdl] == vs[i].entry
      {
        if i > 0 {
          assert rest[i - 1] == vs[i];
        }
      }
      forall h | h in Table(vs)
        ensures exists i :: 0 <= i < |vs| && vs[i].hdl == h
      {
        if h != vs[0].hdl {
          var i :| 0 <= i < |rest| && rest[i].hdl == h;
          assert vs[i + 1].hdl == h;
        }
      }
    }
  }

  /** Overwriting a node's entry is a map update. */
  lemma {:induction false} TableUpdated(vs: seq<Visit>, k: nat, e: Info)
    requires Unique(vs) && k < |vs|
    ensures var w := vs[k := Visit(vs[k].hdl, e)]; Unique(w) && Table(w) == Table(vs)[vs[k].hdl := e]
  {
    var w := vs[k := Visit(vs[k].hdl, e)];
    if k == 0 {
      assert w[1..] == vs[1..];
    } else {
      TableUpdated(vs[1..], k - 1, e);
      assert w[1..] == vs[1..][k - 1 := Visit(vs[k].hdl, e)];
      assert vs[0].hdl != vs[k].hdl;
    }
  }

  lemma UniqueWithout(vs: seq<Visit>, k: nat)
    requires Unique(vs) && k < |vs|
    ensures Unique(vs[..k] + vs[k + 1..])
  {
    var w := vs[..k] + vs[k + 1..];
    forall i, j | 0 <= i < j < |w|
      ensures w[i].hdl != w[j].hdl
    {
      assert w[i] == vs[if i < k then i else i + 1] && w[j] == vs[if j < k then j else j + 1];
    }
  }

  /** Taking a node out removes its handle from the map. */
  lemma {:induction false} TableRemoved(vs: seq<Visit>, k: nat)
    requires Unique(vs) && k < |vs|
    ensures Table(vs[..k] + vs[k + 1..]) == Table(vs) - {vs[k].hdl}
  {
    var w, rest, gone := vs[..k] + vs[k + 1..], vs[1..], vs[k].hdl;
    if k == 0 {
      assert w == rest;
      TableHas(rest);
      PutTaken(Table(rest), gone, vs[0].entry);
    } else {
      var less := rest[..k - 1] + rest[k - 1 + 1..];
      TableRemoved(rest, k - 1);
      WithoutHead(vs, k);
      assert w[1..] == less && w[0] == vs[0];
      PutOther(Table(rest), vs[0].hdl, vs[0].entry, gone);
    }
  }

  lemma PutTaken(t: map<Handle, Info>, h: Handle, e: Info)
    requires h !in t
    ensures t[h := e] - {h} == t
  {
  }

  lemma PutOther(t: map<Handle, Info>, h: Handle, e: Info, gone: Handle)
    requires h != gone
    ensures (t - {gone})[h := e] == t[h := e] - {gone}
  {
  }

  lemma WithoutHead(vs: seq<Visit>, k: nat)
    requires 0 < k < |vs|
    ensures (vs[..k] + vs[k + 1..])[1..] == vs[1..][..k - 1] + vs[1..][k - 1 + 1..]
    ensures (vs[..k] + vs[k + 1..])[0] == vs[0] && vs[1..][k - 1] == vs[k]
  {
  }

  /** The entries of the type. */
  ghost function Matching(vs: seq<Visit>, ty: nat): seq<Visit> {
    if vs == [] then []
    else if Matches(ty, vs[0].entry) then [vs[0]] + Matching(vs[1..], ty)
    else Matching(vs[1..], ty)
  }

  /** A walk sees a prefix of the matching entries; it stops early only at an
      entry for which the callback answers other than zero, and never goes
      past one. */
  lemma {:induction false} VisitsStop(vs: seq<Visit>, ty: nat, cb: Visit -> int)
    ensures Visits(vs, ty, cb) <= Matching(vs, ty)
    ensures forall i :: 0 <= i < |Visits(vs, ty, cb)| - 1 ==> cb(Visits(vs, ty, cb)[i]) == 0
    ensures |Visits(vs, ty, cb)| < |Matching(vs, ty)| ==>
              |Visits(vs, ty, cb)| > 0 && cb(Visits(vs, ty, cb)[|Visits(vs, ty, cb)| - 1]) != 0
  {
    if vs != [] {
      VisitsStop(vs[1..], ty, cb);
      var rest := Visits(vs[1..], ty, cb);
      if Matches(ty, vs[0].entry) && cb(vs[0]) == 0 {
        assert forall i :: 0 < i < |rest| + 1 ==> ([vs[0]] + rest)[i] == rest[i - 1];
      }
    }
  }

  lemma {:induction false} VisitsAll(vs: seq<Visit>, cb: Visit -> int)
    requires forall v :: v in vs ==> cb(v) == 0
    ensures Visits(vs, 0, cb) == vs
  {
    if vs != [] {
      VisitsAll(vs[1..], cb);
    }
  }

  lemma {:induction false} VisitsMatch(vs: seq<Visit>, ty: nat, cb: Visit -> int)
    ensures forall v :: v in Visits(vs, ty, cb) ==> v in vs && (ty != 0 ==> v.entry.devType == ty)
  {
    if vs != [] {
      VisitsMatch(vs[1..], ty, cb);
    }
  }

  /** No entry of the type among the first k answers other than zero. */
  ghost predicate Quiet(vs: seq<Visit>, k: nat, ty: nat, cb: Visit -> int)
    requires k <= |vs|
  {
    forall j :: 0 <= j < k && (ty == 0 || vs[j].entry.devType == ty) ==> cb(vs[j]) == 0
  }

  lemma {:induction false} VisitsThose(vs: seq<Visit>, k: nat, ty: nat, cb: Visit -> int)
    requires Unique(vs) && k < |vs| && (ty == 0 || vs[k].entry.devType == ty)
    ensures vs[k] in Visits(vs, ty, cb) <==> Quiet(vs, k, ty, cb)
  {
    var rest := vs[1..];
    if k > 0 {
      assert vs[0] != vs[k] && rest[k - 1] == vs[k];
      VisitsThose(rest, k - 1, ty, cb);
      if Quiet(vs, k, ty, cb) {
        forall j | 0 <= j < k - 1 && (ty == 0 || rest[j].entry.devType == ty)
          ensures cb(rest[j]) == 0
        {
          assert rest[j] == vs[j + 1];
        }
      } else if Quiet(rest, k - 1, ty, cb) {
        forall j | 0 < j < k && (ty == 0 || vs[j].entry.devType == ty)
          ensures cb(vs[j]) == 0
        {
          assert rest[j - 1] == vs[j];
        }
      }
    }
  }

  /** Which entries a walk visits: those of the type, or all for type 0, that no
      entry of the type with an answer other than zero precedes. */
  lemma VisitsExactly(vs: seq<Visit>, ty: nat, cb: Visit -> int)
    requires Unique(vs)
    ensures (forall v :: v in vs ==> cb(v) == 0) ==> Visits(vs, 0, cb) == vs
    ensures forall v :: v in Visits(vs, ty, cb) ==> v in vs && (ty != 0 ==> v.entry.devType == ty)
    ensures forall k :: 0 <= k < |vs| && (ty == 0 || vs[k].entry.devType == ty) ==>
              (vs[k] in Visits(vs, ty, cb) <==> Quiet(vs, k, ty, cb))
  {
    if forall v :: v in vs ==> cb(v) == 0 {
      VisitsAll(vs, cb);
    }
    VisitsMatch(vs, ty, cb);
    forall k | 0 <= k < |vs| && (ty == 0 || vs[k].entry.devType == ty)
      ensures vs[k] in Visits(vs, ty, cb) <==> Quiet(vs, k, ty, cb)
    {
      VisitsThose(vs, k, ty, cb);
    }
  }

  /** The callback's answers; what it is called with is returned as well. */
  datatype Callback = NoCallback | Callback(answer: Visit -> int)

  class HotplugMgr {
    var hotplug: HotplugObj?
    ghost var list: seq<HotplugObj>
    ghost var entries: seq<Visit>

    constructor ()
      ensures Valid() && entries == []
    {
      hotplug, list, entries := null, [], [];
    }

    ghost predicate NodeAt(i: nat)
      requires i < |list| == |entries|
      reads this`list, this`entries, list
    {
      list[i].next == At(list, i + 1) && list[i].Content() == entries[i]
    }

    /** The nodes hold the entries, in order, and no handle has two. */
    ghost predicate Valid()
      reads this, list
    {
      && hotplug == At(list, 0) && |list| == |entries|
      && (forall i {:trigger NodeAt(i)} :: 0 <= i < |list| ==> NodeAt(i))
      && Unique(entries)
    }

    /** The search both operations begin with. */
    method Find(hdl: Handle) returns (dev: HotplugObj?, prev: HotplugObj?, ghost k: nat)
      requires Valid()
      ensures k <= |list| && dev == At(list, k)
      ensures prev == if k == 0 then null else list[k - 1]
      ensures k < |list| ==> entries[k].hdl == hdl
      ensures k < |list| <==> hdl in Table(entries)
      ensures dev != null <==> hdl in Table(entries)
      ensures dev != null ==> dev.hdl == hdl && dev.Content().entry == Table(entries)[hdl]
    {
      dev, prev, k := hotplug, null, 0;
      while dev != null
        invariant k <= |list| && dev == At(list, k)
        invariant prev == if k == 0 then null else list[k - 1]
        invariant forall j :: 0 <= j < k ==> entries[j].hdl != hdl
        decreases |list| - k
      {
        assert NodeAt(k);
        if dev.hdl == hdl {
          break;
        }
        prev := dev;
        dev := dev.next;
        k := k + 1;
      }
      TableHas(entries);
    }

    /** The update in place. */
    method Update(dev: HotplugObj, devId: nat, devType: nat, info: int, ghost k: nat)
      requires Valid() && k < |list| && list[k] == dev
      modifies this`entries, dev`devId, dev`devType, dev`info
      ensures Valid() && Table(entries) == Table(old(entries))[dev.hdl := Info(devId, devType, info)]
    {
      assert NodeAt(k);
      TableUpdated(entries, k, Info(devId, devType, info));
      dev.devId, dev.devType, dev.info := devId, devType, info;
      entries := entries[k := Visit(dev.hdl, Info(devId, devType, info))];
      forall i | 0 <= i < |list|
        ensures NodeAt(i)
      {
        assert old(NodeAt(i)) && (i != k ==> old(entries)[i].hdl != old(entries)[k].hdl);
      }
    }

    /** The new node in front. */
    method Prepend(hdl: Handle, devId: nat, devType: nat, info: int)
      requires Valid() && hdl !in Table(entries)
      modifies this
      ensures Valid() && entries == [Visit(hdl, Info(devId, devType, info))] + old(entries)
      ensures Table(entries) == Table(old(entries))[hdl := Info(devId, devType, info)]
      ensures |list| > 0 && fresh(list[0]) && list[1..] == old(list)
    {
      TableHas(entries);
      var dev := new HotplugObj(hdl, devId, devType, info, hotplug);
      hotplug := dev;
      list := [dev] + list;
      entries := [Visit(hdl, Info(devId, devType, info))] + entries;
      assert entries[1..] == old(entries);
      forall i | 0 <= i < |list|
        ensures NodeAt(i)
      {
        assert i > 0 ==> old(NodeAt(i - 1));
      }
    }

    /** `dev_hotplug_in`: a handle that is there is updated in place; a new one
        is put in front, unless there is no memory for it, which changes nothing. */
    method DevHotplugIn(hdl: Handle, devId: nat, devType: nat, info: int, memory: bool) returns (r: int)
      requires Valid()
      modifies this, list`devId, list`devType, list`info
      ensures Valid()
      ensures if hdl in Table(old(entries)) || memory
              then r == 0 && Table(entries) == Table(old(entries))[hdl := Info(devId, devType, info)]
              else r == -12 && entries == old(entries)
      ensures if hdl !in Table(old(entries)) && memory
              then |list| > 0 && fresh(list[0]) && list[1..] == old(list) && entries[1..] == old(entries)
              else list == old(list)
    {
      ghost var k;
      var dev, prev;
      dev, prev, k := Find(hdl);
      if dev != null {
        assert NodeAt(k);
        Update(dev, devId, devType, info, k);
        return RET_OK;
      }
      if !memory {
        return -ENOMEM;
      }
      Prepend(hdl, devId, devType, info);
      return RET_OK;
    }

    /** `dev_hotplug_out`: the handle's node goes, if there is one, and the order
        of the others stays. */
    method DevHotplugOut(hdl: Handle) returns (r: int, ghost k: nat)
      requires Valid()
      modifies this, list`next
      ensures Valid() && r == 0 && Table(entries) == Table(old(entries)) - {hdl}
      ensures hdl in Table(old(entries)) ==> k < |old(entries)| && old(entries)[k].hdl == hdl
                                             && entries == old(entries)[..k] + old(entries)[k + 1..]
      ensures hdl !in Table(old(entries)) ==> entries == old(entries)
    {
      var dev, prev;
      dev, prev, k := Find(hdl);
      if dev != null {
        TakeOut(dev, prev, k);
      }
      r := RET_OK;
    }

    method TakeOut(dev: HotplugObj, prev: HotplugObj?, ghost k: nat)
      requires Valid() && k < |list| && dev == list[k] && prev == if k == 0 then null else list[k - 1]
      modifies this, list`next
      ensures Valid() && entries == old(entries)[..k] + old(entries)[k + 1..]
      ensures Table(entries) == Table(old(entries)) - {old(entries)[k].hdl}
    {
      assert NodeAt(k);
      TableRemoved(entries, k);
      UniqueWithout(entries, k);
      if prev == null {
        hotplug := dev.next;
      } else {
        prev.next := dev.next;
      }
      list := list[..k] + list[k + 1..];
      entries := entries[..k] + entries[k + 1..];
      forall i | 0 <= i < |list|
        ensures NodeAt(i)
      {
        var j := if i < k then i else i + 1;
        assert old(NodeAt(j));
        if k > 0 && j != k - 1 {
          assert old(NodeAt(k - 1));
        }
      }
    }

    /** `dev_hotplug_walk`: calls back on exactly the matching nodes, in list
        order, up to and including the first that answers other than zero. */
    method DevHotplugWalk(ty: nat, cb: Callback) returns (r: int, seen: seq<Visit>)
      requires Valid()
      ensures cb.NoCallback? ==> r == -22 && seen == []
      ensures cb.Callback? ==> r == 0 && seen == Visits(entries, ty, cb.answer)
      ensures cb.Callback? && ty == 0 && (forall v :: v in entries ==> cb.answer(v) == 0) ==> seen == entries
      ensures forall v :: v in seen ==> v in entries && (ty != 0 ==> v.entry.devType == ty)
      ensures cb.Callback? ==> forall k :: 0 <= k < |entries| && (ty == 0 || entries[k].entry.devType == ty) ==>
                (entries[k] in seen <==>
                 forall j :: 0 <= j < k && (ty == 0 || entries[j].entry.devType == ty) ==> cb.answer(entries[j]) == 0)
    {
      seen := [];
      if cb.NoCallback? {
        return -EINVAL, seen;
      }
      seen := Walk(ty, cb.answer);
      VisitsExactly(entries, ty, cb.answer);
      r := RET_OK;
    }

    /** The walk itself. */
    method Walk(ty: nat, answer: Visit -> int) returns (seen: seq<Visit>)
      requires Valid()
      ensures seen == Visits(entries, ty, answer)
    {
      seen := [];
      ghost var k := 0;
      var dev := hotplug;
      while dev != null
        invariant k <= |list| && dev == At(list, k)
        invariant Visits(entries, ty, answer) == seen + Visits(entries[k..], ty, answer)
        decreases |list| - k
      {
        assert NodeAt(k);
        assert entries[k..][0] == entries[k] && entries[k..][1..] == entries[k + 1..];
        if ty == 0 || dev.devType == ty {
          seen := seen + [dev.Content()];
          if answer(dev.Content()) != 0 {
            break;
          }
        }
        dev := dev.next;
        k := k + 1;
      }
    }
  }
}
