/** The device registry: a singly linked list of devices with unique ids,
    reference counts on the hot-plug ones, and the suspend and resume walks. */
module DeviceRegistry {
  import opened Ledger
  import opened PmHistory

  const RET_OK: int := 0
  const EEXIST: int := 17
  const EINVAL: int := 22

  class DevObj {
    var devId: nat
    var busy: nat
    var suspend: bool
    var ref: nat          // an 8-bit counter
    var next: DevObj?
    const hotplug: bool
    const canSuspend: bool // ops with a suspend callback
    const canResume: bool  // ops with a resume callback

    constructor (hotplug: bool, canSuspend: bool, canResume: bool)
      ensures Zeroed()
    {
      devId, busy, suspend, ref, next := 0, 0, false, 0, null;
      this.hotplug, this.canSuspend, this.canResume := hotplug, canSuspend, canResume;
    }

    predicate Zeroed()
      reads this
    {
      ref == 0 && !suspend
    }
  }

  ghost function At(s: seq<DevObj>, i: nat): DevObj? {
    if i < |s| then s[i] else null
  }

  lemma CutOne(s: seq<DevObj>, k: nat)
    requires k < |s| && forall i, j :: 0 <= i < j < |s| ==> s[i] != s[j]
    ensures forall d :: d in s[..k] + s[k + 1..] ==> d in s && d != s[k]
    ensures forall d :: d in s && d != s[k] ==> d in s[..k] + s[k + 1..]
  {
    var w := s[..k] + s[k + 1..];
    forall d | d in s && d != s[k]
      ensures d in w
    {
      var i :| 0 <= i < |s| && s[i] == d;
      assert w[if i < k then i else i - 1] == d;
    }
  }

  /** The turn of the i-th device: it has not had one before. */
  lemma Turning(s: seq<DevObj>, i: nat, keep: set<DevObj>)
    requires i < |s| && forall i, j :: 0 <= i < j < |s| ==> s[i] != s[j]
    ensures s[i] !in Only(s[..i], keep)
    ensures Only(s[..i + 1], keep) == if s[i] in keep then Only(s[..i], keep) + [s[i]] else Only(s[..i], keep)
  {
    assert s[..i + 1] == s[..i] + [s[i]];
    OnlyNext(s[..i], s[i], keep);
    OnlyMembers(s[..i], keep);
  }

  class DevMgr {
    var devs: DevObj?
    ghost var list: seq<DevObj>             // the registered devices, in order
    ghost var table: map<nat, DevObj>       // the same devices, by id
    ghost var members: set<DevObj>          // those that hold the registry's count
    ghost var known: set<DevObj>            // every device ever offered
    ghost var log: seq<Event<DevObj>>       // holds on the hot-plug devices
    ghost var pm: seq<PmEvent<DevObj>>      // power transitions

    constructor ()
      ensures Valid() && list == [] && table == map[] && known == {} && log == [] && pm == []
    {
      devs, list, table, members, known, log, pm := null, [], map[], {}, {}, [], [];
    }

    /** The count of a hot-plug device is right, and the suspend bit is the
        balance of its callbacks. */
    ghost predicate Accounted(d: DevObj)
      reads this`log, this`pm, this`members, d`ref, d`suspend
    {
      && (d.hotplug ==> Balanced(log, d, d.ref, d in members))
      && (Balance(pm, d) == if d.suspend then 1 else 0)
    }

    ghost predicate Accounts()
      reads this`log, this`pm, this`members, this`known, known`ref, known`suspend
    {
      && Orderly(log) && Sound(pm) && members <= known
      && (forall e :: e in log ==> e.dev in known && e.dev.hotplug)
      && (forall e :: e in pm ==> e.dev in known)
      && (forall d {:trigger Accounted(d)} :: d in known ==> Accounted(d))
    }

    ghost predicate LinkAt(i: nat)
      requires i < |list|
      reads this`list, list`next, list`devId
    {
      list[i].next == At(list, i + 1) && list[i].devId != 0
    }

    /** The list is acyclic. */
    ghost predicate Chained()
      reads this`devs, this`list, list`next, list`devId
    {
      && devs == At(list, 0)
      && (forall i :: 0 <= i < |list| ==> LinkAt(i))
      && (forall i, j :: 0 <= i < j < |list| ==> list[i] != list[j])
    }

    /** It holds, under unique ids, what the table holds. */
    ghost predicate Indexed()
      reads this`list, this`table, list`devId
    {
      && (forall d :: d in list ==> d.devId in table && table[d.devId] == d)
      && (forall id :: id in table ==> table[id] in list && table[id].devId == id)
    }

    ghost predicate Valid()
      reads this, known`ref, known`suspend, list`next, list`devId
    {
      && Chained() && Indexed() && Accounts()
      && (forall d :: d in list ==> d in members)
      && (forall d :: d in members ==> d in list)
    }

    /** A hot-plug device on the list is live, and the list holds it once. */
    lemma ListedIsHeld(d: DevObj)
      requires Accounts() && d in members
      ensures d.hotplug ==> !Freed(log, d) && Held(log, d, Listed) == 1
    {
      assert Accounted(d);
      if d.hotplug {
        ListedLive(log, d, d.ref);
      }
    }

    /** The count of a live hot-plug device is its creator's hold, if still
        there, plus one if it is on the list, plus the outstanding gets; and it
        is live exactly while that is not zero. */
    lemma RefIsHolds(d: DevObj)
      requires Valid() && d in known && d.hotplug
      ensures !Freed(log, d) ==>
                d.ref == Held(log, d, Creator) + (if d in list then 1 else 0) + Held(log, d, Got)
      ensures 0 <= Held(log, d, Creator) <= 1 && Held(log, d, Got) >= 0
      ensures Freed(log, d) <==> Held(log, d, Creator) == 0 && d !in list && Held(log, d, Got) == 0
    {
      assert Accounted(d);
      HeldWhole(log, d);
      if Freed(log, d) {
        FreedForGood(log, d, Creator);
        FreedForGood(log, d, Listed);
        FreedForGood(log, d, Got);
      }
    }

    /** The counting step of `dev_put`, on a hot-plug device. */
    method DropHold(dev: DevObj, ghost h: Hold)
      requires Accounts() && dev in known && dev.hotplug
      requires !Freed(log, dev) && Held(log, dev, h) > 0
      modifies this`log, this`members, dev`ref
      ensures Accounts() && dev.ref == old(dev.ref) - 1
      ensures members == if h == Listed then old(members) - {dev} else old(members)
      ensures log == Dropped(old(log), dev, h) && (Freed(log, dev) <==> old(dev.ref) == 1)
    {
      ghost var listed := dev in members;
      assert Accounted(dev);
      DropKeeps(log, dev, h, dev.ref, listed);
      var last := true;
      if dev.ref > 0 {
        dev.ref := dev.ref - 1;
        last := dev.ref == 0;
      }
      log := log + [Drop(dev, h)];
      if last {
        log := log + [Free(dev)];
      }
      assert log == Dropped(old(log), dev, h);
      if h == Listed {
        members := members - {dev};
      }
      forall x | x in known
        ensures Accounted(x)
      {
        assert old(Accounted(x));
        if x != dev && x.hotplug {
          DropOthers(old(log), dev, h, x, x.ref, x in members);
        }
      }
    }

    /** `dev_put` of a hold of the given kind. */
    method Put(dev: DevObj, ghost h: Hold)
      requires Accounts() && dev in known
      requires dev.hotplug ==> !Freed(log, dev) && Held(log, dev, h) > 0
      modifies this`log, this`members, dev`ref
      ensures Accounts()
      ensures members == if h == Listed then old(members) - {dev} else old(members)
      ensures if dev.hotplug then log == Dropped(old(log), dev, h) && dev.ref == old(dev.ref) - 1
                                  && (Freed(log, dev) <==> old(dev.ref) == 1)
              else log == old(log) && dev.ref == old(dev.ref)
    {
      if dev.hotplug {
        DropHold(dev, h);
      } else {
        if h == Listed {
          members := members - {dev};
        }
        assert forall x :: x in known ==> old(Accounted(x)) ==> Accounted(x);
      }
    }

    /** `dev_put`, by whoever holds a hold of the given kind. */
    method DevPut(dev: DevObj?, ghost h: Hold)
      requires Valid() && h != Listed
      requires dev != null ==> dev in known
      requires dev != null && dev.hotplug ==> !Freed(log, dev) && Held(log, dev, h) > 0
      modifies this`log, this`members, (if dev == null then {} else {dev})`ref
      ensures Valid() && members == old(members)
      ensures if dev != null && dev.hotplug
              then log == Dropped<DevObj>(old(log), dev, h) && dev.ref == old(dev.ref) - 1
                   && (Freed(log, dev) <==> old(dev.ref) == 1)
              else log == old(log) && (dev != null ==> dev.ref == old(dev.ref))
    {
      if dev != null {
        Put(dev, h);
      }
    }

    /** `dev_get`: the one device with the id, with one more hold on it if it is
        a hot-plug device; null if there is none. */
    method DevGet(id: nat) returns (dev: DevObj?)
      requires Valid()
      requires forall d :: d in list && d.devId == id && d.hotplug ==> d.ref < 255
      modifies this`log, this`members, list`ref
      ensures Valid() && members == old(members)
      ensures dev == if id in table then table[id] else null
      ensures dev != null ==> dev in list
      ensures forall d :: d in list && d != dev ==> d.ref == old(d.ref)
      ensures dev != null ==> dev.ref == old(dev.ref) + (if dev.hotplug then 1 else 0)
      ensures log == if dev != null && dev.hotplug then Taken<DevObj>(old(log), dev, Got) else old(log)
      ensures dev != null && dev.hotplug ==> !Freed(log, dev) && Held(log, dev, Got) > 0
    {
      ghost var i := 0;
      dev := devs;
      while dev != null
        invariant i <= |list| && dev == At(list, i)
        invariant forall j :: 0 <= j < i ==> list[j].devId != id
        decreases |list| - i
      {
        if dev.devId == id {
          break;
        }
        assert LinkAt(i);
        dev := dev.next;
        i := i + 1;
      }
      if dev != null && dev.hotplug {
        ListedIsHeld(dev);
        TakeHold(dev, Got);
      }
    }

    /** `atomic_inc` of a live hot-plug device's count. */
    method TakeHold(dev: DevObj, ghost h: Hold)
      requires Accounts() && dev in known && dev.hotplug && !Freed(log, dev) && dev.ref < 255
      requires h == Got || (h == Listed && dev !in members)
      modifies this`log, this`members, dev`ref
      ensures Accounts() && log == Taken(old(log), dev, h) && dev.ref == old(dev.ref) + 1
      ensures members == if h == Listed then old(members) + {dev} else old(members)
      ensures !Freed(log, dev) && Held(log, dev, h) > 0
    {
      assert Accounted(dev);
      TakeKeeps(log, dev, h, dev.ref, dev in members);
      dev.ref := (dev.ref + 1) % 256;
      log := Taken(log, dev, h);
      if h == Listed {
        members := members + {dev};
      }
      forall x | x in known
        ensures Accounted(x)
      {
        assert old(Accounted(x));
        if x != dev && x.hotplug {
          TakeOthers(old(log), dev, h, x, x.ref, x in members);
        }
      }
    }

    /** A device that may be offered for registration: not on the list, and
        either zeroed and new or a live one offered before. */
    ghost predicate Offerable(device: DevObj)
      reads this, device
    {
      device !in members && if device in known then !Freed(log, device) else device.Zeroed()
    }

    /** The history once an offered device has its creator's hold. */
    ghost function Enrolled(device: DevObj): seq<Event<DevObj>>
      reads this, device
    {
      if device.hotplug && device.ref == 0 then Taken(log, device, Creator) else log
    }

    ghost function Counted(device: DevObj): nat
      reads device
    {
      if device.ref == 0 then 1 else device.ref
    }

    /** A zero count means an uninitialised one: the creator's hold starts here. */
    method Enroll(device: DevObj)
      requires Accounts() && Offerable(device)
      modifies this`log, this`known, device`ref
      ensures Accounts() && known == old(known) + {device} && Offerable(device)
      ensures log == old(Enrolled(device))
      ensures device.ref == old(Counted(device))
    {
      if device !in known {
        Untouched(pm, device);
        FirstHold(log, device);
        Unmentioned(log, device, Creator);
      } else {
        assert Accounted(device);
      }
      if device.hotplug && device.ref == 0 {
        log := Taken(log, device, Creator);
      }
      if device.ref == 0 {
        device.ref := 1;
      }
      known := known + {device};
      forall x | x in known
        ensures Accounted(x)
      {
        if x != device {
          assert old(Accounted(x));
          if x.hotplug {
            TakeOthers(old(log), device, Creator, x, x.ref, x in members);
          }
        }
      }
    }

    /** The duplicate check of `dev_register`: a get and, on success, a put,
        which leave every count as it was. */
    method Exists(id: nat) returns (found: bool)
      requires Valid()
      requires forall d :: d in list && d.devId == id && d.hotplug ==> d.ref < 255
      modifies this`log, this`members, list`ref
      ensures Valid() && members == old(members)
      ensures found <==> id in table
      ensures forall d :: d in list ==> d.ref == old(d.ref)
      ensures log == if found then Touched<DevObj>(old(log), table[id], table[id].hotplug) else old(log)
    {
      var dev := DevGet(id);
      found := dev != null;
      if dev != null {
        if dev.hotplug {
          assert old(Accounted(dev)) && Accounted(dev);
        }
        DevPut(dev, Got);
      }
    }

    /** `dev_register`.  A bad argument changes nothing; a taken id changes no
        count of the device that has it; otherwise the device heads the list,
        with the registry's hold on it. */
    method DevRegister(id: nat, device: DevObj?) returns (r: int)
      requires Valid()
      requires device != null ==> Offerable(device) && (device.hotplug ==> device.ref < 255)
      requires forall d :: d in list && d.devId == id && d.hotplug ==> d.ref < 255
      modifies this, device, list`ref
      ensures Valid()
      ensures id == 0 || device == null ==>
                r == -22 && list == old(list) && table == old(table) && log == old(log) && known == old(known)
      ensures id != 0 && device != null ==> known == old(known) + {device}
      ensures id != 0 && device != null ==>
                if id in old(table)
                then r == -17 && list == old(list) && table == old(table)
                     && device.ref == (if old(device.ref) == 0 then 1 else old(device.ref))
                     && log == Touched<DevObj>(old(Enrolled(device)), table[id], table[id].hotplug)
                else r == 0 && list == [device] + old(list) && table == old(table)[id := device]
                     && device.devId == id && device.ref == (if old(device.ref) == 0 then 2 else (old(device.ref) + 1) % 256)
                     && log == if device.hotplug then Taken<DevObj>(old(Enrolled(device)), device, Listed) else old(log)
      ensures forall d :: d in old(list) ==> d.ref == old(d.ref) && d.devId == old(d.devId)
      ensures pm == old(pm)
    {
      if id == 0 || device == null {
        return -EINVAL;
      }
      Enroll(device);
      var found := Exists(id);
      if found {
        return -EEXIST;
      }
      Enlist(id, device);
      return RET_OK;
    }

    /** The registry's own hold on a device it lists; only hot-plug devices are
        ever freed, so only theirs is in the history. */
    method CountListed(device: DevObj)
      requires Accounts() && device in known && device !in members
      requires device.hotplug ==> !Freed(log, device) && device.ref < 255
      modifies this`members, this`log, device`ref
      ensures Accounts() && members == old(members) + {device} && device.ref == (old(device.ref) + 1) % 256
      ensures log == if device.hotplug then Taken(old(log), device, Listed) else old(log)
    {
      if device.hotplug {
        TakeHold(device, Listed);
      } else {
        device.ref := (device.ref + 1) % 256;
        members := members + {device};
        assert forall x :: x in known ==> old(Accounted(x)) ==> Accounted(x);
      }
    }

    /** The device goes to the head of the list. */
    method Link(id: nat, device: DevObj)
      requires Chained() && Indexed() && id != 0 && device !in list && id !in table
      modifies this`devs, this`list, this`table, device`devId, device`next
      ensures Chained() && Indexed() && list == [device] + old(list) && device.devId == id
      ensures table == old(table)[id := device]
    {
      device.devId := id;
      device.next := devs;
      devs := device;
      list := [device] + list;
      table := table[id := device];
      forall i | 0 <= i < |list|
        ensures LinkAt(i)
      {
        assert i > 0 ==> old(LinkAt(i - 1));
      }
    }

    /** The walk of `dev_unregister`: finds the device, remembering the one
        before it, and takes it out of the list. */
    method Unlink(device: DevObj) returns (ghost k: nat)
      requires Chained() && device in list
      modifies this`devs, this`list, list`next
      ensures k < |old(list)| && old(list)[k] == device
      ensures Chained() && list == old(list)[..k] + old(list)[k + 1..]
    {
      k := 0;
      var dev, last := devs, null;
      while dev != null
        invariant k <= |list| && dev == At(list, k)
        invariant k > 0 ==> last == list[k - 1]
        invariant forall j :: 0 <= j < k ==> list[j] != device
        invariant Chained() && forall j :: 0 <= j < |list| ==> list[j].next == old(list[j].next)
        decreases |list| - k
      {
        assert LinkAt(k);
        if dev == device {
          if device == devs {
            devs := device.next;
          } else {
            last.next := device.next;
          }
          break;
        }
        last := dev;
        dev := dev.next;
        k := k + 1;
      }
      list := list[..k] + list[k + 1..];
      forall i | 0 <= i < |list|
        ensures LinkAt(i)
      {
        assert old(LinkAt(if i < k then i else i + 1));
        assert i + 1 == k ==> old(LinkAt(k));
      }
    }

    /** The step of `dev_register` that lists the device and counts the hold. */
    method Enlist(id: nat, device: DevObj)
      requires Valid() && device in known && id != 0 && device !in members
      requires device.hotplug ==> !Freed(log, device) && device.ref < 255
      requires id !in table
      modifies this`devs, this`list, this`table, this`members, this`log, device`devId, device`next, device`ref
      ensures Valid() && list == [device] + old(list) && table == old(table)[id := device] && device.devId == id
      ensures device.ref == (old(device.ref) + 1) % 256
      ensures log == if device.hotplug then Taken(old(log), device, Listed) else old(log)
    {
      Link(id, device);
      CountListed(device);
    }

    /** The same, keeping the table in step. */
    method Delist(device: DevObj) returns (ghost k: nat)
      requires Chained() && Indexed() && device in list
      modifies this`devs, this`list, this`table, list`next
      ensures k < |old(list)| && old(list)[k] == device
      ensures Chained() && Indexed() && list == old(list)[..k] + old(list)[k + 1..]
      ensures table == old(table) - {device.devId}
      ensures forall d :: d in list ==> d in old(list) && d != device
      ensures forall d :: d in old(list) && d != device ==> d in list
    {
      k := Unlink(device);
      CutOne(old(list), k);
      table := table - {device.devId};
    }

    /** Takes the device out of the list and drops the registry's hold on it. */
    method Leave(device: DevObj) returns (ghost k: nat)
      requires Valid() && device in list
      modifies this`devs, this`list, this`table, this`log, this`members, list`next, device`ref
      ensures Chained() && Indexed()
      ensures Accounts() && members == old(members) - {device}
      ensures k < |old(list)| && old(list)[k] == device
      ensures list == old(list)[..k] + old(list)[k + 1..]
      ensures table == old(table) - {device.devId}
      ensures forall d :: d in list ==> d in old(list) && d != device
      ensures forall d :: d in old(list) && d != device ==> d in list
      ensures if device.hotplug then log == Dropped(old(log), device, Listed) && device.ref == old(device.ref) - 1
                                     && (Freed(log, device) <==> old(device.ref) == 1)
              else log == old(log) && device.ref == old(device.ref)
    {
      ListedIsHeld(device);
      k := Delist(device);
      Put(device, Listed);
    }

    /** `dev_unregister`: the device leaves the list and the registry's hold on
        it goes, which frees it when nobody else holds it. */
    method DevUnregister(device: DevObj?) returns (r: int, ghost k: nat)
      requires Valid() && (device != null ==> device in list)
      modifies this`devs, this`list, this`table, this`log, this`members, list`next
      modifies (if device == null then {} else {device})`ref
      ensures Valid() && r == 0
      ensures device == null ==> list == old(list) && table == old(table) && log == old(log)
      ensures device != null ==> table == old(table) - {device.devId}
      ensures device != null ==> k < |old(list)| && old(list)[k] == device
                                 && list == old(list)[..k] + old(list)[k + 1..]
      ensures device != null ==> log == if device.hotplug then Dropped<DevObj>(old(log), device, Listed) else old(log)
      ensures device != null && device.hotplug ==>
                device.ref == old(device.ref) - 1 && (Freed(log, device) <==> old(device.ref) == 1)
    {
      k := 0;
      if device != null {
        k := Leave(device);
      }
      r := RET_OK;
    }

    /** Sleeps until the device is seen idle.  Whoever keeps it busy stops after
        at most `patience` sleeps; till then each sleep may find any value. */
    method WaitIdle(dev: DevObj, patience: nat)
      modifies dev`busy
      ensures dev.busy == 0
    {
      var left := patience;
      while dev.busy != 0
        decreases left, dev.busy
      {
        if left > 0 {
          dev.busy := *;
          left := left - 1;
        } else {
          dev.busy := 0;
        }
      }
    }

    /** An idle reading can be noted only where there is one. */
    ghost method NoteIdle(dev: DevObj)
      requires dev.busy == 0
      modifies this`pm
      ensures pm == old(pm) + [SawIdle(dev)]
    {
      pm := pm + [SawIdle(dev)];
    }

    method MarkAndWait(dev: DevObj, patience: nat)
      modifies this`pm, dev`suspend, dev`busy
      ensures dev.suspend && dev.busy == 0 && pm == old(pm) + [Marked(dev), SawIdle(dev)]
    {
      dev.suspend := true;
      pm := pm + [Marked(dev)];
      WaitIdle(dev, patience);
      NoteIdle(dev);
    }

    /** Suspends one running device: marks it, waits until it is seen idle, then
        calls back. */
    method SuspendOne(dev: DevObj, patience: nat)
      requires Accounts() && dev in known && !dev.suspend
      modifies this`pm, dev`suspend, dev`busy
      ensures Accounts() && dev.suspend && pm == old(pm) + Sleep(dev)
    {
      assert Accounted(dev);
      MarkAndWait(dev, patience);
      pm := pm + [Suspended(dev)];
      assert pm == old(pm) + Sleep(dev);
      SleepSound(old(pm), dev);
      forall x | x in known
        ensures Accounted(x)
      {
        assert old(Accounted(x));
        SleepBalance(old(pm), dev, x);
      }
    }

    method ResumeOne(dev: DevObj)
      requires Accounts() && dev in known && dev.suspend
      modifies this`pm, dev`suspend
      ensures Accounts() && !dev.suspend && pm == old(pm) + [Resumed(dev)]
    {
      assert Accounted(dev);
      ExtendSound(pm, Resumed(dev));
      pm := pm + [Resumed(dev)];
      dev.suspend := false;
      forall x | x in known
        ensures Accounted(x)
      {
        assert old(Accounted(x));
        BalanceAppend(old(pm), Resumed(dev), x);
      }
    }

    /** Of the listed devices exactly those suspended before and those called
        back in this walk are suspended. */
    ghost predicate Asleep(was: set<DevObj>, called: seq<DevObj>)
      reads this`list, list`suspend
    {
      forall d :: d in list ==> d.suspend == (d in was || d in called)
    }

    /** Exactly those suspended before and not called back are suspended. */
    ghost predicate Awake(was: set<DevObj>, called: seq<DevObj>)
      reads this`list, list`suspend
    {
      forall d :: d in list ==> d.suspend == (d in was && d !in called)
    }

    /** One turn of the suspend walk. */
    method SuspendTurn(dev: DevObj, agreed: set<DevObj>, patience: nat, ghost was: set<DevObj>,
                       ghost begun: seq<PmEvent<DevObj>>, ghost called: seq<DevObj>, ghost now: seq<DevObj>)
      requires Accounts() && dev in known && pm == begun + Sleeps(called)
      requires dev in list && dev !in called && Asleep(was, called)
      requires now == if dev.canSuspend && dev !in was && dev in agreed then called + [dev] else called
      modifies this`pm, dev`suspend, dev`busy
      ensures Accounts() && pm == begun + Sleeps(now) && Asleep(was, now)
    {
      if dev.canSuspend && !dev.suspend {
        if dev in agreed {
          SuspendOne(dev, patience);
          SleepsNext(called, dev);
        }
      }
    }

    /** One turn of the resume walk. */
    method ResumeTurn(dev: DevObj, agreed: set<DevObj>, ghost was: set<DevObj>,
                      ghost begun: seq<PmEvent<DevObj>>, ghost called: seq<DevObj>, ghost now: seq<DevObj>)
      requires Accounts() && dev in known && pm == begun + Wakes(called)
      requires dev in list && dev !in called && Awake(was, called)
      requires now == if dev.canResume && dev in was && dev in agreed then called + [dev] else called
      modifies this`pm, dev`suspend
      ensures Accounts() && pm == begun + Wakes(now) && Awake(was, now)
    {
      if dev.canResume && dev.suspend {
        if dev in agreed {
          ResumeOne(dev);
          WakesNext(called, dev);
        }
      }
    }

    /** The suspend walk over the devices to ask. */
    method SuspendWalk(agreed: set<DevObj>, patience: nat, ghost was: set<DevObj>, ghost asked: set<DevObj>)
      requires Chained() && Accounts()
      requires Asleep(was, []) && forall d :: d in list ==> d in known
      requires forall d :: d in list ==> (d in asked <==> d.canSuspend && d !in was && d in agreed)
      modifies this`pm, list`suspend, list`busy
      ensures Accounts() && pm == old(pm) + Sleeps(Only(list, asked)) && Asleep(was, Only(list, asked))
    {
      ghost var i, called: seq<DevObj> := 0, [];
      var dev := devs;
      while dev != null
        invariant i <= |list| && dev == At(list, i)
        invariant Accounts()
        invariant Asleep(was, called)
        invariant called == Only(list[..i], asked)
        invariant pm == old(pm) + Sleeps(called)
        decreases |list| - i
      {
        assert old(LinkAt(i)) && dev in list;
        ghost var next := At(list, i + 1);
        assert dev.next == next;
        Turning(list, i, asked);
        ghost var more := Only(list[..i + 1], asked);
        SuspendTurn(dev, agreed, patience, was, old(pm), called, more);
        called := more;
        dev := dev.next;
        i := i + 1;
      }
      assert list[..i] == list;
    }

    /** `dev_suspend`: suspends, in list order, exactly the running devices that
        can suspend and whose hook answers yes (those in `agreed`). */
    method DevSuspend(agreed: set<DevObj>, patience: nat) returns (r: int)
      requires Valid()
      modifies this`pm, list`suspend, list`busy
      ensures Valid() && r == 0
      ensures forall d :: d in list ==> d.suspend == (old(d.suspend) || (d.canSuspend && d in agreed))
      ensures pm == old(pm) + Sleeps(Only(list, old(set d | d in list && d.canSuspend && !d.suspend && d in agreed)))
    {
      ghost var was := set d | d in list && d.suspend;
      ghost var asked := set d | d in list && d.canSuspend && !d.suspend && d in agreed;
      SuspendWalk(agreed, patience, was, asked);
      OnlyMembers(list, asked);
      r := RET_OK;
    }

    /** The resume walk over the devices to ask. */
    method ResumeWalk(agreed: set<DevObj>, ghost was: set<DevObj>, ghost asked: set<DevObj>)
      requires Chained() && Accounts()
      requires Awake(was, []) && forall d :: d in list ==> d in known
      requires forall d :: d in list ==> (d in asked <==> d.canResume && d in was && d in agreed)
      modifies this`pm, list`suspend
      ensures Accounts() && pm == old(pm) + Wakes(Only(list, asked)) && Awake(was, Only(list, asked))
    {
      ghost var i, called: seq<DevObj> := 0, [];
      var dev := devs;
      while dev != null
        invariant i <= |list| && dev == At(list, i)
        invariant Accounts()
        invariant Awake(was, called)
        invariant called == Only(list[..i], asked)
        invariant pm == old(pm) + Wakes(called)
        decreases |list| - i
      {
        Turning(list, i, asked);
        assert old(LinkAt(i)) && dev in list;
        ghost var next := At(list, i + 1);
        assert dev.next == next;
        ghost var more := Only(list[..i + 1], asked);
        ResumeTurn(dev, agreed, was, old(pm), called, more);
        called := more;
        dev := dev.next;
        i := i + 1;
      }
      assert list[..i] == list;
    }

    /** `dev_resume`: resumes, in list order, exactly the suspended devices that
        can resume and whose hook answers yes (those in `agreed`). */
    method DevResume(agreed: set<DevObj>) returns (r: int)
      requires Valid()
      modifies this`pm, list`suspend
      ensures Valid() && r == 0
      ensures forall d :: d in list ==> d.suspend == (old(d.suspend) && !(d.canResume && d in agreed))
      ensures pm == old(pm) + Wakes(Only(list, old(set d | d in list && d.canResume && d.suspend && d in agreed)))
    {
      ghost var was := set d | d in list && d.suspend;
      ghost var asked := set d | d in list && d.canResume && d.suspend && d in agreed;
      ResumeWalk(agreed, was, asked);
      OnlyMembers(list, asked);
      r := RET_OK;
    }
  }
}
