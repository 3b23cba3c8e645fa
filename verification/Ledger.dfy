/** The history of holds on hot-plug devices.  A registry run appends to it each
    hold taken or dropped and each device freed; the functions here read off who
    holds what, and the lemmas say what an orderly history rules out. */
module Ledger {

  /** Who holds a device: its creator, the registry's list, or a caller of get. */
  datatype Hold = Creator | Listed | Got

  datatype Event<D> = Take(dev: D, hold: Hold) | Drop(dev: D, hold: Hold) | Free(dev: D)

  /** How many holds of a kind are outstanding on d. */
  ghost function Held<D>(log: seq<Event<D>>, d: D, h: Hold): int {
    if log == [] then 0
    else Held(log[..|log| - 1], d, h) + Weight(log[|log| - 1], d, h)
  }

  ghost function Weight<D>(e: Event<D>, d: D, h: Hold): int {
    if e == Take(d, h) then 1 else if e == Drop(d, h) then -1 else 0
  }

  /** All outstanding holds on d. */
  ghost function Total<D>(log: seq<Event<D>>, d: D): int {
    Held(log, d, Creator) + Held(log, d, Listed) + Held(log, d, Got)
  }

  /** The history after d's hold is dropped, with the free that goes with the
      last one, and after one is taken. */
  ghost function Dropped<D>(log: seq<Event<D>>, d: D, h: Hold): seq<Event<D>> {
    log + (if Total(log, d) == 1 then [Drop(d, h), Free(d)] else [Drop(d, h)])
  }

  ghost function Taken<D>(log: seq<Event<D>>, d: D, h: Hold): seq<Event<D>> {
    log + [Take(d, h)]
  }

  /** The history after a get and a put of d, of which only hot-plug devices keep one. */
  ghost function Touched<D>(log: seq<Event<D>>, d: D, hotplug: bool): seq<Event<D>> {
    if hotplug then Dropped(Taken(log, d, Got), d, Got) else log
  }

  ghost predicate Freed<D>(log: seq<Event<D>>, d: D) {
    Free(d) in log
  }

  /** Event i comes at the right time: holds are dropped only by holders and
      taken only on live devices; the drop of the last hold is followed at once
      by the free, and nothing else frees. */
  ghost predicate OrderlyAt<D>(log: seq<Event<D>>, i: nat)
    requires i < |log|
  {
    var past, e := log[..i], log[i];
    && !Freed(past, e.dev)
    && (e.Drop? ==> Held(past, e.dev, e.hold) > 0)
    && (e.Drop? && Total(past, e.dev) == 1 ==> i + 1 < |log| && log[i + 1] == Free(e.dev))
    && (e.Free? ==> i > 0 && log[i - 1].Drop? && log[i - 1].dev == e.dev && Total(past, e.dev) == 0)
  }

  ghost predicate Orderly<D>(log: seq<Event<D>>) {
    forall i :: 0 <= i < |log| ==> OrderlyAt(log, i)
  }

  lemma HeldAppend<D>(log: seq<Event<D>>, e: Event<D>, d: D, h: Hold)
    ensures Held(log + [e], d, h) == Held(log, d, h) + Weight(e, d, h)
  {
    assert (log + [e])[..|log|] == log;
  }

  lemma TotalAppend<D>(log: seq<Event<D>>, e: Event<D>, d: D)
    ensures Total(log + [e], d) == Total(log, d) +
              (if e.dev != d || e.Free? then 0 else if e.Take? then 1 else -1)
  {
    HeldAppend(log, e, d, Creator);
    HeldAppend(log, e, d, Listed);
    HeldAppend(log, e, d, Got);
    match e {
      case Take(_, h) => assert h == Creator || h == Listed || h == Got;
      case Drop(_, h) => assert h == Creator || h == Listed || h == Got;
      case Free(_) =>
    }
  }

  /** Taking a hold on a live device keeps a history orderly. */
  lemma TakeOrderly<D>(log: seq<Event<D>>, d: D, h: Hold)
    requires Orderly(log) && !Freed(log, d)
    ensures Orderly(log + [Take(d, h)])
  {
    ExtendOrderly(log, [Take(d, h)]);
    var w := log + [Take(d, h)];
    assert w[..|log|] == log;
    assert OrderlyAt(w, |log|);
  }

  /** Dropping a hold that is not the last keeps a history orderly. */
  lemma DropOrderly<D>(log: seq<Event<D>>, d: D, h: Hold)
    requires Orderly(log) && !Freed(log, d) && Held(log, d, h) > 0 && Total(log, d) > 1
    ensures Orderly(log + [Drop(d, h)])
  {
    ExtendOrderly(log, [Drop(d, h)]);
    var w := log + [Drop(d, h)];
    assert w[..|log|] == log;
    assert OrderlyAt(w, |log|);
  }

  /** So does dropping the last hold and freeing the device. */
  lemma FreeOrderly<D>(log: seq<Event<D>>, d: D, h: Hold)
    requires Orderly(log) && !Freed(log, d) && Held(log, d, h) > 0 && Total(log, d) == 1
    ensures Orderly(log + [Drop(d, h), Free(d)])
  {
    ExtendOrderly(log, [Drop(d, h), Free(d)]);
    var w := log + [Drop(d, h), Free(d)];
    assert w[..|log|] == log && w[..|log| + 1] == log + [Drop(d, h)];
    TotalAppend(log, Drop(d, h), d);
    assert OrderlyAt(w, |log|);
    assert OrderlyAt(w, |log| + 1);
  }

  lemma ExtendOrderly<D>(log: seq<Event<D>>, more: seq<Event<D>>)
    requires Orderly(log)
    ensures forall i :: 0 <= i < |log| ==> OrderlyAt(log + more, i)
  {
    forall i | 0 <= i < |log|
      ensures OrderlyAt(log + more, i)
    {
      assert OrderlyAt(log, i);
      assert (log + more)[..i] == log[..i];
    }
  }

  /** In an orderly history no count of holds is ever negative. */
  lemma {:induction false} HeldNonNegative<D>(log: seq<Event<D>>, k: nat, d: D, h: Hold)
    requires Orderly(log) && k <= |log|
    ensures Held(log[..k], d, h) >= 0
  {
    if k > 0 {
      HeldNonNegative(log, k - 1, d, h);
      assert OrderlyAt(log, k - 1);
      assert log[..k] == log[..k - 1] + [log[k - 1]];
      HeldAppend(log[..k - 1], log[k - 1], d, h);
    }
  }

  lemma HeldWhole<D>(log: seq<Event<D>>, d: D)
    requires Orderly(log)
    ensures Held(log, d, Creator) >= 0 && Held(log, d, Listed) >= 0 && Held(log, d, Got) >= 0
  {
    assert log[..|log|] == log;
    HeldNonNegative(log, |log|, d, Creator);
    HeldNonNegative(log, |log|, d, Listed);
    HeldNonNegative(log, |log|, d, Got);
  }

  /** What dropping a hold on d does to any device x. */
  lemma DropEffect<D>(log: seq<Event<D>>, d: D, h: Hold, x: D)
    ensures var w := log + [Drop(d, h)];
      && Total(w, x) == Total(log, x) - (if x == d then 1 else 0)
      && Held(w, x, Listed) == Held(log, x, Listed) - (if x == d && h == Listed then 1 else 0)
      && Held(w, x, Creator) <= Held(log, x, Creator)
      && (Freed(w, x) <==> Freed(log, x))
  {
    TotalAppend(log, Drop(d, h), x);
    HeldAppend(log, Drop(d, h), x, Listed);
    HeldAppend(log, Drop(d, h), x, Creator);
  }

  /** Freeing moves no count. */
  lemma FreeEffect<D>(log: seq<Event<D>>, d: D, x: D)
    ensures var w := log + [Free(d)];
      && Total(w, x) == Total(log, x) && Held(w, x, Listed) == Held(log, x, Listed)
      && Held(w, x, Creator) == Held(log, x, Creator)
      && (Freed(w, x) <==> Freed(log, x) || x == d)
  {
    TotalAppend(log, Free(d), x);
    HeldAppend(log, Free(d), x, Listed);
    HeldAppend(log, Free(d), x, Creator);
  }

  /** What taking a hold on d does to any device x. */
  lemma TakeEffect<D>(log: seq<Event<D>>, d: D, h: Hold, x: D)
    ensures var w := log + [Take(d, h)];
      && Total(w, x) == Total(log, x) + (if x == d then 1 else 0)
      && Held(w, x, Listed) == Held(log, x, Listed) + (if x == d && h == Listed then 1 else 0)
      && Held(w, x, Creator) == Held(log, x, Creator) + (if x == d && h == Creator then 1 else 0)
      && (Freed(w, x) <==> Freed(log, x))
  {
    TotalAppend(log, Take(d, h), x);
    HeldAppend(log, Take(d, h), x, Listed);
    HeldAppend(log, Take(d, h), x, Creator);
  }

  /** Safety over the whole run: when a device is freed nobody holds it, it is
      not on the list, and it takes part in nothing before or after. */
  lemma FreedUnheld<D>(log: seq<Event<D>>, i: nat, d: D, h: Hold)
    requires Orderly(log) && i < |log| && log[i] == Free(d)
    ensures Held(log[..i], d, h) == 0
    ensures forall j :: i < j < |log| ==> log[j].dev != d
    ensures forall j :: 0 <= j < |log| && log[j] == Free(d) ==> j == i
  {
    assert OrderlyAt(log, i);
    HeldNonNegative(log, i, d, Creator);
    HeldNonNegative(log, i, d, Listed);
    HeldNonNegative(log, i, d, Got);
    forall j | i < j < |log|
      ensures log[j].dev != d
    {
      assert OrderlyAt(log, j);
      assert log[..j][i] == Free(d);
    }
    forall j | 0 <= j < i
      ensures log[j] != Free(d)
    {
      assert log[..i][j] == log[j];
    }
  }

  /** A device is freed as soon as its last hold goes: once it has been held and
      nobody holds it any more, the history already says so. */
  lemma {:induction false} UnheldFreed<D>(log: seq<Event<D>>, k: nat, d: D)
    requires Orderly(log) && k <= |log| && Total(log[..k], d) == 0
    requires exists j :: 0 <= j < k && log[j].dev == d
    ensures Freed(log, d)
  {
    var e := log[k - 1];
    assert log[..k] == log[..k - 1] + [e];
    TotalAppend(log[..k - 1], e, d);
    HeldNonNegative(log, k - 1, d, Creator);
    HeldNonNegative(log, k - 1, d, Listed);
    HeldNonNegative(log, k - 1, d, Got);
    if e.dev == d {
      assert OrderlyAt(log, k - 1);
    } else {
      UnheldFreed(log, k - 1, d);
    }
  }

  /** Nothing happens to a count over events on other devices. */
  lemma {:induction false} HeldStill<D>(log: seq<Event<D>>, k: nat, d: D, h: Hold)
    requires k <= |log| && forall j :: k <= j < |log| ==> log[j].dev != d
    ensures Held(log, d, h) == Held(log[..k], d, h)
    decreases |log| - k
  {
    if k < |log| {
      HeldStill(log, k + 1, d, h);
      assert log[..k + 1] == log[..k] + [log[k]];
      HeldAppend(log[..k], log[k], d, h);
    } else {
      assert log[..k] == log;
    }
  }

  /** Nobody ever holds a freed device again. */
  lemma FreedForGood<D>(log: seq<Event<D>>, d: D, h: Hold)
    requires Orderly(log) && Freed(log, d)
    ensures Held(log, d, h) == 0
  {
    var i :| 0 <= i < |log| && log[i] == Free(d);
    FreedUnheld(log, i, d, h);
    HeldAtFree(log, i, d, h);
    HeldStill(log, i + 1, d, h);
  }

  lemma HeldAtFree<D>(log: seq<Event<D>>, i: nat, d: D, h: Hold)
    requires i < |log| && log[i] == Free(d)
    ensures Held(log[..i + 1], d, h) == Held(log[..i], d, h)
  {
    assert log[..i + 1] == log[..i] + [log[i]];
    HeldAppend(log[..i], log[i], d, h);
  }

  /** Nobody holds a device the history does not mention. */
  lemma {:induction false} Unmentioned<D>(log: seq<Event<D>>, d: D, h: Hold)
    requires forall e :: e in log ==> e.dev != d
    ensures Held(log, d, h) == 0 && !Freed(log, d)
  {
    if log != [] {
      Unmentioned(log[..|log| - 1], d, h);
    }
  }

  /** The count kept for d is right: the sum of its holds while it lives, with
      the registry's hold on it exactly while it is listed. */
  ghost predicate Balanced<D>(log: seq<Event<D>>, d: D, ref: int, listed: bool) {
    && (!Freed(log, d) ==> ref == Total(log, d) > 0)
    && Held(log, d, Listed) == (if listed then 1 else 0)
    && Held(log, d, Creator) <= 1
  }

  lemma ListedLive<D>(log: seq<Event<D>>, d: D, ref: int)
    requires Orderly(log) && Balanced(log, d, ref, true)
    ensures !Freed(log, d)
  {
    if Freed(log, d) {
      FreedForGood(log, d, Listed);
    }
  }

  /** Dropping a hold lowers the count by one and frees at zero only. */
  lemma DropKeeps<D>(log: seq<Event<D>>, d: D, h: Hold, ref: int, listed: bool)
    requires Orderly(log) && Balanced(log, d, ref, listed) && !Freed(log, d) && Held(log, d, h) > 0
    ensures var w := Dropped(log, d, h);
      && Orderly(w) && Balanced(w, d, ref - 1, listed && h != Listed) && (Freed(w, d) <==> ref == 1)
  {
    HeldWhole(log, d);
    DropEffect(log, d, h, d);
    if ref == 1 {
      FreeOrderly(log, d, h);
      FreeEffect(log + [Drop(d, h)], d, d);
      assert log + [Drop(d, h), Free(d)] == log + [Drop(d, h)] + [Free(d)];
    } else {
      DropOrderly(log, d, h);
    }
  }

  lemma DropOthers<D>(log: seq<Event<D>>, d: D, h: Hold, x: D, ref: int, listed: bool)
    requires x != d && Balanced(log, x, ref, listed)
    ensures Balanced(Dropped(log, d, h), x, ref, listed)
    ensures Freed(Dropped(log, d, h), x) <==> Freed(log, x)
  {
    DropEffect(log, d, h, x);
    FreeEffect(log + [Drop(d, h)], d, x);
    assert log + [Drop(d, h), Free(d)] == log + [Drop(d, h)] + [Free(d)];
  }

  /** Taking a hold raises the count by one. */
  lemma TakeKeeps<D>(log: seq<Event<D>>, d: D, h: Hold, ref: int, listed: bool)
    requires Orderly(log) && Balanced(log, d, ref, listed) && !Freed(log, d)
    requires (h == Listed ==> !listed) && h != Creator
    ensures var w := Taken(log, d, h);
      && Orderly(w) && Balanced(w, d, ref + 1, listed || h == Listed) && !Freed(w, d) && Held(w, d, h) > 0
  {
    HeldWhole(log, d);
    TakeOrderly(log, d, h);
    TakeEffect(log, d, h, d);
    HeldAppend(log, Take(d, h), d, h);
  }

  lemma TakeOthers<D>(log: seq<Event<D>>, d: D, h: Hold, x: D, ref: int, listed: bool)
    requires x != d && Balanced(log, x, ref, listed)
    ensures Balanced(Taken(log, d, h), x, ref, listed)
    ensures Freed(Taken(log, d, h), x) <==> Freed(log, x)
  {
    TakeEffect(log, d, h, x);
  }

  /** The first hold on a device is its creator's. */
  lemma FirstHold<D>(log: seq<Event<D>>, d: D)
    requires Orderly(log) && forall e :: e in log ==> e.dev != d
    ensures var w := Taken(log, d, Creator); Orderly(w) && Balanced(w, d, 1, false) && !Freed(w, d)
  {
    Unmentioned(log, d, Creator);
    Unmentioned(log, d, Listed);
    Unmentioned(log, d, Got);
    TakeOrderly(log, d, Creator);
    TakeEffect(log, d, Creator, d);
  }
}
