/** The history of power transitions: each device's suspend and resume
    callbacks, and the marking and polling that lead up to a suspend. */
module PmHistory {

  datatype PmEvent<D> =
    | Marked(dev: D)     // the suspend bit was set
    | SawIdle(dev: D)    // busy was read as zero
    | Suspended(dev: D)  // the suspend callback ran
    | Resumed(dev: D)    // the resume callback ran

  /** Suspend callbacks minus resume callbacks of d. */
  ghost function Balance<D>(log: seq<PmEvent<D>>, d: D): int {
    if log == [] then 0
    else Balance(log[..|log| - 1], d) + PmWeight(log[|log| - 1], d)
  }

  ghost function PmWeight<D>(e: PmEvent<D>, d: D): int {
    if e == Suspended(d) then 1 else if e == Resumed(d) then -1 else 0
  }

  /** Event i comes at the right time: a suspend callback follows, with nothing
      between, an idle reading taken after the mark, and finds the device
      running; a resume callback finds it suspended. */
  ghost predicate SoundAt<D>(log: seq<PmEvent<D>>, i: nat)
    requires i < |log|
  {
    var past, e := log[..i], log[i];
    && (e.Suspended? ==> i >= 2 && log[i - 1] == SawIdle(e.dev) && log[i - 2] == Marked(e.dev)
                         && Balance(past, e.dev) == 0)
    && (e.Resumed? ==> Balance(past, e.dev) == 1)
  }

  ghost predicate Sound<D>(log: seq<PmEvent<D>>) {
    forall i :: 0 <= i < |log| ==> SoundAt(log, i)
  }

  lemma BalanceAppend<D>(log: seq<PmEvent<D>>, e: PmEvent<D>, d: D)
    ensures Balance(log + [e], d) == Balance(log, d) + PmWeight(e, d)
  {
    assert (log + [e])[..|log|] == log;
  }

  lemma ExtendSound<D>(log: seq<PmEvent<D>>, e: PmEvent<D>)
    requires Sound(log)
    requires e.Suspended? ==> |log| >= 2 && log[|log| - 1] == SawIdle(e.dev)
                              && log[|log| - 2] == Marked(e.dev) && Balance(log, e.dev) == 0
    requires e.Resumed? ==> Balance(log, e.dev) == 1
    ensures Sound(log + [e])
  {
    var w := log + [e];
    forall i | 0 <= i < |w|
      ensures SoundAt(w, i)
    {
      if i < |log| {
        assert SoundAt(log, i);
        assert w[..i] == log[..i];
      } else {
        assert w[..i] == log;
      }
    }
  }

  /** In a sound history every device is, at every moment, either running or
      suspended once. */
  lemma {:induction false} BalanceIsBit<D>(log: seq<PmEvent<D>>, k: nat, d: D)
    requires Sound(log) && k <= |log|
    ensures Balance(log[..k], d) == 0 || Balance(log[..k], d) == 1
  {
    if k > 0 {
      var past, e := log[..k - 1], log[k - 1];
      BalanceIsBit(log, k - 1, d);
      assert SoundAt(log, k - 1);
      assert log[..k] == past + [e];
      BalanceAppend(past, e, d);
    }
  }

  /** Callbacks alternate: between two suspend callbacks of a device there is a
      resume callback of it. */
  lemma {:induction false} CallbacksAlternate<D>(log: seq<PmEvent<D>>, i: nat, j: nat, d: D)
    requires Sound(log) && i < j < |log| && log[i] == log[j] == Suspended(d)
    ensures exists k :: i < k < j && log[k] == Resumed(d)
  {
    if forall k :: i < k < j ==> log[k] != Resumed(d) {
      BalanceGrows(log, i, j, d);
      assert SoundAt(log, j);
      BalanceIsBit(log, i, d);
    }
  }

  lemma {:induction false} BalanceGrows<D>(log: seq<PmEvent<D>>, i: nat, j: nat, d: D)
    requires i < j <= |log| && log[i] == Suspended(d)
    requires forall k :: i < k < j ==> log[k] != Resumed(d)
    ensures Balance(log[..j], d) >= Balance(log[..i], d) + 1
    decreases j
  {
    assert log[..j] == log[..j - 1] + [log[j - 1]];
    BalanceAppend(log[..j - 1], log[j - 1], d);
    if j - 1 > i {
      BalanceGrows(log, i, j - 1, d);
    }
  }

  lemma {:induction false} Untouched<D>(log: seq<PmEvent<D>>, d: D)
    requires forall e :: e in log ==> e.dev != d
    ensures Balance(log, d) == 0
  {
    if log != [] {
      Untouched(log[..|log| - 1], d);
    }
  }

  /** One device suspended: marked, seen idle, called back. */
  ghost function Sleep<D>(d: D): seq<PmEvent<D>> {
    [Marked(d), SawIdle(d), Suspended(d)]
  }

  ghost function Sleeps<D>(ds: seq<D>): seq<PmEvent<D>> {
    if ds == [] then [] else Sleeps(ds[..|ds| - 1]) + Sleep(ds[|ds| - 1])
  }

  ghost function Wakes<D>(ds: seq<D>): seq<PmEvent<D>> {
    if ds == [] then [] else Wakes(ds[..|ds| - 1]) + [Resumed(ds[|ds| - 1])]
  }

  /** The elements of s that are in the set, in order. */
  ghost function Only<D>(s: seq<D>, keep: set<D>): seq<D> {
    if s == [] then []
    else Only(s[..|s| - 1], keep) + (if s[|s| - 1] in keep then [s[|s| - 1]] else [])
  }

  lemma SleepSound<D>(log: seq<PmEvent<D>>, d: D)
    requires Sound(log) && Balance(log, d) == 0
    ensures Sound(log + Sleep(d))
  {
    var marked := log + [Marked(d)];
    var idle := marked + [SawIdle(d)];
    ExtendSound(log, Marked(d));
    ExtendSound(marked, SawIdle(d));
    BalanceAppend(log, Marked(d), d);
    BalanceAppend(marked, SawIdle(d), d);
    ExtendSound(idle, Suspended(d));
    assert log + Sleep(d) == idle + [Suspended(d)];
  }

  lemma SleepBalance<D>(log: seq<PmEvent<D>>, d: D, x: D)
    ensures Balance(log + Sleep(d), x) == Balance(log, x) + (if x == d then 1 else 0)
  {
    var marked := log + [Marked(d)];
    var idle := marked + [SawIdle(d)];
    BalanceAppend(log, Marked(d), x);
    BalanceAppend(marked, SawIdle(d), x);
    BalanceAppend(idle, Suspended(d), x);
    assert log + Sleep(d) == idle + [Suspended(d)];
  }

  lemma OnlyNext<D>(s: seq<D>, d: D, keep: set<D>)
    ensures Only(s + [d], keep) == if d in keep then Only(s, keep) + [d] else Only(s, keep)
  {
    assert (s + [d])[..|s|] == s;
  }

  lemma SleepsNext<D>(ds: seq<D>, d: D)
    ensures Sleeps(ds + [d]) == Sleeps(ds) + [Marked(d), SawIdle(d), Suspended(d)]
  {
    assert (ds + [d])[..|ds|] == ds;
  }

  lemma WakesNext<D>(ds: seq<D>, d: D)
    ensures Wakes(ds + [d]) == Wakes(ds) + [Resumed(d)]
  {
    assert (ds + [d])[..|ds|] == ds;
  }

  lemma {:induction false} OnlyMembers<D>(s: seq<D>, keep: set<D>)
    ensures forall d :: d in Only(s, keep) <==> d in s && d in keep
  {
    if s != [] {
      OnlyMembers(s[..|s| - 1], keep);
      assert s == s[..|s| - 1] + [s[|s| - 1]];
    }
  }
}
