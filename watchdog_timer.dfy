/** The supervisor: a list of registered monitor entry points, one restart
    thread per entry once started, and a running flag. Threads are modelled
    by their bookkeeping: each started thread gets an id (its position in
    `started`) and a count of how often it has called its target. Sleeps are
    no-ops, and the unused `_lock` is left out. */
module WatchdogTimer {

  /** A registered monitor: its name and its entry point, named by an id. */
  datatype Entry = Entry(name: string, target: nat)

  /** How one call of a target ended. */
  datatype Outcome = Returned | Raised

  /** The position of the last entry called `name`, or -1 when there is none. */
  function LastIndexOfName(entries: seq<Entry>, name: string): (i: int)
    ensures -1 <= i < |entries|
    ensures i == -1 <==> forall j :: 0 <= j < |entries| ==> entries[j].name != name
    ensures i >= 0 ==> entries[i].name == name
    ensures forall j :: i < j < |entries| ==> entries[j].name != name
    decreases |entries|
  {
    if entries == [] then -1
    else if entries[|entries| - 1].name == name then |entries| - 1
    else LastIndexOfName(entries[..|entries| - 1], name)
  }

  /** Appending an entry makes it the last of its name and leaves every other
      name's last entry where it was. */
  lemma LastIndexOfNameSnoc(entries: seq<Entry>, e: Entry)
    ensures forall n :: (LastIndexOfName(entries + [e], n) ==
                         if n == e.name then |entries| else LastIndexOfName(entries, n))
  {
    assert (entries + [e])[..|entries|] == entries;
  }

  /** `threads` after starting one thread per entry of `ms`, numbered from
      `base` on, over the map `t0`: each name of `ms` goes to the thread of its
      last entry, every other name keeps its thread. */
  ghost predicate ThreadsAfter(threads: map<string, nat>, t0: map<string, nat>, base: nat, ms: seq<Entry>) {
    && (forall n :: n in threads <==> n in t0 || LastIndexOfName(ms, n) >= 0)
    && (forall n :: n in threads ==>
          threads[n] == if LastIndexOfName(ms, n) >= 0 then base + LastIndexOfName(ms, n) else t0[n])
  }

  /** The thread map after starting one thread per entry of `ms`, in order and
      numbered from `base` on, over the map `t0`. */
  function StartedThreads(t0: map<string, nat>, base: nat, ms: seq<Entry>): map<string, nat>
    decreases |ms|
  {
    if ms == [] then t0
    else StartedThreads(t0, base, ms[..|ms| - 1])[ms[|ms| - 1].name := base + |ms| - 1]
  }

  /** Each name of `ms` ends up with the thread of its last entry and every
      other name keeps its thread. */
  lemma {:induction false} StartedThreadsLast(t0: map<string, nat>, base: nat, ms: seq<Entry>)
    ensures ThreadsAfter(StartedThreads(t0, base, ms), t0, base, ms)
    decreases |ms|
  {
    if ms != [] {
      var front, e := ms[..|ms| - 1], ms[|ms| - 1];
      assert ms == front + [e];
      StartedThreadsLast(t0, base, front);
      LastIndexOfNameSnoc(front, e);
    }
  }

  /** The call counts of `n` threads that have not run yet. */
  function ZeroCounts(n: nat): seq<nat> {
    seq(n, _ => 0)
  }

  /** The bookkeeping after starting the threads of the first `i` entries of
      `ms`, from `started0`, `invocations0` and `threads0`. */
  predicate StartedUpTo(started: seq<Entry>, invocations: seq<nat>, threads: map<string, nat>,
                        started0: seq<Entry>, invocations0: seq<nat>, threads0: map<string, nat>,
                        ms: seq<Entry>, i: nat)
  {
    && i <= |ms|
    && started == started0 + ms[..i]
    && invocations == invocations0 + ZeroCounts(i)
    && threads == StartedThreads(threads0, |started0|, ms[..i])
  }

  /** Starting the thread of entry `i` moves the bookkeeping on by one entry. */
  lemma StartedUpToNext(started: seq<Entry>, invocations: seq<nat>, threads: map<string, nat>,
                        started0: seq<Entry>, invocations0: seq<nat>, threads0: map<string, nat>,
                        ms: seq<Entry>, i: nat)
    requires i < |ms|
    requires StartedUpTo(started, invocations, threads, started0, invocations0, threads0, ms, i)
    ensures StartedUpTo(started + [ms[i]], invocations + [0], threads[ms[i].name := |started|],
                        started0, invocations0, threads0, ms, i + 1)
  {
    assert ms[..i + 1] == ms[..i] + [ms[i]];
    assert ms[..i + 1][..i] == ms[..i];
    assert ZeroCounts(i + 1) == ZeroCounts(i) + [0];
  }

  class Watchdog {
    var monitors: seq<Entry>
    /** name -> id of the thread last started under that name */
    var threads: map<string, nat>
    /** every thread started so far, by id */
    var started: seq<Entry>
    /** how many times each thread has called its target, by id */
    var invocations: seq<nat>
    var running: bool

    /** Every recorded thread exists and runs the entry of its name. */
    predicate Valid()
      reads this
    {
      && |invocations| == |started|
      && forall n :: n in threads ==> threads[n] < |started| && started[threads[n]].name == n
    }

    constructor ()
      ensures Valid()
      ensures monitors == [] && threads == map[] && started == [] && invocations == [] && !running
    {
      monitors := [];
      threads := map[];
      started := [];
      invocations := [];
      running := false;
    }

    /** `register`: appends, with no check that the name is new. */
    method Register(name: string, target: nat)
      requires Valid()
      modifies this
      ensures Valid()
      ensures monitors == old(monitors) + [Entry(name, target)]
      ensures threads == old(threads) && started == old(started)
      ensures invocations == old(invocations) && running == old(running)
    {
      monitors := monitors + [Entry(name, target)];
    }

    /** `_start_thread`: a new thread, recorded under its name, replacing any
        earlier thread of that name in `threads`. */
    method StartThread(name: string, target: nat)
      requires Valid()
      modifies this
      ensures Valid()
      ensures started == old(started) + [Entry(name, target)]
      ensures invocations == old(invocations) + [0]
      ensures threads == old(threads)[name := |old(started)|]
      ensures monitors == old(monitors) && running == old(running)
    {
      threads := threads[name := |started|];
      started := started + [Entry(name, target)];
      invocations := invocations + [0];
    }

    /** `start`: sets the flag and starts one thread per registered entry, in
        registration order; by `StartedThreadsLast`, each name ends up mapped
        to the thread of its last entry. */
    method Start()
      requires Valid()
      modifies this
      ensures Valid()
      ensures running
      ensures started == old(started) + monitors
      ensures invocations == old(invocations) + ZeroCounts(|monitors|)
      ensures threads == StartedThreads(old(threads), |old(started)|, monitors)
      ensures monitors == old(monitors)
    {
      running := true;
      var i := 0;
      while i < |monitors|
        invariant Valid() && running && monitors == old(monitors)
        invariant StartedUpTo(started, invocations, threads, old(started), old(invocations), old(threads), monitors, i)
      {
        var e := monitors[i];
        StartedUpToNext(started, invocations, threads, old(started), old(invocations), old(threads), monitors, i);
        StartThread(e.name, e.target);
        i := i + 1;
      }
      assert monitors[..i] == monitors;
    }

    /** `_monitor_wrapper` for thread `t`: while the flag is set it calls the
        target again, whether the previous call returned or raised. `outcomes`
        are the calls it makes before the flag is next looked at from outside;
        the flag is not changed by the wrapper itself. */
    method MonitorWrapper(t: nat, outcomes: seq<Outcome>)
      requires Valid() && t < |started|
      modifies this
      ensures Valid()
      ensures invocations == old(invocations)[t := old(invocations)[t] + if running then |outcomes| else 0]
      ensures monitors == old(monitors) && threads == old(threads)
      ensures started == old(started) && running == old(running)
    {
      var i := 0;
      while running && i < |outcomes|
        invariant 0 <= i <= |outcomes|
        invariant Valid() && |invocations| == |old(invocations)|
        invariant invocations == old(invocations)[t := old(invocations)[t] + i]
        invariant monitors == old(monitors) && threads == old(threads)
        invariant started == old(started) && running == old(running)
        invariant !running ==> i == 0
      {
        // the target runs; a return and a raise both lead to the next round
        invocations := invocations[t := invocations[t] + 1];
        i := i + 1;
      }
    }

    /** `stop`: only clears the flag; threads are neither stopped nor forgotten. */
    method Stop()
      requires Valid()
      modifies this
      ensures Valid()
      ensures !running
      ensures monitors == old(monitors) && threads == old(threads)
      ensures started == old(started) && invocations == old(invocations)
    {
      running := false;
    }
  }
}
