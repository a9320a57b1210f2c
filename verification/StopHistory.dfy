/** What a `daemon stop` reports, told by the events of the run alone: the states and flags
    of the protocol say exactly which events happened. */
module StopHistory {
  import opened Prelude
  import opened StopProtocol

  // ---- Stops ----

  /** Stop q's state is what its own events made it. */
  ghost predicate StopRecorded(s: State, run: seq<Event>, q: Id) {
    if q !in s.stoppers then
      OpenError(q) !in run && Timeout(q) !in run && Killed(q) !in run
    else
      var st := s.stoppers[q];
      && Connect(q, st.target) in run
      && (st.GaveUp? <==> Timeout(q) in run || Killed(q) in run)
      && match st
         case Connected(_) => OpenError(q) !in run
         case WaitLife(_) => OpenError(q) !in run
         case LifeProbe(_) => OpenError(q) !in run
         case WaitExit(_, lifeSeen) => OpenError(q) in run <==> !lifeSeen
         case ExitProbe(_, lifeSeen) => OpenError(q) in run <==> !lifeSeen
         case Stopped(_, lifeSeen, exitSeen) => OpenError(q) in run <==> !(lifeSeen && exitSeen)
         case GaveUp(_) => true
  }

  lemma OthersKeepRecord(s: State, run: seq<Event>, e: Event, q: Id)
    requires StopRecorded(s, run, q) && Enabled(s, e) && Actor(e) != ByStopper(q)
    ensures StopRecorded(Apply(s, e), run + [e], q)
  {
    OthersAddNoStopper(s, e, q);
    if q in Apply(s, e).stoppers {
      OthersLeaveStopper(s, e, q);
    }
    hide Apply;
    hide Enabled;
  }

  lemma OthersAddNoStopper(s: State, e: Event, q: Id)
    requires Enabled(s, e) && Actor(e) != ByStopper(q)
    ensures q in Apply(s, e).stoppers <==> q in s.stoppers
  {
    if Actor(e).ByStopper? {
      StopAddsItself(s, e);
    } else {
      DaemonLeavesStoppers(s, e);
    }
    hide Apply;
    hide Enabled;
  }

  lemma StopAddsItself(s: State, e: Event)
    requires Enabled(s, e) && Actor(e).ByStopper?
    ensures Apply(s, e).stoppers.Keys == s.stoppers.Keys + {e.q}
  {
  }

  lemma OwnKeepsRecord(s: State, run: seq<Event>, e: Event, q: Id)
    requires StopRecorded(s, run, q) && Enabled(s, e) && Actor(e) == ByStopper(q)
    ensures StopRecorded(Apply(s, e), run + [e], q)
  {
    OwnRecord(s, run, run + [e], e, q);
    hide Apply;
    hide Enabled;
  }

  lemma OwnRecord(s: State, run: seq<Event>, longer: seq<Event>, e: Event, q: Id)
    requires StopRecorded(s, run, q) && Enabled(s, e) && Actor(e) == ByStopper(q)
    requires forall x :: x in longer <==> x in run || x == e
    ensures StopRecorded(Apply(s, e), longer, q)
  {
  }

  lemma {:induction false} StopsAreRecorded(run: seq<Event>, q: Id)
    requires After(run).Some?
    ensures StopRecorded(After(run).value, run, q)
    decreases |run|
  {
    hide Apply;
    hide Enabled;
    if run != [] {
      var n := |run| - 1;
      StopsAreRecorded(run[..n], q);
      hide StopRecorded;
      assert run == run[..n] + [run[n]];
      if Actor(run[n]) == ByStopper(q) {
        OwnKeepsRecord(After(run[..n]).value, run[..n], run[n], q);
      } else {
        OthersKeepRecord(After(run[..n]).value, run[..n], run[n], q);
      }
    }
  }

  // ---- Daemons ----

  /** Daemon p's phase and what its `hold_until_exit` returned are what its events made
      them. */
  ghost predicate DaemonRecorded(s: State, run: seq<Event>, p: Id) {
    && (p in s.daemons <==> Start(p) in run)
    && (p !in s.daemons ==>
          && HoldTaken(p) !in run && Exit(p) !in run && RunReturns(p) !in run
          && GiveUp(p) !in run && Bind(p) !in run)
    && (p in s.daemons ==>
          var d := s.daemons[p];
          && (d.holdsExit <==> HoldTaken(p) in run)
          && (d.phase == Exited <==> Exit(p) in run)
          && (d.phase == Returned ==> RunReturns(p) in run || GiveUp(p) in run)
          && (RunReturns(p) in run || GiveUp(p) in run ==> d.phase == Returned || d.phase == Exited)
          && (d.phase == Fresh ==> HoldTaken(p) !in run)
          && (d.phase == Serving ==> Bind(p) in run)
          && (Bind(p) in run ==> GiveUp(p) !in run && d.phase != Fresh && d.phase != Prepared))
  }

  lemma OthersKeepDaemonRecord(s: State, run: seq<Event>, e: Event, p: Id)
    requires DaemonRecorded(s, run, p) && Enabled(s, e) && Actor(e) != ByDaemon(p)
    ensures DaemonRecorded(Apply(s, e), run + [e], p)
  {
    OthersLeaveDaemon(s, e, p);
    hide Apply;
    hide Enabled;
  }

  lemma OthersLeaveDaemon(s: State, e: Event, p: Id)
    requires Enabled(s, e) && Actor(e) != ByDaemon(p)
    ensures p in Apply(s, e).daemons <==> p in s.daemons
    ensures p in s.daemons ==> Apply(s, e).daemons[p] == s.daemons[p]
  {
    if Actor(e).ByDaemon? {
      DaemonsChangeThemselves(s, e);
    } else {
      OthersLeaveDaemons(s, e);
    }
    hide Apply;
    hide Enabled;
  }

  lemma DaemonsChangeThemselves(s: State, e: Event)
    requires Enabled(s, e) && Actor(e).ByDaemon?
    ensures Actor(e).p in Apply(s, e).daemons
    ensures Apply(s, e).daemons == s.daemons[Actor(e).p := Apply(s, e).daemons[Actor(e).p]]
  {
  }

  /** The phase a daemon's own step leads to, and what it keeps of the exit lock. */
  ghost predicate DaemonStep(s: State, d: Daemon, e: Event, p: Id)
    requires p in s.daemons <==> !e.Start?
  {
    match e
    case Start(_) => d == Daemon(Fresh, false)
    case HoldTaken(_) => d == Daemon(Prepared, true) && s.daemons[p].phase == Fresh
    case HoldRefused(_) => d == Daemon(Prepared, false) && s.daemons[p].phase == Fresh
    case TakeLife(_) => d == Daemon(Locked, s.daemons[p].holdsExit) && s.daemons[p].phase == Prepared
    case GiveUp(_) => d == Daemon(Returned, s.daemons[p].holdsExit) && s.daemons[p].phase == Prepared
    case Bind(_) => d == Daemon(Serving, s.daemons[p].holdsExit) && s.daemons[p].phase == Locked
    case RunReturns(_) =>
      && d == Daemon(Returned, s.daemons[p].holdsExit)
      && (s.daemons[p].phase == Locked || s.daemons[p].phase == Serving)
    case Exit(_) => d == Daemon(Exited, s.daemons[p].holdsExit) && s.daemons[p].phase != Exited
    case _ => true
  }

  lemma OwnDaemonStep(s: State, e: Event, p: Id)
    requires Enabled(s, e) && Actor(e) == ByDaemon(p)
    ensures p in Apply(s, e).daemons && (p in s.daemons <==> !e.Start?)
    ensures DaemonStep(s, Apply(s, e).daemons[p], e, p)
  {
  }

  lemma OwnDaemonRecord(s: State, run: seq<Event>, e: Event, p: Id)
    requires DaemonRecorded(s, run, p) && Enabled(s, e) && Actor(e) == ByDaemon(p)
    ensures DaemonRecorded(Apply(s, e), run + [e], p)
  {
    OwnDaemonStep(s, e, p);
    hide Apply;
    hide Enabled;
    RecordOfStep(s, Apply(s, e), run, run + [e], e, p);
  }

  lemma RecordOfStep(s: State, t: State, run: seq<Event>, longer: seq<Event>, e: Event, p: Id)
    requires DaemonRecorded(s, run, p) && Actor(e) == ByDaemon(p)
    requires forall x :: x in longer <==> x in run || x == e
    requires p in t.daemons && (p in s.daemons <==> !e.Start?) && DaemonStep(s, t.daemons[p], e, p)
    ensures DaemonRecorded(t, longer, p)
  {
  }

  lemma DaemonKeepsRecord(s: State, run: seq<Event>, e: Event, p: Id)
    requires DaemonRecorded(s, run, p) && Enabled(s, e)
    ensures DaemonRecorded(Apply(s, e), run + [e], p)
  {
    hide *;
    if Actor(e) == ByDaemon(p) {
      OwnDaemonRecord(s, run, e, p);
    } else {
      OthersKeepDaemonRecord(s, run, e, p);
    }
  }

  lemma {:induction false} DaemonsAreRecorded(run: seq<Event>, p: Id)
    requires After(run).Some?
    ensures DaemonRecorded(After(run).value, run, p)
    decreases |run|
  {
    hide Apply;
    hide Enabled;
    if run != [] {
      var n := |run| - 1;
      DaemonsAreRecorded(run[..n], p);
      hide DaemonRecorded;
      assert run == run[..n] + [run[n]];
      DaemonKeepsRecord(After(run[..n]).value, run[..n], run[n], p);
    }
  }

  // ---- Lock files ----

  predicate MakesLifeFile(e: Event) {
    e.TakeLife? || e.GiveUp? || e.Claim?
  }

  predicate MakesExitFile(e: Event) {
    e.HoldTaken? || e.HoldRefused?
  }

  lemma FilesStep(s: State, e: Event)
    requires Enabled(s, e)
    ensures Apply(s, e).lifeFile <==> s.lifeFile || MakesLifeFile(e)
    ensures Apply(s, e).exitFile <==> s.exitFile || MakesExitFile(e)
  {
  }

  /** A lock file exists exactly when some process has tried to take its lock, other than by
      a stop's probe. */
  lemma {:induction false} FilesAreRecorded(run: seq<Event>)
    requires After(run).Some?
    ensures After(run).value.lifeFile <==> exists e :: e in run && MakesLifeFile(e)
    ensures After(run).value.exitFile <==> exists e :: e in run && MakesExitFile(e)
    decreases |run|
  {
    hide Apply;
    hide Enabled;
    hide MakesLifeFile;
    hide MakesExitFile;
    if run != [] {
      var n := |run| - 1;
      var earlier, e := run[..n], run[n];
      FilesAreRecorded(earlier);
      FilesStep(After(earlier).value, e);
      assert forall x :: x in run <==> x in earlier || x == e by {
        assert run == earlier + [e];
      }
    }
  }

  // ---- What a report means ----

  /** A stop that reported success never timed out; if none of its opens failed on an
      existing lock file, its target's `run` returned or its process exited, and if the
      target's `hold_until_exit` had returned true, its process has exited. */
  lemma ReportIsTrue(run: seq<Event>, q: Id)
    requires After(run).Some? && q in After(run).value.stoppers && After(run).value.stoppers[q].Stopped?
    ensures var p := After(run).value.stoppers[q].target;
            && Connect(q, p) in run && Timeout(q) !in run && Killed(q) !in run
            && (OpenError(q) !in run ==>
                  && (RunReturns(p) in run || Exit(p) in run)
                  && (HoldTaken(p) in run ==> Exit(p) in run))
  {
    hide Apply;
    hide Enabled;
    var s := After(run).value;
    var p := s.stoppers[q].target;
    StopsAreRecorded(run, q);
    StopMeansExited(run, q);
    DaemonsAreRecorded(run, p);
    TargetWasServing(run, q);
  }

  lemma ConnectedWasBound(s: State, run: seq<Event>, e: Event, q: Id)
    requires Enabled(s, e) && e.Connect? && DaemonRecorded(s, run, e.p)
    ensures Bind(e.p) in run
  {
  }

  /** A stop's target had begun to listen. */
  lemma {:induction false} TargetWasServing(run: seq<Event>, q: Id)
    requires After(run).Some? && q in After(run).value.stoppers
    ensures Bind(After(run).value.stoppers[q].target) in run
    decreases |run|
  {
    var n := |run| - 1;
    var s, e := After(run[..n]).value, run[n];
    assert run == run[..n] + [e];
    if Actor(e) != ByStopper(q) {
      OthersLeaveStopper(s, e, q);
      TargetWasServing(run[..n], q);
    } else if e.Connect? {
      DaemonsAreRecorded(run[..n], e.p);
      ConnectedWasBound(s, run[..n], e, q);
    } else {
      TargetWasServing(run[..n], q);
      TargetStays(s, e);
    }
  }

  lemma TargetStays(s: State, e: Event)
    requires Enabled(s, e) && Actor(e).ByStopper? && !e.Connect?
    ensures e.q in s.stoppers && e.q in Apply(s, e).stoppers
    ensures Apply(s, e).stoppers[e.q].target == s.stoppers[e.q].target
  {
  }

  /** A wait that ended without seeing its lock free met an open that failed. */
  lemma UnseenMeansOpenError(run: seq<Event>, q: Id)
    requires After(run).Some? && q in After(run).value.stoppers && After(run).value.stoppers[q].Stopped?
    ensures var st := After(run).value.stoppers[q]; st.lifeSeen && st.exitSeen <==> OpenError(q) !in run
  {
    hide After;
    StopsAreRecorded(run, q);
  }

  // ---- What can always happen ----

  /** A stop that has not ended can go on or give up, whatever the others do. */
  lemma StopNeverStuck(s: State, q: Id)
    requires q in s.stoppers
    ensures match s.stoppers[q]
            case Connected(_) => Enabled(s, Closed(q))
            case WaitLife(_) => Enabled(s, Timeout(q)) && Enabled(s, OpenError(q))
            case LifeProbe(_) => Enabled(s, LifeFree(q))
            case WaitExit(_, _) => Enabled(s, Timeout(q)) && Enabled(s, OpenError(q))
            case ExitProbe(_, _) => Enabled(s, ExitFree(q))
            case _ => true
    ensures !s.stoppers[q].Stopped? ==> Enabled(s, Killed(q))
  {
  }

  /** A daemon that has not exited can exit, and stop waiting or return where it may. */
  lemma DaemonNeverStuck(s: State, p: Id)
    ensures p !in s.daemons ==> Enabled(s, Start(p))
    ensures p in s.daemons && s.daemons[p].phase != Exited ==> Enabled(s, Exit(p))
    ensures InPhase(s, p, Prepared) ==> Enabled(s, GiveUp(p))
    ensures InPhase(s, p, Locked) || InPhase(s, p, Serving) ==> Enabled(s, RunReturns(p))
  {
  }

  /** `try_claim` and a daemon's own lock attempt succeed exactly when no process has the
      lifetime lock. */
  lemma ClaimMeans(run: seq<Event>, c: Id, p: Id)
    requires After(run).Some? && c !in After(run).value.claimers && InPhase(After(run).value, p, Prepared)
    ensures var s := After(run).value;
            && (Enabled(s, Claim(c)) <==> forall h :: !HoldsLife(s, h))
            && (Enabled(s, TakeLife(p)) <==> forall h :: !HoldsLife(s, h))
  {
    hide HoldsLife;
    ReachableInv(run);
    var s := After(run).value;
    if s.life.Some? {
      assert HoldsLife(s, s.life.value);
    }
  }
}
