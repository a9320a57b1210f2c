/** The lifetime lock, the exit lock and `daemon stop` as interleaved steps of daemons,
    claimers and stoppers: crates/common/src/lockfile.rs, crates/cli/src/daemon_cmd.rs.
    A `flock` belongs to one open file description and is held by at most one. The lock
    files are created and never removed or replaced. */
module StopProtocol {
  import opened Prelude

  type Id = nat

  /** A foreground daemon: before and after `hold_until_exit`, with the lifetime lock,
      listening on the socket, after `run` returned, gone. */
  datatype Phase = Fresh | Prepared | Locked | Serving | Returned | Exited

  /** `holdsExit` is what `hold_until_exit` returned. */
  datatype Daemon = Daemon(phase: Phase, holdsExit: bool)

  /** `daemon stop` of a target. A probe is a `try_lock` that succeeded and is not yet
      undone. `lifeSeen` and `exitSeen` say how each wait ended: with the lock taken or its
      file missing, and not with an open that failed although the file exists. */
  datatype Stopper =
    | Connected(target: Id)
    | WaitLife(target: Id)
    | LifeProbe(target: Id)
    | WaitExit(target: Id, lifeSeen: bool)
    | ExitProbe(target: Id, lifeSeen: bool)
    | Stopped(target: Id, lifeSeen: bool, exitSeen: bool)
    | GaveUp(target: Id)

  datatype Holder = ByDaemon(p: Id) | ByStopper(q: Id) | ByClaimer(c: Id)

  datatype State = State(
    daemons: map<Id, Daemon>,
    stoppers: map<Id, Stopper>,
    claimers: set<Id>,
    life: Option<Holder>,
    exit: Option<Holder>,
    lifeFile: bool,
    exitFile: bool)

  const INITIAL := State(map[], map[], {}, None, None, false, false)

  datatype Event =
    | Start(p: Id)
    | HoldTaken(p: Id)
    | HoldRefused(p: Id)
    | TakeLife(p: Id)
    | GiveUp(p: Id)
    | Bind(p: Id)
    | RunReturns(p: Id)
    | Exit(p: Id)
    | Claim(c: Id)
    | Unclaim(c: Id)
    | Connect(q: Id, p: Id)
    | Closed(q: Id)
    | ProbeLife(q: Id)
    | LifeFree(q: Id)
    | LifeMissing(q: Id)
    | ProbeExit(q: Id)
    | ExitFree(q: Id)
    | ExitMissing(q: Id)
    | OpenError(q: Id)
    | Timeout(q: Id)
    | Killed(q: Id)

  predicate InPhase(s: State, p: Id, phase: Phase) {
    p in s.daemons && s.daemons[p].phase == phase
  }

  predicate Enabled(s: State, e: Event) {
    match e
    case Start(p) => p !in s.daemons
    case HoldTaken(p) => InPhase(s, p, Fresh) && s.exit.None?
    case HoldRefused(p) => InPhase(s, p, Fresh) && s.exit.Some?
    case TakeLife(p) => InPhase(s, p, Prepared) && s.life.None?
    case GiveUp(p) => InPhase(s, p, Prepared)
    case Bind(p) => InPhase(s, p, Locked)
    case RunReturns(p) => InPhase(s, p, Locked) || InPhase(s, p, Serving)
    case Exit(p) => p in s.daemons && s.daemons[p].phase != Exited
    case Claim(c) => c !in s.claimers && s.life.None?
    case Unclaim(c) => c in s.claimers
    case Connect(q, p) => q !in s.stoppers && InPhase(s, p, Serving)
    case Closed(q) => q in s.stoppers && s.stoppers[q].Connected?
    case ProbeLife(q) => q in s.stoppers && s.stoppers[q].WaitLife? && s.lifeFile && s.life.None?
    case LifeFree(q) => q in s.stoppers && s.stoppers[q].LifeProbe?
    case LifeMissing(q) => q in s.stoppers && s.stoppers[q].WaitLife? && !s.lifeFile
    case ProbeExit(q) => q in s.stoppers && s.stoppers[q].WaitExit? && s.exitFile && s.exit.None?
    case ExitFree(q) => q in s.stoppers && s.stoppers[q].ExitProbe?
    case ExitMissing(q) => q in s.stoppers && s.stoppers[q].WaitExit? && !s.exitFile
    case OpenError(q) => q in s.stoppers && (s.stoppers[q].WaitLife? || s.stoppers[q].WaitExit?)
    case Timeout(q) => q in s.stoppers && (s.stoppers[q].WaitLife? || s.stoppers[q].WaitExit?)
    case Killed(q) => q in s.stoppers && !s.stoppers[q].Stopped?
  }

  function WithPhase(s: State, p: Id, phase: Phase): State
    requires p in s.daemons
  {
    s.(daemons := s.daemons[p := s.daemons[p].(phase := phase)])
  }

  function WithStopper(s: State, q: Id, st: Stopper): State {
    s.(stoppers := s.stoppers[q := st])
  }

  function Freed(lock: Option<Holder>, h: Holder): Option<Holder> {
    if lock == Some(h) then None else lock
  }

  function Apply(s: State, e: Event): State
    requires Enabled(s, e)
  {
    match e
    case Start(p) => s.(daemons := s.daemons[p := Daemon(Fresh, false)])
    case HoldTaken(p) =>
      s.(daemons := s.daemons[p := Daemon(Prepared, true)], exit := Some(ByDaemon(p)), exitFile := true)
    case HoldRefused(p) => s.(daemons := s.daemons[p := Daemon(Prepared, false)], exitFile := true)
    case TakeLife(p) => WithPhase(s, p, Locked).(life := Some(ByDaemon(p)), lifeFile := true)
    case GiveUp(p) => WithPhase(s, p, Returned).(lifeFile := true)
    case Bind(p) => WithPhase(s, p, Serving)
    case RunReturns(p) => WithPhase(s, p, Returned).(life := None)
    case Exit(p) =>
      WithPhase(s, p, Exited).(life := Freed(s.life, ByDaemon(p)), exit := Freed(s.exit, ByDaemon(p)))
    case Claim(c) => s.(claimers := s.claimers + {c}, life := Some(ByClaimer(c)), lifeFile := true)
    case Unclaim(c) => s.(claimers := s.claimers - {c}, life := None)
    case Connect(q, p) => WithStopper(s, q, Connected(p))
    case Closed(q) => WithStopper(s, q, WaitLife(s.stoppers[q].target))
    case ProbeLife(q) => WithStopper(s, q, LifeProbe(s.stoppers[q].target)).(life := Some(ByStopper(q)))
    case LifeFree(q) => WithStopper(s, q, WaitExit(s.stoppers[q].target, true)).(life := None)
    case LifeMissing(q) => WithStopper(s, q, WaitExit(s.stoppers[q].target, true))
    case ProbeExit(q) =>
      WithStopper(s, q, ExitProbe(s.stoppers[q].target, s.stoppers[q].lifeSeen)).(exit := Some(ByStopper(q)))
    case ExitFree(q) =>
      WithStopper(s, q, Stopped(s.stoppers[q].target, s.stoppers[q].lifeSeen, true)).(exit := None)
    case ExitMissing(q) => WithStopper(s, q, Stopped(s.stoppers[q].target, s.stoppers[q].lifeSeen, true))
    case OpenError(q) =>
      var st := s.stoppers[q];
      WithStopper(s, q, if st.WaitLife? then WaitExit(st.target, false) else Stopped(st.target, st.lifeSeen, false))
    case Timeout(q) => WithStopper(s, q, GaveUp(s.stoppers[q].target))
    case Killed(q) =>
      WithStopper(s, q, GaveUp(s.stoppers[q].target)).(
        life := Freed(s.life, ByStopper(q)), exit := Freed(s.exit, ByStopper(q)))
  }

  /** The state after a run, None if one of its events was not possible. */
  function After(run: seq<Event>): Option<State> {
    if run == [] then Some(INITIAL)
    else
      var n := |run| - 1;
      match After(run[..n])
      case Some(s) => if Enabled(s, run[n]) then Some(Apply(s, run[n])) else None
      case None => None
  }

  // ---- The invariant ----

  ghost predicate OwnsLife(s: State, p: Id) {
    InPhase(s, p, Locked) || InPhase(s, p, Serving)
  }

  ghost predicate OwnsExit(s: State, p: Id) {
    p in s.daemons && s.daemons[p].holdsExit && s.daemons[p].phase != Exited
  }

  /** Who believes to hold the lifetime lock. */
  ghost predicate HoldsLife(s: State, h: Holder) {
    match h
    case ByDaemon(p) => OwnsLife(s, p)
    case ByStopper(q) => q in s.stoppers && s.stoppers[q].LifeProbe?
    case ByClaimer(c) => c in s.claimers
  }

  /** Who believes to hold the exit lock. */
  ghost predicate HoldsExit(s: State, h: Holder) {
    match h
    case ByDaemon(p) => OwnsExit(s, p)
    case ByStopper(q) => q in s.stoppers && s.stoppers[q].ExitProbe?
    case ByClaimer(_) => false
  }

  /** Each lock's holder is exactly who believes to hold it, and held locks have files. */
  ghost predicate LifeAgrees(s: State) {
    (forall h :: s.life == Some(h) <==> HoldsLife(s, h)) && (s.life.Some? ==> s.lifeFile)
  }

  ghost predicate ExitAgrees(s: State) {
    (forall h :: s.exit == Some(h) <==> HoldsExit(s, h)) && (s.exit.Some? ==> s.exitFile)
  }

  ghost predicate DaemonsMakeSense(s: State) {
    && (forall p | p in s.daemons && s.daemons[p].phase == Fresh :: !s.daemons[p].holdsExit)
    && (forall p | p in s.daemons && s.daemons[p].holdsExit :: s.exitFile)
  }

  ghost predicate HasReturned(s: State, p: Id) {
    InPhase(s, p, Returned) || InPhase(s, p, Exited)
  }

  ghost predicate HasServed(s: State, p: Id) {
    InPhase(s, p, Serving) || HasReturned(s, p)
  }

  /** What a stopper may rely on about its target: a lifetime wait that saw the lock free
      means that `run` has returned, an exit wait that did means that a target with the
      exit lock has exited. */
  ghost predicate StopperKnows(s: State, st: Stopper) {
    && HasServed(s, st.target) && s.lifeFile
    && (st.LifeProbe? ==> HasReturned(s, st.target))
    && ((st.WaitExit? || st.ExitProbe? || st.Stopped?) && st.lifeSeen ==> HasReturned(s, st.target))
    && ((st.ExitProbe? || (st.Stopped? && st.exitSeen)) && s.daemons[st.target].holdsExit
        ==> s.daemons[st.target].phase == Exited)
  }

  ghost predicate Inv(s: State) {
    && LifeAgrees(s) && ExitAgrees(s) && DaemonsMakeSense(s)
    && forall q | q in s.stoppers :: StopperKnows(s, s.stoppers[q])
  }

  /** Who takes the step. */
  function Actor(e: Event): Holder {
    match e
    case Start(p) => ByDaemon(p)
    case HoldTaken(p) => ByDaemon(p)
    case HoldRefused(p) => ByDaemon(p)
    case TakeLife(p) => ByDaemon(p)
    case GiveUp(p) => ByDaemon(p)
    case Bind(p) => ByDaemon(p)
    case RunReturns(p) => ByDaemon(p)
    case Exit(p) => ByDaemon(p)
    case Claim(c) => ByClaimer(c)
    case Unclaim(c) => ByClaimer(c)
    case _ => ByStopper(e.q)
  }

  lemma DaemonLifeStep(s: State, e: Event, h: Holder)
    requires LifeAgrees(s) && Enabled(s, e) && Actor(e).ByDaemon?
    ensures Apply(s, e).life == Some(h) <==> HoldsLife(Apply(s, e), h)
  {
    assert s.life == Some(h) <==> HoldsLife(s, h);
    assert s.life == Some(Actor(e)) <==> HoldsLife(s, Actor(e));
  }

  lemma StopLifeStep(s: State, e: Event, h: Holder)
    requires LifeAgrees(s) && Enabled(s, e) && Actor(e).ByStopper?
    ensures Apply(s, e).life == Some(h) <==> HoldsLife(Apply(s, e), h)
  {
    assert s.life == Some(h) <==> HoldsLife(s, h);
    assert s.life == Some(Actor(e)) <==> HoldsLife(s, Actor(e));
  }

  lemma ClaimerLifeStep(s: State, e: Event, h: Holder)
    requires LifeAgrees(s) && Enabled(s, e) && Actor(e).ByClaimer?
    ensures Apply(s, e).life == Some(h) <==> HoldsLife(Apply(s, e), h)
  {
    assert s.life == Some(h) <==> HoldsLife(s, h);
    assert s.life == Some(Actor(e)) <==> HoldsLife(s, Actor(e));
  }

  lemma LifeStep(s: State, e: Event, h: Holder)
    requires LifeAgrees(s) && Enabled(s, e)
    ensures Apply(s, e).life == Some(h) <==> HoldsLife(Apply(s, e), h)
  {
    hide *;
    if Actor(e).ByDaemon? {
      DaemonLifeStep(s, e, h);
    } else if Actor(e).ByStopper? {
      StopLifeStep(s, e, h);
    } else {
      ClaimerLifeStep(s, e, h);
    }
  }

  lemma LifeHasFile(s: State, e: Event)
    requires (s.life.Some? ==> s.lifeFile) && Enabled(s, e)
    ensures Apply(s, e).life.Some? ==> Apply(s, e).lifeFile
  {
  }

  lemma ApplyKeepsLife(s: State, e: Event)
    requires LifeAgrees(s) && Enabled(s, e)
    ensures LifeAgrees(Apply(s, e))
  {
    hide Apply;
    hide Enabled;
    hide HoldsLife;
    hide DaemonsMakeSense;
    LifeHasFile(s, e);
    forall h ensures Apply(s, e).life == Some(h) <==> HoldsLife(Apply(s, e), h) {
      LifeStep(s, e, h);
    }
  }

  /** What a daemon's step does to the exit lock and to who owns it. */
  lemma DaemonExit(s: State, e: Event, p: Id)
    requires DaemonsMakeSense(s) && Enabled(s, e) && Actor(e).ByDaemon?
    ensures OwnsExit(Apply(s, e), p) <==> e == HoldTaken(p) || (OwnsExit(s, p) && e != Exit(p))
    ensures Apply(s, e).exit ==
            if e.HoldTaken? then Some(Actor(e)) else if e.Exit? then Freed(s.exit, Actor(e)) else s.exit
    ensures Apply(s, e).stoppers == s.stoppers
  {
  }

  lemma DaemonExitStep(s: State, e: Event, h: Holder)
    requires ExitAgrees(s) && DaemonsMakeSense(s) && Enabled(s, e) && Actor(e).ByDaemon?
    ensures Apply(s, e).exit == Some(h) <==> HoldsExit(Apply(s, e), h)
  {
    assert s.exit == Some(h) <==> HoldsExit(s, h);
    DaemonExit(s, e, if h.ByDaemon? then h.p else 0);
    hide Apply;
    hide OwnsExit;
    hide DaemonsMakeSense;
  }

  lemma StopExitStep(s: State, e: Event, h: Holder)
    requires ExitAgrees(s) && DaemonsMakeSense(s) && Enabled(s, e) && Actor(e).ByStopper?
    ensures Apply(s, e).exit == Some(h) <==> HoldsExit(Apply(s, e), h)
  {
    assert s.exit == Some(h) <==> HoldsExit(s, h);
    assert s.exit == Some(Actor(e)) <==> HoldsExit(s, Actor(e));
  }

  lemma ClaimerExitStep(s: State, e: Event, h: Holder)
    requires ExitAgrees(s) && DaemonsMakeSense(s) && Enabled(s, e) && Actor(e).ByClaimer?
    ensures Apply(s, e).exit == Some(h) <==> HoldsExit(Apply(s, e), h)
  {
    assert s.exit == Some(h) <==> HoldsExit(s, h);
    assert s.exit == Some(Actor(e)) <==> HoldsExit(s, Actor(e));
  }

  lemma ExitStep(s: State, e: Event, h: Holder)
    requires ExitAgrees(s) && DaemonsMakeSense(s) && Enabled(s, e)
    ensures Apply(s, e).exit == Some(h) <==> HoldsExit(Apply(s, e), h)
  {
    hide *;
    if Actor(e).ByDaemon? {
      DaemonExitStep(s, e, h);
    } else if Actor(e).ByStopper? {
      StopExitStep(s, e, h);
    } else {
      ClaimerExitStep(s, e, h);
    }
  }

  lemma ExitHasFile(s: State, e: Event)
    requires (s.exit.Some? ==> s.exitFile) && Enabled(s, e)
    ensures Apply(s, e).exit.Some? ==> Apply(s, e).exitFile
  {
  }

  lemma ApplyKeepsExit(s: State, e: Event)
    requires ExitAgrees(s) && DaemonsMakeSense(s) && Enabled(s, e)
    ensures ExitAgrees(Apply(s, e))
  {
    hide Apply;
    hide Enabled;
    hide HoldsExit;
    hide DaemonsMakeSense;
    ExitHasFile(s, e);
    forall h ensures Apply(s, e).exit == Some(h) <==> HoldsExit(Apply(s, e), h) {
      ExitStep(s, e, h);
    }
  }

  lemma ExitFileStays(s: State, e: Event)
    requires Enabled(s, e)
    ensures s.exitFile || e.HoldTaken? ==> Apply(s, e).exitFile
  {
  }

  lemma DaemonMakesSense(s: State, e: Event, p: Id)
    requires DaemonsMakeSense(s) && Enabled(s, e) && p in Apply(s, e).daemons
    ensures var d := Apply(s, e).daemons[p];
            (d.phase == Fresh ==> !d.holdsExit) && (d.holdsExit ==> s.exitFile || e.HoldTaken?)
  {
  }

  lemma ApplyKeepsDaemons(s: State, e: Event)
    requires DaemonsMakeSense(s) && Enabled(s, e)
    ensures DaemonsMakeSense(Apply(s, e))
  {
    hide Apply;
    hide Enabled;
    ExitFileStays(s, e);
    forall p | p in Apply(s, e).daemons
      ensures var d := Apply(s, e).daemons[p];
              (d.phase == Fresh ==> !d.holdsExit) && (d.holdsExit ==> s.exitFile || e.HoldTaken?)
    {
      DaemonMakesSense(s, e, p);
    }
  }

  /** No step but a daemon's changes daemons, and none removes the lifetime lock's file. */
  lemma OthersLeaveDaemons(s: State, e: Event)
    requires Enabled(s, e)
    ensures !Actor(e).ByDaemon? ==> Apply(s, e).daemons == s.daemons
    ensures s.lifeFile ==> Apply(s, e).lifeFile
  {
  }

  lemma DaemonStaysDone(s: State, e: Event, p: Id)
    requires Enabled(s, e) && HasServed(s, p) && Actor(e).ByDaemon?
    ensures HasServed(Apply(s, e), p) && Apply(s, e).daemons[p].holdsExit == s.daemons[p].holdsExit
    ensures HasReturned(s, p) ==> HasReturned(Apply(s, e), p)
    ensures InPhase(s, p, Exited) ==> InPhase(Apply(s, e), p, Exited)
  {
  }

  /** No step undoes a daemon's progress. */
  lemma StaysDone(s: State, e: Event, p: Id)
    requires Enabled(s, e) && HasServed(s, p)
    ensures HasServed(Apply(s, e), p) && Apply(s, e).daemons[p].holdsExit == s.daemons[p].holdsExit
    ensures HasReturned(s, p) ==> HasReturned(Apply(s, e), p)
    ensures InPhase(s, p, Exited) ==> InPhase(Apply(s, e), p, Exited)
    ensures s.lifeFile ==> Apply(s, e).lifeFile
  {
    hide Apply;
    hide Enabled;
    OthersLeaveDaemons(s, e);
    if Actor(e).ByDaemon? {
      DaemonStaysDone(s, e, p);
    }
  }

  /** A step of another process leaves a stop's knowledge true. */
  lemma OthersKeepStopper(s: State, e: Event, q: Id)
    requires Enabled(s, e) && Actor(e) != ByStopper(q) && q in Apply(s, e).stoppers
    requires q in s.stoppers ==> StopperKnows(s, s.stoppers[q])
    ensures q in s.stoppers && Apply(s, e).stoppers[q] == s.stoppers[q]
    ensures StopperKnows(Apply(s, e), s.stoppers[q])
  {
    OthersLeaveStopper(s, e, q);
    hide Apply;
    hide Enabled;
    StaysDone(s, e, s.stoppers[q].target);
  }

  lemma DaemonLeavesStoppers(s: State, e: Event)
    requires Enabled(s, e) && !Actor(e).ByStopper?
    ensures Apply(s, e).stoppers == s.stoppers
  {
  }

  lemma StopLeavesOthers(s: State, e: Event, q: Id)
    requires Enabled(s, e) && Actor(e).ByStopper? && e.q != q && q in Apply(s, e).stoppers
    ensures q in s.stoppers && Apply(s, e).stoppers[q] == s.stoppers[q]
  {
  }

  lemma OthersLeaveStopper(s: State, e: Event, q: Id)
    requires Enabled(s, e) && Actor(e) != ByStopper(q) && q in Apply(s, e).stoppers
    ensures q in s.stoppers && Apply(s, e).stoppers[q] == s.stoppers[q]
  {
    hide Apply;
    hide Enabled;
    if Actor(e).ByStopper? {
      StopLeavesOthers(s, e, q);
    } else {
      DaemonLeavesStoppers(s, e);
    }
  }

  predicate OfLifeWait(e: Event) {
    e.Closed? || e.ProbeLife? || e.LifeFree? || e.LifeMissing?
  }

  lemma ConnectKeepsStopper(s: State, e: Event)
    requires Enabled(s, e) && e.Connect? && s.life == Some(ByDaemon(e.p)) && s.lifeFile
    ensures e.q in Apply(s, e).stoppers && StopperKnows(Apply(s, e), Apply(s, e).stoppers[e.q])
  {
  }

  /** A stop's own step of its lifetime wait, given what the locks say about its target. */
  lemma LifeWaitKeepsStopper(s: State, e: Event, q: Id)
    requires Enabled(s, e) && Actor(e) == ByStopper(q) && !e.Connect? && DaemonsMakeSense(s)
    requires StopperKnows(s, s.stoppers[q])
    requires var p := s.stoppers[q].target;
             (OwnsLife(s, p) ==> s.life == Some(ByDaemon(p))) && (OwnsExit(s, p) ==> s.exit == Some(ByDaemon(p)))
    requires OfLifeWait(e)
    ensures q in Apply(s, e).stoppers && StopperKnows(Apply(s, e), Apply(s, e).stoppers[q])
  {
  }

  /** Any later step of it. */
  lemma ExitWaitKeepsStopper(s: State, e: Event, q: Id)
    requires Enabled(s, e) && Actor(e) == ByStopper(q) && !e.Connect? && DaemonsMakeSense(s)
    requires StopperKnows(s, s.stoppers[q])
    requires var p := s.stoppers[q].target;
             (OwnsLife(s, p) ==> s.life == Some(ByDaemon(p))) && (OwnsExit(s, p) ==> s.exit == Some(ByDaemon(p)))
    requires !OfLifeWait(e)
    ensures q in Apply(s, e).stoppers && StopperKnows(Apply(s, e), Apply(s, e).stoppers[q])
  {
  }

  lemma ApplyKeepsStopper(s: State, e: Event, q: Id)
    requires Inv(s) && Enabled(s, e) && q in Apply(s, e).stoppers
    ensures StopperKnows(Apply(s, e), Apply(s, e).stoppers[q])
  {
    hide StopperKnows;
    hide DaemonsMakeSense;
    hide Apply;
    if Actor(e) != ByStopper(q) {
      OthersKeepStopper(s, e, q);
    } else if e.Connect? {
      assert HoldsLife(s, ByDaemon(e.p));
      ConnectKeepsStopper(s, e);
    } else {
      var p := s.stoppers[q].target;
      assert OwnsLife(s, p) <==> HoldsLife(s, ByDaemon(p));
      assert OwnsExit(s, p) <==> HoldsExit(s, ByDaemon(p));
      if OfLifeWait(e) {
        LifeWaitKeepsStopper(s, e, q);
      } else {
        ExitWaitKeepsStopper(s, e, q);
      }
    }
  }

  lemma {:induction false} ReachableInv(run: seq<Event>)
    requires After(run).Some?
    ensures Inv(After(run).value)
    decreases |run|
  {
    if run != [] {
      var n := |run| - 1;
      ReachableInv(run[..n]);
      var s, e := After(run[..n]).value, run[n];
      ApplyKeepsLife(s, e);
      ApplyKeepsExit(s, e);
      ApplyKeepsDaemons(s, e);
      forall q | q in Apply(s, e).stoppers ensures StopperKnows(Apply(s, e), Apply(s, e).stoppers[q]) {
        ApplyKeepsStopper(s, e, q);
      }
    }
  }

  // ---- What every interleaving guarantees ----

  /** In every run, once a stop has reported success: if its exit wait saw the exit lock
      free and the target's `hold_until_exit` returned true, the target's process has
      exited, however the lifetime wait ended; if its lifetime wait saw the lifetime lock
      free, the target's `run` has returned. */
  lemma StopMeansExited(run: seq<Event>, q: Id)
    requires After(run).Some? && q in After(run).value.stoppers && After(run).value.stoppers[q].Stopped?
    ensures var s := After(run).value;
            var st := s.stoppers[q];
            && st.target in s.daemons
            && (st.exitSeen && s.daemons[st.target].holdsExit ==> s.daemons[st.target].phase == Exited)
            && (st.lifeSeen ==> HasReturned(s, st.target))
  {
    ReachableInv(run);
    assert StopperKnows(After(run).value, After(run).value.stoppers[q]);
  }

  /** Of all daemons, claimers and probes no two ever have the lifetime lock at once, nor
      the exit lock. */
  lemma LocksExclude(run: seq<Event>, a: Holder, b: Holder)
    requires After(run).Some?
    ensures HoldsLife(After(run).value, a) && HoldsLife(After(run).value, b) ==> a == b
    ensures HoldsExit(After(run).value, a) && HoldsExit(After(run).value, b) ==> a == b
  {
    hide HoldsLife;
    hide HoldsExit;
    ReachableInv(run);
    var s := After(run).value;
    assert s.life == Some(a) <==> HoldsLife(s, a);
    assert s.exit == Some(a) <==> HoldsExit(s, a);
  }

  /** `hold_until_exit` is refused exactly when a live daemon has the exit lock or some
      stop is in the middle of a probe of it. */
  lemma RefusedMeans(run: seq<Event>, p: Id)
    requires After(run).Some? && InPhase(After(run).value, p, Fresh)
    ensures var s := After(run).value;
            Enabled(s, HoldRefused(p)) <==>
            (exists d :: OwnsExit(s, d)) || (exists q :: q in s.stoppers && s.stoppers[q].ExitProbe?)
  {
    ReachableInv(run);
    var s := After(run).value;
    if s.exit.Some? {
      assert HoldsExit(s, s.exit.value);
    }
    if d :| OwnsExit(s, d) {
      assert HoldsExit(s, ByDaemon(d));
    }
    if q :| q in s.stoppers && s.stoppers[q].ExitProbe? {
      assert HoldsExit(s, ByStopper(q));
    }
  }

  // ---- What they do not ----

  /** One more event of a run. */
  lemma Then(run: seq<Event>, s: State, e: Event) returns (longer: seq<Event>, t: State)
    requires After(run) == Some(s) && Enabled(s, e)
    ensures After(longer) == Some(t) && t == Apply(s, e)
  {
    longer, t := run + [e], Apply(s, e);
    assert longer[..|run|] == run;
  }

  /** A first daemon holding the exit lock and serving, with a stop waiting for it. */
  lemma OneStopWaits() returns (run: seq<Event>, s: State)
    ensures After(run) == Some(s)
    ensures s == State(map[1 := Daemon(Serving, true)], map[9 := WaitLife(1)], {},
                       Some(ByDaemon(1)), Some(ByDaemon(1)), true, true)
  {
    run, s := OneServes();
    hide After;
    run, s := Then(run, s, Connect(9, 1));
    run, s := Then(run, s, Closed(9));
  }

  lemma OneServes() returns (run: seq<Event>, s: State)
    ensures After(run) == Some(s)
    ensures s == State(map[1 := Daemon(Serving, true)], map[], {}, Some(ByDaemon(1)), Some(ByDaemon(1)), true, true)
  {
    run, s := [], INITIAL;
    run, s := Then(run, s, Start(1));
    run, s := Then(run, s, HoldTaken(1));
    run, s := Then(run, s, TakeLife(1));
    run, s := Then(run, s, Bind(1));
  }

  /** That daemon exits and the stop takes the exit lock, for the moment of its probe. */
  lemma OneStopProbes() returns (run: seq<Event>, s: State)
    ensures After(run) == Some(s)
    ensures s == State(map[1 := Daemon(Exited, true)], map[9 := ExitProbe(1, true)], {},
                       None, Some(ByStopper(9)), true, true)
  {
    hide After;
    run, s := OneStopWaits();
    run, s := Then(run, s, RunReturns(1));
    run, s := Then(run, s, ProbeLife(9));
    run, s := Then(run, s, LifeFree(9));
    run, s := Then(run, s, Exit(1));
    run, s := Then(run, s, ProbeExit(9));
  }

  /** A refusal does not mean that a daemon is exiting: here the only holder is a stop's
      own probe, every earlier daemon being gone. */
  lemma RefusedByAProbe() returns (run: seq<Event>, s: State)
    ensures After(run) == Some(s) && Enabled(s, HoldRefused(2))
    ensures forall d :: !OwnsExit(s, d)
  {
    run, s := OneStopProbes();
    run, s := Then(run, s, Start(2));
  }

  lemma RefusedGoesOn() returns (run: seq<Event>, s: State)
    ensures After(run) == Some(s)
    ensures s == State(map[1 := Daemon(Exited, true), 2 := Daemon(Locked, false)],
                       map[9 := Stopped(1, true, true)], {}, Some(ByDaemon(2)), None, true, true)
  {
    hide After;
    run, s := OneStopProbes();
    run, s := Then(run, s, Start(2));
    run, s := Then(run, s, HoldRefused(2));
    run, s := Then(run, s, ExitFree(9));
    run, s := Then(run, s, TakeLife(2));
  }

  /** The daemon so refused goes on to serve, with a stop of its own. */
  lemma RefusedServes() returns (run: seq<Event>, s: State)
    ensures After(run) == Some(s)
    ensures s == State(map[1 := Daemon(Exited, true), 2 := Daemon(Serving, false)],
                       map[9 := Stopped(1, true, true), 8 := WaitLife(2)], {}, Some(ByDaemon(2)), None, true, true)
  {
    hide After;
    run, s := RefusedGoesOn();
    run, s := Then(run, s, Bind(2));
    run, s := Then(run, s, Connect(8, 2));
    run, s := Then(run, s, Closed(8));
  }

  /** The daemon so refused is later reported stopped while its process lives. */
  lemma StoppedButAlive() returns (run: seq<Event>, s: State)
    ensures After(run) == Some(s)
    ensures 8 in s.stoppers && s.stoppers[8] == Stopped(2, true, true)
    ensures InPhase(s, 2, Returned) && !s.daemons[2].holdsExit
  {
    hide After;
    run, s := RefusedServes();
    run, s := Then(run, s, RunReturns(2));
    run, s := Then(run, s, ProbeLife(8));
    run, s := Then(run, s, LifeFree(8));
    run, s := Then(run, s, ProbeExit(8));
    run, s := Then(run, s, ExitFree(8));
  }

  /** The exit wait is needed: when only its open fails although the file exists, a stop
      reports success with its target's process alive and holding the exit lock. */
  lemma ExitOpenErrorIsUnsound() returns (run: seq<Event>, s: State)
    ensures After(run) == Some(s)
    ensures 9 in s.stoppers && s.stoppers[9] == Stopped(1, true, false)
    ensures InPhase(s, 1, Returned) && OwnsExit(s, 1)
  {
    hide After;
    run, s := OneStopWaits();
    run, s := Then(run, s, RunReturns(1));
    run, s := Then(run, s, ProbeLife(9));
    run, s := Then(run, s, LifeFree(9));
    run, s := Then(run, s, OpenError(9));
  }

  /** So is the lifetime wait: when only its open fails, a stop reports success with a
      target that was refused the exit lock still serving. */
  lemma LifeOpenErrorIsUnsound() returns (run: seq<Event>, s: State)
    ensures After(run) == Some(s)
    ensures 8 in s.stoppers && s.stoppers[8] == Stopped(2, false, true)
    ensures InPhase(s, 2, Serving) && OwnsLife(s, 2)
  {
    hide After;
    run, s := RefusedServes();
    run, s := Then(run, s, OpenError(8));
    run, s := Then(run, s, ProbeExit(8));
    run, s := Then(run, s, ExitFree(8));
  }

  /** When both opens fail the target may be serving with both locks. */
  lemma OpenErrorIsUnsound() returns (run: seq<Event>, s: State)
    ensures After(run) == Some(s)
    ensures 9 in s.stoppers && s.stoppers[9] == Stopped(1, false, false)
    ensures InPhase(s, 1, Serving) && OwnsLife(s, 1) && OwnsExit(s, 1)
  {
    hide After;
    run, s := OneStopWaits();
    run, s := Then(run, s, OpenError(9));
    run, s := Then(run, s, OpenError(9));
  }
}
