/** What failing rotations do to every file of the log, the open one or not:
    crates/common/src/logfile.rs under every fault pattern. */
module LogSurvival {
  import opened Prelude
  import opened LogModel
  import opened LogFaults

  /** File i is the one named by slot q. */
  ghost predicate Sits(d: Disk, i: Inode, q: Slot) {
    Lookup(d, q) == Some(i)
  }

  /** File i has a name the log keeps. */
  ghost predicate KeptFile(p: Params, d: Disk, i: Inode) {
    exists q: Slot :: q <= Oldest(p) && Sits(d, i, q)
  }

  /** The call takes the oldest slot's file: that slot is removed or renamed onto. */
  ghost predicate Drops(p: Params, s: LogState, c: Call, i: Inode) {
    Sits(s.disk, i, Oldest(p)) && NeedsRotation(p, s.len, |c.buf|) && OldestGoes(p, s.disk, c.faults)
  }

  lemma NoNameNotKept(p: Params, d: Disk, i: Inode)
    requires i !in d.names.Values
    ensures !KeptFile(p, d, i)
  {
    forall q: Slot ensures !Sits(d, i, q) {
      assert q in d.names ==> d.names[q] in d.names.Values;
    }
  }

  // ---- One call ----

  /** Opening the current name at the end adds at most that name, for a new file. */
  lemma StepNamesAre(p: Params, s: LogState, c: Call)
    requires InRange(s) && NeedsRotation(p, s.len, |c.buf|)
    ensures var moved, t := MoveAside(p, s.disk, c.faults).0, Step(p, s, c);
            && (forall q: Slot | q in moved.names :: Lookup(t.disk, q) == Lookup(moved, q))
            && (forall q: Slot | q in t.disk.names && q !in moved.names :: q == 0 && t.disk.names[q] == |s.disk.data|)
  {
    RotateIfNeededKeepsInRange(p, s, |c.buf|, c.faults);
    MoveAsideKeepsInodes(p, s.disk, c.faults);
    MoveAsideFreesCurrent(p, s.disk, c.faults);
  }

  lemma IdleStep(p: Params, s: LogState, c: Call)
    requires InRange(s) && !NeedsRotation(p, s.len, |c.buf|)
    ensures Step(p, s, c).disk.names == s.disk.names
  {
  }

  /** Whatever fails, a file below the oldest slot stays where it is or moves up by one. */
  lemma StaysOrMovesUp(p: Params, s: LogState, c: Call, i: Inode, q: Slot)
    requires InRange(s) && Sits(s.disk, i, q) && q < Oldest(p)
    ensures Sits(Step(p, s, c).disk, i, q) || Sits(Step(p, s, c).disk, i, q + 1)
  {
    hide Step;
    hide MoveAside;
    if NeedsRotation(p, s.len, |c.buf|) {
      StepNamesAre(p, s, c);
      MoveAsideMovesAtMostOne(p, s.disk, c.faults, q);
    } else {
      IdleStep(p, s, c);
    }
  }

  /** The oldest file keeps its slot unless the call drops it, and then has no name. */
  lemma OldestStaysOrGoes(p: Params, s: LogState, c: Call, i: Inode)
    requires Valid(s) && Sits(s.disk, i, Oldest(p))
    ensures !Drops(p, s, c, i) ==> Sits(Step(p, s, c).disk, i, Oldest(p))
    ensures Drops(p, s, c, i) ==> i !in Step(p, s, c).disk.names.Values
  {
    hide Step;
    hide MoveAside;
    hide OldestGoes;
    if NeedsRotation(p, s.len, |c.buf|) {
      StepNamesAre(p, s, c);
      OldestAfterMove(p, s.disk, c.faults);
      var moved, t := MoveAside(p, s.disk, c.faults).0, Step(p, s, c);
      if OldestGoes(p, s.disk, c.faults) {
        forall q: Slot | q in t.disk.names ensures t.disk.names[q] != i {
          assert q in moved.names ==> Lookup(t.disk, q) == Lookup(moved, q) && moved.names[q] in moved.names.Values;
        }
      }
    } else {
      IdleStep(p, s, c);
    }
  }

  /** One call under any faults: a kept file stays kept exactly when the call does not drop
      it, and a dropped one has no name at all. */
  lemma StepKeepsFileIff(p: Params, s: LogState, c: Call, i: Inode)
    requires Valid(s) && KeptFile(p, s.disk, i)
    ensures KeptFile(p, Step(p, s, c).disk, i) <==> !Drops(p, s, c, i)
    ensures Drops(p, s, c, i) ==> i !in Step(p, s, c).disk.names.Values
  {
    hide Step;
    var q: Slot :| q <= Oldest(p) && Sits(s.disk, i, q);
    var d := Step(p, s, c).disk;
    if q < Oldest(p) {
      StaysOrMovesUp(p, s, c, i, q);
      assert q + 1 <= Oldest(p);
      assert KeptFile(p, d, i);
    } else {
      OldestStaysOrGoes(p, s, c, i);
      if Drops(p, s, c, i) {
        NoNameNotKept(p, d, i);
      }
    }
  }

  // ---- Every run ----

  /** Under every fault pattern a file in slot q outlives Oldest - q calls. */
  lemma {:induction false} SurvivesFor(p: Params, s: LogState, calls: seq<Call>, i: Inode, q: Slot) returns (r: Slot)
    requires InRange(s) && Sits(s.disk, i, q) && q + |calls| <= Oldest(p)
    ensures q <= r <= q + |calls| && Sits(Run(p, s, calls).disk, i, r)
    decreases |calls|
  {
    hide Step;
    hide Run;
    hide Sits;
    RunNone(p, s);
    if calls == [] {
      r := q;
    } else {
      var n := |calls| - 1;
      RunLast(p, s, calls);
      r := SurvivesFor(p, s, calls[..n], i, q);
      StaysOrMovesUp(p, Run(p, s, calls[..n]), calls[n], i, r);
      if !Sits(Run(p, s, calls).disk, i, r) {
        r := r + 1;
      }
    }
  }

  lemma {:induction false} KeptWhileNotDropped(p: Params, s: LogState, calls: seq<Call>, i: Inode)
    requires Valid(s) && KeptFile(p, s.disk, i)
    requires forall k | 0 <= k < |calls| :: !Drops(p, Run(p, s, calls[..k]), calls[k], i)
    ensures KeptFile(p, Run(p, s, calls).disk, i)
    decreases |calls|
  {
    hide Step;
    hide Run;
    hide Drops;
    hide KeptFile;
    RunNone(p, s);
    if calls != [] {
      var n := |calls| - 1;
      var shorter := calls[..n];
      forall k | 0 <= k < n ensures !Drops(p, Run(p, s, shorter[..k]), shorter[k], i) {
        assert shorter[..k] == calls[..k];
      }
      RunLast(p, s, calls);
      KeptWhileNotDropped(p, s, shorter, i);
      RunKeepsValid(p, s, shorter);
      StepKeepsFileIff(p, Run(p, s, shorter), calls[n], i);
    }
  }

  /** Over every run, whatever fails, a file keeps a name exactly when no call drops it. */
  lemma FileSurvivesIff(p: Params, s: LogState, calls: seq<Call>, i: Inode)
    requires Valid(s) && KeptFile(p, s.disk, i)
    ensures KeptFile(p, Run(p, s, calls).disk, i) <==>
            (forall k | 0 <= k < |calls| :: !Drops(p, Run(p, s, calls[..k]), calls[k], i))
  {
    hide Step;
    hide Run;
    hide Drops;
    if forall k | 0 <= k < |calls| :: !Drops(p, Run(p, s, calls[..k]), calls[k], i) {
      KeptWhileNotDropped(p, s, calls, i);
    } else {
      var k :| 0 <= k < |calls| && Drops(p, Run(p, s, calls[..k]), calls[k], i);
      DroppedForGood(p, s, calls, i, k);
      NoNameNotKept(p, Run(p, s, calls).disk, i);
    }
  }

  lemma DroppedForGood(p: Params, s: LogState, calls: seq<Call>, i: Inode, k: nat)
    requires Valid(s) && k < |calls| && Drops(p, Run(p, s, calls[..k]), calls[k], i)
    ensures i !in Run(p, s, calls).disk.names.Values
  {
    hide Step;
    hide Run;
    var before, c := Run(p, s, calls[..k]), calls[k];
    RunKeepsValid(p, s, calls[..k]);
    OldestStaysOrGoes(p, before, c, i);
    RunLast(p, s, calls[..k + 1]);
    assert calls[..k + 1][..k] == calls[..k];
    var after := Run(p, s, calls[..k + 1]);
    DataGrows(p, before, c);
    LostForGood(p, after, calls[k + 1..], i);
    RunSplits(p, s, calls[..k + 1], calls[k + 1..]);
    assert calls[..k + 1] + calls[k + 1..] == calls;
  }

  lemma DataGrows(p: Params, s: LogState, c: Call)
    requires InRange(s)
    ensures |s.disk.data| <= |Step(p, s, c).disk.data|
  {
    StepAppends(p, s, c, 0);
    hide Step;
  }

  lemma {:induction false} RunSplits(p: Params, s: LogState, a: seq<Call>, b: seq<Call>)
    requires InRange(s)
    ensures Run(p, s, a + b) == Run(p, Run(p, s, a), b)
    decreases |b|
  {
    hide Step;
    hide Run;
    if b == [] {
      assert a + b == a;
      RunNone(p, Run(p, s, a));
    } else {
      var n := |b| - 1;
      assert (a + b)[..|a + b| - 1] == a + b[..n];
      RunSplits(p, s, a, b[..n]);
      RunLast(p, s, a + b);
      RunLast(p, Run(p, s, a), b);
    }
  }

  // ---- A rename that keeps failing ----

  /** Only the current file cannot be renamed. */
  const STUCK := Faults(false, {0}, false, false)

  lemma {:induction false} ShiftSparesCurrent(d: Disk, i: nat)
    ensures ShiftRotated(d, i, {0}) == ShiftRotated(d, i, {})
    decreases i
  {
    if i > 0 {
      ShiftSparesCurrent(if i in d.names then Move(d, i, i + 1) else d, i - 1);
    }
  }

  lemma StuckMove(p: Params, d: Disk, n: Slot)
    requires p.keep >= 2
    ensures !MoveAside(p, d, STUCK).1
    ensures Lookup(MoveAside(p, d, STUCK).0, n) ==
            if 2 <= n < p.keep then Lookup(d, n - 1) else if n == 1 then None else Lookup(d, n)
  {
    var start := Unlink(d, p.keep - 1);
    ShiftSparesCurrent(start, p.keep - 2);
    ShiftAll(start, p.keep - 2, n);
  }

  lemma StuckStep(p: Params, s: LogState, c: Call, n: Slot)
    requires Valid(s) && At(s, 0) && p.keep >= 2 && c.faults == STUCK && NeedsRotation(p, s.len, |c.buf|)
    ensures var t := Step(p, s, c);
            && t.file == s.file && At(t, 0) && |t.disk.data| == |s.disk.data| && t.len == s.len + |c.buf|
            && Lookup(t.disk, n) ==
               if 2 <= n < p.keep then Lookup(s.disk, n - 1) else if n == 1 then None else Lookup(s.disk, n)
  {
    RotateIfNeededKeepsInRange(p, s, |c.buf|, c.faults);
    MoveAsideKeepsInodes(p, s.disk, c.faults);
    StuckMove(p, s.disk, n);
    StuckMove(p, s.disk, 0);
    hide MoveAside;
  }

  /** When the current file cannot be renamed, every call still moves the others up and off
      the end: the slots empty from below, no file begins, and after keep-1 calls the whole
      rotated history is gone while the current file grows. */
  lemma {:induction false} StuckRenameDrains(p: Params, s: LogState, calls: seq<Call>, n: Slot)
    requires Valid(s) && At(s, 0) && p.keep >= 2 && 1 <= n < p.keep
    requires forall k | 0 <= k < |calls| :: calls[k].faults == STUCK
    requires calls != [] ==> NeedsRotation(p, s.len, |calls[0].buf|)
    ensures var t := Run(p, s, calls);
            && Valid(t) && At(t, 0) && t.file == s.file && |t.disk.data| == |s.disk.data|
            && (calls != [] ==> t.len >= s.len + |calls[0].buf|)
            && Lookup(t.disk, n) == if n > |calls| then Lookup(s.disk, n - |calls|) else None
    decreases |calls|
  {
    hide Step;
    hide Run;
    RunNone(p, s);
    if calls != [] {
      var m := |calls| - 1;
      var before := Run(p, s, calls[..m]);
      StuckRenameDrains(p, s, calls[..m], n);
      if n > 1 {
        StuckRenameDrains(p, s, calls[..m], n - 1);
      }
      RunLast(p, s, calls);
      RunKeepsValid(p, s, calls);
      StuckStep(p, before, calls[m], n);
    }
  }

  /** With keep = 3 and three files: two such calls leave only the current one. */
  lemma HistoryGoneAfterTwo()
    ensures var s := Opened(Disk(map[0 := 0, 1 := 1, 2 := 2], [[65], [66], [67]]));
            var t := Run(Params(1, 3), s, [Call([68], STUCK), Call([69], STUCK)]);
            Valid(s) && At(t, 0) && 1 !in t.disk.names && 2 !in t.disk.names && |t.disk.data| == 3
  {
    var d := Disk(map[0 := 0, 1 := 1, 2 := 2], [[65], [66], [67]]);
    OpenIsValid(d);
    hide Run;
    var calls := [Call([68], STUCK), Call([69], STUCK)];
    StuckRenameDrains(Params(1, 3), Opened(d), calls, 1);
    StuckRenameDrains(Params(1, 3), Opened(d), calls, 2);
  }
}
