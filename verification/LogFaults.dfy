/** What every run of the rotating log keeps when removes, renames and opens may fail at
    any point: crates/common/src/logfile.rs under every fault pattern. */
module LogFaults {
  import opened Prelude
  import opened LogModel

  /** One `write`, with what fails during it. */
  datatype Call = Call(buf: seq<Byte>, faults: Faults)

  ghost predicate Injective(names: map<Slot, Inode>) {
    forall a, b | a in names && b in names && names[a] == names[b] :: a == b
  }

  /** No two names link one file, and `len` is the open file's length. */
  ghost predicate Valid(s: LogState) {
    InRange(s) && Injective(s.disk.names) && s.len == |s.disk.data[s.file]|
  }

  /** The open file is the one named by slot `q`. */
  ghost predicate At(s: LogState, q: Slot) {
    q in s.disk.names && s.disk.names[q] == s.file
  }

  ghost predicate Linked(s: LogState) {
    exists q :: At(s, q)
  }

  function Step(p: Params, s: LogState, c: Call): (t: LogState)
    requires InRange(s)
    ensures InRange(t)
  {
    RotateIfNeededKeepsInRange(p, s, |c.buf|, c.faults);
    Write(p, s, c.buf, c.faults)
  }

  function Run(p: Params, s: LogState, calls: seq<Call>): (t: LogState)
    requires InRange(s)
    ensures InRange(t)
    decreases |calls|
  {
    if calls == [] then s
    else Step(p, Run(p, s, calls[..|calls| - 1]), calls[|calls| - 1])
  }

  lemma RunLast(p: Params, s: LogState, calls: seq<Call>)
    requires InRange(s) && calls != []
    ensures Run(p, s, calls) == Step(p, Run(p, s, calls[..|calls| - 1]), calls[|calls| - 1])
  {
    hide Step;
  }

  lemma RunNone(p: Params, s: LogState)
    requires InRange(s)
    ensures Run(p, s, []) == s
  {
  }

  /** `rotate_if_over_cap` is a write of no bytes, so runs of writes cover it. */
  lemma CapCheckIsEmptyWrite(p: Params, s: LogState, f: Faults)
    requires InRange(s)
    ensures RotateIfNeeded(p, s, 0, f) == Step(p, s, Call([], f))
  {
    RotateIfNeededKeepsInRange(p, s, 0, f);
    var t := RotateIfNeeded(p, s, 0, f);
    assert t.disk.data[t.file] + [] == t.disk.data[t.file];
    assert t.disk.data[t.file := t.disk.data[t.file] + []] == t.disk.data;
  }

  /** Opening a directory without hard links gives such a state, at the current file. */
  lemma OpenIsValid(d: Disk)
    requires forall n | n in d.names :: d.names[n] < |d.data|
    requires Injective(d.names)
    ensures Valid(Opened(d)) && At(Opened(d), 0) && !Opened(d).reported && Opened(d).messages == 0
    ensures forall n: Slot | n > 0 :: Lookup(Opened(d).disk, n) == Lookup(d, n)
    ensures 0 in d.names ==> Opened(d).disk == d
  {
  }

  // ---- When a call rotates at all ----

  /** A write that the current file can take is only appended, whatever would fail: no name,
      no other file and no diagnostic changes. An empty file takes any write. */
  lemma AppendsInPlace(p: Params, s: LogState, c: Call)
    requires InRange(s) && (s.len == 0 || s.len + |c.buf| <= p.maxBytes || p.maxBytes >= U64_MAX)
    ensures var t := Step(p, s, c);
            && t.disk.names == s.disk.names && t.file == s.file && |t.disk.data| == |s.disk.data|
            && t.disk.data == s.disk.data[s.file := s.disk.data[s.file] + c.buf]
            && t.len == s.len + |c.buf| && t.reported == s.reported && t.messages == s.messages
  {
  }

  /** Any other write tries to rotate: it begins a file or leaves the diagnostic latched. */
  lemma TriesToRotate(p: Params, s: LogState, c: Call)
    requires InRange(s) && 0 < s.len && s.len + |c.buf| > p.maxBytes && p.maxBytes < U64_MAX
    ensures var t := Step(p, s, c); t.reported || (t.file == |s.disk.data| && t.disk.data == s.disk.data + [c.buf])
  {
    var f := c.faults;
    RotateIfNeededKeepsInRange(p, s, |c.buf|, f);
    MoveAsideKeepsInodes(p, s.disk, f);
    MoveAsideFreesCurrent(p, s.disk, f);
    hide MoveAside;
    assert [] + c.buf == c.buf;
  }

  // ---- The shift, slot by slot ----

  lemma {:induction false} ShiftKeepsInjective(d: Disk, i: nat, fail: set<Slot>)
    requires Injective(d.names)
    ensures Injective(ShiftRotated(d, i, fail).0.names)
    decreases i
  {
    if i > 0 {
      if i !in d.names {
        ShiftKeepsInjective(d, i - 1, fail);
      } else if i !in fail {
        ShiftKeepsInjective(Move(d, i, i + 1), i - 1, fail);
      }
    }
  }

  /** The shift touches only slots 1 to i+1. */
  lemma {:induction false} ShiftFrame(d: Disk, i: nat, fail: set<Slot>, n: Slot)
    requires n == 0 || n > i + 1
    ensures Lookup(ShiftRotated(d, i, fail).0, n) == Lookup(d, n)
    decreases i
  {
    if i > 0 {
      if i !in d.names {
        ShiftFrame(d, i - 1, fail, n);
      } else if i !in fail {
        ShiftFrame(Move(d, i, i + 1), i - 1, fail, n);
      }
    }
  }

  /** Names the shift leaves were there before or lie in 1 to i+1. */
  lemma {:induction false} ShiftNames(d: Disk, i: nat, fail: set<Slot>, n: Slot)
    requires n in ShiftRotated(d, i, fail).0.names
    ensures n in d.names || 1 <= n <= i + 1
    decreases i
  {
    if i > 0 {
      if i !in d.names {
        ShiftNames(d, i - 1, fail, n);
      } else if i !in fail {
        ShiftNames(Move(d, i, i + 1), i - 1, fail, n);
      }
    }
  }

  /** A file in slot q <= i stays there or moves to q+1, wherever the shift stops. */
  lemma {:induction false} ShiftMovesAtMostOne(d: Disk, i: nat, fail: set<Slot>, q: Slot)
    requires q in d.names && 1 <= q <= i
    ensures var e := ShiftRotated(d, i, fail).0;
            || Lookup(e, q) == Lookup(d, q)
            || Lookup(e, q + 1) == Lookup(d, q)
    decreases i
  {
    if i !in d.names {
      ShiftMovesAtMostOne(d, i - 1, fail, q);
    } else if i !in fail {
      var e := Move(d, i, i + 1);
      if q == i {
        ShiftFrame(e, i - 1, fail, q + 1);
      } else {
        ShiftMovesAtMostOne(e, i - 1, fail, q);
      }
    }
  }

  /** Without failing renames the shift completes and every slot moves up by one. */
  lemma {:induction false} ShiftAll(d: Disk, i: nat, n: Slot)
    requires i > 0 ==> i + 1 !in d.names
    ensures var (e, ok) := ShiftRotated(d, i, {});
            && ok
            && Lookup(e, n) ==
               if 2 <= n <= i + 1 then Lookup(d, n - 1)
               else if n == 1 && i > 0 then None
               else Lookup(d, n)
    decreases i
  {
    if i > 0 {
      var e := if i in d.names then Move(d, i, i + 1) else d;
      ShiftAll(e, i - 1, n);
    }
  }

  // ---- One call ----

  lemma MoveAsideFreesCurrent(p: Params, d: Disk, f: Faults)
    ensures MoveAside(p, d, f).1 ==> 0 in d.names && 0 !in MoveAside(p, d, f).0.names
    ensures !MoveAside(p, d, f).1 ==> Lookup(MoveAside(p, d, f).0, 0) == Lookup(d, 0)
  {
    if p.keep >= 2 {
      var start := if f.remove then d else Unlink(d, p.keep - 1);
      ShiftFrame(start, p.keep - 2, f.renames, 0);
    }
  }

  lemma MoveAsideKeepsInjective(p: Params, d: Disk, f: Faults)
    requires Injective(d.names)
    ensures Injective(MoveAside(p, d, f).0.names)
  {
    if p.keep >= 2 {
      var start := if f.remove then d else Unlink(d, p.keep - 1);
      ShiftKeepsInjective(start, p.keep - 2, f.renames);
    }
  }

  lemma RecoverKeepsValid(s: LogState, f: Faults)
    requires InRange(s) && Injective(s.disk.names)
    ensures Valid(Recover(s, f))
  {
  }

  lemma RotateKeepsValid(p: Params, s: LogState, f: Faults)
    requires Valid(s)
    ensures InRange(Rotate(p, s, f).0) && Injective(Rotate(p, s, f).0.disk.names)
    ensures Rotate(p, s, f).1.Rotated? ==> Valid(Rotate(p, s, f).0)
  {
    RotateKeepsInRange(p, s, f);
    MoveAsideKeepsInodes(p, s.disk, f);
    MoveAsideKeepsInjective(p, s.disk, f);
    MoveAsideFreesCurrent(p, s.disk, f);
    var moved := MoveAside(p, s.disk, f).0;
    hide MoveAside;
    assert forall n | n in moved.names :: moved.names[n] in moved.names.Values;
  }

  lemma AppendKeepsValid(s: LogState, buf: seq<Byte>)
    requires Valid(s)
    ensures Valid(s.(disk := Append(s.disk, s.file, buf), len := s.len + |buf|))
  {
  }

  lemma StepKeepsValid(p: Params, s: LogState, c: Call)
    requires Valid(s)
    ensures Valid(Step(p, s, c))
  {
    hide Rotate;
    hide Recover;
    hide Append;
    RotateKeepsValid(p, s, c.faults);
    if NeedsRotation(p, s.len, |c.buf|) {
      RecoverKeepsValid(Rotate(p, s, c.faults).0, c.faults);
    }
    AppendKeepsValid(RotateIfNeeded(p, s, |c.buf|, c.faults), c.buf);
  }

  /** `len` equals the open file's length after every run, whatever failed. */
  lemma {:induction false} RunKeepsValid(p: Params, s: LogState, calls: seq<Call>)
    requires Valid(s)
    ensures Valid(Run(p, s, calls))
    decreases |calls|
  {
    if calls != [] {
      var n := |calls| - 1;
      RunKeepsValid(p, s, calls[..n]);
      StepKeepsValid(p, Run(p, s, calls[..n]), calls[n]);
    }
  }

  // ---- Every write lands whole in one file ----

  /** The file each call's bytes went to. */
  function Landings(p: Params, s: LogState, calls: seq<Call>): (ls: seq<Inode>)
    requires InRange(s)
    ensures |ls| == |calls|
    decreases |calls|
  {
    if calls == [] then []
    else Landings(p, s, calls[..|calls| - 1]) + [Run(p, s, calls).file]
  }

  /** The buffers that landed in file i, in order. */
  function LandedIn(calls: seq<Call>, ls: seq<Inode>, i: Inode): seq<seq<Byte>>
    requires |calls| == |ls|
  {
    if calls == [] then []
    else
      var n := |calls| - 1;
      LandedIn(calls[..n], ls[..n], i) + if ls[n] == i then [calls[n].buf] else []
  }

  function Contents(d: Disk, i: Inode): seq<Byte> {
    if i < |d.data| then d.data[i] else []
  }

  lemma StepAppends(p: Params, s: LogState, c: Call, i: Inode)
    requires InRange(s)
    ensures var t := Step(p, s, c);
            && |s.disk.data| <= |t.disk.data|
            && Contents(t.disk, i) == Contents(s.disk, i) + if i == t.file then c.buf else []
  {
    RotateIfNeededKeepsInRange(p, s, |c.buf|, c.faults);
    MoveAsideKeepsInodes(p, s.disk, c.faults);
    MoveAsideFreesCurrent(p, s.disk, c.faults);
  }

  lemma LandedOneMore(earlier: seq<seq<Byte>>, buf: seq<Byte>, here: bool)
    ensures Concat(earlier + if here then [buf] else []) == Concat(earlier) + if here then buf else []
  {
    ConcatAppend(earlier, [buf]);
    ConcatOne(buf);
    hide Concat;
    assert earlier + [] == earlier;
  }

  lemma LandedNone(p: Params, s: LogState, i: Inode)
    requires InRange(s)
    ensures Concat(LandedIn([], Landings(p, s, []), i)) == []
  {
  }

  lemma LandedLast(p: Params, s: LogState, calls: seq<Call>, i: Inode)
    requires InRange(s) && calls != []
    ensures var n := |calls| - 1;
            Concat(LandedIn(calls, Landings(p, s, calls), i)) ==
            Concat(LandedIn(calls[..n], Landings(p, s, calls[..n]), i)) +
            if Run(p, s, calls).file == i then calls[n].buf else []
  {
    hide Run;
    hide Concat;
    var n, ls := |calls| - 1, Landings(p, s, calls);
    assert ls[..n] == Landings(p, s, calls[..n]) && ls[n] == Run(p, s, calls).file;
    hide Landings;
    LandedOneMore(LandedIn(calls[..n], ls[..n], i), calls[n].buf, ls[n] == i);
  }

  /** Whatever fails, each file is its initial contents followed by exactly the buffers
      that landed in it, each buffer landing whole in one file. */
  lemma {:induction false} RunAppendsWholeWrites(p: Params, s: LogState, calls: seq<Call>, i: Inode)
    requires InRange(s)
    ensures Contents(Run(p, s, calls).disk, i) ==
            Contents(s.disk, i) + Concat(LandedIn(calls, Landings(p, s, calls), i))
    decreases |calls|
  {
    hide Step;
    hide Run;
    hide Contents;
    hide Landings;
    hide LandedIn;
    hide Concat;
    RunNone(p, s);
    if calls == [] {
      LandedNone(p, s, i);
      assert Contents(s.disk, i) + [] == Contents(s.disk, i);
    } else {
      var n := |calls| - 1;
      RunLast(p, s, calls);
      RunAppendsWholeWrites(p, s, calls[..n], i);
      StepAppends(p, Run(p, s, calls[..n]), calls[n], i);
      LandedLast(p, s, calls, i);
      Associate(Contents(s.disk, i), Concat(LandedIn(calls[..n], Landings(p, s, calls[..n]), i)),
                if Run(p, s, calls).file == i then calls[n].buf else []);
    }
  }

  // ---- When the open file is the one named current ----

  /** Whether the current name can be freed: nothing before the open fails. */
  predicate MovesAside(p: Params, d: Disk, f: Faults) {
    && 0 in d.names
    && if p.keep >= 2 then
         0 !in f.renames && forall i | 1 <= i <= p.keep - 2 && i in d.names :: i !in f.renames
       else !f.remove
  }

  /** The one way to lose the current name: it was freed and neither open made it again. */
  predicate CannotCreate(p: Params, s: LogState, c: Call) {
    NeedsRotation(p, s.len, |c.buf|) && MovesAside(p, s.disk, c.faults) && c.faults.open && c.faults.reopen
  }

  lemma {:induction false} ShiftSucceeds(d: Disk, i: nat, fail: set<Slot>)
    ensures ShiftRotated(d, i, fail).1 <==> forall n | 1 <= n <= i && n in d.names :: n !in fail
    decreases i
  {
    if i > 0 {
      if i !in d.names {
        ShiftSucceeds(d, i - 1, fail);
      } else if i !in fail {
        ShiftSucceeds(Move(d, i, i + 1), i - 1, fail);
      }
    }
  }

  lemma MovesAsideIsMoveAside(p: Params, d: Disk, f: Faults)
    ensures MovesAside(p, d, f) <==> MoveAside(p, d, f).1
  {
    if p.keep >= 2 {
      var start := if f.remove then d else Unlink(d, p.keep - 1);
      ShiftFrame(start, p.keep - 2, f.renames, 0);
      ShiftSucceeds(start, p.keep - 2, f.renames);
    }
  }

  lemma StepCurrent(p: Params, s: LogState, c: Call)
    requires InRange(s) && At(s, 0)
    ensures At(Step(p, s, c), 0) <==> !CannotCreate(p, s, c)
  {
    RotateIfNeededKeepsInRange(p, s, |c.buf|, c.faults);
    MovesAsideIsMoveAside(p, s.disk, c.faults);
    MoveAsideKeepsInodes(p, s.disk, c.faults);
    MoveAsideFreesCurrent(p, s.disk, c.faults);
  }

  lemma {:induction false} CurrentAfter(p: Params, s: LogState, calls: seq<Call>)
    requires InRange(s) && At(s, 0)
    requires forall k | 0 <= k < |calls| :: !CannotCreate(p, Run(p, s, calls[..k]), calls[k])
    ensures At(Run(p, s, calls), 0)
    decreases |calls|
  {
    hide Step;
    hide Run;
    hide At;
    hide CannotCreate;
    RunNone(p, s);
    if calls != [] {
      var n := |calls| - 1;
      var shorter := calls[..n];
      RunLast(p, s, calls);
      forall k | 0 <= k < n ensures !CannotCreate(p, Run(p, s, shorter[..k]), shorter[k]) {
        assert shorter[..k] == calls[..k];
      }
      CurrentAfter(p, s, shorter);
      StepCurrent(p, Run(p, s, shorter), calls[n]);
    }
  }

  /** Over every run the open file stays the current one exactly when no call frees the
      current name and then fails both opens. In particular no failure up to the
      current-to-`.1` rename can separate them. */
  lemma CurrentStaysOpen(p: Params, s: LogState, calls: seq<Call>)
    requires InRange(s) && At(s, 0)
    ensures (forall k | 0 <= k <= |calls| :: At(Run(p, s, calls[..k]), 0)) <==>
            (forall k | 0 <= k < |calls| :: !CannotCreate(p, Run(p, s, calls[..k]), calls[k]))
  {
    hide Step;
    hide Run;
    hide At;
    hide CannotCreate;
    if forall k | 0 <= k < |calls| :: !CannotCreate(p, Run(p, s, calls[..k]), calls[k]) {
      forall k | 0 <= k <= |calls| ensures At(Run(p, s, calls[..k]), 0) {
        var upTo := calls[..k];
        assert forall j | 0 <= j < k :: upTo[..j] == calls[..j];
        CurrentAfter(p, s, upTo);
      }
    }
    if forall k | 0 <= k <= |calls| :: At(Run(p, s, calls[..k]), 0) {
      forall k | 0 <= k < |calls| ensures !CannotCreate(p, Run(p, s, calls[..k]), calls[k]) {
        StepCurrent(p, Run(p, s, calls[..k]), calls[k]);
        RunLast(p, s, calls[..k + 1]);
        assert calls[..k + 1][..k] == calls[..k];
        assert At(Run(p, s, calls[..k + 1]), 0);
      }
    }
  }

  // ---- How long the open file keeps a name ----

  lemma MoveAsideMovesAtMostOne(p: Params, d: Disk, f: Faults, q: Slot)
    requires q in d.names && q + 1 < p.keep
    ensures var e := MoveAside(p, d, f).0; Lookup(e, q) == Lookup(d, q) || Lookup(e, q + 1) == Lookup(d, q)
  {
    var start := if f.remove then d else Unlink(d, p.keep - 1);
    if q == 0 {
      ShiftFrame(start, p.keep - 2, f.renames, 0);
    } else {
      ShiftMovesAtMostOne(start, p.keep - 2, f.renames, q);
      ShiftFreesFirst(start, p.keep - 2, f.renames);
    }
  }

  /** One call moves the open file up by at most one slot, whatever fails; it is lost only
      from the oldest kept slot. */
  lemma StepDriftsAtMostOne(p: Params, s: LogState, c: Call, q: Slot)
    requires InRange(s) && At(s, q) && q + 1 < p.keep
    ensures var t := Step(p, s, c); At(t, 0) || At(t, q) || At(t, q + 1)
  {
    RotateIfNeededKeepsInRange(p, s, |c.buf|, c.faults);
    MoveAsideKeepsInodes(p, s.disk, c.faults);
    MoveAsideFreesCurrent(p, s.disk, c.faults);
    MoveAsideMovesAtMostOne(p, s.disk, c.faults, q);
    hide MoveAside;
  }

  /** A completed shift leaves `.1` free. */
  lemma {:induction false} ShiftFreesFirst(d: Disk, i: nat, fail: set<Slot>)
    ensures ShiftRotated(d, i, fail).1 && i > 0 ==> 1 !in ShiftRotated(d, i, fail).0.names
    decreases i
  {
    if i > 0 {
      var e := if i in d.names then Move(d, i, i + 1) else d;
      if i == 1 {
        assert 1 !in e.names;
      } else {
        ShiftFreesFirst(e, i - 1, fail);
      }
    }
  }

  /** Under every fault pattern, fewer than `keep` calls after the open file was the
      current one it still has a kept name. */
  lemma {:induction false} LinkedBelowKeep(p: Params, s: LogState, calls: seq<Call>) returns (q: Slot)
    requires InRange(s) && At(s, 0) && |calls| < p.keep
    ensures q <= |calls| && At(Run(p, s, calls), q)
    decreases |calls|
  {
    if calls == [] {
      q := 0;
    } else {
      var n := |calls| - 1;
      var before := LinkedBelowKeep(p, s, calls[..n]);
      StepDriftsAtMostOne(p, Run(p, s, calls[..n]), calls[n], before);
      q := if At(Run(p, s, calls), 0) then 0 else if At(Run(p, s, calls), before) then before else before + 1;
    }
  }

  // ---- Exactly when the open file loses its last name ----

  /** The oldest slot the log keeps. */
  function Oldest(p: Params): Slot {
    if p.keep >= 2 then p.keep - 1 else 0
  }

  /** The oldest slot's file goes: it is removed, or another is renamed onto it. */
  predicate OldestGoes(p: Params, d: Disk, f: Faults) {
    || !f.remove
    || (p.keep >= 3 && p.keep - 2 in d.names && p.keep - 2 !in f.renames)
    || (p.keep == 2 && 0 in d.names && 0 !in f.renames)
  }

  /** The one way to lose the open file: it is in the oldest slot, that slot's file goes,
      and neither the rotation nor the recovery opens another. */
  ghost predicate Loses(p: Params, s: LogState, c: Call) {
    && At(s, Oldest(p)) && NeedsRotation(p, s.len, |c.buf|)
    && OldestGoes(p, s.disk, c.faults)
    && c.faults.reopen && (c.faults.open || !MovesAside(p, s.disk, c.faults))
  }

  /** The open file has a name the log keeps. */
  ghost predicate Kept(p: Params, s: LogState) {
    exists q: Slot :: q <= Oldest(p) && At(s, q)
  }

  /** After the shift the slot above its first holds what was in that first slot, if it
      could be moved, else what it held. */
  lemma ShiftTop(d: Disk, i: nat, fail: set<Slot>)
    requires i > 0
    ensures Lookup(ShiftRotated(d, i, fail).0, i + 1) == Lookup(d, if i in d.names && i !in fail then i else i + 1)
  {
    if i !in d.names {
      ShiftFrame(d, i - 1, fail, i + 1);
    } else if i !in fail {
      ShiftFrame(Move(d, i, i + 1), i - 1, fail, i + 1);
    }
  }

  /** What moving aside leaves of the file in the oldest slot. */
  lemma OldestAfterMove(p: Params, d: Disk, f: Faults)
    requires Injective(d.names) && Oldest(p) in d.names
    ensures OldestGoes(p, d, f) ==> d.names[Oldest(p)] !in MoveAside(p, d, f).0.names.Values
    ensures !OldestGoes(p, d, f) ==> Lookup(MoveAside(p, d, f).0, Oldest(p)) == Lookup(d, Oldest(p))
  {
    if p.keep < 2 {
      return;
    }
    var o := p.keep - 1;
    if !f.remove {
      RemovedFileIsGone(p, d, f);
    } else {
      if o > 1 {
        ShiftTop(d, o - 1, f.renames);
      }
      if OldestGoes(p, d, f) {
        MoveAsideKeepsInjective(p, d, f);
        OverwrittenFileIsGone(p, d, f);
      }
    }
  }

  lemma RemovedFileIsGone(p: Params, d: Disk, f: Faults)
    requires p.keep >= 2 && Injective(d.names) && p.keep - 1 in d.names && !f.remove
    ensures d.names[p.keep - 1] !in MoveAside(p, d, f).0.names.Values
  {
    var start := Unlink(d, p.keep - 1);
    assert d.names[p.keep - 1] !in start.names.Values;
    ShiftKeepsInodes(start, p.keep - 2, f.renames);
    var shifted := ShiftRotated(start, p.keep - 2, f.renames).0;
    assert 0 in shifted.names ==> Move(shifted, 0, 1).names.Values <= shifted.names.Values;
  }

  /** A rename onto the oldest slot drops the file that was there. */
  lemma OverwrittenFileIsGone(p: Params, d: Disk, f: Faults)
    requires p.keep >= 2 && Injective(d.names) && p.keep - 1 in d.names && f.remove && OldestGoes(p, d, f)
    ensures d.names[p.keep - 1] !in MoveAside(p, d, f).0.names.Values
  {
    var i := d.names[p.keep - 1];
    if p.keep == 2 {
      assert MoveAside(p, d, f).0 == Move(d, 0, 1);
      assert i !in Move(d, 0, 1).names.Values;
    } else {
      var moved := Move(d, p.keep - 2, p.keep - 1);
      assert i !in moved.names.Values;
      ShiftKeepsInodes(moved, p.keep - 3, f.renames);
      var shifted := ShiftRotated(moved, p.keep - 3, f.renames).0;
      assert shifted == ShiftRotated(d, p.keep - 2, f.renames).0;
      assert 0 in shifted.names ==> Move(shifted, 0, 1).names.Values <= shifted.names.Values;
    }
  }

  /** One call, under any faults: a kept open file stays kept exactly when the call does not
      lose it, and a lost one has no name at all. */
  lemma StepKeepsOrLoses(p: Params, s: LogState, c: Call)
    requires Valid(s) && Kept(p, s)
    ensures Kept(p, Step(p, s, c)) <==> !Loses(p, s, c)
    ensures Loses(p, s, c) ==> !Linked(Step(p, s, c)) && Step(p, s, c).file == s.file
  {
    var q: Slot :| q <= Oldest(p) && At(s, q);
    var f, t := c.faults, Step(p, s, c);
    if !NeedsRotation(p, s.len, |c.buf|) {
      assert At(t, q);
    } else if q < Oldest(p) {
      StepDriftsAtMostOne(p, s, c, q);
      assert At(t, 0) || At(t, q) || At(t, q + 1);
    } else {
      OldestStep(p, s, c);
    }
  }

  lemma OldestStep(p: Params, s: LogState, c: Call)
    requires Valid(s) && At(s, Oldest(p)) && NeedsRotation(p, s.len, |c.buf|)
    ensures Loses(p, s, c) ==> !Linked(Step(p, s, c)) && Step(p, s, c).file == s.file
    ensures !Loses(p, s, c) ==> At(Step(p, s, c), 0) || At(Step(p, s, c), Oldest(p))
  {
    var f := c.faults;
    if !f.reopen || (MovesAside(p, s.disk, f) && !f.open) {
      Heals(p, s, c);
    } else {
      RotateIfNeededKeepsInRange(p, s, |c.buf|, f);
      MovesAsideIsMoveAside(p, s.disk, f);
      MoveAsideKeepsInodes(p, s.disk, f);
      OldestAfterMove(p, s.disk, f);
      var t, moved := Step(p, s, c), MoveAside(p, s.disk, f).0;
      assert t.disk.names == moved.names && t.file == s.file;
      if Loses(p, s, c) {
        forall n ensures !At(t, n) {
          assert n in moved.names ==> moved.names[n] in moved.names.Values;
        }
      }
    }
  }

  lemma {:induction false} KeptAfter(p: Params, s: LogState, calls: seq<Call>)
    requires Valid(s) && Kept(p, s)
    requires forall k | 0 <= k < |calls| :: !Loses(p, Run(p, s, calls[..k]), calls[k])
    ensures Kept(p, Run(p, s, calls))
    decreases |calls|
  {
    hide Step;
    hide Run;
    hide Loses;
    hide Kept;
    RunNone(p, s);
    if calls != [] {
      var n := |calls| - 1;
      var shorter := calls[..n];
      RunLast(p, s, calls);
      forall k | 0 <= k < n ensures !Loses(p, Run(p, s, shorter[..k]), shorter[k]) {
        assert shorter[..k] == calls[..k];
      }
      KeptAfter(p, s, shorter);
      RunKeepsValid(p, s, shorter);
      StepKeepsOrLoses(p, Run(p, s, shorter), calls[n]);
    }
  }

  /** Over every run, whatever fails, the open file always has a kept name exactly when no
      call loses it. */
  lemma NeverLostIff(p: Params, s: LogState, calls: seq<Call>)
    requires Valid(s) && Kept(p, s)
    ensures (forall k | 0 <= k <= |calls| :: Kept(p, Run(p, s, calls[..k]))) <==>
            (forall k | 0 <= k < |calls| :: !Loses(p, Run(p, s, calls[..k]), calls[k]))
  {
    hide Step;
    hide Run;
    hide Loses;
    hide Kept;
    if forall k | 0 <= k < |calls| :: !Loses(p, Run(p, s, calls[..k]), calls[k]) {
      forall k | 0 <= k <= |calls| ensures Kept(p, Run(p, s, calls[..k])) {
        var upTo := calls[..k];
        assert forall j | 0 <= j < k :: upTo[..j] == calls[..j];
        KeptAfter(p, s, upTo);
      }
    }
    if forall k | 0 <= k <= |calls| :: Kept(p, Run(p, s, calls[..k])) {
      forall k | 0 <= k < |calls| ensures !Loses(p, Run(p, s, calls[..k]), calls[k]) {
        RunKeepsValid(p, s, calls[..k]);
        StepKeepsOrLoses(p, Run(p, s, calls[..k]), calls[k]);
        RunLast(p, s, calls[..k + 1]);
        assert calls[..k + 1][..k] == calls[..k];
        assert Kept(p, Run(p, s, calls[..k + 1]));
      }
    }
  }

  /** Files can be moved and removed, none can be created or reopened. */
  const NO_CREATE := Faults(false, {}, true, true)

  /** Once removals and renames succeed, every kept slot takes its predecessor's file, a
      missing one included, and the current name is free. */
  lemma MoveAsideShifts(p: Params, d: Disk, f: Faults, n: Slot)
    requires p.keep >= 2 && !f.remove && f.renames == {}
    ensures Lookup(MoveAside(p, d, f).0, n) ==
            if n == 0 then None else if n < p.keep then Lookup(d, n - 1) else Lookup(d, n)
  {
    var start := Unlink(d, p.keep - 1);
    ShiftAll(start, p.keep - 2, n);
    ShiftAll(start, p.keep - 2, 0);
  }

  lemma NoCreateStep(p: Params, s: LogState, c: Call, q: Slot)
    requires Valid(s) && At(s, q) && c.faults == NO_CREATE && NeedsRotation(p, s.len, |c.buf|)
    requires q == 0 || (q < p.keep && 0 !in s.disk.names)
    ensures var t := Step(p, s, c);
            && t.file == s.file && 0 !in t.disk.names
            && t.len == s.len + |c.buf|
            && (q + 1 < p.keep ==> At(t, q + 1))
            && (q + 1 >= p.keep ==> !Linked(t))
  {
    RotateIfNeededKeepsInRange(p, s, |c.buf|, c.faults);
    MoveAsideKeepsInodes(p, s.disk, c.faults);
    MoveAsideFreesCurrent(p, s.disk, c.faults);
    var moved := MoveAside(p, s.disk, c.faults).0;
    var t := Step(p, s, c);
    assert t.disk.names == moved.names && t.file == s.file;
    if p.keep >= 2 {
      MoveAsideShifts(p, s.disk, c.faults, 0);
      MoveAsideShifts(p, s.disk, c.faults, q + 1);
      forall n | q + 1 >= p.keep && n in moved.names ensures moved.names[n] != s.file {
        MoveAsideShifts(p, s.disk, c.faults, n);
        assert Lookup(s.disk, q) == Some(s.file);
        assert Lookup(moved, n) == Lookup(s.disk, if n < p.keep then n - 1 else n);
      }
    }
  }

  lemma {:induction false} NoCreateRun(p: Params, s: LogState, calls: seq<Call>)
    requires Valid(s) && At(s, 0) && calls != []
    requires forall k | 0 <= k < |calls| :: calls[k].faults == NO_CREATE
    requires NeedsRotation(p, s.len, |calls[0].buf|)
    ensures var t := Run(p, s, calls);
            && Valid(t) && t.file == s.file && 0 !in t.disk.names
            && t.len >= s.len + |calls[0].buf|
            && (|calls| < p.keep ==> At(t, |calls|))
            && (|calls| >= p.keep ==> !Linked(t))
    decreases |calls|
  {
    var n := |calls| - 1;
    var before := Run(p, s, calls[..n]);
    RunKeepsValid(p, s, calls);
    RunKeepsValid(p, s, calls[..n]);
    if n == 0 {
      assert calls[..0] == [] && before == s;
      NoCreateStep(p, s, calls[0], 0);
    } else {
      NoCreateRun(p, s, calls[..n]);
      if n < p.keep {
        NoCreateStep(p, before, calls[n], n);
      } else {
        NoCreateUnlinked(p, before, calls[n]);
      }
    }
  }

  lemma NoCreateUnlinked(p: Params, s: LogState, c: Call)
    requires Valid(s) && !Linked(s) && 0 !in s.disk.names && c.faults == NO_CREATE
    ensures var t := Step(p, s, c);
            t.file == s.file && !Linked(t) && 0 !in t.disk.names && t.len == s.len + |c.buf|
  {
    RotateIfNeededKeepsInRange(p, s, |c.buf|, c.faults);
    MoveAsideKeepsInodes(p, s.disk, c.faults);
    MoveAsideFreesCurrent(p, s.disk, c.faults);
    var t := Step(p, s, c);
    forall q ensures !At(t, q) {
      if At(t, q) {
        assert t.disk.names[q] in t.disk.names.Values;
        var m :| m in s.disk.names && s.disk.names[m] == t.file;
        assert At(s, m);
      }
    }
  }

  /** The comment "not lost" holds exactly while fewer than `keep` rotations in a row were
      unable to create: from then on the writer appends to a file with no name. */
  lemma NotLostIffFewerThanKeep(p: Params, s: LogState, calls: seq<Call>)
    requires Valid(s) && At(s, 0) && calls != []
    requires forall k | 0 <= k < |calls| :: calls[k].faults == NO_CREATE
    requires NeedsRotation(p, s.len, |calls[0].buf|)
    ensures Linked(Run(p, s, calls)) <==> |calls| < p.keep
    ensures Run(p, s, calls).file == s.file
  {
    NoCreateRun(p, s, calls);
  }

  /** Other failures can take the last step: after keep-1 calls that could not create, one
      whose renames all fail removes the file, although it is not such a call. */
  lemma MixedFaultsLose(p: Params, s: LogState, calls: seq<Call>, last: Call)
    requires Valid(s) && At(s, 0) && p.keep >= 2 && |calls| == p.keep - 1
    requires forall k | 0 <= k < |calls| :: calls[k].faults == NO_CREATE
    requires NeedsRotation(p, s.len, |calls[0].buf|)
    requires last.faults.reopen && !last.faults.remove
    ensures !Linked(Run(p, s, calls + [last])) && Run(p, s, calls + [last]).file == s.file
  {
    NoCreateRun(p, s, calls);
    assert (calls + [last])[..|calls|] == calls;
    OldestStep(p, Run(p, s, calls), last);
  }

  /** With keep = 3: two calls that cannot create, then one that can remove but not rename
      or reopen, and the writer's file has no name. */
  lemma LostAfterTwoOfThree()
    ensures var s := Opened(Disk(map[0 := 0], [[65]]));
            var p, stuck := Params(1, 3), Faults(false, {0, 1, 2}, false, true);
            && Valid(s) && At(s, 0) && stuck != NO_CREATE
            && !Linked(Run(p, s, [Call([66], NO_CREATE), Call([67], NO_CREATE)] + [Call([68], stuck)]))
  {
    var s := Opened(Disk(map[0 := 0], [[65]]));
    OpenIsValid(Disk(map[0 := 0], [[65]]));
    MixedFaultsLose(Params(1, 3), s, [Call([66], NO_CREATE), Call([67], NO_CREATE)],
                    Call([68], Faults(false, {0, 1, 2}, false, true)));
  }

  /** A file without a name never gets one again, in any run. */
  lemma {:induction false} LostForGood(p: Params, s: LogState, calls: seq<Call>, i: Inode)
    requires InRange(s) && i < |s.disk.data| && i !in s.disk.names.Values
    ensures i !in Run(p, s, calls).disk.names.Values
    ensures i < |Run(p, s, calls).disk.data|
    decreases |calls|
  {
    hide Step;
    if calls != [] {
      var n := |calls| - 1;
      LostForGood(p, s, calls[..n], i);
      StepLeavesUnlinked(p, Run(p, s, calls[..n]), calls[n], i);
    }
  }

  lemma StepLeavesUnlinked(p: Params, s: LogState, c: Call, i: Inode)
    requires InRange(s) && i < |s.disk.data| && i !in s.disk.names.Values
    ensures var t := Step(p, s, c); i < |t.disk.data| && i !in t.disk.names.Values
  {
    RotateIfNeededKeepsInRange(p, s, |c.buf|, c.faults);
    MoveAsideKeepsInodes(p, s.disk, c.faults);
    var moved := MoveAside(p, s.disk, c.faults).0;
    assert i !in moved.names.Values;
    assert i !in OpenAppend(moved, 0).0.names.Values;
  }

  /** A call that rotates, or whose recovery can open, ends with the open file current,
      from any state. */
  lemma Heals(p: Params, s: LogState, c: Call)
    requires InRange(s) && NeedsRotation(p, s.len, |c.buf|)
    requires !c.faults.reopen || (MovesAside(p, s.disk, c.faults) && !c.faults.open)
    ensures At(Step(p, s, c), 0)
  {
    RotateIfNeededKeepsInRange(p, s, |c.buf|, c.faults);
    MovesAsideIsMoveAside(p, s.disk, c.faults);
    MoveAsideKeepsInodes(p, s.disk, c.faults);
    MoveAsideFreesCurrent(p, s.disk, c.faults);
  }

  // ---- Names and diagnostics ----

  lemma StepNames(p: Params, s: LogState, c: Call, n: Slot)
    requires InRange(s) && n in Step(p, s, c).disk.names
    ensures n in s.disk.names || n == 0 || n < p.keep
  {
    RotateIfNeededKeepsInRange(p, s, |c.buf|, c.faults);
    if p.keep >= 2 {
      var start := if c.faults.remove then s.disk else Unlink(s.disk, p.keep - 1);
      if n in ShiftRotated(start, p.keep - 2, c.faults.renames).0.names {
        ShiftNames(start, p.keep - 2, c.faults.renames, n);
      }
    }
  }

  /** No name past `.keep-1` (past the current one for keep <= 1) is ever created. */
  lemma {:induction false} NoNameBeyondKeep(p: Params, s: LogState, calls: seq<Call>, n: Slot)
    requires InRange(s) && n in Run(p, s, calls).disk.names
    ensures n in s.disk.names || n == 0 || n < p.keep
    decreases |calls|
  {
    hide Step;
    if calls != [] {
      var m := |calls| - 1;
      StepNames(p, Run(p, s, calls[..m]), calls[m], n);
      if n in Run(p, s, calls[..m]).disk.names {
        NoNameBeyondKeep(p, s, calls[..m], n);
      }
    }
  }

  /** Whether each attempted rotation of a run succeeded, in order. */
  function Attempts(p: Params, s: LogState, calls: seq<Call>): seq<bool>
    requires InRange(s)
    decreases |calls|
  {
    if calls == [] then []
    else
      var n := |calls| - 1;
      var before := Run(p, s, calls[..n]);
      Attempts(p, s, calls[..n]) +
      if NeedsRotation(p, before.len, |calls[n].buf|)
      then [Rotate(p, before, calls[n].faults).1.Rotated?] else []
  }

  /** The failures that begin an episode: the first attempt, or right after a success. */
  predicate BeginsEpisode(attempts: seq<bool>, k: nat)
    requires k < |attempts|
  {
    !attempts[k] && (k == 0 || attempts[k - 1])
  }

  ghost function Episodes(attempts: seq<bool>): set<nat> {
    set k: nat | k < |attempts| && BeginsEpisode(attempts, k)
  }

  lemma EpisodesGrow(attempts: seq<bool>, ok: bool)
    ensures |Episodes(attempts + [ok])| == |Episodes(attempts)| +
            if !ok && (attempts == [] || attempts[|attempts| - 1]) then 1 else 0
  {
    var n := |attempts|;
    assert forall k: nat | k < n :: BeginsEpisode(attempts + [ok], k) == BeginsEpisode(attempts, k);
    if !ok && (n == 0 || attempts[n - 1]) {
      assert Episodes(attempts + [ok]) == Episodes(attempts) + {n};
    } else {
      assert Episodes(attempts + [ok]) == Episodes(attempts);
    }
  }

  lemma StepMessages(p: Params, s: LogState, c: Call)
    requires InRange(s)
    ensures var t := Step(p, s, c);
            if !NeedsRotation(p, s.len, |c.buf|) then
              t.messages == s.messages && t.reported == s.reported
            else if Rotate(p, s, c.faults).1.Rotated? then
              t.messages == s.messages && !t.reported
            else
              t.messages == s.messages + (if s.reported then 0 else 1) && t.reported
  {
    RotateIfNeededKeepsInRange(p, s, |c.buf|, c.faults);
  }

  /** One diagnostic per failure episode, over every run from an unlatched state. */
  lemma {:induction false} OneMessagePerEpisode(p: Params, s: LogState, calls: seq<Call>)
    requires InRange(s) && !s.reported
    ensures var t, tried := Run(p, s, calls), Attempts(p, s, calls);
            && t.messages == s.messages + |Episodes(tried)|
            && (t.reported <==> tried != [] && !tried[|tried| - 1])
    decreases |calls|
  {
    hide Step;
    hide Rotate;
    if calls == [] {
      assert Episodes([]) == {};
    } else {
      var n := |calls| - 1;
      var before, c := Run(p, s, calls[..n]), calls[n];
      OneMessagePerEpisode(p, s, calls[..n]);
      StepMessages(p, before, c);
      var tried := Attempts(p, s, calls[..n]);
      if NeedsRotation(p, before.len, |c.buf|) {
        EpisodesGrow(tried, Rotate(p, before, c.faults).1.Rotated?);
      } else {
        assert tried + [] == tried;
      }
    }
  }
}
