/** The size-rotated log of crates/common/src/logfile.rs over a small file system in
    which any remove, rename or open may fail. `write_all` and `metadata` succeed. */
module LogModel {
  import opened Prelude

  /** A directory entry of the log: 0 is the current file, n >= 1 is its `.n`. */
  type Slot = nat

  /** A file, as an index into `Disk.data`; it outlives its last name. */
  type Inode = nat

  const U64_MAX: nat := 0xFFFF_FFFF_FFFF_FFFF

  datatype Disk = Disk(names: map<Slot, Inode>, data: seq<seq<Byte>>)

  datatype Params = Params(maxBytes: nat, keep: nat)

  /** What fails during one call: the removal, the renames whose source is listed, the
      open at the end of a rotation, the reopen of the recovery. */
  datatype Faults = Faults(remove: bool, renames: set<Slot>, open: bool, reopen: bool)

  const NO_FAULTS := Faults(false, {}, false, false)

  /** How `rotate` ended, with the step that failed. */
  datatype Rotation = Rotated | MoveFailed | OpenFailed

  datatype LogState = LogState(disk: Disk, file: Inode, len: nat, reported: bool, messages: nat)

  function Lookup(d: Disk, s: Slot): Option<Inode> {
    if s in d.names then Some(d.names[s]) else None
  }

  // ---- System calls ----

  function Unlink(d: Disk, s: Slot): Disk {
    d.(names := d.names - {s})
  }

  function Move(d: Disk, from: Slot, to: Slot): Disk
    requires from in d.names && from != to
  {
    d.(names := (d.names - {from})[to := d.names[from]])
  }

  /** `create(true).append(true).open`: the named file, or a new empty one. */
  function OpenAppend(d: Disk, s: Slot): (Disk, Inode) {
    if s in d.names then (d, d.names[s])
    else (Disk(d.names[s := |d.data|], d.data + [[]]), |d.data|)
  }

  function Append(d: Disk, i: Inode, bytes: seq<Byte>): Disk
    requires i < |d.data|
  {
    d.(data := d.data[i := d.data[i] + bytes])
  }

  // ---- What the methods below compute ----

  function SaturatingAdd(a: nat, b: nat): nat {
    if a + b > U64_MAX then U64_MAX else a + b
  }

  predicate NeedsRotation(p: Params, len: nat, incoming: nat) {
    len > 0 && SaturatingAdd(len, incoming) > p.maxBytes
  }

  /** `.i` to `.i+1` for i downwards to 1, skipping names that do not exist. */
  function ShiftRotated(d: Disk, i: nat, fail: set<Slot>): (Disk, bool)
    decreases i
  {
    if i == 0 then (d, true)
    else if i !in d.names then ShiftRotated(d, i - 1, fail)
    else if i in fail then (d, false)
    else ShiftRotated(Move(d, i, i + 1), i - 1, fail)
  }

  /** The part of `rotate` before the open: the current name is freed, or it failed. */
  function MoveAside(p: Params, d: Disk, f: Faults): (Disk, bool) {
    if p.keep >= 2 then
      var (shifted, ok) :=
        ShiftRotated(if f.remove then d else Unlink(d, p.keep - 1), p.keep - 2, f.renames);
      if !ok || 0 in f.renames || 0 !in shifted.names then (shifted, false)
      else (Move(shifted, 0, 1), true)
    else if f.remove || 0 !in d.names then (d, false)
    else (Unlink(d, 0), true)
  }

  function Rotate(p: Params, s: LogState, f: Faults): (LogState, Rotation) {
    var (moved, ok) := MoveAside(p, s.disk, f);
    if !ok then (s.(disk := moved), MoveFailed)
    else if f.open then (s.(disk := moved), OpenFailed)
    else
      var (d, file) := OpenAppend(moved, 0);
      (s.(disk := d, file := file, len := 0), Rotated)
  }

  ghost predicate InRange(s: LogState) {
    && s.file < |s.disk.data|
    && forall n | n in s.disk.names :: s.disk.names[n] < |s.disk.data|
  }

  function Recover(s: LogState, f: Faults): LogState
    requires InRange(s)
  {
    var (d, file) := if f.reopen then (s.disk, s.file) else OpenAppend(s.disk, 0);
    LogState(d, file, |d.data[file]|, true, if s.reported then s.messages else s.messages + 1)
  }

  function RotateIfNeeded(p: Params, s: LogState, incoming: nat, f: Faults): LogState
    requires InRange(s)
  {
    if !NeedsRotation(p, s.len, incoming) then s
    else
      RotateKeepsInRange(p, s, f);
      var (t, r) := Rotate(p, s, f);
      if r.Rotated? then t.(reported := false) else Recover(t, f)
  }

  function Write(p: Params, s: LogState, buf: seq<Byte>, f: Faults): LogState
    requires InRange(s)
  {
    RotateIfNeededKeepsInRange(p, s, |buf|, f);
    var t := RotateIfNeeded(p, s, |buf|, f);
    t.(disk := Append(t.disk, t.file, buf), len := t.len + |buf|)
  }

  lemma {:induction false} ShiftKeepsInodes(d: Disk, i: nat, fail: set<Slot>)
    ensures var (e, _) := ShiftRotated(d, i, fail);
            e.data == d.data && e.names.Values <= d.names.Values
    decreases i
  {
    if i > 0 {
      if i !in d.names {
        ShiftKeepsInodes(d, i - 1, fail);
      } else if i !in fail {
        ShiftKeepsInodes(Move(d, i, i + 1), i - 1, fail);
      }
    }
  }

  lemma MoveAsideKeepsInodes(p: Params, d: Disk, f: Faults)
    ensures var (e, _) := MoveAside(p, d, f);
            e.data == d.data && e.names.Values <= d.names.Values
  {
    if p.keep >= 2 {
      var start := if f.remove then d else Unlink(d, p.keep - 1);
      ShiftKeepsInodes(start, p.keep - 2, f.renames);
      assert start.names.Values <= d.names.Values;
      var shifted := ShiftRotated(start, p.keep - 2, f.renames).0;
      assert 0 in shifted.names ==> Move(shifted, 0, 1).names.Values <= shifted.names.Values;
    }
  }

  lemma RotateKeepsInRange(p: Params, s: LogState, f: Faults)
    requires InRange(s)
    ensures InRange(Rotate(p, s, f).0)
  {
    MoveAsideKeepsInodes(p, s.disk, f);
    var moved := MoveAside(p, s.disk, f).0;
    forall n | n in moved.names ensures moved.names[n] < |moved.data| {
      assert moved.names[n] in moved.names.Values;
    }
  }

  lemma RotateIfNeededKeepsInRange(p: Params, s: LogState, incoming: nat, f: Faults)
    requires InRange(s)
    ensures InRange(RotateIfNeeded(p, s, incoming, f))
  {
    if NeedsRotation(p, s.len, incoming) {
      RotateKeepsInRange(p, s, f);
    }
  }

  function Opened(d: Disk): LogState
    requires forall n | n in d.names :: d.names[n] < |d.data|
  {
    var (e, i) := OpenAppend(d, 0);
    LogState(e, i, |e.data[i]|, false, 0)
  }
}
