/** The log writer of crates/common/src/logfile.rs, each method against its meaning in
    `LogModel`. */
module RotatingLog {
  import opened Prelude
  import opened LogModel
  import Model = LogModel

  /** The log writer. The file system it changes is its field `disk`. */
  class RotatingFile {
    const params: Params
    var disk: Disk
    var file: Inode
    var len: nat
    var reported: bool
    /** Diagnostics printed on stderr so far. */
    var messages: nat

    function State(): LogState
      reads this
    {
      LogState(disk, file, len, reported, messages)
    }

    /** Opens or creates the current file, taking its length. */
    constructor (p: Params, d: Disk)
      requires forall n | n in d.names :: d.names[n] < |d.data|
      ensures params == p
      ensures State() == Opened(d)
      ensures InRange(State())
    {
      var (e, i) := OpenAppend(d, 0);
      params := p;
      disk, file, len := e, i, |e.data[i]|;
      reported, messages := false, 0;
    }

    method Rotate(f: Faults) returns (r: Rotation)
      modifies this
      ensures (State(), r) == Model.Rotate(params, old(State()), f)
    {
      if params.keep >= 2 {
        if !f.remove {
          disk := Unlink(disk, params.keep - 1);
        }
        var i := params.keep - 2;
        ghost var whole := ShiftRotated(disk, i, f.renames);
        while i > 0
          invariant 0 <= i
          invariant ShiftRotated(disk, i, f.renames) == whole
          invariant State() == old(State()).(disk := disk)
        {
          if i in disk.names {
            if i in f.renames {
              return MoveFailed;
            }
            disk := Move(disk, i, i + 1);
          }
          i := i - 1;
        }
        if 0 in f.renames || 0 !in disk.names {
          return MoveFailed;
        }
        disk := Move(disk, 0, 1);
      } else {
        if f.remove || 0 !in disk.names {
          return MoveFailed;
        }
        disk := Unlink(disk, 0);
      }
      if f.open {
        return OpenFailed;
      }
      var (d, i) := OpenAppend(disk, 0);
      disk, file := d, i;
      len := 0;
      r := Rotated;
    }

    method Recover(f: Faults)
      requires InRange(State())
      modifies this
      ensures State() == Model.Recover(old(State()), f)
    {
      if !reported {
        messages := messages + 1;
        reported := true;
      }
      if !f.reopen {
        var (d, i) := OpenAppend(disk, 0);
        disk, file := d, i;
      }
      len := |disk.data[file]|;
    }

    method RotateIfNeeded(incoming: nat, f: Faults)
      requires InRange(State())
      modifies this
      ensures State() == Model.RotateIfNeeded(params, old(State()), incoming, f)
    {
      if NeedsRotation(params, len, incoming) {
        RotateKeepsInRange(params, State(), f);
        var r := Rotate(f);
        if r.Rotated? {
          reported := false;
        } else {
          Recover(f);
        }
      }
    }

    method RotateIfOverCap(f: Faults)
      requires InRange(State())
      modifies this
      ensures State() == Model.RotateIfNeeded(params, old(State()), 0, f)
    {
      RotateIfNeeded(0, f);
    }

    method Write(buf: seq<Byte>, f: Faults) returns (n: nat)
      requires InRange(State())
      modifies this
      ensures State() == Model.Write(params, old(State()), buf, f)
      ensures InRange(State())
      ensures n == |buf|
    {
      RotateIfNeededKeepsInRange(params, State(), |buf|, f);
      RotateIfNeeded(|buf|, f);
      disk := Append(disk, file, buf);
      len := len + |buf|;
      n := |buf|;
    }
  }
}
