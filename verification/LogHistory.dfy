/** Fault-free rotation as a window on one unbounded log: crates/common/src/logfile.rs
    keeps exactly the last `keep` generations of a log that never deletes anything. */
module LogHistory {
  import opened Prelude
  import opened LogModel
  import opened LogFaults

  /** The pieces of one file in order: its contents at open, or the writes since. */
  type Generation = seq<seq<Byte>>

  /** Every file the log ever had, oldest first; the last is the current one. A slot that
      was missing at open is `None`. */
  type History = seq<Option<Generation>>

  /** How many slots the log uses, the current one included. */
  function Window(p: Params): (w: nat)
    ensures w >= 1
  {
    if p.keep >= 2 then p.keep else 1
  }

  ghost predicate Current(h: History) {
    h != [] && h[|h| - 1].Some?
  }

  /** The unbounded log: a write goes to the current file or begins the next one. */
  function Logged(p: Params, h: History, buf: seq<Byte>): (k: History)
    requires Current(h)
    ensures Current(k)
  {
    var n := |h| - 1;
    var g := h[n].value;
    if NeedsRotation(p, |Concat(g)|, |buf|) then h + [Some([buf])]
    else h[..n] + [Some(g + [buf])]
  }

  function HistoryAtOpen(p: Params, s: LogState): (h: History)
    requires InRange(s)
    ensures |h| == Window(p)
  {
    seq(Window(p), j requires 0 <= j < Window(p) =>
      var slot := Window(p) - 1 - j;
      if slot in s.disk.names then Some([s.disk.data[s.disk.names[slot]]]) else None)
  }

  function HistoryAfter(p: Params, h: History, bufs: seq<seq<Byte>>): (k: History)
    requires Current(h)
    ensures Current(k)
    decreases |bufs|
  {
    if bufs == [] then h
    else Logged(p, HistoryAfter(p, h, bufs[..|bufs| - 1]), bufs[|bufs| - 1])
  }

  /** Slot j holds the j-th newest generation, or is missing as it was. */
  ghost predicate Holds(s: LogState, h: History, j: Slot)
    requires InRange(s) && j < |h|
  {
    match h[|h| - 1 - j]
    case None => j !in s.disk.names
    case Some(g) => j in s.disk.names && s.disk.data[s.disk.names[j]] == Concat(g)
  }

  /** The disk is exactly the newest `keep` generations of the history. */
  ghost predicate Refines(p: Params, s: LogState, h: History) {
    && Valid(s) && At(s, 0) && Current(h) && |h| >= Window(p)
    && forall j | 0 <= j < Window(p) :: Holds(s, h, j)
  }

  function FaultFree(bufs: seq<seq<Byte>>): seq<Call> {
    seq(|bufs|, k requires 0 <= k < |bufs| => Call(bufs[k], NO_FAULTS))
  }

  lemma OpenRefines(p: Params, s: LogState)
    requires Valid(s) && At(s, 0)
    ensures Refines(p, s, HistoryAtOpen(p, s))
  {
    var h := HistoryAtOpen(p, s);
    forall j | 0 <= j < Window(p) ensures Holds(s, h, j) {
      if j in s.disk.names {
        ConcatOne(s.disk.data[s.disk.names[j]]);
      }
    }
  }

  /** A fault-free rotation in terms of slots: each kept one takes its predecessor's file,
      the current one is new and holds only the triggering write. */
  lemma StepRotates(p: Params, s: LogState, buf: seq<Byte>, j: Slot)
    requires Valid(s) && At(s, 0) && NeedsRotation(p, s.len, |buf|) && j < Window(p)
    ensures var t := Step(p, s, Call(buf, NO_FAULTS));
            && t.file == |s.disk.data| && At(t, 0) && t.disk.data == s.disk.data + [buf]
            && (j > 0 ==> Lookup(t.disk, j) == Lookup(s.disk, j - 1))
  {
    var f := NO_FAULTS;
    RotateIfNeededKeepsInRange(p, s, |buf|, f);
    MoveAsideKeepsInodes(p, s.disk, f);
    MovesAsideIsMoveAside(p, s.disk, f);
    MoveAsideFreesCurrent(p, s.disk, f);
    if p.keep >= 2 {
      MoveAsideShifts(p, s.disk, f, j);
    }
    var t := RotateIfNeeded(p, s, |buf|, f);
    assert t.disk.data == s.disk.data + [[]] && t.file == |s.disk.data|;
    assert [] + buf == buf;
    assert Append(t.disk, t.file, buf).data == s.disk.data + [buf];
  }

  lemma StepRefines(p: Params, s: LogState, h: History, buf: seq<Byte>)
    requires Refines(p, s, h)
    ensures Refines(p, Step(p, s, Call(buf, NO_FAULTS)), Logged(p, h, buf))
  {
    var c := Call(buf, NO_FAULTS);
    var t, k := Step(p, s, c), Logged(p, h, buf);
    StepKeepsValid(p, s, c);
    assert Holds(s, h, 0);
    var g := h[|h| - 1].value;
    if NeedsRotation(p, s.len, |buf|) {
      forall j | 0 <= j < Window(p) ensures Holds(t, k, j) {
        StepRotates(p, s, buf, j);
        if j == 0 {
          ConcatOne(buf);
        } else {
          assert Holds(s, h, j - 1);
        }
      }
      StepRotates(p, s, buf, 0);
    } else {
      ConcatAppend(g, [buf]);
      ConcatOne(buf);
      forall j | 0 <= j < Window(p) ensures Holds(t, k, j) {
        assert Holds(s, h, j);
      }
    }
  }

  /** A fault-free write begins a file exactly when the current one is not empty and cannot
      take it within the limit. */
  lemma BeginsFileIff(p: Params, s: LogState, buf: seq<Byte>)
    requires Valid(s) && At(s, 0)
    ensures |Step(p, s, Call(buf, NO_FAULTS)).disk.data| == |s.disk.data| + 1 <==>
            0 < s.len && s.len + |buf| > p.maxBytes && p.maxBytes < U64_MAX
  {
    if 0 < s.len && s.len + |buf| > p.maxBytes && p.maxBytes < U64_MAX {
      StepRotates(p, s, buf, 0);
    } else {
      AppendsInPlace(p, s, Call(buf, NO_FAULTS));
    }
  }

  /** Every fault-free run leaves on disk exactly the newest generations of the unbounded
      log. */
  lemma {:induction false} RunRefines(p: Params, s: LogState, bufs: seq<seq<Byte>>)
    requires Valid(s) && At(s, 0)
    ensures Current(HistoryAtOpen(p, s))
    ensures Refines(p, Run(p, s, FaultFree(bufs)), HistoryAfter(p, HistoryAtOpen(p, s), bufs))
    decreases |bufs|
  {
    hide Step;
    hide Logged;
    OpenRefines(p, s);
    if bufs != [] {
      var n := |bufs| - 1;
      RunRefines(p, s, bufs[..n]);
      assert FaultFree(bufs)[..n] == FaultFree(bufs[..n]);
      StepRefines(p, Run(p, s, FaultFree(bufs[..n])), HistoryAfter(p, HistoryAtOpen(p, s), bufs[..n]), bufs[n]);
    }
  }

  // ---- What is read back is a suffix of everything logged ----

  /** All pieces of a history in order. */
  function Pieces(h: History): seq<seq<Byte>> {
    if h == [] then []
    else Pieces(h[..|h| - 1]) + if h[|h| - 1].Some? then h[|h| - 1].value else []
  }

  /** The slots j-1 down to 0 read in order, skipping missing ones. */
  function ReadBack(s: LogState, j: nat): seq<Byte>
    requires InRange(s)
  {
    if j == 0 then []
    else (if j - 1 in s.disk.names then s.disk.data[s.disk.names[j - 1]] else []) + ReadBack(s, j - 1)
  }

  lemma {:induction false} PiecesAppend(a: History, b: History)
    ensures Pieces(a + b) == Pieces(a) + Pieces(b)
    decreases |b|
  {
    if b == [] {
      assert a + b == a;
    } else {
      assert (a + b)[..|a + b| - 1] == a + b[..|b| - 1];
      PiecesAppend(a, b[..|b| - 1]);
    }
  }

  lemma LoggedAddsPiece(p: Params, h: History, buf: seq<Byte>)
    requires Current(h)
    ensures Pieces(Logged(p, h, buf)) == Pieces(h) + [buf]
  {
    var n := |h| - 1;
    var g := h[n].value;
    if NeedsRotation(p, |Concat(g)|, |buf|) {
      assert (h + [Some([buf])])[..|h|] == h;
    } else {
      var k := h[..n] + [Some(g + [buf])];
      assert k[..n] == h[..n];
    }
  }

  lemma {:induction false} HistoryIsEverything(p: Params, h: History, bufs: seq<seq<Byte>>)
    requires Current(h)
    ensures Pieces(HistoryAfter(p, h, bufs)) == Pieces(h) + bufs
    decreases |bufs|
  {
    hide Logged;
    hide Pieces;
    if bufs != [] {
      var n := |bufs| - 1;
      HistoryIsEverything(p, h, bufs[..n]);
      LoggedAddsPiece(p, HistoryAfter(p, h, bufs[..n]), bufs[n]);
      assert bufs[..n] + [bufs[n]] == bufs;
    }
  }

  lemma {:induction false} ReadBackIsTail(p: Params, s: LogState, h: History, j: nat)
    requires Refines(p, s, h) && j <= Window(p)
    ensures ReadBack(s, j) == Concat(Pieces(h[|h| - j..]))
    decreases j
  {
    if j == 0 {
      assert h[|h|..] == [];
    } else {
      ReadBackIsTail(p, s, h, j - 1);
      assert Holds(s, h, j - 1);
      hide Valid;
      hide At;
      var first := h[|h| - j];
      assert h[|h| - j..] == [first] + h[|h| - (j - 1)..];
      PiecesAppend([first], h[|h| - (j - 1)..]);
      assert [first][..0] == [];
      var own := if first.Some? then first.value else [];
      assert Pieces([first]) == own;
      ConcatAppend(own, Pieces(h[|h| - (j - 1)..]));
    }
  }

  /** What is on disk at open, slot by slot, oldest first. */
  function PiecesAtOpen(p: Params, s: LogState): seq<seq<Byte>>
    requires InRange(s)
  {
    Pieces(HistoryAtOpen(p, s))
  }

  lemma SplitPieces(h: History, m: nat)
    requires m <= |h|
    ensures Pieces(h) == Pieces(h[..m]) + Pieces(h[m..])
  {
    hide Pieces;
    PiecesAppend(h[..m], h[m..]);
    assert h[..m] + h[m..] == h;
  }

  /** A disk that refines a history reads back a suffix of the history's pieces. */
  lemma TailIsSuffix(p: Params, t: LogState, h: History, all: seq<seq<Byte>>) returns (dropped: nat)
    requires Refines(p, t, h) && Pieces(h) == all
    ensures dropped <= |all| && ReadBack(t, Window(p)) == Concat(all[dropped..])
  {
    var m := |h| - Window(p);
    ReadBackIsTail(p, t, h, Window(p));
    SplitPieces(h, m);
    hide Refines;
    hide Pieces;
    hide ReadBack;
    hide Concat;
    dropped := |Pieces(h[..m])|;
    assert all[dropped..] == Pieces(h[m..]);
  }

  /** Reading the kept files oldest first gives a suffix of (the files at open followed by
      all writes), cut only between whole pieces. */
  lemma ReadBackIsSuffix(p: Params, s: LogState, bufs: seq<seq<Byte>>) returns (dropped: nat)
    requires Valid(s) && At(s, 0)
    ensures dropped <= |PiecesAtOpen(p, s) + bufs|
    ensures ReadBack(Run(p, s, FaultFree(bufs)), Window(p)) == Concat((PiecesAtOpen(p, s) + bufs)[dropped..])
  {
    RunRefines(p, s, bufs);
    hide Run;
    hide Refines;
    hide ReadBack;
    hide Pieces;
    hide Concat;
    hide HistoryAfter;
    hide HistoryAtOpen;
    var h0 := HistoryAtOpen(p, s);
    HistoryIsEverything(p, h0, bufs);
    dropped := TailIsSuffix(p, Run(p, s, FaultFree(bufs)), HistoryAfter(p, h0, bufs), PiecesAtOpen(p, s) + bufs);
  }

  // ---- Size and retention ----

  function Size(g: Option<Generation>): nat {
    if g.Some? then |Concat(g.value)| else 0
  }

  /** At most the limit, or a single nonempty write. The last disjunct is the limit that
      `saturating_add` can never exceed. */
  ghost predicate Bounded(p: Params, g: Generation) {
    || |Concat(g)| <= p.maxBytes
    || (exists k :: 0 <= k < |g| && g[k] == Concat(g))
    || p.maxBytes >= U64_MAX
  }

  /** Generation k and the one before it together exceed the limit. */
  ghost predicate Crowded(p: Params, h: History, k: nat)
    requires 1 <= k < |h|
  {
    Size(h[k - 1]) + Size(h[k]) > p.maxBytes
  }

  /** Files begun after open are bounded; each rotated one and its successor together
      exceed the limit. `open` is the number of generations at open. */
  ghost predicate Packed(p: Params, h: History, open: nat) {
    && 1 <= open <= |h|
    && (forall k | open <= k < |h| :: h[k].Some? && Bounded(p, h[k].value))
    && (forall k | open <= k < |h| :: Crowded(p, h, k))
  }

  lemma AppendBounded(p: Params, g: Generation, buf: seq<Byte>)
    requires !NeedsRotation(p, |Concat(g)|, |buf|)
    ensures |Concat(g + [buf])| == |Concat(g)| + |buf|
    ensures Bounded(p, g + [buf])
  {
    ConcatAppend(g, [buf]);
    ConcatOne(buf);
    if Concat(g) == [] {
      assert (g + [buf])[|g|] == Concat(g + [buf]);
    }
  }

  /** The last generation of the log after one more write. */
  lemma LoggedLast(p: Params, h: History, buf: seq<Byte>)
    requires Current(h)
    ensures var k := Logged(p, h, buf);
            var n := |k| - 1;
            && Bounded(p, k[n].value) && k[..|h| - 1] == h[..|h| - 1]
            && (n == |h| ==> k[..n] == h && Size(h[n - 1]) + Size(k[n]) > p.maxBytes)
            && (n == |h| - 1 ==> Size(k[n]) >= Size(h[n]))
            && |h| - 1 <= n <= |h|
  {
    var g := h[|h| - 1].value;
    ConcatOne(buf);
    if NeedsRotation(p, |Concat(g)|, |buf|) {
      assert [buf][0] == Concat([buf]);
    } else {
      AppendBounded(p, g, buf);
    }
  }

  lemma LoggedStaysPacked(p: Params, h: History, open: nat, buf: seq<Byte>)
    requires Current(h) && Packed(p, h, open)
    ensures Packed(p, Logged(p, h, buf), open)
  {
    var l := Logged(p, h, buf);
    LoggedLast(p, h, buf);
    hide Logged;
    hide Bounded;
    hide Size;
    forall k | open <= k < |l| ensures l[k].Some? && Bounded(p, l[k].value) && Crowded(p, l, k) {
      if k < |h| {
        assert Crowded(p, h, k);
      }
    }
  }

  /** The unbounded log begins a generation exactly when the last one is not empty and cannot
      take the write within the limit. */
  lemma BeginsGenerationIff(p: Params, h: History, buf: seq<Byte>)
    requires Current(h)
    ensures |Logged(p, h, buf)| == |h| + 1 <==>
            0 < Size(h[|h| - 1]) && Size(h[|h| - 1]) + |buf| > p.maxBytes && p.maxBytes < U64_MAX
  {
  }

  /** Whatever is rotated away holds something. */
  lemma {:induction false} SetAsideIsNotEmpty(p: Params, h: History, bufs: seq<seq<Byte>>, k: nat)
    requires Current(h) && |h| - 1 <= k < |HistoryAfter(p, h, bufs)| - 1
    ensures Size(HistoryAfter(p, h, bufs)[k]) > 0
    decreases |bufs|
  {
    hide Size;
    var n := |bufs| - 1;
    var before := HistoryAfter(p, h, bufs[..n]);
    BeginsGenerationIff(p, before, bufs[n]);
    LoggedLast(p, before, bufs[n]);
    hide Logged;
    if k < |before| - 1 {
      SetAsideIsNotEmpty(p, h, bufs[..n], k);
    }
  }

  lemma {:induction false} HistoryPacked(p: Params, h: History, bufs: seq<seq<Byte>>)
    requires Current(h)
    ensures Packed(p, HistoryAfter(p, h, bufs), |h|)
    decreases |bufs|
  {
    if bufs != [] {
      var n := |bufs| - 1;
      HistoryPacked(p, h, bufs[..n]);
      hide Logged;
      hide Packed;
      LoggedStaysPacked(p, HistoryAfter(p, h, bufs[..n]), |h|, bufs[n]);
    }
  }

  /** Without faults every attempted rotation adds one generation. */
  lemma {:induction false} RotationsAreGenerations(p: Params, s: LogState, bufs: seq<seq<Byte>>)
    requires Valid(s) && At(s, 0)
    ensures Current(HistoryAtOpen(p, s))
    ensures |HistoryAfter(p, HistoryAtOpen(p, s), bufs)| ==
            Window(p) + |Attempts(p, s, FaultFree(bufs))|
    decreases |bufs|
  {
    hide Step;
    OpenRefines(p, s);
    if bufs != [] {
      var n := |bufs| - 1;
      RotationsAreGenerations(p, s, bufs[..n]);
      RunRefines(p, s, bufs[..n]);
      assert FaultFree(bufs)[..n] == FaultFree(bufs[..n]);
      var before, h := Run(p, s, FaultFree(bufs[..n])), HistoryAfter(p, HistoryAtOpen(p, s), bufs[..n]);
      assert Holds(before, h, 0);
    }
  }

  /** A kept file begun after open is within the limit or is exactly one write. */
  lemma KeptFileBounded(p: Params, s: LogState, bufs: seq<seq<Byte>>, j: Slot)
    requires Valid(s) && At(s, 0) && j < Window(p)
    requires j < |Attempts(p, s, FaultFree(bufs))|
    ensures var d := Run(p, s, FaultFree(bufs)).disk;
            && j in d.names
            && (|| |d.data[d.names[j]]| <= p.maxBytes
                || d.data[d.names[j]] in bufs
                || p.maxBytes >= U64_MAX)
  {
    hide *;
    ValidIsInRange(s);
    RunRefines(p, s, bufs);
    RotationsAreGenerations(p, s, bufs);
    var h0 := HistoryAtOpen(p, s);
    var h := HistoryAfter(p, h0, bufs);
    HistoryPacked(p, h0, bufs);
    var i := SlotBounded(p, Run(p, s, FaultFree(bufs)), h, |h0|, j);
    if i.Some? {
      LaterPiecesAreWrites(p, h0, bufs, |h| - 1 - j, i.value);
    }
  }

  lemma ValidIsInRange(s: LogState)
    requires Valid(s)
    ensures InRange(s)
  {
  }

  /** A slot that holds a generation begun after open: within the limit, or the piece that
      is all of it. */
  lemma SlotBounded(p: Params, t: LogState, h: History, open: nat, j: Slot) returns (i: Option<nat>)
    requires Refines(p, t, h) && Packed(p, h, open) && j < Window(p) && open + j < |h|
    ensures var g := h[|h| - 1 - j];
            && g.Some? && j in t.disk.names
            && (i.None? ==> |t.disk.data[t.disk.names[j]]| <= p.maxBytes || p.maxBytes >= U64_MAX)
            && (i.Some? ==> i.value < |g.value| && g.value[i.value] == t.disk.data[t.disk.names[j]])
  {
    hide Crowded;
    hide Concat;
    assert Holds(t, h, j);
    var g := h[|h| - 1 - j].value;
    assert Bounded(p, g);
    i := None;
    if |Concat(g)| > p.maxBytes && p.maxBytes < U64_MAX {
      var k :| 0 <= k < |g| && g[k] == Concat(g);
      i := Some(k);
    }
  }

  /** A piece of a file begun after open is one of the writes. */
  lemma {:induction false} LaterPiecesAreWrites(p: Params, h: History, bufs: seq<seq<Byte>>, k: nat, i: nat)
    requires Current(h) && |h| <= k < |HistoryAfter(p, h, bufs)|
    requires HistoryAfter(p, h, bufs)[k].Some? && i < |HistoryAfter(p, h, bufs)[k].value|
    ensures HistoryAfter(p, h, bufs)[k].value[i] in bufs
    decreases |bufs|
  {
    if bufs != [] {
      var n := |bufs| - 1;
      var before := HistoryAfter(p, h, bufs[..n]);
      if k < |before| && before[k].Some? && i < |before[k].value| {
        LaterPiecesAreWrites(p, h, bufs[..n], k, i);
      } else {
        assert HistoryAfter(p, h, bufs)[k].value[i] == bufs[n];
      }
    }
  }

  /** Two neighbouring slots read back their generations. */
  lemma PairRead(p: Params, s: LogState, h: History, j: nat)
    requires Refines(p, s, h) && 2 <= j <= Window(p)
    ensures |ReadBack(s, j)| == Size(h[|h| - j]) + Size(h[|h| - j + 1]) + |ReadBack(s, j - 2)|
  {
    assert Holds(s, h, j - 1) && Holds(s, h, j - 2);
    assert |ReadBack(s, j - 1)| == Size(h[|h| - j + 1]) + |ReadBack(s, j - 2)|;
  }

  lemma {:induction false} PairsFill(p: Params, s: LogState, h: History, open: nat, pairs: nat)
    requires Refines(p, s, h) && Packed(p, h, open)
    requires 2 * pairs <= Window(p) && open - 1 + 2 * pairs <= |h|
    ensures |ReadBack(s, 2 * pairs)| >= pairs * (p.maxBytes + 1)
    decreases pairs
  {
    hide ReadBack;
    hide Refines;
    hide Bounded;
    hide Size;
    if pairs > 0 {
      PairsFill(p, s, h, open, pairs - 1);
      PairRead(p, s, h, 2 * pairs);
      var k := |h| - (2 * pairs - 1);
      assert Crowded(p, h, k);
      OneMorePair(pairs, p.maxBytes + 1);
    }
  }

  lemma OneMorePair(pairs: nat, size: nat)
    requires pairs > 0
    ensures pairs * size == (pairs - 1) * size + size
  {
  }

  lemma {:induction false} ReadBackGrows(s: LogState, i: nat, j: nat)
    requires InRange(s) && i <= j
    ensures |ReadBack(s, i)| <= |ReadBack(s, j)|
    decreases j
  {
    if i < j {
      ReadBackGrows(s, i, j - 1);
    }
  }

  lemma Exceeds(total: nat, half: nat, max: nat)
    requires half > 0 && total >= half * (max + 1)
    ensures total > half * max
  {
    assert half * (max + 1) == half * max + half;
  }

  /** After keep-1 rotations the kept files hold more than floor(keep/2) * maxBytes bytes. */
  lemma RetainsHalf(p: Params, s: LogState, bufs: seq<seq<Byte>>)
    requires Valid(s) && At(s, 0) && p.keep >= 2
    requires |Attempts(p, s, FaultFree(bufs))| >= p.keep - 1
    ensures |ReadBack(Run(p, s, FaultFree(bufs)), p.keep)| > (p.keep / 2) * p.maxBytes
  {
    hide Step;
    hide Logged;
    hide Packed;
    hide Refines;
    RunRefines(p, s, bufs);
    RotationsAreGenerations(p, s, bufs);
    var h0 := HistoryAtOpen(p, s);
    HistoryPacked(p, h0, bufs);
    var t := Run(p, s, FaultFree(bufs));
    var half := p.keep / 2;
    PairsFill(p, t, HistoryAfter(p, h0, bufs), |h0|, half);
    ReadBackGrows(t, 2 * half, p.keep);
    Exceeds(|ReadBack(t, p.keep)|, half, p.maxBytes);
  }
}
