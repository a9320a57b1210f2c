/** The streaming line collector of crates/cli/src/filter_run.rs: whatever the chunks,
    its result is one function of the concatenated stream. */
module Lines {
  import opened Prelude

  const LINES_MAX: nat := 20_000
  const LINES_TAIL: nat := 5_000
  /** crates/daemon/src/output_filter.rs:33 */
  const LINE_MAX_CHARS: nat := 500
  const LINE_BYTES: nat := LINE_MAX_CHARS * 4 + 48

  const NEWLINE: Byte := 10
  const RETURN: Byte := 13

  // ---- What a stream's lines are ----

  /** The newline-terminated lines of a stream, without their newlines. */
  function Closed(s: seq<Byte>): seq<seq<Byte>> {
    if s == [] then []
    else
      var n := |s| - 1;
      if s[n] == NEWLINE then Closed(s[..n]) + [Rest(s[..n])] else Closed(s[..n])
  }

  /** What follows the last newline. */
  function Rest(s: seq<Byte>): seq<Byte> {
    if s == [] || s[|s| - 1] == NEWLINE then []
    else Rest(s[..|s| - 1]) + [s[|s| - 1]]
  }

  function LinesOf(s: seq<Byte>): seq<seq<Byte>> {
    if Rest(s) == [] then Closed(s) else Closed(s) + [Rest(s)]
  }

  function Terminated(lines: seq<seq<Byte>>): seq<Byte> {
    if lines == [] then [] else Terminated(lines[..|lines| - 1]) + lines[|lines| - 1] + [NEWLINE]
  }

  /** The lines are the stream cut at its newlines and nothing else. */
  lemma {:induction false} LinesAreTheStream(s: seq<Byte>)
    ensures Terminated(Closed(s)) + Rest(s) == s
    ensures NEWLINE !in Rest(s)
    ensures forall k | 0 <= k < |Closed(s)| :: NEWLINE !in Closed(s)[k]
    decreases |s|
  {
    if s != [] {
      var n := |s| - 1;
      LinesAreTheStream(s[..n]);
      assert s == s[..n] + [s[n]];
      if s[n] == NEWLINE {
        var earlier := Closed(s[..n]);
        assert (earlier + [Rest(s[..n])])[..|earlier|] == earlier;
      }
    }
  }

  /** All lines, each ended by a newline, are the stream, to which only a missing last
      newline is added. */
  lemma LinesCoverTheStream(s: seq<Byte>)
    ensures Terminated(LinesOf(s)) == if s == [] || s[|s| - 1] == 10 then s else s + [10]
    ensures forall k | 0 <= k < |LinesOf(s)| :: 10 !in LinesOf(s)[k]
  {
    LinesAreTheStream(s);
    hide Closed;
    if Rest(s) == [] {
      assert Terminated(Closed(s)) + [] == Terminated(Closed(s));
    } else {
      assert (Closed(s) + [Rest(s)])[..|Closed(s)|] == Closed(s);
    }
  }

  // ---- What is kept of them ----

  function Prefix(line: seq<Byte>): seq<Byte> {
    line[..if |line| < LINE_BYTES then |line| else LINE_BYTES]
  }

  function WithoutReturn(line: seq<Byte>): seq<Byte> {
    if line != [] && line[|line| - 1] == RETURN then line[..|line| - 1] else line
  }

  /** A line's first LINE_BYTES bytes, less one trailing CR. */
  function Clip(line: seq<Byte>): seq<Byte> {
    WithoutReturn(Prefix(line))
  }

  /** A CR before the newline is no part of the line, but only one; other bytes are, up to
      the limit. */
  lemma ClipLaws(line: seq<Byte>)
    ensures |line| < 2048 ==> Clip(line + [13]) == line
    ensures |line| <= 2048 && (line == [] || line[|line| - 1] != 13) ==> Clip(line) == line
    ensures |line| > 2048 ==> Clip(line) == Clip(line[..2048])
  {
    if |line| < 2048 {
      assert Prefix(line + [13]) == line + [13];
    }
  }

  function Clipped(lines: seq<seq<Byte>>): (c: seq<seq<Byte>>)
    ensures |c| == |lines|
  {
    seq(|lines|, k requires 0 <= k < |lines| => Clip(lines[k]))
  }

  function Last<T>(xs: seq<T>, n: nat): seq<T> {
    if |xs| <= n then xs else xs[|xs| - n..]
  }

  /** Every line up to LINES_MAX of them, else the last LINES_TAIL. */
  function View(s: seq<Byte>): seq<seq<Byte>> {
    var lines := Clipped(LinesOf(s));
    if |lines| <= LINES_MAX then lines else Last(lines, LINES_TAIL)
  }

  /** What the caller sees: up to 20 000 lines all of them, else the last 5 000, each
      clipped. */
  lemma ViewIsTheEnd(s: seq<Byte>, k: nat)
    requires k < |View(s)|
    ensures var lines := LinesOf(s);
            && |View(s)| == (if |lines| <= 20_000 then |lines| else 5_000)
            && View(s)[k] == Clip(lines[|lines| - |View(s)| + k])
  {
    hide Clip;
    hide LinesOf;
  }

  /** How many of n lines the collector holds: it drains to LINES_TAIL each time it would
      pass LINES_MAX. */
  function Held(n: nat): (h: nat)
    ensures h <= n && h <= LINES_MAX
    ensures n > LINES_MAX ==> h >= LINES_TAIL
  {
    if n <= LINES_MAX then n
    else LINES_TAIL + (n - LINES_MAX - 1) % (LINES_MAX + 1 - LINES_TAIL)
  }

  lemma RemainderStep(m: nat)
    ensures (m + 1) % 15_001 == if m % 15_001 == 15_000 then 0 else m % 15_001 + 1
  {
  }

  lemma HeldStep(n: nat)
    ensures Held(n + 1) == if Held(n) == LINES_MAX then LINES_TAIL else Held(n) + 1
  {
    if n > LINES_MAX {
      RemainderStep(n - LINES_MAX - 1);
      assert n + 1 - LINES_MAX - 1 == n - LINES_MAX - 1 + 1;
    }
  }

  /** Ending a line holds at most LINES_MAX + 1 lines before draining, and drains to what
      `Held` says. */
  lemma LastStep<T>(xs: seq<T>, x: T)
    ensures var k := Last(xs, Held(|xs|)) + [x];
            && |k| <= LINES_MAX + 1
            && Last(xs + [x], Held(|xs| + 1)) == if |k| > LINES_MAX then k[|k| - LINES_TAIL..] else k
  {
    HeldStep(|xs|);
    hide Held;
  }

  lemma ClippedStep(before: seq<seq<Byte>>, line: seq<Byte>)
    ensures Clipped(before + [line]) == Clipped(before) + [Clip(line)]
  {
    hide Clip;
  }

  // ---- The object ----

  class Collector {
    var kept: seq<seq<Byte>>
    var current: seq<Byte>
    var open: bool
    var total: nat
    /** Everything pushed so far. */
    ghost var stream: seq<Byte>

    ghost predicate Valid()
      reads this
    {
      && current == Prefix(Rest(stream))
      && open == (Rest(stream) != [])
      && total == |Closed(stream)|
      && kept == Last(Clipped(Closed(stream)), Held(total))
    }

    constructor ()
      ensures Valid() && stream == []
    {
      kept, current, open, total, stream := [], [], false, 0, [];
    }

    /** Ends the current line, which is not yet counted. At its peak `kept` holds
        LINES_MAX + 1 lines. */
    method EndLine(ghost line: seq<Byte>, ghost before: seq<seq<Byte>>)
      requires current == Prefix(line) && total == |before|
      requires kept == Last(Clipped(before), Held(total))
      modifies this
      ensures current == [] && !open && total == old(total) + 1 && stream == old(stream)
      ensures kept == Last(Clipped(before + [line]), Held(total))
    {
      hide Held;
      hide Last;
      hide Clipped;
      hide Prefix;
      LastStep(Clipped(before), Clip(line));
      ClippedStep(before, line);
      var ended := current;
      current := [];
      if ended != [] && ended[|ended| - 1] == RETURN {
        ended := ended[..|ended| - 1];
      }
      kept := kept + [ended];
      assert |kept| <= LINES_MAX + 1;
      open := false;
      total := total + 1;
      if |kept| > LINES_MAX {
        kept := kept[|kept| - LINES_TAIL..];
      }
    }

    /** Adds one piece of a chunk: text free of newlines, and whether a newline ends it. */
    method Piece(text: seq<Byte>, ends: bool)
      requires Valid() && NEWLINE !in text && (ends || text != [])
      modifies this
      ensures Valid()
      ensures stream == old(stream) + text + if ends then [NEWLINE] else []
    {
      hide Held;
      hide Last;
      hide Clipped;
      hide Closed;
      var room := if |current| < LINE_BYTES then LINE_BYTES - |current| else 0;
      current := current + text[..if room < |text| then room else |text|];
      open := true;
      RestExtends(stream, text);
      PrefixExtends(Rest(stream), text);
      NewlineCloses(stream + text);
      hide Prefix;
      hide Rest;
      ghost var longer := stream + text;
      assert current == Prefix(Rest(longer));
      stream := longer;
      if ends {
        EndLine(Rest(longer), Closed(longer));
        stream := longer + [NEWLINE];
      }
    }

    /** One chunk, cut after each newline as `split_inclusive` cuts it. */
    method Push(bytes: seq<Byte>)
      requires Valid()
      modifies this
      ensures Valid() && stream == old(stream) + bytes
    {
      hide Collector.Valid;
      var i := 0;
      while i < |bytes|
        invariant 0 <= i <= |bytes| && Valid()
        invariant stream == old(stream) + bytes[..i]
      {
        var j := NextNewline(bytes, i);
        if j < |bytes| {
          Piece(bytes[i..j], true);
          assert bytes[..i] + bytes[i..j] + [NEWLINE] == bytes[..j + 1];
          i := j + 1;
        } else {
          Piece(bytes[i..j], false);
          assert bytes[..i] + bytes[i..j] == bytes[..j];
          i := j;
        }
      }
    }

    /** The line count and the kept lines. */
    method Finish() returns (count: nat, lines: seq<seq<Byte>>)
      requires Valid()
      modifies this
      ensures count == |LinesOf(stream)| && lines == View(stream)
      ensures stream == old(stream)
    {
      hide Rest;
      hide Closed;
      hide Clipped;
      hide Prefix;
      if open {
        EndLine(Rest(stream), Closed(stream));
      }
      assert kept == Last(Clipped(LinesOf(stream)), Held(total));
      if total > LINES_MAX && |kept| > LINES_TAIL {
        kept := kept[|kept| - LINES_TAIL..];
      }
      return total, kept;
    }
  }

  /** The first newline at or after i, or the end. */
  method NextNewline(bytes: seq<Byte>, i: nat) returns (j: nat)
    requires i <= |bytes|
    ensures i <= j <= |bytes| && NEWLINE !in bytes[i..j]
    ensures j < |bytes| ==> bytes[j] == NEWLINE
  {
    j := i;
    while j < |bytes| && bytes[j] != NEWLINE
      invariant i <= j <= |bytes| && NEWLINE !in bytes[i..j]
    {
      j := j + 1;
    }
  }

  lemma NewlineCloses(s: seq<Byte>)
    ensures Closed(s + [NEWLINE]) == Closed(s) + [Rest(s)] && Rest(s + [NEWLINE]) == [] && Prefix([]) == []
  {
    assert (s + [NEWLINE])[..|s|] == s;
  }

  /** Room for the rest of a line's first LINE_BYTES bytes. */
  lemma PrefixExtends(line: seq<Byte>, text: seq<Byte>)
    ensures var kept := Prefix(line);
            var room := if |kept| < LINE_BYTES then LINE_BYTES - |kept| else 0;
            Prefix(line + text) == kept + text[..if room < |text| then room else |text|]
  {
  }

  lemma {:induction false} RestExtends(s: seq<Byte>, text: seq<Byte>)
    requires NEWLINE !in text
    ensures Rest(s + text) == Rest(s) + text
    ensures Closed(s + text) == Closed(s)
    decreases |text|
  {
    if text == [] {
      assert s + text == s;
    } else {
      var n := |text| - 1;
      assert (s + text)[..|s + text| - 1] == s + text[..n];
      RestExtends(s, text[..n]);
    }
  }

  lemma NothingYet()
    ensures Concat<Byte>([]) == []
  {
  }

  /** A whole run: only the concatenation of the chunks matters. */
  method Collect(chunks: seq<seq<Byte>>) returns (count: nat, lines: seq<seq<Byte>>)
    ensures count == |LinesOf(Concat(chunks))|
    ensures lines == View(Concat(chunks))
  {
    hide Collector.Valid;
    hide Concat;
    hide LinesOf;
    hide View;
    NothingYet();
    var c := new Collector();
    assert chunks[..0] == [];
    for k := 0 to |chunks|
      invariant c.Valid() && c.stream == Concat(chunks[..k])
    {
      c.Push(chunks[k]);
      assert chunks[..k + 1] == chunks[..k] + [chunks[k]];
      ConcatAppend(chunks[..k], [chunks[k]]);
      ConcatOne(chunks[k]);
    }
    assert chunks[..|chunks|] == chunks;
    count, lines := c.Finish();
  }
}
