/** The capped log of crates/cli/src/filter_run.rs: what it holds of the stream, with and
    without write errors. */
module CappedLog {
  import opened Prelude

  const LOG_MAX: nat := 64 * 1024 * 1024
  const NEWLINE: Byte := 10

  /** The bytes of an ASCII text. */
  function Ascii(text: string): (bytes: seq<Byte>)
    ensures |bytes| == |text|
  {
    seq(|text|, k requires 0 <= k < |text| => (text[k] as int % 256) as Byte)
  }

  function LogCut(): (line: seq<Byte>)
    ensures |line| == 28
  {
    Ascii("[anthrex] log cut at 64 MiB\n")
  }

  /** The log of a whole stream: all of it, or its first LOG_MAX bytes, a newline if the
      last of them is none, and the cut line once. */
  function LogOf(s: seq<Byte>): seq<Byte> {
    if |s| <= LOG_MAX then s
    else s[..LOG_MAX] + (if s[LOG_MAX - 1] == NEWLINE then [] else [NEWLINE]) + LogCut()
  }

  /** A stream within 64 MiB is its own log; a longer one begins the log with its first
      64 MiB and ends it with the cut line, on a line of its own, with no byte more than
      that takes. */
  lemma LogShape(s: seq<Byte>)
    ensures |s| <= 67_108_864 ==> LogOf(s) == s
    ensures |s| > 67_108_864 ==>
              var log, n := LogOf(s), |LogOf(s)|;
              && s[..67_108_864] <= log
              && n >= 29 && log[n - 28..] == LogCut() && log[n - 29] == 10
              && (n == 67_108_892 <==> s[67_108_863] == 10) && n <= 67_108_893
  {
    if |s| > LOG_MAX {
      var head := s[..LOG_MAX] + if s[LOG_MAX - 1] == NEWLINE then [] else [NEWLINE];
      assert LogOf(s) == head + LogCut();
      assert head[|head| - 1] == NEWLINE;
    }
  }

  /** How a `write_all` ends: with success, or with an error after some of its bytes. */
  datatype Outcome = Done | FailedAfter(bytes: nat)

  /** The outcomes of the up to three `write_all`s of one call. */
  datatype Outcomes = Outcomes(body: Outcome, newline: Outcome, cut: Outcome)

  const ALL_DONE := Outcomes(Done, Done, Done)

  function Landed(bytes: seq<Byte>, o: Outcome): seq<Byte> {
    match o
    case Done => bytes
    case FailedAfter(n) => if n < |bytes| then bytes[..n] else bytes
  }

  /** The bytes that still fit a log that has taken a stream. */
  function Fitting(taken: seq<Byte>, bytes: seq<Byte>): seq<Byte>
    requires |taken| <= LOG_MAX
  {
    if |taken| + |bytes| <= LOG_MAX then bytes else bytes[..LOG_MAX - |taken|]
  }

  class Log {
    /** What is on disk. */
    var contents: seq<Byte>
    /** Whether the file is still held. */
    var file: bool
    var written: nat
    var last: Byte
    /** Everything passed to Write so far, and whether some `write_all` failed. */
    ghost var stream: seq<Byte>
    ghost var failed: bool

    ghost predicate Valid()
      reads this
    {
      && written <= LOG_MAX
      && contents <= LogOf(stream)
      && (!failed ==> contents == LogOf(stream))
      && (file ==> !failed && |stream| <= LOG_MAX && written == |stream|
                   && last == if stream == [] then NEWLINE else stream[|stream| - 1])
      && (!file ==> failed || |stream| > LOG_MAX)
    }

    lemma HoldsALog()
      requires Valid()
      ensures contents <= LogOf(stream)
      ensures !failed ==> contents == LogOf(stream)
    {
    }

    constructor ()
      ensures Valid() && stream == [] && !failed && file
    {
      contents, file, written, last := [], true, 0, NEWLINE;
      stream, failed := [], false;
    }

    /** `LOG_MAX - written` cannot underflow: Valid() holds after every call, failing or
        not. */
    method Write(bytes: seq<Byte>, o: Outcomes)
      requires Valid()
      modifies this
      ensures Valid() && stream == old(stream) + bytes
      ensures old(failed) ==> failed && contents == old(contents)
      ensures old(contents) <= contents
      ensures old(file) && !o.body.Done? ==>
                contents == old(contents) + Landed(Fitting(old(stream), bytes), o.body)
      ensures failed <==>
              || old(failed)
              || (old(file) && !o.body.Done?)
              || (old(file) && |stream| > LOG_MAX && !(o.cut.Done? && (stream[LOG_MAX - 1] == 10 || o.newline.Done?)))
    {
      hide LogCut;
      hide LogOf;
      ghost var before := stream;
      stream := stream + bytes;
      LogGrows(before, bytes);
      if !file {
        return;
      }
      var left := LOG_MAX - written;
      var room := if left < |bytes| then left else |bytes|;
      contents := contents + Landed(bytes[..room], o.body);
      var ok := o.body.Done?;
      written := written + room;
      if room > 0 {
        last := bytes[room - 1];
      }
      BodyLands(before, bytes, room, o.body);
      if ok && room < |bytes| {
        ok := CutOff(o);
        written := LOG_MAX;
        file := false;
      }
      if !ok {
        failed := true;
        file := false;
      }
    }

    /** The end of a log that reached its limit: a newline if needed, then the cut line. */
    method CutOff(o: Outcomes) returns (ok: bool)
      requires |stream| > LOG_MAX && contents == stream[..LOG_MAX] && last == stream[LOG_MAX - 1]
      modifies `contents
      ensures old(contents) <= contents <= LogOf(stream)
      ensures ok ==> contents == LogOf(stream)
      ensures ok <==> o.cut.Done? && (last == NEWLINE || o.newline.Done?)
    {
      hide LogCut;
      ok := true;
      if last != NEWLINE {
        contents := contents + Landed([NEWLINE], o.newline);
        ok := o.newline.Done?;
      }
      if ok {
        contents := contents + Landed(LogCut(), o.cut);
        ok := o.cut.Done?;
      }
    }
  }

  /** The first part of a write: what landed is a prefix of the log, all of it when the
      stream still fits. */
  lemma BodyLands(s: seq<Byte>, bytes: seq<Byte>, room: nat, o: Outcome)
    requires |s| <= LOG_MAX
    requires room == if LOG_MAX - |s| < |bytes| then LOG_MAX - |s| else |bytes|
    ensures var landed := LogOf(s) + Landed(bytes[..room], o);
            && landed <= LogOf(s + bytes)
            && (o.Done? && room == |bytes| ==> landed == LogOf(s + bytes))
            && (o.Done? && room < |bytes| ==> landed == (s + bytes)[..LOG_MAX])
    ensures room > 0 ==> bytes[room - 1] == (s + bytes)[|s| + room - 1]
  {
    hide LogCut;
    var t := s + bytes;
    assert s + bytes[..room] == t[..|s| + room];
    assert t[..|s| + room] <= LogOf(t);
  }

  lemma LogGrows(s: seq<Byte>, more: seq<Byte>)
    ensures LogOf(s) <= LogOf(s + more)
    ensures |s| > LOG_MAX ==> LogOf(s + more) == LogOf(s)
  {
    hide LogCut;
    if |s| > LOG_MAX {
      assert (s + more)[..LOG_MAX] == s[..LOG_MAX];
    }
  }
}
