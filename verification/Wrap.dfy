/** The word wrap of crates/cli/src/lessons_cmd.rs: what its lines hold, and that no way
    of breaking the same words needs fewer. */
module Wrap {
  import opened Prelude

  // ---- Words ----

  /** Rust's `char::is_whitespace`. */
  predicate IsSpace(c: char) {
    var n := c as int;
    || 0x09 <= n <= 0x0D || n == 0x20 || n == 0x85 || n == 0xA0 || n == 0x1680
    || 0x2000 <= n <= 0x200A || n == 0x2028 || n == 0x2029 || n == 0x202F || n == 0x205F || n == 0x3000
  }

  /** The word a text ends in, if it does not end in whitespace. */
  function LastWord(text: string): string {
    if text == [] || IsSpace(text[|text| - 1]) then []
    else LastWord(text[..|text| - 1]) + [text[|text| - 1]]
  }

  /** The words of a text that whitespace follows. */
  function EndedWords(text: string): seq<string>
    decreases |text|, 0
  {
    if text == [] then []
    else
      var n := |text| - 1;
      if IsSpace(text[n]) then Words(text[..n]) else EndedWords(text[..n])
  }

  /** `split_whitespace`. */
  function Words(text: string): seq<string>
    decreases |text|, 1
  {
    if LastWord(text) == [] then EndedWords(text) else EndedWords(text) + [LastWord(text)]
  }

  predicate IsWord(w: string) {
    w != [] && forall c | c in w :: !IsSpace(c)
  }

  function Visible(text: string): string {
    if text == [] then []
    else Visible(text[..|text| - 1]) + if IsSpace(text[|text| - 1]) then [] else [text[|text| - 1]]
  }

  lemma {:induction false} WordsAreVisible(text: string)
    ensures Concat(EndedWords(text)) + LastWord(text) == Visible(text)
    ensures Concat(Words(text)) == Visible(text)
    ensures forall w | w in EndedWords(text) :: IsWord(w)
    ensures forall c | c in LastWord(text) :: !IsSpace(c)
    decreases |text|
  {
    if text != [] {
      WordsAreVisible(text[..|text| - 1]);
    }
    if LastWord(text) != [] {
      ConcatAppend(EndedWords(text), [LastWord(text)]);
      ConcatOne(LastWord(text));
    }
  }

  // ---- Lines ----

  /** Words joined by single spaces. */
  function Join(ws: seq<string>): string {
    if ws == [] then []
    else if |ws| == 1 then ws[0]
    else Join(ws[..|ws| - 1]) + " " + ws[|ws| - 1]
  }

  function Joined(groups: seq<seq<string>>): (lines: seq<string>)
    ensures |lines| == |groups|
  {
    seq(|groups|, k requires 0 <= k < |groups| => Join(groups[k]))
  }

  /** The columns words take on a line, each followed by one space. */
  function Columns(ws: seq<string>): nat {
    if ws == [] then 0 else Columns(ws[..|ws| - 1]) + |ws[|ws| - 1]| + 1
  }

  predicate Fits(ws: seq<string>, width: nat) {
    Columns(ws) <= width + 1
  }

  lemma {:induction false} JoinLength(ws: seq<string>)
    requires ws != []
    ensures |Join(ws)| + 1 == Columns(ws)
    decreases |ws|
  {
    if |ws| == 1 {
      assert ws[..0] == [];
    } else {
      JoinLength(ws[..|ws| - 1]);
    }
  }

  /** A word cut into pieces of the width, the last one shorter or equal. */
  function Pieces(w: string, width: nat): seq<string>
    requires width >= 1
    decreases |w|
  {
    if |w| <= width then [w] else [w[..width]] + Pieces(w[width..], width)
  }

  function AllPieces(ws: seq<string>, width: nat): seq<string>
    requires width >= 1
  {
    if ws == [] then [] else AllPieces(ws[..|ws| - 1], width) + Pieces(ws[|ws| - 1], width)
  }

  /** How many leading words a line takes: as many as fit, at least one. */
  function FirstLine(ws: seq<string>, n: nat, width: nat): (m: nat)
    requires 1 <= n <= |ws|
    ensures n <= m <= |ws|
    decreases |ws| - n
  {
    if n < |ws| && Fits(ws[..n + 1], width) then FirstLine(ws, n + 1, width) else n
  }

  /** Each line filled as far as it goes. */
  function Greedy(ws: seq<string>, width: nat): seq<seq<string>>
    decreases |ws|
  {
    if ws == [] then []
    else
      var m := FirstLine(ws, 1, width);
      [ws[..m]] + Greedy(ws[m..], width)
  }

  predicate AllFit(ws: seq<string>, width: nat) {
    forall k | 0 <= k < |ws| :: |ws[k]| <= width
  }

  // ---- Greedy lines are the fewest ----

  lemma {:induction false} ColumnsAppend(a: seq<string>, b: seq<string>)
    ensures Columns(a + b) == Columns(a) + Columns(b)
    decreases |b|
  {
    if b == [] {
      assert a + b == a;
    } else {
      assert (a + b)[..|a + b| - 1] == a + b[..|b| - 1];
      ColumnsAppend(a, b[..|b| - 1]);
    }
  }

  lemma ColumnsOne(w: string)
    ensures Columns([w]) == |w| + 1
  {
    assert [w][..0] == [];
  }

  /** A line takes exactly the leading words that fit. */
  lemma {:induction false} FirstLineTakesAll(ws: seq<string>, n: nat, width: nat, k: nat)
    requires 1 <= n <= |ws| && k <= |ws| && Fits(ws[..n], width)
    ensures Fits(ws[..FirstLine(ws, n, width)], width)
    ensures Fits(ws[..k], width) ==> k <= FirstLine(ws, n, width)
    decreases |ws| - n
  {
    if n < |ws| && Fits(ws[..n + 1], width) {
      FirstLineTakesAll(ws, n + 1, width, k);
    } else if k > n {
      assert ws[..k] == ws[..n + 1] + ws[n + 1..k];
      ColumnsAppend(ws[..n + 1], ws[n + 1..k]);
    }
  }

  lemma SingleFits(ws: seq<string>, width: nat)
    requires ws != [] && AllFit(ws, width)
    ensures Fits(ws[..1], width)
  {
    assert ws[..1] == [ws[0]];
    ColumnsOne(ws[0]);
  }

  /** Without its leading words a line's rest still fits on one line. */
  lemma RestOfLineFits(ws: seq<string>, k: nat, m: nat, width: nat)
    requires k < m <= |ws| && AllFit(ws, width) && Fits(ws[..m], width)
    ensures FirstLine(ws[k..], 1, width) >= m - k
  {
    hide FirstLine;
    hide Columns;
    var vs := ws[k..];
    assert vs[..m - k] == ws[k..m] && ws[..m] == ws[..k] + ws[k..m];
    ColumnsAppend(ws[..k], ws[k..m]);
    SingleFits(vs, width);
    FirstLineTakesAll(vs, 1, width, m - k);
  }

  /** Leaving out leading words never needs more lines. */
  lemma {:induction false} DroppingHelps(ws: seq<string>, k: nat, width: nat)
    requires k <= |ws| && AllFit(ws, width)
    ensures |Greedy(ws[k..], width)| <= |Greedy(ws, width)|
    decreases |ws|
  {
    hide FirstLine;
    hide Fits;
    if k == 0 {
      assert ws[0..] == ws;
    } else if k < |ws| {
      var m := FirstLine(ws, 1, width);
      SingleFits(ws, width);
      FirstLineTakesAll(ws, 1, width, m);
      if k >= m {
        DroppingHelps(ws[m..], k - m, width);
        assert ws[m..][k - m..] == ws[k..];
      } else {
        var vs := ws[k..];
        RestOfLineFits(ws, k, m, width);
        var m' := FirstLine(vs, 1, width);
        DroppingHelps(ws[m..], k + m' - m, width);
        assert vs[m'..] == ws[m..][k + m' - m..];
      }
    }
  }

  lemma {:induction false} GroupFits(g: seq<string>, width: nat)
    requires Fits(g, width)
    ensures AllFit(g, width)
    decreases |g|
  {
    if g != [] {
      GroupFits(g[..|g| - 1], width);
      assert g == g[..|g| - 1] + [g[|g| - 1]];
    }
  }

  lemma {:induction false} GroupsFit(groups: seq<seq<string>>, width: nat)
    requires forall k | 0 <= k < |groups| :: Fits(groups[k], width)
    ensures AllFit(Concat(groups), width)
    decreases |groups|
  {
    if groups != [] {
      GroupsFit(groups[..|groups| - 1], width);
      GroupFits(groups[|groups| - 1], width);
    }
  }

  /** No way of breaking the same words into lines that fit uses fewer lines. */
  lemma {:induction false} GreedyIsFewest(groups: seq<seq<string>>, width: nat)
    requires forall k | 0 <= k < |groups| :: Fits(groups[k], width)
    ensures |Greedy(Concat(groups), width)| <= |groups|
    decreases |groups|
  {
    hide Fits;
    hide FirstLine;
    hide AllFit;
    if groups != [] {
      GroupsFit(groups, width);
      GroupsFit(groups[1..], width);
      var g, rest := groups[0], groups[1..];
      assert groups == [g] + rest;
      ConcatAppend([g], rest);
      ConcatOne(g);
      GreedyIsFewest(rest, width);
      var ws := Concat(groups);
      assert Concat(rest) == ws[|g|..];
      if g == [] {
        assert ws == Concat(rest);
      } else {
        SingleFits(ws, width);
        assert ws[..|g|] == g;
        FirstLineTakesAll(ws, 1, width, |g|);
        var m := FirstLine(ws, 1, width);
        DroppingHelps(Concat(rest), m - |g|, width);
        assert ws[m..] == Concat(rest)[m - |g|..];
      }
    }
  }

  // ---- Adding a word at the end ----

  lemma {:induction false} FirstLineExtends(ws: seq<string>, w: string, n: nat, width: nat)
    requires 1 <= n <= |ws|
    ensures FirstLine(ws + [w], n, width) ==
            if FirstLine(ws, n, width) < |ws| || !Fits(ws + [w], width) then FirstLine(ws, n, width) else |ws| + 1
    decreases |ws| - n
  {
    var longer := ws + [w];
    if n < |ws| {
      assert longer[..n + 1] == ws[..n + 1];
      if Fits(ws[..n + 1], width) {
        FirstLineExtends(ws, w, n + 1, width);
      }
    } else {
      assert longer[..n + 1] == longer;
    }
  }

  /** The last line takes the word if it fits there, else the word begins a line. */
  lemma {:induction false} GreedyExtends(ws: seq<string>, w: string, width: nat)
    ensures ws == [] ==> Greedy(ws + [w], width) == [[w]]
    ensures ws != [] ==>
              var g := Greedy(ws, width);
              var n := |g| - 1;
              && n >= 0
              && Greedy(ws + [w], width) == if Fits(g[n] + [w], width) then g[..n] + [g[n] + [w]] else g + [[w]]
    decreases |ws|
  {
    hide FirstLine;
    hide Fits;
    hide Greedy;
    if ws == [] {
      assert ws + [w] == [w];
      GreedyOne(w, width);
    } else {
      var m := FirstLine(ws, 1, width);
      if m < |ws| {
        GreedyExtends(ws[m..], w, width);
        FirstLineStays(ws, w, width);
        PutFirst(ws[..m], Greedy(ws[m..], width));
      } else {
        OneLineExtends(ws, w, width);
      }
    }
  }

  /** A first line with words after it is not changed by one more. */
  lemma FirstLineStays(ws: seq<string>, w: string, width: nat)
    requires ws != [] && FirstLine(ws, 1, width) < |ws|
    ensures var m := FirstLine(ws, 1, width);
            && Greedy(ws, width) == [ws[..m]] + Greedy(ws[m..], width)
            && Greedy(ws + [w], width) == [ws[..m]] + Greedy(ws[m..] + [w], width)
  {
    hide Greedy;
    hide FirstLine;
    hide Fits;
    var m, longer := FirstLine(ws, 1, width), ws + [w];
    FirstLineExtends(ws, w, 1, width);
    GreedyFirst(ws, width);
    GreedyFirst(longer, width);
    assert longer[..m] == ws[..m] && longer[m..] == ws[m..] + [w];
  }

  lemma GreedyFirst(ws: seq<string>, width: nat)
    requires ws != []
    ensures var m := FirstLine(ws, 1, width); Greedy(ws, width) == [ws[..m]] + Greedy(ws[m..], width)
  {
    hide FirstLine;
  }

  /** The same when all words are on one line. */
  lemma OneLineExtends(ws: seq<string>, w: string, width: nat)
    requires ws != [] && FirstLine(ws, 1, width) == |ws|
    ensures Greedy(ws, width) == [ws]
    ensures Greedy(ws + [w], width) == if Fits(ws + [w], width) then [ws + [w]] else [ws] + [[w]]
  {
    hide Fits;
    hide Greedy;
    hide FirstLine;
    var longer := ws + [w];
    FirstLineExtends(ws, w, 1, width);
    GreedyFirst(ws, width);
    GreedyFirst(longer, width);
    assert ws[..|ws|] == ws && ws[|ws|..] == [];
    GreedyNone(width);
    assert longer[..|ws|] == ws && longer[|ws|..] == [w];
    GreedyOne(w, width);
    assert longer[..|longer|] == longer && longer[|longer|..] == [];
  }

  lemma GreedyOne(w: string, width: nat)
    ensures Greedy([w], width) == [[w]]
  {
    assert FirstLine([w], 1, width) == 1;
    assert [w][..1] == [w] && [w][1..] == [];
  }

  lemma PutFirst<T>(x: T, rest: seq<T>)
    requires rest != []
    ensures ([x] + rest)[|rest|] == rest[|rest| - 1]
    ensures forall y :: [x] + (rest[..|rest| - 1] + [y]) == ([x] + rest)[..|rest|] + [y]
    ensures forall y :: [x] + (rest + [y]) == ([x] + rest) + [y]
  {
    var n := |rest| - 1;
    assert ([x] + rest)[..|rest|] == [x] + rest[..n];
  }

  lemma {:induction false} GreedyGroups(ws: seq<string>, width: nat)
    ensures Concat(Greedy(ws, width)) == ws
    decreases |ws|
  {
    hide FirstLine;
    hide Concat;
    hide Greedy;
    if ws == [] {
      GreedyNone(width);
      NoGroups();
    } else {
      var m := FirstLine(ws, 1, width);
      var rest := Greedy(ws[m..], width);
      GreedyGroups(ws[m..], width);
      GreedyFirst(ws, width);
      ConcatAppend([ws[..m]], rest);
      ConcatOne(ws[..m]);
      assert ws[..m] + ws[m..] == ws;
    }
  }

  lemma NoGroups()
    ensures Concat<string>([]) == []
  {
  }

  lemma {:induction false} GreedyFits(ws: seq<string>, width: nat)
    requires AllFit(ws, width)
    ensures forall k | 0 <= k < |Greedy(ws, width)| :: Greedy(ws, width)[k] != [] && Fits(Greedy(ws, width)[k], width)
    decreases |ws|
  {
    hide FirstLine;
    hide Fits;
    if ws != [] {
      var m := FirstLine(ws, 1, width);
      SingleFits(ws, width);
      FirstLineTakesAll(ws, 1, width, m);
      GreedyFits(ws[m..], width);
    }
  }

  // ---- The loop ----

  /** What has been wrapped so far: the finished lines and the one being filled are the
      greedy lines of the pieces taken; between lines the last one is full. */
  ghost predicate Filled(lines: seq<string>, line: string, taken: seq<string>, width: nat) {
    && (if line == [] then lines else lines + [line]) == Joined(Greedy(taken, width))
    && (line == [] && taken != [] ==> lines != [] && |lines[|lines| - 1]| == width)
  }

  lemma LastLine(taken: seq<string>, width: nat)
    requires taken != [] && AllFit(taken, width)
    ensures var g := Greedy(taken, width);
            && g != [] && g[|g| - 1] != []
            && |Joined(g)[|g| - 1]| + 1 == Columns(g[|g| - 1])
  {
    GreedyFits(taken, width);
    var g := Greedy(taken, width);
    JoinLength(g[|g| - 1]);
  }

  lemma GreedyNone(width: nat)
    ensures Greedy([], width) == []
  {
  }

  lemma JoinedNewLine(g: seq<seq<string>>, w: string)
    ensures Joined(g + [[w]]) == Joined(g) + [w]
  {
  }

  lemma JoinedSameLine(g: seq<seq<string>>, w: string)
    requires g != [] && g[|g| - 1] != []
    ensures var n := |g| - 1; Joined(g[..n] + [g[n] + [w]]) == Joined(g)[..n] + [Joined(g)[n] + " " + w]
  {
    var n := |g| - 1;
    assert (g[n] + [w])[..|g[n]|] == g[n];
    assert Join(g[n] + [w]) == Join(g[n]) + " " + w;
  }

  /** The next piece goes on a new line exactly when it does not fit the last one. */
  lemma TakePiece(lines: seq<string>, line: string, taken: seq<string>, w: string, width: nat)
    requires Filled(lines, line, taken, width) && AllFit(taken, width) && w != []
    ensures var all := if line == [] then lines else lines + [line];
            Joined(Greedy(taken + [w], width)) ==
            if line == [] || |line| + 1 + |w| > width then all + [w] else lines + [line + " " + w]
  {
    hide Greedy;
    hide Columns;
    hide AllFit;
    hide Join;
    hide Joined;
    GreedyExtends(taken, w, width);
    if taken == [] {
      JoinedNewLine([], w);
      assert [] + [[w]] == [[w]];
      assert Greedy([], width) == [] by { GreedyNone(width); }
      assert lines == [] && line == [];
    } else {
      LastLine(taken, width);
      var g := Greedy(taken, width);
      var n := |g| - 1;
      ColumnsAppend(g[n], [w]);
      ColumnsOne(w);
      JoinedSameLine(g, w);
      JoinedNewLine(g, w);
    }
  }

  /** A piece of the full width gets a line of its own, the open line ending before it. */
  lemma TakeChunk(lines: seq<string>, line: string, taken: seq<string>, w: string, width: nat)
    requires Filled(lines, line, taken, width) && AllFit(taken, width) && |w| == width >= 1
    ensures Filled((if line == [] then lines else lines + [line]) + [w], [], taken + [w], width)
  {
    hide Greedy;
    TakePiece(lines, line, taken, w, width);
  }

  /** A shorter piece ends up on the open line, which is ended first if it is full. */
  lemma TakeWord(lines: seq<string>, line: string, taken: seq<string>, w: string, width: nat)
    requires Filled(lines, line, taken, width) && AllFit(taken, width) && w != []
    ensures if line != [] && |line| + 1 + |w| <= width
            then Filled(lines, line + " " + w, taken + [w], width)
            else Filled(if line == [] then lines else lines + [line], w, taken + [w], width)
  {
    hide Greedy;
    TakePiece(lines, line, taken, w, width);
  }

  lemma {:induction false} PiecesFit(w: string, width: nat)
    requires width >= 1
    ensures AllFit(Pieces(w, width), width)
    ensures w != [] ==> forall k | 0 <= k < |Pieces(w, width)| :: Pieces(w, width)[k] != []
    decreases |w|
  {
    if |w| > width {
      PiecesFit(w[width..], width);
    }
  }

  lemma {:induction false} PiecesJoin(w: string, width: nat)
    requires width >= 1
    ensures Concat(Pieces(w, width)) == w
    decreases |w|
  {
    hide Concat;
    if |w| <= width {
      ConcatOne(w);
    } else {
      PiecesJoin(w[width..], width);
      ConcatAppend([w[..width]], Pieces(w[width..], width));
      ConcatOne(w[..width]);
      assert w[..width] + w[width..] == w;
    }
  }

  lemma {:induction false} AllPiecesFit(ws: seq<string>, width: nat)
    requires width >= 1
    ensures AllFit(AllPieces(ws, width), width)
    decreases |ws|
  {
    hide Pieces;
    if ws != [] {
      AllPiecesFit(ws[..|ws| - 1], width);
      PiecesFit(ws[|ws| - 1], width);
    }
  }

  lemma {:induction false} PiecesConserve(ws: seq<string>, width: nat)
    requires width >= 1
    ensures Concat(AllPieces(ws, width)) == Concat(ws)
    decreases |ws|
  {
    if ws != [] {
      var n := |ws| - 1;
      var earlier, last := AllPieces(ws[..n], width), Pieces(ws[n], width);
      PiecesConserve(ws[..n], width);
      PiecesJoin(ws[n], width);
      ConcatAppend(earlier, last);
      assert AllPieces(ws, width) == earlier + last;
      assert Concat(ws) == Concat(ws[..n]) + ws[n];
    }
  }

  lemma {:induction false} UncutPieces(ws: seq<string>, width: nat)
    requires width >= 1
    ensures AllFit(ws, width) ==> AllPieces(ws, width) == ws
    decreases |ws|
  {
    if ws != [] && AllFit(ws, width) {
      var n := |ws| - 1;
      UncutPieces(ws[..n], width);
      assert Pieces(ws[n], width) == [ws[n]];
      assert ws == ws[..n] + [ws[n]];
    }
  }

  // ---- What a reader sees ----

  /** A word that fits is not cut. */
  lemma {:induction false} FittingWordStays(ws: seq<string>, w: string, width: nat)
    requires width >= 1 && w in ws && |w| <= width
    ensures w in AllPieces(ws, width)
    decreases |ws|
  {
    var n := |ws| - 1;
    if ws[n] == w {
      assert Pieces(w, width) == [w];
    } else {
      assert w in ws[..n];
      FittingWordStays(ws[..n], w, width);
    }
  }

  lemma {:induction false} VisibleAppend(a: string, b: string)
    ensures Visible(a + b) == Visible(a) + Visible(b)
    decreases |b|
  {
    if b == [] {
      assert a + b == a;
    } else {
      assert (a + b)[..|a + b| - 1] == a + b[..|b| - 1];
      VisibleAppend(a, b[..|b| - 1]);
    }
  }

  /** Text without whitespace is all visible. */
  lemma {:induction false} AllVisible(w: string)
    requires forall k | 0 <= k < |w| :: !IsSpace(w[k])
    ensures Visible(w) == w
    decreases |w|
  {
    if w != [] {
      AllVisible(w[..|w| - 1]);
      assert w == w[..|w| - 1] + [w[|w| - 1]];
    }
  }

  lemma {:induction false} VisibleJoin(ws: seq<string>)
    ensures Visible(Join(ws)) == Visible(Concat(ws))
    decreases |ws|
  {
    if |ws| == 1 {
      ConcatOne(ws[0]);
      assert ws == [ws[0]];
    } else if |ws| > 1 {
      var n := |ws| - 1;
      VisibleJoin(ws[..n]);
      VisibleAppend(Join(ws[..n]) + " ", ws[n]);
      VisibleAppend(Join(ws[..n]), " ");
      assert Visible(" ") == [] by {
        assert " "[..0] == [];
      }
      VisibleAppend(Concat(ws[..n]), ws[n]);
    }
  }

  lemma {:induction false} VisibleLines(groups: seq<seq<string>>)
    ensures Visible(Concat(Joined(groups))) == Visible(Concat(Concat(groups)))
    decreases |groups|
  {
    if groups != [] {
      var n := |groups| - 1;
      VisibleLines(groups[..n]);
      VisibleJoin(groups[n]);
      assert Joined(groups)[..n] == Joined(groups[..n]);
      VisibleAppend(Concat(Joined(groups[..n])), Join(groups[n]));
      ConcatAppend(Concat(groups[..n]), groups[n]);
      VisibleAppend(Concat(Concat(groups[..n])), Concat(groups[n]));
    }
  }

  lemma VisibleTwice(text: string)
    ensures Visible(Visible(text)) == Visible(text)
  {
    VisibleHasNoSpace(text);
    AllVisible(Visible(text));
  }

  lemma {:induction false} VisibleHasNoSpace(text: string)
    ensures forall k | 0 <= k < |Visible(text)| :: !IsSpace(Visible(text)[k])
    decreases |text|
  {
    if text != [] {
      VisibleHasNoSpace(text[..|text| - 1]);
    }
  }

  predicate NoneBlank(ws: seq<string>) {
    forall k | 0 <= k < |ws| :: ws[k] != []
  }

  lemma {:induction false} WordsNotBlank(text: string)
    ensures NoneBlank(Words(text)) && NoneBlank(EndedWords(text))
    decreases |text|
  {
    if text != [] {
      WordsNotBlank(text[..|text| - 1]);
    }
  }

  lemma {:induction false} PiecesNotBlank(ws: seq<string>, width: nat)
    requires width >= 1 && NoneBlank(ws)
    ensures NoneBlank(AllPieces(ws, width))
    decreases |ws|
  {
    if ws != [] {
      PiecesNotBlank(ws[..|ws| - 1], width);
      PiecesFit(ws[|ws| - 1], width);
    }
  }

  lemma {:induction false} GreedyNotBlank(ws: seq<string>, width: nat)
    requires NoneBlank(ws)
    ensures forall k | 0 <= k < |Greedy(ws, width)| :: NoneBlank(Greedy(ws, width)[k])
    decreases |ws|
  {
    hide FirstLine;
    if ws != [] {
      GreedyNotBlank(ws[FirstLine(ws, 1, width)..], width);
    }
  }

  lemma TakesAColumn(g: seq<string>)
    requires g != [] && NoneBlank(g)
    ensures Columns(g) >= 2
  {
  }

  /** The wrapped text: the pieces of its words on greedily filled lines. */
  ghost function Groups(text: string, width: nat): seq<seq<string>>
    requires width >= 1
  {
    Greedy(AllPieces(Words(text), width), width)
  }

  /** Every line is nonempty and within the width, and the lines show exactly the text's
      visible characters in order. */
  lemma LinesShowTheText(text: string, width: nat)
    requires width >= 1
    ensures var lines := Joined(Groups(text, width));
            && (forall k | 0 <= k < |lines| :: 1 <= |lines[k]| <= width)
            && Visible(Concat(lines)) == Visible(text)
  {
    hide Greedy;
    hide Visible;
    hide Words;
    hide AllPieces;
    var ws := Words(text);
    var ps := AllPieces(ws, width);
    AllPiecesFit(ws, width);
    PiecesConserve(ws, width);
    GreedyGroups(ps, width);
    GreedyFits(ps, width);
    WordsNotBlank(text);
    PiecesNotBlank(ws, width);
    GreedyNotBlank(ps, width);
    var groups := Groups(text, width);
    VisibleLines(groups);
    WordsAreVisible(text);
    VisibleTwice(text);
    forall k | 0 <= k < |groups| ensures 1 <= |Join(groups[k])| <= width {
      JoinLength(groups[k]);
      TakesAColumn(groups[k]);
    }
  }

  // ---- The words read from the lines ----

  predicate AllWords(ws: seq<string>) {
    forall k | 0 <= k < |ws| :: IsWord(ws[k])
  }

  lemma {:induction false} LastWordExtends(text: string, w: string)
    requires forall k | 0 <= k < |w| :: !IsSpace(w[k])
    ensures LastWord(text + w) == LastWord(text) + w
    ensures EndedWords(text + w) == EndedWords(text)
    decreases |w|
  {
    if w == [] {
      assert text + w == text;
    } else {
      assert (text + w)[..|text + w| - 1] == text + w[..|w| - 1];
      LastWordExtends(text, w[..|w| - 1]);
    }
  }

  /** A word after a space, or at the start, is one more word. */
  lemma OneMoreWord(text: string, w: string)
    requires IsWord(w) && LastWord(text) == []
    ensures Words(text + w) == EndedWords(text) + [w]
  {
    LastWordExtends(text, w);
    assert [] + w == w;
  }

  lemma SpaceEnds(text: string)
    ensures LastWord(text + " ") == [] && EndedWords(text + " ") == Words(text)
  {
    assert (text + " ")[..|text|] == text;
  }

  /** Joining words and splitting the line gives them back. */
  lemma {:induction false} WordsOfJoin(g: seq<string>)
    requires AllWords(g)
    ensures Words(Join(g)) == g
    decreases |g|
  {
    if |g| == 1 {
      OneMoreWord([], g[0]);
      assert [] + g[0] == g[0] && EndedWords([]) + [g[0]] == g;
    } else if |g| > 1 {
      var n := |g| - 1;
      WordsOfJoin(g[..n]);
      SpaceEnds(Join(g[..n]));
      hide Words;
      hide EndedWords;
      hide LastWord;
      OneMoreWord(Join(g[..n]) + " ", g[n]);
      assert g[..n] + [g[n]] == g;
    }
  }

  /** The words of the lines, in order. */
  function ReadWords(lines: seq<string>): seq<string> {
    if lines == [] then [] else ReadWords(lines[..|lines| - 1]) + Words(lines[|lines| - 1])
  }

  lemma {:induction false} ReadWordsOfJoined(groups: seq<seq<string>>)
    requires AllWords(Concat(groups))
    ensures ReadWords(Joined(groups)) == Concat(groups)
    decreases |groups|
  {
    if groups != [] {
      var n := |groups| - 1;
      assert groups == groups[..n] + [groups[n]];
      ConcatAppend(groups[..n], [groups[n]]);
      ConcatOne(groups[n]);
      WordsOfParts(Concat(groups[..n]), groups[n]);
      ReadWordsOfJoined(groups[..n]);
      assert Joined(groups)[..n] == Joined(groups[..n]);
      WordsOfJoin(groups[n]);
    }
  }

  lemma WordsOfParts(a: seq<string>, b: seq<string>)
    requires AllWords(a + b)
    ensures AllWords(a) && AllWords(b)
  {
    assert forall k | 0 <= k < |a| :: a[k] == (a + b)[k];
    assert forall k | 0 <= k < |b| :: b[k] == (a + b)[|a| + k];
  }

  lemma {:induction false} PieceIsWord(w: string, width: nat)
    requires width >= 1 && IsWord(w)
    ensures AllWords(Pieces(w, width))
    decreases |w|
  {
    if |w| > width {
      PieceIsWord(w[width..], width);
    }
  }

  lemma {:induction false} PiecesAreWords(ws: seq<string>, width: nat)
    requires width >= 1 && AllWords(ws)
    ensures AllWords(AllPieces(ws, width))
    decreases |ws|
  {
    hide IsWord;
    if ws != [] {
      PiecesAreWords(ws[..|ws| - 1], width);
      PieceIsWord(ws[|ws| - 1], width);
    }
  }

  lemma WordsAreWords(text: string)
    ensures AllWords(Words(text))
  {
    WordsAreVisible(text);
  }

  /** The words read from the printed lines are the text's in order, only those longer than
      the width cut. */
  lemma WordsThatFitStayWhole(text: string, width: nat)
    requires width >= 1
    ensures ReadWords(Joined(Groups(text, width))) == AllPieces(Words(text), width)
    ensures forall w | w in Words(text) && |w| <= width :: w in ReadWords(Joined(Groups(text, width)))
    ensures AllFit(Words(text), width) ==> ReadWords(Joined(Groups(text, width))) == Words(text)
  {
    hide Greedy;
    hide Words;
    hide AllPieces;
    hide Joined;
    hide ReadWords;
    hide AllWords;
    var ws := Words(text);
    var ps := AllPieces(ws, width);
    AllPiecesFit(ws, width);
    UncutPieces(ws, width);
    GreedyGroups(ps, width);
    WordsAreWords(text);
    PiecesAreWords(ws, width);
    ReadWordsOfJoined(Groups(text, width));
    forall w | w in ws && |w| <= width ensures w in ps {
      FittingWordStays(ws, w, width);
    }
  }

  /** No other breaking of the same pieces, the words themselves when all fit, into lines of
      at most `width` characters has fewer lines. */
  lemma FewestLines(text: string, width: nat, other: seq<seq<string>>)
    requires width >= 1 && Concat(other) == AllPieces(Words(text), width)
    requires forall k | 0 <= k < |other| :: |Join(other[k])| <= width
    ensures |Joined(Groups(text, width))| <= |other|
  {
    hide Greedy;
    hide Words;
    hide AllPieces;
    hide Join;
    forall k | 0 <= k < |other| ensures Fits(other[k], width) {
      if other[k] != [] {
        JoinLength(other[k]);
      }
    }
    hide Fits;
    GreedyIsFewest(other, width);
  }

  /** The body of `wrap`'s loop: one word, cut while it is longer than the width. */
  method AddWord(finished: seq<string>, open: string, next: string, width: nat, ghost before: seq<string>)
    returns (lines: seq<string>, line: string)
    requires width >= 1 && next != []
    requires Filled(finished, open, before, width) && AllFit(before, width)
    ensures Filled(lines, line, before + Pieces(next, width), width)
  {
    hide Filled;
    hide AllFit;
    lines, line := finished, open;
    var word := next;
    ghost var taken := before;
    while |word| > width
      invariant word != []
      invariant before + Pieces(next, width) == taken + Pieces(word, width)
      invariant AllFit(taken, width)
      invariant Filled(lines, line, taken, width)
      decreases |word|
    {
      TakeChunk(lines, line, taken, word[..width], width);
      OneMoreFits(taken, word[..width], width);
      if line != [] {
        lines := lines + [line];
        line := [];
      }
      lines := lines + [word[..width]];
      taken := taken + [word[..width]];
      word := word[width..];
    }
    TakeWord(lines, line, taken, word, width);
    if line != [] && |line| + 1 + |word| > width {
      lines := lines + [line];
      line := [];
    }
    if line != [] {
      line := line + " ";
    }
    assert [] + word == word;
    line := line + word;
    assert before + Pieces(next, width) == taken + [word];
  }

  lemma OneMoreFits(ws: seq<string>, w: string, width: nat)
    requires AllFit(ws, width) && |w| <= width
    ensures AllFit(ws + [w], width)
  {
  }

  /** `wrap`. */
  method Wrap(text: string, width: nat) returns (lines: seq<string>)
    requires width >= 1
    ensures lines == Joined(Groups(text, width))
  {
    hide Filled;
    hide AllFit;
    hide Words;
    hide Joined;
    hide Greedy;
    lines := [];
    var line: string := [];
    var words := Words(text);
    WordsNotBlank(text);
    NothingTaken(width);
    for i := 0 to |words|
      invariant Filled(lines, line, AllPieces(words[..i], width), width)
    {
      AllPiecesFit(words[..i], width);
      lines, line := AddWord(lines, line, words[i], width, AllPieces(words[..i], width));
      assert words[..i + 1][..i] == words[..i];
    }
    assert words[..|words|] == words;
    AllTaken(lines, line, AllPieces(words, width), width);
    if line != [] {
      lines := lines + [line];
    }
  }

  lemma AllTaken(lines: seq<string>, line: string, taken: seq<string>, width: nat)
    requires Filled(lines, line, taken, width)
    ensures (if line == [] then lines else lines + [line]) == Joined(Greedy(taken, width))
  {
  }

  lemma NothingTaken(width: nat)
    ensures Filled([], [], [], width)
  {
  }

  const WRAP: nat := 100
  const INDENT := "    "

  /** A lesson's body lines in `list_text`: indented, within the column. */
  method BodyLines(body: string) returns (out: seq<string>)
    ensures |out| == |Groups(body, 96)|
    ensures forall k | 0 <= k < |out| :: out[k] == "    " + Join(Groups(body, 96)[k]) && |out[k]| <= 100
  {
    hide Groups;
    var lines := Wrap(body, WRAP - |INDENT|);
    LinesShowTheText(body, WRAP - |INDENT|);
    out := [];
    for i := 0 to |lines|
      invariant |out| == i
      invariant forall k | 0 <= k < i :: out[k] == INDENT + lines[k]
    {
      out := out + [INDENT + lines[i]];
    }
  }
}
