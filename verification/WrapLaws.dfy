/** What fixes the word wrap of crates/cli/src/lessons_cmd.rs: where a text is split, where
    a long word is cut, and how full every line is. */
module WrapLaws {
  import opened Prelude
  import opened Wrap

  // ---- Words ----

  /** The characters of Unicode's White_Space property. */
  lemma Spaces(c: char)
    ensures IsSpace(c) ==
            (c as int in
             {9, 10, 11, 12, 13, 32, 133, 160, 5760, 8192, 8193, 8194, 8195, 8196, 8197, 8198, 8199, 8200, 8201, 8202,
              8232, 8233, 8239, 8287, 12288})
  {
  }

  lemma {:induction false} SplitsAt(a: string, c: char, b: string)
    requires IsSpace(c)
    ensures LastWord(a + [c] + b) == LastWord(b)
    ensures EndedWords(a + [c] + b) == Words(a) + EndedWords(b)
    decreases |b|
  {
    hide IsSpace;
    var text := a + [c] + b;
    if b == [] {
      assert text[..|text| - 1] == a;
    } else {
      assert text[..|text| - 1] == a + [c] + b[..|b| - 1];
      SplitsAt(a, c, b[..|b| - 1]);
    }
  }

  /** Whitespace separates: a text is split at every whitespace character, what has none is
      one word, and nothing is none. */
  lemma WordsSplitAtSpaces(a: string, c: char, b: string)
    ensures IsSpace(c) ==> Words(a + [c] + b) == Words(a) + Words(b)
    ensures IsWord(a) ==> Words(a) == [a]
    ensures Words([]) == []
  {
    if IsSpace(c) {
      SplitsAt(a, c, b);
    }
    if IsWord(a) {
      WordsOfJoin([a]);
    }
  }

  // ---- Long words ----

  /** A word is cut from its first character on: every piece but the last has exactly the
      width. */
  lemma {:induction false} PiecesAreFull(w: string, width: nat, k: nat)
    requires width >= 1 && k + 1 < |Pieces(w, width)|
    ensures |Pieces(w, width)[k]| == width
    decreases |w|
  {
    if k > 0 {
      PiecesAreFull(w[width..], width, k - 1);
    }
  }

  /** The cut is the only one with that property: the pieces are the word's when they join
      to it, none is empty or too long, and all but the last are full. */
  lemma {:induction false} PiecesAreUnique(w: string, width: nat, ps: seq<string>)
    requires width >= 1 && w != [] && Concat(ps) == w
    requires forall k | 0 <= k < |ps| :: 1 <= |ps[k]| <= width
    requires forall k | 0 <= k < |ps| - 1 :: |ps[k]| == width
    ensures ps == Pieces(w, width)
    decreases |w|
  {
    if ps == [] {
      NoGroups();
    } else {
      var rest := ps[1..];
      assert ps == [ps[0]] + rest;
      ConcatAppend([ps[0]], rest);
      ConcatOne(ps[0]);
      hide Concat;
      assert w == ps[0] + Concat(rest);
      if rest == [] {
        NoGroups();
        assert w == ps[0];
      } else {
        FirstIsShorter(rest);
        assert w[..width] == ps[0] && w[width..] == Concat(rest);
        PiecesAreUnique(w[width..], width, rest);
      }
    }
  }

  lemma FirstIsShorter(ps: seq<string>)
    requires ps != [] && forall k | 0 <= k < |ps| :: 1 <= |ps[k]|
    ensures Concat(ps) != []
  {
    assert 1 <= |ps[|ps| - 1]|;
  }

  lemma {:induction false} InSomeGroup(groups: seq<seq<string>>, w: string) returns (k: nat)
    requires w in Concat(groups)
    ensures k < |groups| && w in groups[k]
    decreases |groups|
  {
    var n := |groups| - 1;
    if w in groups[n] {
      k := n;
    } else {
      k := InSomeGroup(groups[..n], w);
    }
  }

  lemma AloneOnItsLine(g: seq<string>, w: string, width: nat)
    requires w in g && |w| == width && NoneBlank(g) && Fits(g, width)
    ensures g == [w]
  {
    var i :| 0 <= i < |g| && g[i] == w;
    var before, after := g[..i], g[i + 1..];
    assert g == before + [w] + after;
    ColumnsAppend(before + [w], after);
    ColumnsAppend(before, [w]);
    ColumnsOne(w);
    if before != [] {
      TakesAColumn(before);
    }
    if after != [] {
      TakesAColumn(after);
    }
  }

  lemma {:induction false} PieceOfWord(ws: seq<string>, w: string, width: nat, k: nat)
    requires width >= 1 && w in ws && k < |Pieces(w, width)|
    ensures Pieces(w, width)[k] in AllPieces(ws, width)
    decreases |ws|
  {
    var n := |ws| - 1;
    if ws[n] != w {
      assert w in ws[..n];
      PieceOfWord(ws[..n], w, width, k);
    }
  }

  /** On the printed lines, a word longer than the width fills whole lines: each piece but
      its last is a line by itself, and the first of them is its beginning. */
  lemma LongWordFillsLines(text: string, width: nat, w: string, k: nat)
    requires width >= 1 && w in Words(text) && k + 1 < |Pieces(w, width)|
    ensures Pieces(w, width)[k] in Joined(Groups(text, width))
    ensures w[..width] == Pieces(w, width)[0] && w[..width] in Joined(Groups(text, width))
  {
    FullPieceIsALine(text, width, w, k);
    FullPieceIsALine(text, width, w, 0);
  }

  lemma FullPieceIsALine(text: string, width: nat, w: string, k: nat)
    requires width >= 1 && w in Words(text) && k + 1 < |Pieces(w, width)|
    ensures Pieces(w, width)[k] in Joined(Groups(text, width))
  {
    hide Greedy;
    hide Words;
    hide AllPieces;
    hide Pieces;
    hide Fits;
    var ws, groups := Words(text), Groups(text, width);
    var ps, piece := AllPieces(ws, width), Pieces(w, width)[k];
    PiecesAreFull(w, width, k);
    PieceOfWord(ws, w, width, k);
    GreedyGroups(ps, width);
    AllPiecesFit(ws, width);
    GreedyFits(ps, width);
    WordsNotBlank(text);
    PiecesNotBlank(ws, width);
    GreedyNotBlank(ps, width);
    var i := InSomeGroup(groups, piece);
    AloneOnItsLine(groups[i], piece, width);
    assert Joined(groups)[i] == piece;
  }

  // ---- Full lines ----

  lemma {:induction false} FirstLineIsFull(ws: seq<string>, n: nat, width: nat)
    requires 1 <= n <= |ws| && FirstLine(ws, n, width) < |ws|
    ensures !Fits(ws[..FirstLine(ws, n, width) + 1], width)
    decreases |ws| - n
  {
    hide Fits;
    if Fits(ws[..n + 1], width) {
      FirstLineIsFull(ws, n + 1, width);
    }
  }

  /** No line has room for the word that begins the next one. */
  lemma {:induction false} GroupsAreFull(ws: seq<string>, width: nat, k: nat)
    requires k + 1 < |Greedy(ws, width)|
    ensures var g := Greedy(ws, width);
            g[k + 1] != [] && !Fits(g[k] + [g[k + 1][0]], width)
    decreases |ws|
  {
    hide Fits;
    hide FirstLine;
    GreedyNone(width);
    if ws != [] {
      var m := FirstLine(ws, 1, width);
      GreedyFirst(ws, width);
      if k > 0 {
        hide Greedy;
        GroupsAreFull(ws[m..], width, k - 1);
      } else if m < |ws| {
        FirstLineIsFull(ws, 1, width);
        GreedyFirst(ws[m..], width);
        assert ws[..m] + [ws[m]] == ws[..m + 1];
      }
    }
  }

  /** A line and the first word read from the next one, with a space between them, would not
      fit the width. */
  lemma LinesAreFull(text: string, width: nat, k: nat)
    requires width >= 1 && k + 1 < |Joined(Groups(text, width))|
    ensures var lines := Joined(Groups(text, width));
            Words(lines[k + 1]) != [] && |lines[k]| + 1 + |Words(lines[k + 1])[0]| > width
  {
    hide Greedy;
    hide Words;
    hide AllPieces;
    hide Join;
    hide Columns;
    var ws, groups := Words(text), Groups(text, width);
    var ps := AllPieces(ws, width);
    GroupsAreFull(ps, width, k);
    GreedyGroups(ps, width);
    AllPiecesFit(ws, width);
    GreedyFits(ps, width);
    WordsAreWords(text);
    PiecesAreWords(ws, width);
    GroupIsWords(groups, k + 1);
    WordsOfJoin(groups[k + 1]);
    JoinLength(groups[k]);
    ColumnsAppend(groups[k], [groups[k + 1][0]]);
    ColumnsOne(groups[k + 1][0]);
  }

  lemma {:induction false} GroupIsWords(groups: seq<seq<string>>, k: nat)
    requires k < |groups| && AllWords(Concat(groups))
    ensures AllWords(groups[k])
    decreases |groups|
  {
    hide IsWord;
    var n := |groups| - 1;
    WordsOfParts(Concat(groups[..n]), groups[n]);
    if k < n {
      GroupIsWords(groups[..n], k);
    }
  }
}
