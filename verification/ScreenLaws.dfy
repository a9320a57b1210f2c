/** What fixes the terminal screen of scripts/pty-smoke.py: which characters make which
    token, and what every token does to the cursor. */
module ScreenLaws {
  import opened Prelude
  import opened ScreenModel

  // ---- Tokens ----

  predicate IsAsciiLetter(c: char) {
    c in "abcdefghijklmnopqrstuvwxyz" || c in "ABCDEFGHIJKLMNOPQRSTUVWXYZ"
  }

  lemma LettersAreAscii(c: char)
    ensures IsLetter(c) <==> IsAsciiLetter(c)
  {
    LowerCase(c);
    UpperCase(c);
  }

  lemma LetterIsAt(data: string, i: nat, n: nat)
    requires i <= n < |data| && IsLetter(data[n]) && forall k | i <= k < n :: !IsLetter(data[k])
    ensures FindLetter(data, i) == n
  {
  }

  /** Escape, `[`, parameters without a letter and a letter are one control sequence. */
  lemma ControlSequence(a: string, params: string, final: char, b: string)
    requires IsAsciiLetter(final) && forall k | 0 <= k < |params| :: !IsAsciiLetter(params[k])
    ensures var data := a + "\U{1b}[" + params + [final] + b;
            TokenAt(data, |a|) == (Control(params, final), |a| + |params| + 3)
  {
    var data := a + "\U{1b}[" + params + [final] + b;
    var n := |a| + 2 + |params|;
    hide IsAsciiLetter;
    hide IsLetter;
    hide TokenAt;
    SequenceCharacters(a, params, final, b);
    LettersAreAscii(final);
    forall k | |a| + 2 <= k < n ensures !IsLetter(data[k]) {
      LettersAreAscii(data[k]);
    }
    ControlAt(data, |a|, n);
  }

  /** The same at a position of any text. */
  lemma ControlAt(data: string, i: nat, n: nat)
    requires i + 2 <= n < |data| && data[i] == '\U{1b}' && data[i + 1] == '[' && IsLetter(data[n])
    requires forall k | i + 2 <= k < n :: !IsLetter(data[k])
    ensures TokenAt(data, i) == (Control(data[i + 2..n], data[n]), n + 1)
  {
    hide IsLetter;
    LetterIsAt(data, i + 2, n);
    hide FindLetter;
    hide FindTerminator;
  }

  lemma SequenceCharacters(a: string, params: string, final: char, b: string)
    ensures var data, n := a + "\U{1b}[" + params + [final] + b, |a| + 2 + |params|;
            && n < |data| && data[|a|] == '\U{1b}' && data[|a| + 1] == '[' && data[n] == final
            && data[|a| + 2..n] == params
            && forall k | |a| + 2 <= k < n :: data[k] == params[k - |a| - 2]
  {
  }

  /** A terminator begins at k: BEL, or escape and a backslash. */
  predicate Terminates(data: string, k: nat)
    requires k < |data|
  {
    data[k] == '\U{07}' || (k + 1 < |data| && data[k] == '\U{1b}' && data[k + 1] == '\\')
  }

  lemma {:induction false} FirstTerminator(data: string, i: nat, n: nat)
    requires i <= n < |data| && Terminates(data, n) && forall k | i <= k < n :: !Terminates(data, k)
    ensures FindTerminator(data, i) == Some(if data[n] == '\U{07}' then n + 1 else n + 2)
    decreases n - i
  {
    if i < n {
      assert !Terminates(data, i);
      FirstTerminator(data, i + 1, n);
    }
  }

  lemma {:induction false} NoTerminator(data: string, i: nat)
    requires i <= |data| && forall k | i <= k < |data| :: !Terminates(data, k)
    ensures FindTerminator(data, i) == None
    decreases |data| - i
  {
    if i < |data| {
      assert !Terminates(data, i);
      NoTerminator(data, i + 1);
    }
  }

  /** Escape and `]` are ignored with everything up to the end of the first terminator. */
  lemma SystemCommand(data: string, i: nat, n: nat)
    requires i + 2 <= n < |data| && data[i] == '\U{1b}' && data[i + 1] == ']'
    requires Terminates(data, n) && forall k | i + 2 <= k < n :: !Terminates(data, k)
    ensures TokenAt(data, i) == (Ignored, if data[n] == '\U{07}' then n + 1 else n + 2)
  {
    FirstTerminator(data, i + 2, n);
    hide FindTerminator;
    hide FindLetter;
  }

  /** Any other escape is ignored alone: one that begins no sequence, and one whose sequence
      does not end. */
  lemma BareEscape(data: string, i: nat)
    requires i < |data| && data[i] == '\U{1b}'
    requires i + 1 < |data| && data[i + 1] == '[' ==> forall k | i + 2 <= k < |data| :: !IsAsciiLetter(data[k])
    requires i + 1 < |data| && data[i + 1] == ']' ==> forall k | i + 2 <= k < |data| :: !Terminates(data, k)
    ensures TokenAt(data, i) == (Ignored, i + 1)
  {
    if i + 1 < |data| && data[i + 1] == '[' {
      if FindLetter(data, i + 2) < |data| {
        LettersAreAscii(data[FindLetter(data, i + 2)]);
      }
    } else if i + 1 < |data| && data[i + 1] == ']' {
      NoTerminator(data, i + 2);
    }
    hide FindTerminator;
    hide FindLetter;
  }

  /** Every other character is a token by itself. */
  lemma SingleCharacter(data: string, i: nat)
    requires i < |data| && data[i] != '\U{1b}'
    ensures var c := data[i];
            TokenAt(data, i) ==
            (if c == '\U{0d}' then Return
             else if c == '\U{0a}' then LineFeed
             else if c == '\U{07}' || c == '\U{08}' then Ignored
             else Glyph(c), i + 1)
  {
  }

  /** The places between tokens: where one is read from, where it ends, and so on to the end
      of the text. */
  lemma {:induction false} BoundariesAreTokenEnds(data: string, i: nat)
    requires i <= |data|
    ensures Boundary(data, i, i) && Boundary(data, i, |data|)
    ensures i < |data| ==>
              var j := TokenAt(data, i).1;
              && Boundary(data, i, j)
              && forall k | k > i :: Boundary(data, i, k) <==> Boundary(data, j, k)
    decreases |data| - i
  {
    hide TokenAt;
    if i < |data| {
      BoundariesAreTokenEnds(data, TokenAt(data, i).1);
    }
  }

  // ---- The cursor ----

  /** CR goes to the line's start, LF down one line and no further than the last; neither
      changes a cell, and an ignored token changes nothing. */
  lemma LineMoves(numerals: Numerals, s: Screen)
    requires Valid(s)
    ensures var t := Act(numerals, s, Return); t.col == 0 && t.row == s.row && t.grid == s.grid
    ensures var t := Act(numerals, s, LineFeed);
            && t.col == s.col && t.grid == s.grid
            && (s.row + 1 < s.rows ==> t.row == s.row + 1) && (s.row + 1 == s.rows ==> t.row == s.row)
    ensures Act(numerals, s, Ignored) == s
  {
  }

  /** CUU, CUD, CUF and CUB by n cells, stopping at the screen's edge, in their own direction
      only. */
  lemma CursorMoves(numerals: Numerals, s: Screen, params: string, n: nat)
    requires Valid(s) && n == Num(numerals, params, 0, 1)
    ensures var t := Csi(numerals, s, params, 'A');
            t.grid == s.grid && t.col == s.col && (n <= s.row ==> t.row == s.row - n) && (n > s.row ==> t.row == 0)
    ensures var t := Csi(numerals, s, params, 'B');
            && t.grid == s.grid && t.col == s.col
            && (s.row + n < s.rows ==> t.row == s.row + n) && (s.row + n >= s.rows ==> t.row == s.rows - 1)
    ensures var t := Csi(numerals, s, params, 'C');
            && t.grid == s.grid && t.row == s.row
            && (s.col + n < s.cols ==> t.col == s.col + n) && (s.col + n >= s.cols ==> t.col == s.cols - 1)
    ensures var t := Csi(numerals, s, params, 'D');
            t.grid == s.grid && t.row == s.row && (n <= s.col ==> t.col == s.col - n) && (n > s.col ==> t.col == 0)
  {
  }

  /** HVP is CUP, ED and EL take their mode from the first parameter, 0 without one, and no
      other control sequence changes anything. */
  lemma OtherSequences(numerals: Numerals, s: Screen, params: string, final: char, mode: nat)
    requires Valid(s) && mode == Num(numerals, params, 0, 0)
    ensures Csi(numerals, s, params, 'f') == Csi(numerals, s, params, 'H')
    ensures Csi(numerals, s, params, 'J') == EraseInDisplay(s, mode)
    ensures Csi(numerals, s, params, 'K') == EraseInLine(s, mode)
    ensures Num(numerals, [], 0, 0) == 0
    ensures final !in "HfABCDJK" ==> Csi(numerals, s, params, final) == s
  {
    var known := "HfABCDJK";
    assert known[0] == 'H' && known[1] == 'f' && known[2] == 'A' && known[3] == 'B';
    assert known[4] == 'C' && known[5] == 'D' && known[6] == 'J' && known[7] == 'K';
    hide EraseInDisplay;
    hide EraseInLine;
  }

  // ---- Parameters ----

  lemma SplitOneMore(text: string, c: char)
    ensures SplitParams(text + [c]) == SplitMore(SplitParams(text), c)
  {
    assert (text + [c])[..|text|] == text;
  }

  /** The parts with the last one extended. */
  function Extended(before: seq<string>, part: string): (parts: seq<string>)
    requires before != []
    ensures |parts| == |before|
  {
    before[..|before| - 1] + [before[|before| - 1] + part]
  }

  lemma ExtendedNone(before: seq<string>)
    requires before != []
    ensures Extended(before, []) == before
  {
    assert before[|before| - 1] + [] == before[|before| - 1];
  }

  lemma ExtendedMore(before: seq<string>, part: string, c: char)
    requires before != [] && c != ';'
    ensures SplitMore(Extended(before, part), c) == Extended(before, part + [c])
  {
    var n := |before| - 1;
    assert Extended(before, part)[..n] == before[..n];
    Associate(before[n], part, [c]);
  }

  lemma {:induction false} SplitAppends(text: string, part: string)
    requires ';' !in part
    ensures SplitParams(text + part) == Extended(SplitParams(text), part)
    decreases |part|
  {
    hide SplitParams;
    hide SplitMore;
    hide Extended;
    if part == [] {
      assert text + part == text;
      ExtendedNone(SplitParams(text));
    } else {
      var m := |part| - 1;
      var shorter, c := part[..m], part[m];
      assert c in part && part == shorter + [c];
      SplitAppends(text, shorter);
      SplitOneMore(text + shorter, c);
      Associate(text, shorter, [c]);
      ExtendedMore(SplitParams(text), shorter, c);
    }
  }

  lemma SplitBegins(text: string)
    ensures SplitParams(text + ";") == SplitParams(text) + [[]]
  {
    assert (text + ";")[..|text|] == text;
  }

  /** Joining parameters and splitting the text gives them back. */
  lemma {:induction false} SplitOfJoin(parts: seq<string>)
    requires parts != [] && NoSemicolons(parts)
    ensures SplitParams(JoinParams(parts)) == parts
    decreases |parts|
  {
    hide SplitParams;
    var n := |parts| - 1;
    assert ';' !in parts[n];
    if n == 0 {
      SplitNothing();
      SplitAppends([], parts[0]);
      assert [] + parts[0] == parts[0];
      var none: seq<string> := [[]];
      assert none[..0] + [none[0] + parts[0]] == parts;
    } else {
      SplitOfJoin(parts[..n]);
      var text := JoinParams(parts[..n]);
      SplitBegins(text);
      SplitAppends(text + ";", parts[n]);
      assert (parts[..n] + [[]])[..n] == parts[..n] && [] + parts[n] == parts[n];
      assert parts[..n] + [parts[n]] == parts;
    }
  }

  lemma SplitNothing()
    ensures SplitParams([]) == [[]]
  {
  }

  /** A parameter is the number its text denotes, and the default when it is missing, empty
      of digits or there are no parameters at all. */
  lemma NumReads(numerals: Numerals, parts: seq<string>, i: nat, default: nat)
    requires parts != [] && NoSemicolons(parts) && JoinParams(parts) != []
    ensures Num(numerals, JoinParams(parts), i, default) ==
            if i < |parts| && numerals(parts[i]).Some? then numerals(parts[i]).value else default
    ensures Num(numerals, [], i, default) == default
  {
    hide SplitParams;
    hide JoinParams;
    SplitOfJoin(parts);
  }
}
