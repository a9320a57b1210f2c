/** The terminal screen of scripts/pty-smoke.py as values: tokens of a stream and their
    effect on a grid with a cursor. */
module ScreenModel {
  import opened Prelude

  const ESC := '\U{1b}'
  const BEL := '\U{07}'
  const BACKSPACE := '\U{08}'

  /** How a parameter's text is read as a number, if it is one (`isdigit`, then `int`). */
  type Numerals = string -> Option<nat>

  datatype Screen = Screen(rows: nat, cols: nat, grid: seq<seq<char>>, row: int, col: int)

  /** The grid is exactly rows x cols and the cursor is inside it. */
  ghost predicate Valid(s: Screen) {
    && 0 <= s.row < s.rows && 0 <= s.col < s.cols
    && |s.grid| == s.rows
    && forall r | 0 <= r < s.rows :: |s.grid[r]| == s.cols
  }

  function Blank(n: nat): (line: seq<char>)
    ensures |line| == n && forall c | 0 <= c < n :: line[c] == ' '
  {
    seq(n, _ => ' ')
  }

  // ---- Tokens ----

  predicate IsLetter(c: char) {
    'a' <= c <= 'z' || 'A' <= c <= 'Z'
  }

  /** The first letter at or after i. */
  function FindLetter(data: string, i: nat): (j: nat)
    requires i <= |data|
    ensures i <= j <= |data| && (j < |data| ==> IsLetter(data[j]))
    ensures forall k | i <= k < j :: !IsLetter(data[k])
    decreases |data| - i
  {
    if i < |data| && !IsLetter(data[i]) then FindLetter(data, i + 1) else i
  }

  predicate BellAt(data: string, j: nat) {
    j < |data| && data[j] == BEL
  }

  predicate StringTerminatorAt(data: string, j: nat) {
    j + 1 < |data| && data[j] == ESC && data[j + 1] == '\\'
  }

  /** The end of the first terminator at or after i, None if there is none. */
  function FindTerminator(data: string, i: nat): (end: Option<nat>)
    requires i <= |data|
    ensures end.Some? ==> i < end.value <= |data|
    decreases |data| - i
  {
    if BellAt(data, i) then Some(i + 1)
    else if StringTerminatorAt(data, i) then Some(i + 2)
    else if i < |data| then FindTerminator(data, i + 1)
    else None
  }

  /** What the stream says at one position. */
  datatype Token =
    | Control(params: string, final: char)
    | Ignored
    | Return
    | LineFeed
    | Glyph(ch: char)

  predicate Introduces(data: string, i: nat, c: char) {
    i + 1 < |data| && data[i] == ESC && data[i + 1] == c
  }

  /** The token at i and where the next one begins. */
  function TokenAt(data: string, i: nat): (t: (Token, nat))
    requires i < |data|
    ensures i < t.1 <= |data|
  {
    var c := data[i];
    if c == ESC then
      if Introduces(data, i, '[') && FindLetter(data, i + 2) < |data| then
        var j := FindLetter(data, i + 2);
        (Control(data[i + 2..j], data[j]), j + 1)
      else if Introduces(data, i, ']') && FindTerminator(data, i + 2).Some? then
        (Ignored, FindTerminator(data, i + 2).value)
      else (Ignored, i + 1)
    else if c == '\r' then (Return, i + 1)
    else if c == '\n' then (LineFeed, i + 1)
    else if c == BEL || c == BACKSPACE then (Ignored, i + 1)
    else (Glyph(c), i + 1)
  }

  // ---- Effects ----

  function Min(a: int, b: int): int {
    if a < b then a else b
  }

  function Max(a: int, b: int): int {
    if a > b then a else b
  }

  /** `split(";")`, of nonempty text. */
  function SplitParams(text: string): (parts: seq<string>)
    ensures |parts| >= 1
  {
    if text == [] then [[]] else SplitMore(SplitParams(text[..|text| - 1]), text[|text| - 1])
  }

  /** The parts with one more character: a semicolon begins a part, any other extends the
      last one. */
  function SplitMore(before: seq<string>, c: char): (parts: seq<string>)
    requires before != []
    ensures |parts| >= 1
  {
    if c == ';' then before + [[]]
    else before[..|before| - 1] + [before[|before| - 1] + [c]]
  }

  function Num(numerals: Numerals, params: string, i: nat, default: nat): nat {
    var parts := if params == [] then [] else SplitParams(params);
    if i < |parts| && numerals(parts[i]).Some? then numerals(parts[i]).value else default
  }

  /** Row r with the cells from lo up to hi blanked. */
  function BlankCells(line: seq<char>, lo: nat, hi: nat): (r: seq<char>)
    requires lo <= hi <= |line|
    ensures |r| == |line|
    ensures forall c | 0 <= c < |r| :: r[c] == if lo <= c < hi then ' ' else line[c]
  {
    line[..lo] + Blank(hi - lo) + line[hi..]
  }

  function EraseInLine(s: Screen, mode: nat): (t: Screen)
    requires Valid(s)
    ensures Valid(t)
  {
    var line := s.grid[s.row];
    if mode == 0 then s.(grid := s.grid[s.row := BlankCells(line, s.col, s.cols)])
    else if mode == 1 then s.(grid := s.grid[s.row := BlankCells(line, 0, s.col + 1)])
    else if mode == 2 then s.(grid := s.grid[s.row := Blank(s.cols)])
    else s
  }

  /** Whole rows lo up to hi blanked. */
  function BlankRows(grid: seq<seq<char>>, lo: nat, hi: nat, cols: nat): (g: seq<seq<char>>)
    requires lo <= hi <= |grid|
    ensures |g| == |grid|
    ensures forall r | 0 <= r < |g| :: g[r] == if lo <= r < hi then Blank(cols) else grid[r]
  {
    grid[..lo] + seq(hi - lo, _ => Blank(cols)) + grid[hi..]
  }

  function EraseInDisplay(s: Screen, mode: nat): (t: Screen)
    requires Valid(s)
    ensures Valid(t)
  {
    if mode == 2 || mode == 3 then s.(grid := BlankRows(s.grid, 0, s.rows, s.cols))
    else if mode == 0 then
      var e := EraseInLine(s, 0);
      e.(grid := BlankRows(e.grid, s.row + 1, s.rows, s.cols))
    else if mode == 1 then
      var e := EraseInLine(s, 1);
      e.(grid := BlankRows(e.grid, 0, s.row, s.cols))
    else s
  }

  function Csi(numerals: Numerals, s: Screen, params: string, final: char): (t: Screen)
    requires Valid(s)
    ensures Valid(t) && t.rows == s.rows && t.cols == s.cols
  {
    var n := Num(numerals, params, 0, 1);
    if final == 'H' || final == 'f' then
      s.(row := Max(0, Min(n - 1, s.rows - 1)), col := Max(0, Min(Num(numerals, params, 1, 1) - 1, s.cols - 1)))
    else if final == 'A' then s.(row := Max(0, s.row - n))
    else if final == 'B' then s.(row := Min(s.rows - 1, s.row + n))
    else if final == 'C' then s.(col := Min(s.cols - 1, s.col + n))
    else if final == 'D' then s.(col := Max(0, s.col - n))
    else if final == 'J' then EraseInDisplay(s, Num(numerals, params, 0, 0))
    else if final == 'K' then EraseInLine(s, Num(numerals, params, 0, 0))
    else s
  }

  function Put(s: Screen, ch: char): (t: Screen)
    requires Valid(s)
    ensures Valid(t) && t.rows == s.rows && t.cols == s.cols
  {
    var grid := s.grid[s.row := s.grid[s.row][s.col := ch]];
    if s.col + 1 >= s.cols then s.(grid := grid, col := 0, row := Min(s.row + 1, s.rows - 1))
    else s.(grid := grid, col := s.col + 1)
  }

  function Act(numerals: Numerals, s: Screen, t: Token): (u: Screen)
    requires Valid(s)
    ensures Valid(u) && u.rows == s.rows && u.cols == s.cols
  {
    match t
    case Control(params, final) => Csi(numerals, s, params, final)
    case Ignored => s
    case Return => s.(col := 0)
    case LineFeed => s.(row := Min(s.row + 1, s.rows - 1))
    case Glyph(ch) => Put(s, ch)
  }

  /** The stream from position i on. */
  function Fed(numerals: Numerals, s: Screen, data: string, i: nat): (u: Screen)
    requires Valid(s) && i <= |data|
    ensures Valid(u) && u.rows == s.rows && u.cols == s.cols
    decreases |data| - i
  {
    if i == |data| then s
    else
      var (t, j) := TokenAt(data, i);
      Fed(numerals, Act(numerals, s, t), data, j)
  }

  // ---- Erasing in reading order ----

  /** Whether the cell (r, c) comes before the cursor, reading rows left to right. */
  predicate BeforeCursor(s: Screen, r: int, c: int) {
    r < s.row || (r == s.row && c < s.col)
  }

  /** ED: from the cursor on for 0, up to and with the cursor for 1, everything for 2 and
      3, nothing for any other parameter; no cell changes otherwise. */
  lemma EraseInDisplayCells(s: Screen, mode: nat, r: nat, c: nat)
    requires Valid(s) && r < s.rows && c < s.cols
    ensures var t := EraseInDisplay(s, mode);
            var erased := match mode
              case 0 => !BeforeCursor(s, r, c)
              case 1 => BeforeCursor(s, r, c) || (r == s.row && c == s.col)
              case _ => mode == 2 || mode == 3;
            && t.row == s.row && t.col == s.col
            && t.grid[r][c] == if erased then ' ' else s.grid[r][c]
  {
  }

  /** EL: the same within the cursor's line, the whole line for 2. */
  lemma EraseInLineCells(s: Screen, mode: nat, r: nat, c: nat)
    requires Valid(s) && r < s.rows && c < s.cols
    ensures var t := EraseInLine(s, mode);
            var erased := r == s.row && match mode
              case 0 => c >= s.col
              case 1 => c <= s.col
              case _ => mode == 2;
            && t.row == s.row && t.col == s.col
            && t.grid[r][c] == if erased then ' ' else s.grid[r][c]
  {
  }

  // ---- Moving ----

  /** CUP: the parameters count from 1, a missing one is 1, 0 is taken as 1, and the cursor
      stays inside. */
  lemma CursorAddress(numerals: Numerals, s: Screen, params: string, r: nat, c: nat)
    requires Valid(s) && r == Num(numerals, params, 0, 1) && c == Num(numerals, params, 1, 1)
    ensures var t := Csi(numerals, s, params, 'H');
            && t.grid == s.grid
            && (1 <= r <= s.rows ==> t.row + 1 == r) && (r > s.rows ==> t.row + 1 == s.rows) && (r == 0 ==> t.row == 0)
            && (1 <= c <= s.cols ==> t.col + 1 == c) && (c > s.cols ==> t.col + 1 == s.cols) && (c == 0 ==> t.col == 0)
            && Csi(numerals, s, [], 'H').row == 0 && Csi(numerals, s, [], 'H').col == 0
  {
  }

  /** Cursor moves by one parameter undo each other while they stay inside. */
  lemma MovesUndo(numerals: Numerals, s: Screen, params: string, n: nat)
    requires Valid(s) && n == Num(numerals, params, 0, 1)
    ensures n <= s.row ==> Csi(numerals, s, params, 'A').row + n == s.row
    ensures n <= s.row ==> Csi(numerals, Csi(numerals, s, params, 'A'), params, 'B') == s
    ensures n <= s.col ==> Csi(numerals, s, params, 'D').col + n == s.col
    ensures n <= s.col ==> Csi(numerals, Csi(numerals, s, params, 'D'), params, 'C') == s
  {
  }

  /** A character changes its own cell only and moves the cursor to the next cell in
      reading order; the last cell of the screen leads back to the start of its line. */
  lemma PutAdvances(s: Screen, ch: char, r: nat, c: nat)
    requires Valid(s) && r < s.rows && c < s.cols
    ensures var t := Put(s, ch);
            && t.grid[r][c] == (if r == s.row && c == s.col then ch else s.grid[r][c])
            && t.row * s.cols + t.col == s.row * s.cols + s.col + 1 -
               if s.row == s.rows - 1 && s.col == s.cols - 1 then s.cols else 0
  {
    assert (s.row + 1) * s.cols == s.row * s.cols + s.cols;
  }

  function JoinParams(parts: seq<string>): string {
    if parts == [] then []
    else if |parts| == 1 then parts[0]
    else JoinParams(parts[..|parts| - 1]) + ";" + parts[|parts| - 1]
  }

  lemma JoinLast(before: seq<string>, last: string)
    ensures JoinParams(before + [last]) == if before == [] then last else JoinParams(before) + ";" + last
  {
    assert (before + [last])[..|before|] == before;
  }

  lemma JoinLonger(parts: seq<string>, c: char)
    requires parts != []
    ensures JoinParams(parts[..|parts| - 1] + [parts[|parts| - 1] + [c]]) == JoinParams(parts) + [c]
  {
    hide JoinParams;
    var n := |parts| - 1;
    assert parts == parts[..n] + [parts[n]];
    JoinLast(parts[..n], parts[n]);
    JoinLast(parts[..n], parts[n] + [c]);
    Associate(JoinParams(parts[..n]) + ";", parts[n], [c]);
  }

  lemma JoinAnother(parts: seq<string>)
    requires parts != []
    ensures JoinParams(parts + [[]]) == JoinParams(parts) + ";"
  {
    hide JoinParams;
    JoinLast(parts, []);
    assert JoinParams(parts) + ";" + [] == JoinParams(parts) + ";";
  }

  predicate NoSemicolons(parts: seq<string>) {
    forall k | 0 <= k < |parts| :: ';' !in parts[k]
  }

  /** The parameters are the text cut at its semicolons. */
  lemma {:induction false} ParamsAreTheText(text: string)
    ensures JoinParams(SplitParams(text)) == text
    ensures NoSemicolons(SplitParams(text))
    decreases |text|
  {
    if text != [] {
      hide NoSemicolons;
      hide JoinParams;
      hide SplitMore;
      var n := |text| - 1;
      ParamsAreTheText(text[..n]);
      MoreIsJoined(SplitParams(text[..n]), text[n]);
      StillNoSemicolons(SplitParams(text[..n]), text[n]);
      assert text == text[..n] + [text[n]];
    }
  }

  lemma MoreIsJoined(before: seq<string>, c: char)
    requires before != []
    ensures JoinParams(SplitMore(before, c)) == JoinParams(before) + [c]
  {
    hide JoinParams;
    JoinLonger(before, c);
    JoinAnother(before);
  }

  lemma StillNoSemicolons(before: seq<string>, c: char)
    requires before != [] && NoSemicolons(before)
    ensures NoSemicolons(SplitMore(before, c))
  {
  }

  // ---- Cutting a stream in two ----

  /** Position k begins a token of the stream (or ends it). */
  ghost predicate Boundary(data: string, i: nat, k: nat)
    requires i <= |data|
    decreases |data| - i
  {
    i == k || (i < k && i < |data| && Boundary(data, TokenAt(data, i).1, k))
  }

  lemma {:induction false} LetterInHead(a: string, b: string, i: nat)
    requires i <= |a|
    ensures FindLetter(a, i) < |a| ==> FindLetter(a + b, i) == FindLetter(a, i)
    ensures FindLetter(a + b, i) < |a| ==> FindLetter(a, i) == FindLetter(a + b, i)
    decreases |a| - i
  {
    if i < |a| {
      assert (a + b)[i] == a[i];
      LetterInHead(a, b, i + 1);
    }
  }

  lemma {:induction false} TerminatorInHead(a: string, b: string, i: nat)
    requires i <= |a|
    ensures FindTerminator(a, i).Some? ==> FindTerminator(a + b, i) == FindTerminator(a, i)
    ensures FindTerminator(a + b, i).Some? && FindTerminator(a + b, i).value <= |a|
            ==> FindTerminator(a, i) == FindTerminator(a + b, i)
    decreases |a| - i
  {
    if i < |a| {
      assert (a + b)[i] == a[i];
      assert i + 1 < |a| ==> (a + b)[i + 1] == a[i + 1];
      TerminatorInHead(a, b, i + 1);
    }
  }

  /** A token of a+b that ends inside a is the same token of a. */
  lemma TokenInHead(a: string, b: string, i: nat)
    requires i < |a| && TokenAt(a + b, i).1 <= |a|
    ensures TokenAt(a, i) == TokenAt(a + b, i)
  {
    hide FindLetter;
    hide FindTerminator;
    var d := a + b;
    assert d[i] == a[i];
    assert i + 1 < |a| ==> d[i + 1] == a[i + 1];
    if i + 2 <= |a| {
      LetterInHead(a, b, i + 2);
      TerminatorInHead(a, b, i + 2);
      var j := FindLetter(a, i + 2);
      assert d[i + 2..j] == a[i + 2..j];
    }
  }

  lemma {:induction false} LetterInTail(a: string, b: string, i: nat)
    requires i <= |b|
    ensures FindLetter(a + b, |a| + i) == |a| + FindLetter(b, i)
    decreases |b| - i
  {
    if i < |b| {
      assert (a + b)[|a| + i] == b[i];
      LetterInTail(a, b, i + 1);
    }
  }

  lemma {:induction false} TerminatorInTail(a: string, b: string, i: nat)
    requires i <= |b|
    ensures FindTerminator(a + b, |a| + i) ==
            match FindTerminator(b, i) case Some(e) => Some(|a| + e) case None => None
    decreases |b| - i
  {
    if i < |b| {
      assert (a + b)[|a| + i] == b[i];
      assert i + 1 < |b| ==> (a + b)[|a| + i + 1] == b[i + 1];
      TerminatorInTail(a, b, i + 1);
    }
  }

  lemma TokenInTail(a: string, b: string, i: nat)
    requires i < |b|
    ensures TokenAt(a + b, |a| + i) == (TokenAt(b, i).0, |a| + TokenAt(b, i).1)
  {
    hide FindLetter;
    hide FindTerminator;
    var d := a + b;
    assert d[|a| + i] == b[i];
    assert i + 1 < |b| ==> d[|a| + i + 1] == b[i + 1];
    if i + 2 <= |b| {
      LetterInTail(a, b, i + 2);
      TerminatorInTail(a, b, i + 2);
      var j := FindLetter(b, i + 2);
      assert d[|a| + i + 2..|a| + j] == b[i + 2..j];
    }
  }

  lemma {:induction false} FedTail(numerals: Numerals, s: Screen, a: string, b: string, i: nat)
    requires Valid(s) && i <= |b|
    ensures Fed(numerals, s, a + b, |a| + i) == Fed(numerals, s, b, i)
    decreases |b| - i
  {
    hide Act;
    hide TokenAt;
    if i < |b| {
      TokenInTail(a, b, i);
      var (t, j) := TokenAt(b, i);
      FedTail(numerals, Act(numerals, s, t), a, b, j);
    }
  }

  lemma {:induction false} FedHead(numerals: Numerals, s: Screen, a: string, b: string, i: nat)
    requires Valid(s) && i <= |a| && Boundary(a + b, i, |a|)
    ensures Fed(numerals, s, a + b, i) == Fed(numerals, Fed(numerals, s, a, i), a + b, |a|)
    decreases |a| - i
  {
    hide Act;
    hide TokenAt;
    if i < |a| {
      var (t, j) := TokenAt(a + b, i);
      BoundaryAhead(a + b, j, |a|);
      TokenInHead(a, b, i);
      FedHead(numerals, Act(numerals, s, t), a, b, j);
    }
  }

  lemma BoundaryAhead(data: string, i: nat, k: nat)
    requires i <= |data| && Boundary(data, i, k)
    ensures i <= k
  {
  }

  /** Feeding a stream in two parts is feeding it whole, whenever the cut is between two
      of its tokens. */
  lemma CutBetweenTokens(numerals: Numerals, s: Screen, a: string, b: string)
    requires Valid(s) && Boundary(a + b, 0, |a|)
    ensures Fed(numerals, s, a + b, 0) == Fed(numerals, Fed(numerals, s, a, 0), b, 0)
  {
    hide Fed;
    FedHead(numerals, s, a, b, 0);
    FedTail(numerals, Fed(numerals, s, a, 0), a, b, 0);
  }

  /** A cut inside a token is not: here a cursor move becomes visible text. */
  lemma CutInsideToken(numerals: Numerals)
    ensures var s := Screen(1, 9, [Blank(9)], 0, 0);
            var a, b := [ESC], "[C";
            && !Boundary(a + b, 0, |a|)
            && Fed(numerals, s, a + b, 0).grid[0][0] == ' '
            && Fed(numerals, Fed(numerals, s, a, 0), b, 0).grid[0][0] == '['
  {
    var s := Screen(1, 9, [Blank(9)], 0, 0);
    var a, b := [ESC], "[C";
    assert a + b == [ESC, '[', 'C'];
    assert FindLetter(a + b, 2) == 2 && (a + b)[2..2] == [];
    assert TokenAt(a + b, 0) == (Control([], 'C'), 3);
    assert TokenAt(a, 0) == (Ignored, 1);
    assert Fed(numerals, s, a, 0) == s;
    assert TokenAt(b, 0) == (Glyph('['), 1) && TokenAt(b, 1) == (Glyph('C'), 2);
    var one := Put(s, '[');
    assert Fed(numerals, s, b, 0) == Fed(numerals, one, b, 1);
    assert Fed(numerals, one, b, 1) == Put(one, 'C');
  }
}
