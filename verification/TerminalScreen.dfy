/** The `Screen` of scripts/pty-smoke.py: its methods against `ScreenModel`. */
module TerminalScreen {
  import opened ScreenModel
  import Model = ScreenModel

  class Terminal {
    const numerals: Numerals
    const rows: nat
    const cols: nat
    var grid: seq<seq<char>>
    var row: int
    var col: int

    function View(): Model.Screen
      reads this
    {
      Model.Screen(rows, cols, grid, row, col)
    }

    /** A blank screen; the cursor is inside it exactly when it has a cell. */
    constructor (numerals: Numerals, rows: nat, cols: nat)
      ensures this.numerals == numerals && this.rows == rows && this.cols == cols
      ensures row == 0 && col == 0 && |grid| == rows
      ensures forall r | 0 <= r < rows :: grid[r] == Blank(cols)
      ensures Valid(View()) <==> rows >= 1 && cols >= 1
    {
      this.numerals, this.rows, this.cols := numerals, rows, cols;
      grid := seq(rows, _ => Blank(cols));
      row, col := 0, 0;
    }

    /** Blanks the cells of the cursor's line from lo up to hi. */
    method BlankSpan(lo: nat, hi: nat)
      requires Valid(View()) && lo <= hi <= cols
      modifies `grid
      ensures grid == old(grid)[row := BlankCells(old(grid)[row], lo, hi)]
    {
      ghost var line := grid[row];
      assert BlankCells(line, lo, lo) == line;
      assert grid[row := line] == grid;
      for c := lo to hi
        invariant |grid| == rows
        invariant grid == old(grid)[row := BlankCells(line, lo, c)]
      {
        assert BlankCells(line, lo, c)[c := ' '] == BlankCells(line, lo, c + 1);
        grid := grid[row := grid[row][c := ' ']];
      }
    }

    /** Blanks the lines from lo up to hi. */
    method BlankLines(lo: nat, hi: nat)
      requires Valid(View()) && lo <= hi <= rows
      modifies `grid
      ensures grid == BlankRows(old(grid), lo, hi, cols)
    {
      for r := lo to hi
        invariant |grid| == rows
        invariant grid == BlankRows(old(grid), lo, r, cols)
      {
        grid := grid[r := Blank(cols)];
      }
    }

    method Csi(params: string, final: char)
      requires Valid(View())
      modifies `grid, `row, `col
      ensures View() == Model.Csi(numerals, old(View()), params, final)
    {
      hide Num;
      hide BlankCells;
      hide BlankRows;
      var n: int := Num(numerals, params, 0, 1);
      if final == 'H' || final == 'f' {
        row := Max(0, Min(n - 1, rows - 1));
        col := Max(0, Min(Num(numerals, params, 1, 1) - 1, cols - 1));
      } else if final == 'A' {
        row := Max(0, row - n);
      } else if final == 'B' {
        row := Min(rows - 1, row + n);
      } else if final == 'C' {
        col := Min(cols - 1, col + n);
      } else if final == 'D' {
        col := Max(0, col - n);
      } else if final == 'J' {
        var mode := Num(numerals, params, 0, 0);
        if mode == 2 || mode == 3 {
          BlankLines(0, rows);
        } else if mode == 0 {
          BlankSpan(col, cols);
          BlankLines(row + 1, rows);
        } else if mode == 1 {
          BlankSpan(0, col + 1);
          BlankLines(0, row);
        }
      } else if final == 'K' {
        var mode := Num(numerals, params, 0, 0);
        if mode == 0 {
          BlankSpan(col, cols);
        } else if mode == 1 {
          BlankSpan(0, col + 1);
        } else if mode == 2 {
          grid := grid[row := Blank(cols)];
        }
      }
    }

    /** Whatever the text, `feed` ends with the grid rows x cols and the cursor inside. */
    method Feed(data: string)
      requires Valid(View())
      modifies `grid, `row, `col
      ensures View() == Fed(numerals, old(View()), data, 0)
      ensures Valid(View())
    {
      var i := 0;
      while i < |data|
        invariant 0 <= i <= |data| && Valid(View())
        invariant Fed(numerals, View(), data, i) == Fed(numerals, old(View()), data, 0)
      {
        hide Model.Csi;
        hide FindLetter;
        hide FindTerminator;
        ghost var before := View();
        ghost var (token, next) := TokenAt(data, i);
        var ch := data[i];
        if ch == ESC {
          if Introduces(data, i, '[') && FindLetter(data, i + 2) < |data| {
            var j := FindLetter(data, i + 2);
            Csi(data[i + 2..j], data[j]);
            i := j + 1;
          } else if Introduces(data, i, ']') && FindTerminator(data, i + 2).Some? {
            i := FindTerminator(data, i + 2).value;
          } else {
            i := i + 1;
          }
        } else if ch == '\r' {
          col := 0;
          i := i + 1;
        } else if ch == '\n' {
          row := Min(row + 1, rows - 1);
          i := i + 1;
        } else if ch == BEL || ch == BACKSPACE {
          i := i + 1;
        } else {
          grid := grid[row := grid[row][col := ch]];
          col := col + 1;
          if col >= cols {
            col := 0;
            row := Min(row + 1, rows - 1);
          }
          i := i + 1;
        }
        assert i == next && View() == Act(numerals, before, token);
      }
    }
  }
}
