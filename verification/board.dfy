/**
 The N x N tile board of the cookie-and-milk game: construction, reset and
 the text rendering served to clients. The board's size is the Rust const
 generic `N`, carried here as the field `n`.
 */
module TileBoard {
  import opened Outcomes
  import Text

  /** Glyph of the board's walls (U+2B1C, white large square). */
  const Wall: char := '\U{2B1C}'

  datatype Tile = Empty | Cookie | Milk

  /** The tile a board starts with and is reset to. */
  const DefaultTile: Tile := Empty

  /** The one glyph each tile is drawn with; it is never a wall or a line break. */
  function Glyph(t: Tile): (c: char)
    ensures c != Wall && c != '\n'
    ensures TileOfGlyph(c) == Some(t)
  {
    match t
    case Empty => '\U{2B1B}'
    case Cookie => '\U{1F36A}'
    case Milk => '\U{1F95B}'
  }

  /** Reads a tile back from its glyph; every other character is refused. */
  function TileOfGlyph(c: char): Option<Tile>
  {
    if c == '\U{2B1B}' then Some(Empty)
    else if c == '\U{1F36A}' then Some(Cookie)
    else if c == '\U{1F95B}' then Some(Milk)
    else None
  }

  lemma GlyphInjective(s: Tile, t: Tile)
    ensures Glyph(s) == Glyph(t) <==> s == t
  {
  }

  datatype Board = Board(n: nat, tiles: seq<seq<Tile>>)
  {
    /** `n` rows of `n` tiles each. */
    predicate Valid()
    {
      |tiles| == n && forall r :: 0 <= r < |tiles| ==> |tiles[r]| == n
    }
  }

  function New(n: nat): (b: Board)
    ensures b.Valid() && b.n == n
    ensures forall r, c :: 0 <= r < n && 0 <= c < n ==> b.tiles[r][c] == Empty
  {
    Board(n, seq(n, _ => seq(n, _ => DefaultTile)))
  }

  /** Sets every tile back to the default, row by row and column by column. */
  method Reset(b: Board) returns (r: Board)
    requires b.Valid()
    ensures r.Valid() && r.n == b.n
    ensures forall i, j :: 0 <= i < r.n && 0 <= j < r.n ==> r.tiles[i][j] == Empty
    ensures r == New(b.n)
    ensures b == New(b.n) ==> r == b
  {
    var tiles := b.tiles;
    var row := 0;
    while row < |tiles|
      invariant 0 <= row <= |tiles| == b.n
      invariant forall i :: 0 <= i < |tiles| ==> |tiles[i]| == b.n
      invariant forall i, j :: 0 <= i < row && 0 <= j < b.n ==> tiles[i][j] == DefaultTile
    {
      var col := 0;
      while col < |tiles[0]|
        invariant 0 <= col <= b.n
        invariant row < |tiles| == b.n
        invariant forall i :: 0 <= i < |tiles| ==> |tiles[i]| == b.n
        invariant forall i, j :: 0 <= i < row && 0 <= j < b.n ==> tiles[i][j] == DefaultTile
        invariant forall j :: 0 <= j < col ==> tiles[row][j] == DefaultTile
      {
        tiles := tiles[row := tiles[row][col := DefaultTile]];
        col := col + 1;
      }
      row := row + 1;
    }
    r := Board(b.n, tiles);
    var cleared := New(b.n);
    forall i | 0 <= i < b.n
      ensures tiles[i] == cleared.tiles[i]
    {
    }
  }

  /** The glyphs of one row, in column order. */
  function RowGlyphs(row: seq<Tile>): (s: string)
    ensures |s| == |row|
    ensures forall c :: 0 <= c < |row| ==> s[c] == Glyph(row[c])
  {
    seq(|row|, c requires 0 <= c < |row| => Glyph(row[c]))
  }

  /** One row line without its line break: wall, tiles, wall. */
  function RowText(row: seq<Tile>): string
  {
    [Wall] + RowGlyphs(row) + [Wall]
  }

  function RowLine(row: seq<Tile>): string
  {
    RowText(row) + "\n"
  }

  function RowLines(rows: seq<seq<Tile>>): string
  {
    if |rows| == 0 then "" else RowLine(rows[0]) + RowLines(rows[1..])
  }

  /** The bottom wall without its line break: n + 2 walls. */
  function BottomText(n: nat): string
  {
    seq(n + 2, _ => Wall)
  }

  /** The text `Display for Board` writes: one line per row, then the bottom wall. */
  function Render(b: Board): (s: string)
    requires b.Valid()
    ensures |s| == (b.n + 1) * (b.n + 3)
  {
    RowLinesLength(b.tiles, b.n);
    RowLines(b.tiles) + BottomText(b.n) + "\n"
  }

  lemma {:induction false} RowLinesLength(rows: seq<seq<Tile>>, n: nat)
    requires forall r :: 0 <= r < |rows| ==> |rows[r]| == n
    ensures |RowLines(rows)| == |rows| * (n + 3)
    decreases |rows|
  {
    if |rows| > 0 {
      RowLinesLength(rows[1..], n);
      assert |RowLine(rows[0])| == n + 3;
      assert |rows| * (n + 3) == (n + 3) + (|rows| - 1) * (n + 3);
    }
  }

  /** Line r of the rendered rows occupies characters r * (n + 3) up to (r + 1) * (n + 3). */
  lemma {:induction false} RowLinesAt(rows: seq<seq<Tile>>, n: nat, r: nat)
    requires forall i :: 0 <= i < |rows| ==> |rows[i]| == n
    requires r < |rows|
    ensures (r + 1) * (n + 3) <= |RowLines(rows)|
    ensures RowLines(rows)[r * (n + 3)..(r + 1) * (n + 3)] == RowLine(rows[r])
    decreases r
  {
    RowLinesLength(rows, n);
    assert (r + 1) * (n + 3) <= |rows| * (n + 3);
    var head := RowLine(rows[0]);
    var tail := RowLines(rows[1..]);
    assert |head| == n + 3;
    if r > 0 {
      RowLinesAt(rows[1..], n, r - 1);
      assert r * (n + 3) == (n + 3) + (r - 1) * (n + 3);
      assert (r + 1) * (n + 3) == (n + 3) + r * (n + 3);
      assert (head + tail)[r * (n + 3)..(r + 1) * (n + 3)] == tail[(r - 1) * (n + 3)..r * (n + 3)];
    } else {
      assert (head + tail)[0..n + 3] == head;
    }
  }

  /**
   The rendering, line by line: the first n lines are wall, the row's glyphs
   in column order, wall and a line break; the last is n + 2 walls and a line
   break.
   */
  lemma RenderLayout(b: Board)
    requires b.Valid()
    ensures forall r :: 0 <= r < b.n ==>
      Render(b)[r * (b.n + 3)..(r + 1) * (b.n + 3)] == [Wall] + RowGlyphs(b.tiles[r]) + [Wall, '\n']
    ensures Render(b)[b.n * (b.n + 3)..] == seq(b.n + 2, _ => Wall) + "\n"
  {
    var s := Render(b);
    var rows := RowLines(b.tiles);
    RowLinesLength(b.tiles, b.n);
    forall r | 0 <= r < b.n
      ensures s[r * (b.n + 3)..(r + 1) * (b.n + 3)] == [Wall] + RowGlyphs(b.tiles[r]) + [Wall, '\n']
    {
      RowLinesAt(b.tiles, b.n, r);
      assert s[r * (b.n + 3)..(r + 1) * (b.n + 3)] == rows[r * (b.n + 3)..(r + 1) * (b.n + 3)];
    }
    assert s[|rows|..] == BottomText(b.n) + "\n";
  }

  /** Tile (r, c) is drawn at character r * (n + 3) + 1 + c of the rendering. */
  lemma RenderTileAt(b: Board, r: nat, c: nat)
    requires b.Valid() && r < b.n && c < b.n
    ensures r * (b.n + 3) + c + 1 < |Render(b)|
    ensures Render(b)[r * (b.n + 3) + c + 1] == Glyph(b.tiles[r][c])
  {
    RenderLayout(b);
    var line := Render(b)[r * (b.n + 3)..(r + 1) * (b.n + 3)];
    assert line[c + 1] == Glyph(b.tiles[r][c]);
    assert (r + 1) * (b.n + 3) == r * (b.n + 3) + b.n + 3;
  }

  /** The rendering has the n row lines and the bottom line, each ended by a line break, and nothing after. */
  lemma RenderLines(b: Board)
    requires b.Valid()
    ensures Text.Split(Render(b), '\n') == RowTexts(b.tiles) + [BottomText(b.n), ""]
    ensures |Text.Split(Render(b), '\n')| == b.n + 2
  {
    var bottom := BottomText(b.n);
    var s := Render(b);
    assert s == RowLines(b.tiles) + (bottom + "\n");
    SplitRowLines(b.tiles, bottom + "\n");
    assert '\n' !in bottom;
    Text.SplitLine(bottom, "", '\n');
    assert bottom + ['\n'] + "" == bottom + "\n";
    assert Text.Split("", '\n') == [""];
    assert Text.Split(bottom + "\n", '\n') == [bottom, ""];
  }

  function RowTexts(rows: seq<seq<Tile>>): (texts: seq<string>)
    ensures |texts| == |rows|
  {
    seq(|rows|, r requires 0 <= r < |rows| => RowText(rows[r]))
  }

  lemma {:induction false} SplitRowLines(rows: seq<seq<Tile>>, rest: string)
    ensures Text.Split(RowLines(rows) + rest, '\n') == RowTexts(rows) + Text.Split(rest, '\n')
    decreases |rows|
  {
    if |rows| == 0 {
      assert RowLines(rows) + rest == rest;
    } else {
      SplitRowLines(rows[1..], rest);
      var text := RowText(rows[0]);
      assert '\n' !in text by {
        forall k | 0 <= k < |text|
          ensures text[k] != '\n'
        {
          if 0 < k < |text| - 1 {
            assert text[k] == RowGlyphs(rows[0])[k - 1];
          }
        }
      }
      Text.SplitLine(text, RowLines(rows[1..]) + rest, '\n');
      assert RowLines(rows) + rest == text + ['\n'] + (RowLines(rows[1..]) + rest);
      assert RowTexts(rows) == [text] + RowTexts(rows[1..]);
    }
  }

  /** Two boards that render to the same text are the same board. */
  lemma RenderInjective(a: Board, b: Board)
    requires a.Valid() && b.Valid()
    requires Render(a) == Render(b)
    ensures a == b
  {
    SizeFromLength(a.n, b.n);
    forall r, c | 0 <= r < a.n && 0 <= c < a.n
      ensures a.tiles[r][c] == b.tiles[r][c]
    {
      RenderTileAt(a, r, c);
      RenderTileAt(b, r, c);
      GlyphInjective(a.tiles[r][c], b.tiles[r][c]);
    }
    forall r | 0 <= r < a.n
      ensures a.tiles[r] == b.tiles[r]
    {
    }
  }

  /** The rendered length (n + 1)(n + 3) fixes n. */
  lemma SizeFromLength(m: nat, n: nat)
    requires (m + 1) * (m + 3) == (n + 1) * (n + 3)
    ensures m == n
  {
    if m != n {
      var lo, hi := if m < n then m else n, if m < n then n else m;
      LengthGrows(lo, hi);
    }
  }

  lemma {:induction false} LengthGrows(lo: nat, hi: nat)
    requires lo < hi
    ensures (lo + 1) * (lo + 3) < (hi + 1) * (hi + 3)
    decreases hi - lo
  {
    assert (hi + 1) * (hi + 3) == hi * hi + 4 * hi + 3;
    if lo + 1 < hi {
      LengthGrows(lo, hi - 1);
      assert (hi - 1) * (hi - 1) + 4 * (hi - 1) + 3 == hi * hi + 2 * hi;
      assert (hi - 1 + 1) * (hi - 1 + 3) == (hi - 1) * (hi - 1) + 4 * (hi - 1) + 3;
    } else {
      assert (lo + 1) * (lo + 3) == lo * lo + 4 * lo + 3;
      assert hi * hi == lo * lo + 2 * lo + 1;
    }
  }

  /** A fresh 4 x 4 board: four rows of wall, four empty tiles, wall, then six walls. */
  const EmptyBoard: string :=
    "\U{2B1C}\U{2B1B}\U{2B1B}\U{2B1B}\U{2B1B}\U{2B1C}\n" +
    "\U{2B1C}\U{2B1B}\U{2B1B}\U{2B1B}\U{2B1B}\U{2B1C}\n" +
    "\U{2B1C}\U{2B1B}\U{2B1B}\U{2B1B}\U{2B1B}\U{2B1C}\n" +
    "\U{2B1C}\U{2B1B}\U{2B1B}\U{2B1B}\U{2B1B}\U{2B1C}\n" +
    "\U{2B1C}\U{2B1C}\U{2B1C}\U{2B1C}\U{2B1C}\U{2B1C}\n"

  lemma FreshBoardRendersEmptyBoard()
    ensures Render(New(4)) == EmptyBoard
  {
    var b := New(4);
    var row := b.tiles[0];
    assert forall r :: 0 <= r < 4 ==> b.tiles[r] == row;
    var line := "\U{2B1C}\U{2B1B}\U{2B1B}\U{2B1B}\U{2B1B}\U{2B1C}\n";
    assert RowGlyphs(row) == "\U{2B1B}\U{2B1B}\U{2B1B}\U{2B1B}";
    assert RowLine(row) == line;
    assert b.tiles[1..][1..][1..][1..] == [];
    assert RowLines(b.tiles) == line + line + line + line;
    assert BottomText(4) == "\U{2B1C}\U{2B1C}\U{2B1C}\U{2B1C}\U{2B1C}\U{2B1C}";
  }
}
