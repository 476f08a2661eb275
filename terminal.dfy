/**
 * The terminal's back buffer, standing in for termbox: a map from (column, row)
 * to the glyph last set there. Colours and attributes are not modelled.
 */
module Terminal {

  datatype Option<T> = None | Some(value: T)

  /** One `SetCell` call: a glyph at a column and a row. */
  datatype Cell = Cell(col: int, row: int, glyph: char)

  type Buffer = map<(int, int), char>

  function Pos(c: Cell): (int, int) {
    (c.col, c.row)
  }

  /** What the buffer shows at `p`, if anything has been set there. */
  function Lookup(s: Buffer, p: (int, int)): Option<char> {
    if p in s then Some(s[p]) else None
  }

  function SetCell(s: Buffer, c: Cell): Buffer {
    s[Pos(c) := c.glyph]
  }

  /** The glyph of the last cell of `cells` that sits at `p`, if any does. */
  function LastAt(cells: seq<Cell>, p: (int, int)): (g: Option<char>)
    ensures g == None <==> forall i | 0 <= i < |cells| :: Pos(cells[i]) != p
    decreases |cells|
  {
    if cells == [] then None
    else
      var later := LastAt(cells[1..], p);
      if later.Some? then later
      else if Pos(cells[0]) == p then Some(cells[0].glyph)
      else None
  }

  /** A cell at `p` with no later cell at `p` is the one `LastAt` reports. */
  lemma {:induction false} LastAtIsLastCell(cells: seq<Cell>, p: (int, int), i: int)
    requires 0 <= i < |cells| && Pos(cells[i]) == p
    requires forall j | i < j < |cells| :: Pos(cells[j]) != p
    ensures LastAt(cells, p) == Some(cells[i].glyph)
    decreases |cells|
  {
    if i == 0 {
      assert forall j | 0 <= j < |cells[1..]| :: Pos(cells[1..][j]) != p by {
        forall j | 0 <= j < |cells[1..]| ensures Pos(cells[1..][j]) != p {
          assert cells[1..][j] == cells[j + 1];
        }
      }
    } else {
      LastAtIsLastCell(cells[1..], p, i - 1);
    }
  }

  /**
   * Painting cells one after the other, as successive `SetCell` calls do: each
   * position shows the last glyph painted there, and every other position is
   * left as it was.
   */
  function Paint(s: Buffer, cells: seq<Cell>): (r: Buffer)
    ensures forall p :: Lookup(r, p) == if LastAt(cells, p).Some? then LastAt(cells, p) else Lookup(s, p)
    decreases |cells|
  {
    if cells == [] then s else Paint(SetCell(s, cells[0]), cells[1..])
  }

  /** When no two cells share a position, every cell painted is visible. */
  lemma PaintDistinctShowsAll(s: Buffer, cells: seq<Cell>)
    requires forall i, j | 0 <= i < j < |cells| :: Pos(cells[i]) != Pos(cells[j])
    ensures forall i | 0 <= i < |cells| :: Lookup(Paint(s, cells), Pos(cells[i])) == Some(cells[i].glyph)
  {
    forall i | 0 <= i < |cells|
      ensures Lookup(Paint(s, cells), Pos(cells[i])) == Some(cells[i].glyph)
    {
      LastAtIsLastCell(cells, Pos(cells[i]), i);
    }
  }
}
