/** Drawing rain drops (`renderDrop`, `renderRain`). */
module Drops {
  import opened Terminal
  import opened Coords

  /** A drop: a column, a row and an age counted in ticks. */
  datatype Drop = Drop(x: int, y: int, age: int)

  /** The positions a drop may paint: its own row, two columns either side of its snapped column. */
  predicate Covers(d: Drop, p: (int, int)) {
    p.1 == d.y && Grid(d.x) - 2 <= p.0 <= Grid(d.x) + 2
  }

  /**
   * `renderDrop`: the `SetCell` calls a drop makes, in order. A drop is
   * invisible before age 4 and after age 9, one glyph at its snapped column for
   * ages 4 to 7, and a two-cell splash `(` `)` for ages 8 and 9.
   */
  function DropCells(d: Drop): (cells: seq<Cell>)
    ensures |cells| <= 2
    ensures |cells| == 0 <==> d.age < 4 || 9 < d.age
    ensures |cells| == 1 <==> 4 <= d.age <= 7
    ensures |cells| == 1 ==> Pos(cells[0]) == (Grid(d.x), d.y)
    ensures |cells| == 2 ==> cells[0].glyph == '(' && cells[1].glyph == ')'
    ensures |cells| == 2 ==> cells[0].col < cells[1].col == Grid(d.x) + 2
    ensures forall i | 0 <= i < |cells| :: Covers(d, Pos(cells[i])) && cells[i].col % 2 == 0
  {
    var x := Grid(d.x);
    match d.age
    case 4 => [Cell(x, d.y, '.')]
    case 5 => [Cell(x, d.y, '-')]
    case 6 => [Cell(x, d.y, 'o')]
    case 7 => [Cell(x, d.y, 'O')]
    case 8 => [Cell(x, d.y, '('), Cell(x + 2, d.y, ')')]
    case 9 => [Cell(x - 2, d.y, '('), Cell(x + 2, d.y, ')')]
    case _ => []
  }

  /** The glyph table: which glyph each visible age shows, and where each splash opens. */
  lemma DropGlyphTable(d: Drop)
    ensures 4 <= d.age <= 7 ==> DropCells(d) == [Cell(Grid(d.x), d.y, ".-oO"[d.age - 4])]
    ensures d.age == 8 ==> DropCells(d)[0].col == Grid(d.x)
    ensures d.age == 9 ==> DropCells(d)[0].col == Grid(d.x) - 2
  {
  }

  /** Rendering one drop shows every cell it paints and leaves the rest of the buffer alone. */
  lemma RenderDropShows(s: Buffer, d: Drop)
    ensures forall i | 0 <= i < |DropCells(d)| ::
      Lookup(Paint(s, DropCells(d)), Pos(DropCells(d)[i])) == Some(DropCells(d)[i].glyph)
    ensures forall p | !Covers(d, p) :: Lookup(Paint(s, DropCells(d)), p) == Lookup(s, p)
  {
  }

  /** Rendering `ds` in order, each drop painting over those before it. */
  function PaintDrops(s: Buffer, ds: seq<Drop>): (r: Buffer)
    ensures forall p | Lookup(r, p) != Lookup(s, p) :: exists k | 0 <= k < |ds| :: Covers(ds[k], p)
    decreases |ds|
  {
    if ds == [] then s else Paint(PaintDrops(s, ds[..|ds| - 1]), DropCells(ds[|ds| - 1]))
  }

  /** All the `SetCell` calls of rendering `ds`: each drop's cells, in slice order. */
  function AllCells(ds: seq<Drop>): seq<Cell>
    decreases |ds|
  {
    if ds == [] then [] else AllCells(ds[..|ds| - 1]) + DropCells(ds[|ds| - 1])
  }

  /** Painting `a` and then `b` is painting `a + b`. */
  lemma {:induction false} PaintConcat(s: Buffer, a: seq<Cell>, b: seq<Cell>)
    ensures Paint(Paint(s, a), b) == Paint(s, a + b)
    decreases |a|
  {
    if a != [] {
      assert (a + b)[0] == a[0] && (a + b)[1..] == a[1..] + b;
      assert Paint(s, a) == Paint(SetCell(s, a[0]), a[1..]);
      assert Paint(s, a + b) == Paint(SetCell(s, a[0]), a[1..] + b);
      PaintConcat(SetCell(s, a[0]), a[1..], b);
    } else {
      assert a + b == b;
    }
  }

  /**
   * Rendering the drops one after the other is one run of all their cells: each
   * position shows the last drop glyph painted there, or what it held before
   * when no drop paints it.
   */
  lemma {:induction false} PaintDropsShowsLastGlyph(s: Buffer, ds: seq<Drop>)
    ensures PaintDrops(s, ds) == Paint(s, AllCells(ds))
    ensures forall p :: Lookup(PaintDrops(s, ds), p) ==
                        if LastAt(AllCells(ds), p).Some? then LastAt(AllCells(ds), p) else Lookup(s, p)
    decreases |ds|
  {
    if ds != [] {
      var n := |ds| - 1;
      PaintDropsShowsLastGlyph(s, ds[..n]);
      PaintConcat(s, AllCells(ds[..n]), DropCells(ds[n]));
    }
  }

  /** The drop rendered last is drawn on top: all of its cells are visible. */
  lemma PaintDropsLastOnTop(s: Buffer, ds: seq<Drop>)
    requires ds != []
    ensures var cells := DropCells(ds[|ds| - 1]);
      forall i | 0 <= i < |cells| :: Lookup(PaintDrops(s, ds), Pos(cells[i])) == Some(cells[i].glyph)
  {
  }

  /** `drops[i].age++`: one tick older, same place. */
  function Grown(d: Drop): (r: Drop)
    ensures r.x == d.x && r.y == d.y && r.age == d.age + 1
  {
    d.(age := d.age + 1)
  }

  /** Every drop of the slice one tick older, the slice otherwise unchanged. */
  function GrownAll(ds: seq<Drop>): (r: seq<Drop>)
    ensures |r| == |ds|
    ensures forall i | 0 <= i < |r| :: r[i].x == ds[i].x && r[i].y == ds[i].y && r[i].age == ds[i].age + 1
  {
    seq(|ds|, i requires 0 <= i < |ds| => Grown(ds[i]))
  }

  /**
   * `renderRain`: renders every drop of the caller's slice, in order, and ages
   * each one by exactly one tick in place; positions and the slice length are
   * untouched. Flushing the buffer to the terminal is not modelled.
   */
  method RenderRain(drops: array<Drop>, s: Buffer) returns (r: Buffer)
    modifies drops
    ensures r == PaintDrops(s, old(drops[..]))
    ensures drops[..] == GrownAll(old(drops[..]))
  {
    ghost var before := drops[..];
    r := s;
    var i := 0;
    while i < drops.Length
      invariant 0 <= i <= drops.Length
      invariant r == PaintDrops(s, before[..i])
      invariant forall k | 0 <= k < i :: drops[k] == Grown(before[k])
      invariant forall k | i <= k < drops.Length :: drops[k] == before[k]
    {
      var d := drops[i];
      assert before[..i + 1][..i] == before[..i];
      r := Paint(r, DropCells(d));
      drops[i] := d.(age := d.age + 1);
      i := i + 1;
    }
    assert before[..drops.Length] == before;
  }
}
