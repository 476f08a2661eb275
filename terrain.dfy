/**
 * The ground and the title (`renderGround`, `renderText`). The noise field is a
 * parameter: only the thresholds applied to its value are modelled.
 */
module Terrain {
  import opened Terminal
  import opened Coords
  import GoInt

  /**
   * The three ground bands: pebble `.` below 0, flat `_` from 0 below 0.2,
   * leaf `,` from 0.2 below 0.4, nothing from 0.4 up. Each boundary belongs to
   * the band above it.
   */
  function GroundGlyph(n: real): (g: Option<char>)
    ensures g == Some('.') <==> n < 0.0
    ensures g == Some('_') <==> 0.0 <= n < 0.2
    ensures g == Some(',') <==> 0.2 <= n < 0.4
    ensures g == None <==> 0.4 <= n
  {
    if n < 0.0 then Some('.')
    else if n < 0.2 then Some('_')
    else if n < 0.4 then Some(',')
    else None
  }

  lemma GroundBoundaries()
    ensures GroundGlyph(-0.5) == Some('.') && GroundGlyph(0.0) == Some('_') && GroundGlyph(0.1) == Some('_')
    ensures GroundGlyph(0.2) == Some(',') && GroundGlyph(0.3) == Some(',')
    ensures GroundGlyph(0.4) == None && GroundGlyph(0.5) == None
  {
  }

  /**
   * Column `c` of row `y` once the walk of that row has visited every x in
   * [1, k). The noise is sampled at the unsnapped x and the glyph painted at
   * Grid(x); two columns, c - 1 and c, snap onto an even c, and c, painted
   * later, wins whenever it paints at all.
   */
  function RowCell(noise: (int, int) -> real, c: int, y: int, k: int): (g: Option<char>)
    ensures g.Some? ==> c % 2 == 0 && 2 <= c <= k
  {
    if c % 2 != 0 then None
    else if 1 <= c < k && GroundGlyph(noise(c, y)).Some? then GroundGlyph(noise(c, y))
    else if 1 <= c - 1 < k then GroundGlyph(noise(c - 1, y))
    else None
  }

  /** Visiting x paints Grid(x) when its noise falls in a band, and changes nothing else. */
  lemma RowCellStep(noise: (int, int) -> real, c: int, y: int, x: int)
    requires x >= 1
    ensures RowCell(noise, c, y, x + 1) ==
      if c == Grid(x) && GroundGlyph(noise(x, y)).Some? then GroundGlyph(noise(x, y)) else RowCell(noise, c, y, x)
  {
  }

  /** Every glyph in a row comes from some visited x that snaps onto its column. */
  lemma RowCellOrigin(noise: (int, int) -> real, c: int, y: int, k: int)
    requires RowCell(noise, c, y, k).Some?
    ensures exists x :: 1 <= x < k && Grid(x) == c && RowCell(noise, c, y, k) == GroundGlyph(noise(x, y))
  {
  }

  /** Every visited x whose noise falls in a band leaves a glyph at Grid(x). */
  lemma RowCellCovers(noise: (int, int) -> real, x: int, y: int, k: int)
    requires 1 <= x < k && GroundGlyph(noise(x, y)).Some?
    ensures RowCell(noise, Grid(x), y, k).Some?
  {
  }

  /** The ground after `renderGround`'s walk over y in [1, h-2) and x in [1, w-3). */
  function GroundAt(w: int, h: int, noise: (int, int) -> real, c: int, y: int): (g: Option<char>)
    ensures g.Some? ==> 1 <= y < h - 2 && 2 <= c <= w - 3
  {
    if 1 <= y < h - 2 then RowCell(noise, c, y, w - 3) else None
  }

  /** Ground glyphs lie only in rows [1, h-2) and on even columns in [2, w-3]. */
  lemma GroundBounds(w: int, h: int, noise: (int, int) -> real, c: int, y: int)
    requires GroundAt(w, h, noise, c, y).Some?
    ensures 1 <= y < h - 2 && c % 2 == 0 && 2 <= c <= w - 3
  {
  }

  /** The title text, letters separated by blanks. */
  const Title: string := "R a i n"

  /** The title's glyph at (c, y): seven cells ending at column w/2 on row h/2 (Go's truncating division). */
  function TitleAt(w: int, h: int, c: int, y: int): (g: Option<char>)
    ensures g.Some? ==> g.value in Title
    ensures g.Some? && g.value != ' ' ==> (c - (GoInt.Div(w, 2) - 6)) % 2 == 0
  {
    var cx := GoInt.Div(w, 2);
    if y == GoInt.Div(h, 2) && cx - 6 <= c <= cx then Some(Title[c - (cx - 6)]) else None
  }

  /** `renderText`: the seven `SetCell` calls of the title, over whatever the buffer holds. */
  function RenderText(s: Buffer, w: int, h: int): (r: Buffer)
    ensures forall c, y :: Lookup(r, (c, y)) == if TitleAt(w, h, c, y).Some? then TitleAt(w, h, c, y) else Lookup(s, (c, y))
  {
    var cx, cy := GoInt.Div(w, 2), GoInt.Div(h, 2);
    s[(cx - 6, cy) := 'R'][(cx - 5, cy) := ' '][(cx - 4, cy) := 'a'][(cx - 3, cy) := ' ']
     [(cx - 2, cy) := 'i'][(cx - 1, cy) := ' '][(cx, cy) := 'n']
  }

  /** The title covers exactly seven cells, and its non-blank ones spell R, a, i, n. */
  lemma TitleLayout(w: int, h: int)
    ensures var cx, cy := GoInt.Div(w, 2), GoInt.Div(h, 2);
      && TitleAt(w, h, cx - 6, cy) == Some('R') && TitleAt(w, h, cx - 4, cy) == Some('a')
      && TitleAt(w, h, cx - 2, cy) == Some('i') && TitleAt(w, h, cx, cy) == Some('n')
      && (forall c, y :: TitleAt(w, h, c, y).Some? <==> y == cy && cx - 6 <= c <= cx)
  {
  }

  /** A frame's background: the title over the ground. */
  function FrameAt(w: int, h: int, noise: (int, int) -> real, c: int, y: int): (g: Option<char>)
    ensures TitleAt(w, h, c, y).Some? ==> g == TitleAt(w, h, c, y)
    ensures g.Some? && TitleAt(w, h, c, y) == None ==> g == GroundAt(w, h, noise, c, y) && 1 <= y < h - 2
  {
    if TitleAt(w, h, c, y).Some? then TitleAt(w, h, c, y) else GroundAt(w, h, noise, c, y)
  }

  ghost predicate IsFrame(s: Buffer, w: int, h: int, noise: (int, int) -> real) {
    forall c, y :: Lookup(s, (c, y)) == FrameAt(w, h, noise, c, y)
  }

  /**
   * `renderGround`: clears the buffer, walks the rows and columns painting each
   * ground glyph at the snapped column, then draws the title. Flushing to the
   * terminal is not modelled.
   */
  method RenderGround(w: int, h: int, noise: (int, int) -> real) returns (s: Buffer)
    ensures forall c, y :: Lookup(s, (c, y)) == FrameAt(w, h, noise, c, y)
  {
    s := map[];
    var y := 1;
    while y < h - 2
      invariant 1 <= y && (y <= h - 2 || y == 1)
      invariant forall c, r :: Lookup(s, (c, r)) == if 1 <= r < y then RowCell(noise, c, r, w - 3) else None
    {
      var x := 1;
      while x < w - 3
        invariant 1 <= x && (x <= w - 3 || x == 1)
        invariant forall c, r ::
                    Lookup(s, (c, r)) ==
                    if 1 <= r < y then RowCell(noise, c, r, w - 3) else if r == y then RowCell(noise, c, r, x) else None
      {
        var n := noise(x, y);
        ghost var before := s;
        var g := GroundGlyph(n);
        if g.Some? {
          s := s[(Grid(x), y) := g.value];
        }
        forall c, r
          ensures Lookup(s, (c, r)) ==
            if 1 <= r < y then RowCell(noise, c, r, w - 3) else if r == y then RowCell(noise, c, r, x + 1) else None
        {
          RowCellStep(noise, c, r, x);
          assert Lookup(before, (c, r)) ==
            if 1 <= r < y then RowCell(noise, c, r, w - 3) else if r == y then RowCell(noise, c, r, x) else None;
        }
        x := x + 1;
      }
      forall c, r
        ensures Lookup(s, (c, r)) == if 1 <= r < y + 1 then RowCell(noise, c, r, w - 3) else None
      {
        assert Lookup(s, (c, r)) ==
          if 1 <= r < y then RowCell(noise, c, r, w - 3) else if r == y then RowCell(noise, c, r, x) else None;
      }
      y := y + 1;
    }
    ghost var ground := s;
    s := RenderText(s, w, h);
    forall c, r ensures Lookup(s, (c, r)) == FrameAt(w, h, noise, c, r) {
      assert Lookup(ground, (c, r)) == if 1 <= r < y then RowCell(noise, c, r, w - 3) else None;
    }
  }
}
