# rain — a Dafny model of the animation's logic

`rain` is a terminal animation written in Go (`main.go`): a noise-textured
ground, a centred title "R a i n", and rain drops that appear, grow into a
splash and vanish. Under the terminal and noise calls sits a small block of
integer and list logic. This project models that block and proves what it
promises:

- **Column snapping** (`grid`): odd columns move one to the right
  (module `Coords`). Go's `%` truncates toward zero. Module `GoInt` models Go's
  `/` and `%` and proves that the test `i%2 == 0` means "even" for negative
  columns too.
- **Drop rendering** (`renderDrop`, `renderRain`, module `Drops`): a drop maps
  to the `SetCell` calls it makes. The terminal's back buffer is a
  `map<(int, int), char>` (module `Terminal`). `renderRain` works in place on
  an `array<Drop>`, the caller's slice.
- **Drop lifecycle** (`newDrop`, `updateRain`, module `Rain`): every draw from
  `math/rand` is an input. There is one age roll per drop. Each `rand.Intn(7)`
  that the spawn loop's condition evaluates is a separate input, because the
  bound is redrawn on every test. Each new drop gets the raw pair
  `rand.Intn(w-3)`, `rand.Intn(h-2)`. `UpdateRain` is a method with the
  source's two loops, proved equal to the specification function `Advance`.
- **Ground and title** (`renderGround`, `renderText`, module `Terrain`): the
  noise field is a parameter `(int, int) -> real`. `RenderGround` keeps the
  source's nested loops. It is proved to produce, cell by cell, a closed-form
  frame `FrameAt`: the title over the ground.
- **One tick** of the main loop (module `Frame`): ground, then drops rendered
  and aged in place, then `updateRain` over the aged slice. Because of that
  order, a surviving drop ages by 1 or 2 per tick. The lemma `TickKeepsLive`
  shows that the collection invariant holds from tick to tick: ages in [0, 30),
  positions inside `newDrop`'s box.

Facts about main.go that the model makes explicit:

- `newDrop` places x in [2, w-1) and y in [2, h) (main.go:134-135).
- `renderGround` samples the noise at the unsnapped x and paints at `grid(x)`
  (main.go:67-76). Two columns snap onto each even column, and the later one
  wins when it paints.
- `updateRain` keeps the carried-over drops in input order (main.go:144-152).
- The spawn loop redraws its bound `rand.Intn(7)` on every test (main.go:154).
  So the number of new drops is not uniform over [0, 7), but it is never above 6.
- A tick ages a drop twice: once unconditionally in `renderRain` (main.go:125)
  and once on a successful roll in `updateRain` (main.go:145-147).

## Model

| member | source | states |
|---|---|---|
| `GoInt.Div` | main.go:53-59 | Go's `w/2`: the quotient truncates toward zero for negative dividends |
| `GoInt.Rem` | main.go:28 | Go's `i%2`: the remainder has the dividend's sign and is smaller than the divisor in magnitude |
| `GoInt.RemTwoIsZeroIffEven` | main.go:28 | the truncating test `i%2 == 0` holds exactly for even `i`, negatives included |
| `GoInt.RemOfNegativeOdd` | main.go:28 | for a negative odd `i`, Go's `i%2` is -1 (where Dafny's `%` gives 1) |
| `Coords.Grid` | main.go:27-32 | the snapped column is even and lies in [i, i+1] |
| `Coords.GridFixesExactlyEven` | main.go:27-32 | `grid` leaves exactly the even columns unchanged and moves odd ones to i+1 |
| `Coords.GridIdempotent` | main.go:27-32 | snapping twice is snapping once |
| `Coords.GridMonotone` | main.go:27-32 | snapping preserves the order of columns |
| `Coords.GridPreimage` | main.go:27-32 | an even column c receives exactly columns c-1 and c, an odd column receives none |
| `Terminal.LastAt` | main.go:111-116 | there is no glyph at a position exactly when no painted cell sits there |
| `Terminal.LastAtIsLastCell` | main.go:111-116 | the glyph at a position is that of the last cell painted there |
| `Terminal.Paint` | main.go:111-116 | successive `SetCell` calls: each position shows its last painted glyph, every other position keeps its old content |
| `Terminal.PaintDistinctShowsAll` | main.go:111-116 | cells at pairwise distinct positions are all visible after painting |
| `Drops.DropCells` | main.go:91-120 | a drop paints at most two cells, all on its row and on even columns within two of `grid(x)`; none outside ages 4..9, one at `(grid(x), y)` for ages 4..7, and a `(`,`)` pair ending at `grid(x)+2` for ages 8 and 9 |
| `Drops.DropGlyphTable` | main.go:97-118 | glyphs `.` `-` `o` `O` for ages 4..7; the splash opens at `grid(x)` for age 8 and at `grid(x)-2` for age 9 |
| `Drops.RenderDropShows` | main.go:91-120 | rendering a drop shows every glyph it paints and changes no position it does not cover |
| `Drops.PaintDropsLastOnTop` | main.go:123-126 | the drop rendered last is fully visible |
| `Drops.Grown` | main.go:125 | `drops[i].age++`: the age grows by one, the position is kept |
| `Drops.GrownAll` | main.go:123-126 | every drop of the slice one tick older; length and positions kept |
| `Drops.PaintDrops` | main.go:123-124 | drawing the drops in slice order: every position that changes is covered by some drop |
| `Drops.PaintConcat` | main.go:123-124 | painting one run of cells and then another is painting their concatenation |
| `Drops.PaintDropsShowsLastGlyph` | main.go:123-124 | drawing the drops is one run of all their cells in slice order; each position shows the last drop glyph painted there, else its old content |
| `Drops.RenderRain` | main.go:122-129 | renders the drops in order and leaves the array equal to `GrownAll` of its old content: every age exactly one higher, length, x and y unchanged |
| `Rain.Roll` | main.go:145-147 | the roll keeps the position and adds one to the age exactly when it succeeds |
| `Rain.Survivors` | main.go:144-152 | the carried-over drops are no more than the input drops, and all are younger than 30 |
| `Rain.Kept` | main.go:144-152 | the surviving indices increase strictly, and an index survives exactly when its post-roll age is below 30 |
| `Rain.SurvivorsAreKept` | main.go:144-152 | the survivors are the rolled input drops at the kept indices, in input order |
| `Rain.OldDropRolledLeaves` | main.go:145-151 | age 29 with a successful roll is removed |
| `Rain.OldDropNotRolledStays` | main.go:145-151 | age 29 with a failed roll survives at 29 |
| `Rain.SpawnCount` | main.go:154-156 | the spawn loop, counting from i, ends at or after i |
| `Rain.SpawnCountIsFirstFailedTest` | main.go:154 | the count is the first counter value whose freshly drawn bound does not exceed it: every earlier test passes, the test at the count fails, and the count is at most 6 |
| `Rain.SpawnCountReaches` | main.go:154 | each count k from 0 to 6 can occur: with draws of 6 up to the k-th test and 0 after, the loop stops exactly at k |
| `Rain.NewDrop` | main.go:131-138 | a new drop has age 0, x in [2, w-1) and y in [2, h) |
| `Rain.NewDropReachesEveryPosition` | main.go:133-137 | every position of that box comes from exactly one pair of draws |
| `Rain.Spawned` | main.go:154-156 | the j-th appended drop is `newDrop` on the j-th pair of draws, in order; so all have age 0 and lie inside the box |
| `Rain.Advance` | main.go:142-159 | the collection `updateRain` returns (survivors, then new drops): at most six longer than the input, every age below 30 |
| `Rain.AdvanceAges` | main.go:142-159 | no output drop is 30 or older; survivors come first, new drops (age 0) after |
| `Rain.AdvanceLength` | main.go:142-159 | the output length lies between the survivor count and the survivor count plus 6 |
| `Rain.AdvanceFromEmptySpawnsThree` | main.go:142-159 | from no drops, a loop that runs three times yields exactly three drops of age 0 |
| `Rain.UpdateRain` | main.go:142-159 | the two loops compute `Advance` of the input, which they only read; ages below 30; length within survivors..survivors+6 |
| `Terrain.GroundGlyph` | main.go:68-78 | the noise value is partitioned into `.` below 0, `_` in [0, 0.2), `,` in [0.2, 0.4), nothing from 0.4 |
| `Terrain.GroundBoundaries` | main.go:68-78 | the boundaries 0, 0.2 and 0.4 fall into the upper band |
| `Terrain.RowCell` | main.go:65-79 | a row's content after visiting x in [1, k): glyphs only on even columns in [2, k] |
| `Terrain.GroundAt` | main.go:65-79 | the ground after the whole walk: glyphs only in rows [1, h-2) and columns [2, w-3] |
| `Terrain.RowCellStep` | main.go:66-79 | visiting x paints `grid(x)` exactly when its noise is in a band and changes no other column |
| `Terrain.RowCellOrigin` | main.go:66-79 | every ground glyph comes from a visited x that snaps onto its column |
| `Terrain.RowCellCovers` | main.go:66-79 | every visited x whose noise is in a band leaves a glyph at `grid(x)` |
| `Terrain.GroundBounds` | main.go:65-80 | ground glyphs lie only in rows [1, h-2) and on even columns in [2, w-3] |
| `Terrain.RenderText` | main.go:51-60 | the title cells are overwritten with the title, and every other cell is kept |
| `Terrain.TitleAt` | main.go:51-60 | the title layout: each glyph is a character of the title, and non-blank glyphs sit at even offsets from w/2-6 |
| `Terrain.FrameAt` | main.go:62-83 | the title drawn over the ground (main.go:81): a title cell shows the title, any other glyph is a ground glyph |
| `Terrain.TitleLayout` | main.go:53-59 | the title occupies exactly the cells (w/2-6 .. w/2, h/2) and spells R, a, i, n at even offsets |
| `Terrain.RenderGround` | main.go:62-83 | after clearing and the nested walk, every cell holds the title glyph if it has one, else the ground glyph of the row walk, else nothing |
| `Frame.TickAging` | main.go:189-190 | over a tick a survivor keeps its position and ages by 2 if its roll succeeds, else by 1; it leaves exactly when that total reaches 30 |
| `Frame.TickKeepsLive` | main.go:188-190 | ages in [0, 30) and positions in newDrop's box hold again after a tick |
| `Frame.Tick` | main.go:188-190 | ground, then the drops drawn over it and aged in place, then the next collection is `Advance` of the aged slice |

## Left out

- termbox is not modelled. That covers `Init`, `Close`, `Flush` and `PollEvent`. `Clear` becomes the empty map, `Size` becomes the parameters `w` and `h`, and `SetCell` becomes a map update.
- termbox ignores a `SetCell` outside the buffer. The model keeps such cells in the map. Example: a splash's `)` at `grid(x)+2` can fall past the right edge.
- `Size` is read anew by `renderGround`, `renderText` and every `newDrop`. The model uses one `w`, `h` per tick.
- The perlin noise field (main.go:34-37) is a parameter of type `(int, int) -> real`.
- Go compares `float64` values. The thresholds 0, 0.2 and 0.4 are compared as exact reals.
- `math/rand` becomes explicit inputs. The model does not capture how the age rolls, loop bounds and position draws interleave in the one generator stream. It also leaves out their probabilities: 1/3 for a roll, uniform for each draw.
- `debug` (main.go:19-24) is not modelled. It is diagnostic file output.
- `Rain.NewDrop`: its `ValidDraw` requirement, and `ValidDraws` in `Spawned` and `UpdateRain`, exclude w <= 3 and h <= 2 whenever a drop is spawned. There `rand.Intn(w-3)` or `rand.Intn(h-2)` (main.go:134-135) panics and the program crashes. That crash path is not modelled.
- The `main` loop is reduced to its tick. Left out are the input goroutine, the `select` on the event channel, the 50 ms sleep, `panic` on a failed `Init`, and `os.Exit` on a key press.
- Colours and the bold attribute are not modelled.
- Go's 64-bit wrap-around is not modelled: integers are unbounded. Ages stay below 32, and coordinates come from the terminal size.
