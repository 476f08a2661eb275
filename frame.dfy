/**
 * One tick of the main loop: render the ground, render and age the drops in
 * place, then replace the collection with `updateRain`'s result. Key polling,
 * the debug dump and the 50 ms sleep around it are not modelled.
 */
module Frame {
  import opened Terminal
  import opened Drops
  import opened Rain
  import opened Terrain

  /** The collection invariant between ticks: ages in [0, 30) and positions where `newDrop` places drops. */
  ghost predicate Live(ds: seq<Drop>, w: int, h: int) {
    forall i | 0 <= i < |ds| :: 0 <= ds[i].age < MaxAge && 2 <= ds[i].x < w - 1 && 2 <= ds[i].y < h
  }

  /**
   * Over one tick a surviving drop keeps its position and ages by 1 or 2: one
   * unconditional step in rendering, one more when its roll succeeds. A drop
   * leaves exactly when that total reaches 30.
   */
  lemma TickAging(ds: seq<Drop>, rolls: seq<bool>)
    requires |rolls| == |ds|
    ensures var out, k := Survivors(GrownAll(ds), rolls), Kept(GrownAll(ds), rolls);
      && |out| == |k|
      && (forall j | 0 <= j < |k| ::
            && out[j].x == ds[k[j]].x && out[j].y == ds[k[j]].y
            && out[j].age == ds[k[j]].age + (if rolls[k[j]] then 2 else 1))
      && (forall i | 0 <= i < |ds| :: i in k <==> ds[i].age + (if rolls[i] then 2 else 1) < MaxAge)
  {
    SurvivorsAreKept(GrownAll(ds), rolls);
  }

  /** A tick keeps the collection invariant, whatever the random source supplies. */
  lemma TickKeepsLive(ds: seq<Drop>, rolls: seq<bool>, bounds: seq<int>, draws: seq<(int, int)>, w: int, h: int)
    requires Live(ds, w, h)
    requires ValidRandom(|ds|, w, h, rolls, bounds, draws)
    ensures Live(Advance(GrownAll(ds), rolls, bounds, draws, w, h), w, h)
  {
    var grown := GrownAll(ds);
    SurvivorsAreKept(grown, rolls);
    var out, k := Survivors(grown, rolls), Kept(grown, rolls);
    forall j | 0 <= j < |out|
      ensures 0 <= out[j].age < MaxAge && 2 <= out[j].x < w - 1 && 2 <= out[j].y < h
    {
      assert out[j] == Roll(grown[k[j]], rolls[k[j]]);
    }
  }

  /** The tick at main.go:188-190, with the noise field and every random draw as inputs. */
  method Tick(drops: array<Drop>, w: int, h: int, noise: (int, int) -> real,
              rolls: seq<bool>, bounds: seq<int>, draws: seq<(int, int)>)
    returns (next: seq<Drop>, screen: Buffer)
    requires ValidRandom(drops.Length, w, h, rolls, bounds, draws)
    modifies drops
    ensures drops[..] == GrownAll(old(drops[..]))
    ensures exists g :: IsFrame(g, w, h, noise) && screen == PaintDrops(g, old(drops[..]))
    ensures next == Advance(GrownAll(old(drops[..])), rolls, bounds, draws, w, h)
    ensures Live(old(drops[..]), w, h) ==> Live(next, w, h)
  {
    screen := RenderGround(w, h, noise);
    ghost var ground := screen;
    screen := RenderRain(drops, screen);
    next := UpdateRain(drops, rolls, bounds, draws, w, h);
    assert IsFrame(ground, w, h, noise);
    if Live(old(drops[..]), w, h) {
      TickKeepsLive(old(drops[..]), rolls, bounds, draws, w, h);
    }
  }
}
