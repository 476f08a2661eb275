/**
 * The drop lifecycle (`newDrop`, `updateRain`). Every draw from `math/rand` is
 * an explicit input: one age roll per drop (`rand.Intn(3) == 0`), the value of
 * each `rand.Intn(7)` evaluated by the spawn loop's condition, and the pair of
 * raw draws `rand.Intn(w-3)`, `rand.Intn(h-2)` behind each new drop.
 */
module Rain {
  import opened Drops

  /** Drops whose age reaches this are removed. */
  const MaxAge := 30

  /** The age roll: the drop ages by one when its roll succeeds. */
  function Roll(d: Drop, aged: bool): (r: Drop)
    ensures r.x == d.x && r.y == d.y
    ensures r.age == if aged then d.age + 1 else d.age
  {
    if aged then d.(age := d.age + 1) else d
  }

  /** The carried-over drops of `updateRain`'s first loop: each drop rolled, kept when its age is below 30. */
  function Survivors(ds: seq<Drop>, rolls: seq<bool>): (r: seq<Drop>)
    requires |rolls| == |ds|
    ensures |r| <= |ds|
    ensures forall j | 0 <= j < |r| :: r[j].age < MaxAge
    decreases |ds|
  {
    if ds == [] then []
    else
      var n := |ds| - 1;
      var d := Roll(ds[n], rolls[n]);
      Survivors(ds[..n], rolls[..n]) + if d.age < MaxAge then [d] else []
  }

  /** The indices of the input drops that survive, in increasing order. */
  function Kept(ds: seq<Drop>, rolls: seq<bool>): (k: seq<int>)
    requires |rolls| == |ds|
    ensures forall j | 0 <= j < |k| :: 0 <= k[j] < |ds|
    ensures forall j1, j2 | 0 <= j1 < j2 < |k| :: k[j1] < k[j2]
    ensures forall i | 0 <= i < |ds| :: i in k <==> Roll(ds[i], rolls[i]).age < MaxAge
    decreases |ds|
  {
    if ds == [] then []
    else
      var n := |ds| - 1;
      Kept(ds[..n], rolls[..n]) + if Roll(ds[n], rolls[n]).age < MaxAge then [n] else []
  }

  /**
   * The survivors are exactly the rolled input drops at the kept indices, in
   * input order: a drop leaves precisely when its age after the roll is 30 or
   * more, and a survivor keeps its position and ages by at most one.
   */
  lemma {:induction false} SurvivorsAreKept(ds: seq<Drop>, rolls: seq<bool>)
    requires |rolls| == |ds|
    ensures |Survivors(ds, rolls)| == |Kept(ds, rolls)|
    ensures var r, k := Survivors(ds, rolls), Kept(ds, rolls);
      forall j | 0 <= j < |k| :: r[j] == Roll(ds[k[j]], rolls[k[j]])
    decreases |ds|
  {
    if ds != [] {
      var n := |ds| - 1;
      var ds', rolls' := ds[..n], rolls[..n];
      SurvivorsAreKept(ds', rolls');
      var r', k' := Survivors(ds', rolls'), Kept(ds', rolls');
      var d := Roll(ds[n], rolls[n]);
      var r, k := Survivors(ds, rolls), Kept(ds, rolls);
      assert r == r' + if d.age < MaxAge then [d] else [];
      assert k == k' + if d.age < MaxAge then [n] else [];
      forall j | 0 <= j < |k|
        ensures r[j] == Roll(ds[k[j]], rolls[k[j]])
      {
        if j < |k'| {
          assert r[j] == r'[j] && k[j] == k'[j];
          assert ds'[k'[j]] == ds[k'[j]] && rolls'[k'[j]] == rolls[k'[j]];
        }
      }
    }
  }

  /** A drop of age 29 whose roll succeeds reaches 30 and is removed. */
  lemma OldDropRolledLeaves(x: int, y: int)
    ensures Survivors([Drop(x, y, 29)], [true]) == []
  {
  }

  /** A drop of age 29 whose roll fails survives at age 29. */
  lemma OldDropNotRolledStays(x: int, y: int)
    ensures Survivors([Drop(x, y, 29)], [false]) == [Drop(x, y, 29)]
  {
  }

  /** The `rand.Intn(7)` draws of the spawn loop's tests, each in [0, 7); the loop tests at most seven times, so seven are supplied. */
  predicate ValidBounds(bounds: seq<int>) {
    |bounds| >= 7 && forall i | 0 <= i < |bounds| :: 0 <= bounds[i] < 7
  }

  /**
   * How many drops the loop `for i := 0; i < rand.Intn(7); i++` appends,
   * starting from `i`: the bound is drawn afresh on every test.
   */
  function SpawnCount(bounds: seq<int>, i: nat): (n: nat)
    ensures n >= i
    decreases |bounds| - i
  {
    if i < |bounds| && i < bounds[i] then SpawnCount(bounds, i + 1) else i
  }

  /**
   * The count is where the loop stops: every test before it passes against its
   * freshly drawn bound, the test at it fails, and it is at most 6.
   */
  lemma {:induction false} SpawnCountIsFirstFailedTest(bounds: seq<int>, i: nat)
    requires ValidBounds(bounds) && i <= 6
    ensures SpawnCount(bounds, i) <= 6
    ensures forall j | i <= j < SpawnCount(bounds, i) :: j < bounds[j]
    ensures bounds[SpawnCount(bounds, i)] <= SpawnCount(bounds, i)
    decreases 6 - i
  {
    if i < bounds[i] {
      SpawnCountIsFirstFailedTest(bounds, i + 1);
    }
  }

  /** Bounds that let the spawn loop's first k tests pass and stop it at the k-th: 6 until then, 0 after. */
  function StopAt(k: nat): seq<int> {
    seq(7, i => if i < k then 6 else 0)
  }

  /** Each count from 0 to 6 can happen. */
  lemma {:induction false} SpawnCountReaches(k: nat, i: nat)
    requires i <= k <= 6
    ensures ValidBounds(StopAt(k)) && SpawnCount(StopAt(k), i) == k
    decreases k - i
  {
    if i < k {
      SpawnCountReaches(k, i + 1);
    }
  }

  /** The raw draws behind one new drop, each inside its `rand.Intn` range. */
  predicate ValidDraw(w: int, h: int, draw: (int, int)) {
    0 <= draw.0 < w - 3 && 0 <= draw.1 < h - 2
  }

  /**
   * `newDrop`: a fresh drop at age 0 inside the screen. Go's `rand.Intn` panics
   * on a non-positive argument, so a valid draw exists only when w > 3 and h > 2.
   */
  function NewDrop(w: int, h: int, draw: (int, int)): (d: Drop)
    requires ValidDraw(w, h, draw)
    ensures d.age == 0
    ensures 2 <= d.x < w - 1 && 2 <= d.y < h
  {
    Drop(draw.0 + 2, draw.1 + 2, 0)
  }

  /** Every position in [2, w-1) x [2, h) is reached by exactly one pair of draws. */
  lemma NewDropReachesEveryPosition(w: int, h: int, x: int, y: int)
    requires 2 <= x < w - 1 && 2 <= y < h
    ensures ValidDraw(w, h, (x - 2, y - 2)) && NewDrop(w, h, (x - 2, y - 2)) == Drop(x, y, 0)
    ensures forall draw | ValidDraw(w, h, draw) && NewDrop(w, h, draw) == Drop(x, y, 0) :: draw == (x - 2, y - 2)
  {
  }

  predicate ValidDraws(w: int, h: int, draws: seq<(int, int)>) {
    forall i | 0 <= i < |draws| :: ValidDraw(w, h, draws[i])
  }

  /** The first `k` new drops the spawn loop appends. */
  function Spawned(w: int, h: int, draws: seq<(int, int)>, k: nat): (r: seq<Drop>)
    requires k <= |draws| && ValidDraws(w, h, draws)
    ensures |r| == k
    ensures forall j | 0 <= j < k :: r[j] == NewDrop(w, h, draws[j])
    ensures forall j | 0 <= j < k :: r[j].age == 0 && 2 <= r[j].x < w - 1 && 2 <= r[j].y < h
  {
    if k == 0 then [] else Spawned(w, h, draws, k - 1) + [NewDrop(w, h, draws[k - 1])]
  }

  /** What the random source must supply for one call of `updateRain`. */
  predicate ValidRandom(n: int, w: int, h: int, rolls: seq<bool>, bounds: seq<int>, draws: seq<(int, int)>) {
    |rolls| == n && ValidBounds(bounds) && SpawnCount(bounds, 0) <= |draws| && ValidDraws(w, h, draws)
  }

  /** The collection `updateRain` returns: the survivors, then the new drops. */
  function Advance(ds: seq<Drop>, rolls: seq<bool>, bounds: seq<int>, draws: seq<(int, int)>, w: int, h: int): (r: seq<Drop>)
    requires ValidRandom(|ds|, w, h, rolls, bounds, draws)
    ensures |r| <= |ds| + 6
    ensures forall j | 0 <= j < |r| :: r[j].age < MaxAge
  {
    SpawnCountIsFirstFailedTest(bounds, 0);
    Survivors(ds, rolls) + Spawned(w, h, draws, SpawnCount(bounds, 0))
  }

  /**
   * No drop of the new collection is 30 or older; the carried-over drops come
   * first and the new ones, all of age 0, after them.
   */
  lemma AdvanceAges(ds: seq<Drop>, rolls: seq<bool>, bounds: seq<int>, draws: seq<(int, int)>, w: int, h: int)
    requires ValidRandom(|ds|, w, h, rolls, bounds, draws)
    ensures var next := Advance(ds, rolls, bounds, draws, w, h);
      && (forall j | 0 <= j < |next| :: next[j].age < MaxAge)
      && next[..|Survivors(ds, rolls)|] == Survivors(ds, rolls)
      && (forall j | |Survivors(ds, rolls)| <= j < |next| :: next[j].age == 0)
  {
  }

  /** Between zero and six drops are added to the survivors. */
  lemma AdvanceLength(ds: seq<Drop>, rolls: seq<bool>, bounds: seq<int>, draws: seq<(int, int)>, w: int, h: int)
    requires ValidRandom(|ds|, w, h, rolls, bounds, draws)
    ensures |Survivors(ds, rolls)| <= |Advance(ds, rolls, bounds, draws, w, h)| <= |Survivors(ds, rolls)| + 6
    ensures |Advance(ds, rolls, bounds, draws, w, h)| <= |ds| + 6
  {
    SpawnCountIsFirstFailedTest(bounds, 0);
  }

  /** From no drops, a spawn loop that runs three times gives exactly three drops of age 0. */
  lemma AdvanceFromEmptySpawnsThree(bounds: seq<int>, draws: seq<(int, int)>, w: int, h: int)
    requires ValidRandom(0, w, h, [], bounds, draws)
    requires bounds[..4] == [3, 3, 3, 0]
    ensures var next := Advance([], [], bounds, draws, w, h);
      |next| == 3 && forall j | 0 <= j < 3 :: next[j].age == 0
  {
    assert bounds[0] == 3 && bounds[1] == 3 && bounds[2] == 3 && bounds[3] == 0 by {
      assert forall i | 0 <= i < 4 :: bounds[i] == bounds[..4][i];
    }
    assert SpawnCount(bounds, 3) == 3;
    assert SpawnCount(bounds, 0) == SpawnCount(bounds, 1) == SpawnCount(bounds, 2) == 3;
  }

  /**
   * `updateRain`: builds a fresh collection from the surviving drops of
   * `drops`, each rolled, then appends new drops while the freshly drawn bound
   * exceeds the loop counter. The input is only read, as the source's `d` is a
   * copy of each element.
   */
  method UpdateRain(drops: array<Drop>, rolls: seq<bool>, bounds: seq<int>, draws: seq<(int, int)>, w: int, h: int)
    returns (next: seq<Drop>)
    requires ValidRandom(drops.Length, w, h, rolls, bounds, draws)
    ensures next == Advance(drops[..], rolls, bounds, draws, w, h)
    ensures forall j | 0 <= j < |next| :: next[j].age < MaxAge
    ensures |Survivors(drops[..], rolls)| <= |next| <= |Survivors(drops[..], rolls)| + 6
  {
    next := [];
    var i := 0;
    while i < drops.Length
      invariant 0 <= i <= drops.Length
      invariant next == Survivors(drops[..i], rolls[..i])
    {
      var d := drops[i];
      if rolls[i] {
        d := d.(age := d.age + 1);
      }
      if d.age < MaxAge {
        next := next + [d];
      }
      assert drops[..i + 1][..i] == drops[..i] && rolls[..i + 1][..i] == rolls[..i];
      i := i + 1;
    }
    assert drops[..i] == drops[..] && rolls[..i] == rolls;
    ghost var survivors := next;
    var k := 0;
    while k < bounds[k]
      invariant 0 <= k <= 6
      invariant SpawnCount(bounds, k) == SpawnCount(bounds, 0)
      invariant next == survivors + Spawned(w, h, draws, k)
      decreases 7 - k
    {
      next := next + [NewDrop(w, h, draws[k])];
      k := k + 1;
    }
    AdvanceAges(drops[..], rolls, bounds, draws, w, h);
    AdvanceLength(drops[..], rolls, bounds, draws, w, h);
  }
}
