/** The seed search, the slot table and the lookup of the perfect hash. */
module PerfectHashSearch {
  import opened PerfectHash
  import opened PerfectHashBuild

  function Pos(h: Hash, e: Entry, seed: nat, size: nat): (p: nat)
    requires size > 0
    ensures p < size
  {
    h(e.key, seed) % size
  }

  ghost predicate ItemsOf(g: seq<nat>, u: seq<Entry>) {
    forall k :: 0 <= k < |g| ==> g[k] < |u|
  }

  /** Under this seed the first n items of a group fall on free, pairwise different slots. */
  ghost predicate Fits(h: Hash, u: seq<Entry>, g: seq<nat>, n: nat, seed: nat, used: seq<nat>)
    requires |used| > 0 && n <= |g| && ItemsOf(g, u)
  {
    && (forall i :: 0 <= i < n ==> used[Pos(h, u[g[i]], seed, |used|)] == 0)
    && (forall i, j :: 0 <= j < i < n ==> Pos(h, u[g[j]], seed, |used|) != Pos(h, u[g[i]], seed, |used|))
  }

  method TrySeed(h: Hash, u: seq<Entry>, g: seq<nat>, seed: nat, used: array<nat>, probe: array<nat>) returns (ok: bool)
    requires used.Length > 0 && used != probe && |g| <= probe.Length && ItemsOf(g, u)
    modifies probe
    ensures ok <==> Fits(h, u, g, |g|, seed, used[..])
  {
    for i := 0 to |g|
      invariant Fits(h, u, g, i, seed, used[..])
      invariant forall j :: 0 <= j < i ==> probe[j] == Pos(h, u[g[j]], seed, used.Length)
      invariant used[..] == old(used[..])
    {
      var pos := Pos(h, u[g[i]], seed, used.Length);
      if used[pos] != 0 {
        return false;
      }
      for j := 0 to i
        invariant forall k :: 0 <= k < j ==> probe[k] != pos
      {
        if probe[j] == pos {
          return false;
        }
      }
      probe[i] := pos;
    }
    ok := true;
  }

  /** The least seed that fits, or SEEDS when none does. */
  method FindSeed(h: Hash, u: seq<Entry>, g: seq<nat>, used: array<nat>, probe: array<nat>) returns (seed: nat)
    requires used.Length > 0 && used != probe && |g| <= probe.Length && ItemsOf(g, u)
    modifies probe
    ensures 1 <= seed <= SEEDS
    ensures seed < SEEDS ==> Fits(h, u, g, |g|, seed, used[..])
    ensures forall s :: 1 <= s < seed ==> !Fits(h, u, g, |g|, s, used[..])
  {
    seed := 1;
    while seed < SEEDS
      invariant 1 <= seed <= SEEDS
      invariant used[..] == old(used[..])
      invariant forall s :: 1 <= s < seed ==> !Fits(h, u, g, |g|, s, used[..])
    {
      var ok := TrySeed(h, u, g, seed, used, probe);
      if ok {
        return;
      }
      seed := seed + 1;
    }
  }

  /** A group's slots are recorded and taken; nothing else moves. */
  ghost predicate Marked(h: Hash, u: seq<Entry>, g: seq<nat>, n: nat, seed: nat,
                         positions: seq<nat>, used: seq<nat>, positions': seq<nat>, used': seq<nat>)
    requires |used| == |used'| > 0 && |positions| == |positions'| == |u| && n <= |g| && ItemsOf(g, u)
  {
    && (forall i :: 0 <= i < n ==> positions'[g[i]] == Pos(h, u[g[i]], seed, |used|))
    && (forall i :: 0 <= i < n ==> used'[Pos(h, u[g[i]], seed, |used|)] == 1)
    && (forall x :: 0 <= x < |u| && x !in g[..n] ==> positions'[x] == positions[x])
    && (forall p :: 0 <= p < |used| && used[p] == 1 ==> used'[p] == 1)
    && (forall p :: 0 <= p < |used| && used'[p] != 0 ==>
          used[p] != 0 || exists i :: 0 <= i < n && Pos(h, u[g[i]], seed, |used|) == p)
  }

  method MarkGroup(h: Hash, u: seq<Entry>, g: seq<nat>, seed: nat, positions: array<nat>, used: array<nat>)
    requires used.Length > 0 && positions != used && positions.Length == |u| && ItemsOf(g, u)
    modifies positions, used
    ensures Marked(h, u, g, |g|, seed, old(positions[..]), old(used[..]), positions[..], used[..])
  {
    for i := 0 to |g|
      invariant Marked(h, u, g, i, seed, old(positions[..]), old(used[..]), positions[..], used[..])
    {
      var pos := Pos(h, u[g[i]], seed, used.Length);
      used[pos] := 1;
      positions[g[i]] := pos;
      assert g[..i + 1] == g[..i] + [g[i]];
    }
  }

  /** Every item of the finished buckets sits alone on the slot its seed gives it. */
  ghost predicate Placed(h: Hash, u: seq<Entry>, bk: seq<nat>, done: set<nat>, seeds: seq<nat>, positions: seq<nat>,
                         used: seq<nat>)
    requires |used| > 0 && |bk| == |u| == |positions| && InRange(bk, |seeds|)
  {
    && (forall x :: 0 <= x < |u| && bk[x] in done ==> positions[x] == Pos(h, u[x], seeds[bk[x]], |used|))
    && (forall x :: 0 <= x < |u| && bk[x] in done ==> positions[x] < |used| && used[positions[x]] == 1)
    && (forall x, y :: 0 <= x < y < |u| && bk[x] in done && bk[y] in done ==> positions[x] != positions[y])
  }

  /** Only slots of items of finished buckets are taken. */
  ghost predicate Taken(bk: seq<nat>, done: set<nat>, positions: seq<nat>, used: seq<nat>)
    requires |bk| == |positions|
  {
    forall p :: 0 <= p < |used| && used[p] != 0 ==> exists x :: 0 <= x < |bk| && bk[x] in done && positions[x] == p
  }

  lemma TakenStep(h: Hash, u: seq<Entry>, bk: seq<nat>, done: set<nat>, b: nat, seed: nat,
                  positions: seq<nat>, used: seq<nat>, positions': seq<nat>, used': seq<nat>)
    requires |used| == |used'| > 0 && |bk| == |u| == |positions| == |positions'|
    requires b !in done && ItemsOf(Grouped(bk, b), u) && Taken(bk, done, positions, used)
    requires Marked(h, u, Grouped(bk, b), |Grouped(bk, b)|, seed, positions, used, positions', used')
    ensures Taken(bk, done + {b}, positions', used')
  {
    var g := Grouped(bk, b);
    assert g[..|g|] == g;
    GroupedExactly(bk, b);
    forall p | 0 <= p < |used| && used'[p] != 0
      ensures exists x :: 0 <= x < |bk| && bk[x] in done + {b} && positions'[x] == p {
      if used[p] != 0 {
        var x :| 0 <= x < |bk| && bk[x] in done && positions[x] == p;
        assert x !in g;
      } else {
        var i :| 0 <= i < |g| && Pos(h, u[g[i]], seed, |used|) == p;
        assert g[i] in g;
      }
    }
  }

  /** Where an item falls when bucket b takes this seed and every other bucket keeps its own. */
  function PosWith(h: Hash, u: seq<Entry>, bk: seq<nat>, seeds: seq<nat>, b: nat, seed: nat, x: nat, size: nat): nat
    requires size > 0 && x < |u| == |bk| && InRange(bk, |seeds|)
  {
    Pos(h, u[x], if bk[x] == b then seed else seeds[bk[x]], size)
  }

  /** Under this seed an item of bucket b meets another one of it, or one of a finished bucket. */
  ghost predicate Clash(h: Hash, u: seq<Entry>, bk: seq<nat>, seeds: seq<nat>, done: set<nat>, b: nat, seed: nat,
                        size: nat)
    requires size > 0 && |u| == |bk| && InRange(bk, |seeds|)
  {
    exists x, y :: 0 <= x < |u| && 0 <= y < |u| && x != y && bk[x] == b && bk[y] in done + {b}
                   && PosWith(h, u, bk, seeds, b, seed, x, size) == PosWith(h, u, bk, seeds, b, seed, y, size)
  }

  /** The least seed from s on under which bucket b clashes with nothing placed so far, or SEEDS. */
  ghost function SeedFrom(h: Hash, u: seq<Entry>, bk: seq<nat>, seeds: seq<nat>, done: set<nat>, b: nat, size: nat,
                          s: nat): (seed: nat)
    requires size > 0 && |u| == |bk| && InRange(bk, |seeds|) && s <= SEEDS
    ensures s <= seed <= SEEDS
    ensures seed < SEEDS ==> !Clash(h, u, bk, seeds, done, b, seed, size)
    ensures forall t :: s <= t < seed ==> Clash(h, u, bk, seeds, done, b, t, size)
    decreases SEEDS - s
  {
    if s == SEEDS || !Clash(h, u, bk, seeds, done, b, s, size) then s
    else SeedFrom(h, u, bk, seeds, done, b, size, s + 1)
  }

  ghost function LeastSeed(h: Hash, u: seq<Entry>, bk: seq<nat>, seeds: seq<nat>, done: set<nat>, b: nat, size: nat)
    : (seed: nat)
    requires size > 0 && |u| == |bk| && InRange(bk, |seeds|)
    ensures 1 <= seed <= SEEDS
  {
    SeedFrom(h, u, bk, seeds, done, b, size, 1)
  }

  lemma LeastSeedIs(h: Hash, u: seq<Entry>, bk: seq<nat>, seeds: seq<nat>, done: set<nat>, b: nat, size: nat, seed: nat)
    requires size > 0 && |u| == |bk| && InRange(bk, |seeds|) && 1 <= seed <= SEEDS
    requires seed < SEEDS ==> !Clash(h, u, bk, seeds, done, b, seed, size)
    requires forall t :: 1 <= t < seed ==> Clash(h, u, bk, seeds, done, b, t, size)
    ensures LeastSeed(h, u, bk, seeds, done, b, size) == seed
  {
    hide Clash;
  }

  /** The seeds tried are 1, .., 65535: the first of them that clashes with nothing, or 65536 if they all clash. */
  lemma SeedIsFirst(h: Hash, u: seq<Entry>, bk: seq<nat>, seeds: seq<nat>, done: set<nat>, b: nat, size: nat)
    requires size > 0 && |u| == |bk| && InRange(bk, |seeds|)
    ensures var seed := LeastSeed(h, u, bk, seeds, done, b, size);
            && 1 <= seed <= 65536 && (forall t :: 1 <= t < seed ==> Clash(h, u, bk, seeds, done, b, t, size))
            && (seed < 65536 ==> !Clash(h, u, bk, seeds, done, b, seed, size))
  {
    hide Clash;
  }

  lemma NoFitIsClash(h: Hash, u: seq<Entry>, bk: seq<nat>, done: set<nat>, seeds: seq<nat>, b: nat, seed: nat,
                     positions: seq<nat>, used: seq<nat>)
    requires |used| > 0 && |bk| == |u| == |positions| && InRange(bk, |seeds|)
    requires b !in done && ItemsOf(Grouped(bk, b), u) && !Fits(h, u, Grouped(bk, b), |Grouped(bk, b)|, seed, used)
    requires Placed(h, u, bk, done, seeds, positions, used) && Taken(bk, done, positions, used)
    ensures Clash(h, u, bk, seeds, done, b, seed, |used|)
  {
    var g, size := Grouped(bk, b), |used|;
    GroupedExactly(bk, b);
    if i :| 0 <= i < |g| && used[Pos(h, u[g[i]], seed, size)] != 0 {
      var x, p := g[i], Pos(h, u[g[i]], seed, size);
      assert x in g && bk[x] == b;
      var y :| 0 <= y < |bk| && bk[y] in done && positions[y] == p;
      assert PosWith(h, u, bk, seeds, b, seed, x, size) == PosWith(h, u, bk, seeds, b, seed, y, size);
    } else {
      var i, j :| 0 <= j < i < |g| && Pos(h, u[g[j]], seed, size) == Pos(h, u[g[i]], seed, size);
      var x, y := g[j], g[i];
      assert x in g && y in g && x < y;
      assert PosWith(h, u, bk, seeds, b, seed, x, size) == PosWith(h, u, bk, seeds, b, seed, y, size);
    }
  }

  /** Fitting on the free slots is clashing with nothing placed so far. */
  lemma FitIffNoClash(h: Hash, u: seq<Entry>, bk: seq<nat>, done: set<nat>, seeds: seq<nat>, b: nat, seed: nat,
                      positions: seq<nat>, used: seq<nat>)
    requires |used| > 0 && |bk| == |u| == |positions| && InRange(bk, |seeds|)
    requires b !in done && ItemsOf(Grouped(bk, b), u)
    requires Placed(h, u, bk, done, seeds, positions, used) && Taken(bk, done, positions, used)
    ensures Fits(h, u, Grouped(bk, b), |Grouped(bk, b)|, seed, used) <==>
              !Clash(h, u, bk, seeds, done, b, seed, |used|)
  {
    if !Fits(h, u, Grouped(bk, b), |Grouped(bk, b)|, seed, used) {
      NoFitIsClash(h, u, bk, done, seeds, b, seed, positions, used);
    } else if Clash(h, u, bk, seeds, done, b, seed, |used|) {
      ClashIsNoFit(h, u, bk, done, seeds, b, seed, positions, used);
    }
  }

  lemma ClashIsNoFit(h: Hash, u: seq<Entry>, bk: seq<nat>, done: set<nat>, seeds: seq<nat>, b: nat, seed: nat,
                     positions: seq<nat>, used: seq<nat>)
    requires |used| > 0 && |bk| == |u| == |positions| && InRange(bk, |seeds|)
    requires b !in done && ItemsOf(Grouped(bk, b), u) && Placed(h, u, bk, done, seeds, positions, used)
    requires Clash(h, u, bk, seeds, done, b, seed, |used|)
    ensures !Fits(h, u, Grouped(bk, b), |Grouped(bk, b)|, seed, used)
  {
    var g, size := Grouped(bk, b), |used|;
    GroupedExactly(bk, b);
    var x, y :| 0 <= x < |u| && 0 <= y < |u| && x != y && bk[x] == b && bk[y] in done + {b}
                && PosWith(h, u, bk, seeds, b, seed, x, size) == PosWith(h, u, bk, seeds, b, seed, y, size);
    assert x in g;
    var i :| 0 <= i < |g| && g[i] == x;
    if bk[y] == b {
      assert y in g;
      var j :| 0 <= j < |g| && g[j] == y;
      assert Pos(h, u[g[i]], seed, size) == Pos(h, u[g[j]], seed, size);
    } else {
      assert used[Pos(h, u[g[i]], seed, size)] == 1;
    }
  }

  lemma PlaceStep(h: Hash, u: seq<Entry>, bk: seq<nat>, done: set<nat>, seeds: seq<nat>, b: nat, seed: nat,
                  positions: seq<nat>, used: seq<nat>, positions': seq<nat>, used': seq<nat>)
    requires |used| == |used'| > 0 && |bk| == |u| == |positions| == |positions'| && InRange(bk, |seeds|)
    requires b < |seeds| && b !in done && ItemsOf(Grouped(bk, b), u)
    requires Placed(h, u, bk, done, seeds, positions, used)
    requires Fits(h, u, Grouped(bk, b), |Grouped(bk, b)|, seed, used)
    requires Marked(h, u, Grouped(bk, b), |Grouped(bk, b)|, seed, positions, used, positions', used')
    ensures Placed(h, u, bk, done + {b}, seeds[b := seed], positions', used')
  {
    var g := Grouped(bk, b);
    assert g[..|g|] == g;
    GroupedExactly(bk, b);
    forall x | 0 <= x < |u| && bk[x] in done + {b}
      ensures positions'[x] == Pos(h, u[x], seeds[b := seed][bk[x]], |used|) && used'[positions'[x]] == 1
    {
      if bk[x] == b {
        var i :| 0 <= i < |g| && g[i] == x;
      } else {
        assert x !in g;
      }
    }
    forall x, y | 0 <= x < y < |u| && bk[x] in done + {b} && bk[y] in done + {b}
      ensures positions'[x] != positions'[y]
    {
      if bk[x] == b {
        var i :| 0 <= i < |g| && g[i] == x;
        if bk[y] == b {
          var j :| 0 <= j < |g| && g[j] == y;
          assert i != j;
        } else {
          assert y !in g;
        }
      } else if bk[y] == b {
        var j :| 0 <= j < |g| && g[j] == y;
        assert x !in g;
      } else {
        assert x !in g && y !in g;
      }
    }
  }
}
