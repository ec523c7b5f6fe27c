/** Trying table sizes, writing the slot table, and looking keys up in it. */
module PerfectHashTable {
  import opened Bytes
  import opened Sorting
  import opened PerfectHash
  import opened PerfectHashBuild
  import opened PerfectHashSearch

  // ----- buckets by falling size

  predicate CountLe(a: (nat, nat), b: (nat, nat)) { a.1 >= b.1 }

  function Pairs(counts: seq<nat>): (s: seq<(nat, nat)>)
    ensures |s| == |counts| && forall b :: 0 <= b < |counts| ==> s[b] == (b, counts[b])
  {
    seq(|counts|, b requires 0 <= b < |counts| => (b, counts[b]))
  }

  /** Every bucket exactly once, with its item count. */
  ghost predicate IsOrder(order: seq<(nat, nat)>, counts: seq<nat>) {
    && (forall i :: 0 <= i < |order| ==> order[i].0 < |counts| && order[i].1 == counts[order[i].0])
    && (forall i, j :: 0 <= i < j < |order| ==> order[i].0 != order[j].0)
    && (forall b :: 0 <= b < |counts| ==> (b, counts[b]) in order)
  }

  lemma PermutedOrder(order: seq<(nat, nat)>, counts: seq<nat>)
    requires multiset(order) == multiset(Pairs(counts))
    ensures IsOrder(order, counts)
  {
    var pairs := Pairs(counts);
    DistinctPermutation(pairs, order);
    forall i | 0 <= i < |order|
      ensures order[i].0 < |counts| && order[i].1 == counts[order[i].0]
    {
      assert order[i] in multiset(pairs);
    }
    forall b | 0 <= b < |counts| ensures (b, counts[b]) in order {
      assert pairs[b] in multiset(order);
    }
  }

  method SortBuckets(counts: seq<nat>) returns (order: seq<(nat, nat)>)
    ensures IsOrder(order, counts) && Sorted(order, CountLe)
  {
    var pairs := Pairs(counts);
    var a := new (nat, nat)[|counts|](i requires 0 <= i < |pairs| => pairs[i]);
    assert a[..] == pairs;
    Sort(a, CountLe);
    order := a[..];
    PermutedOrder(order, counts);
  }

  function Counts(bk: seq<nat>, bucketsN: nat): (counts: seq<nat>)
    ensures |counts| == bucketsN && forall b :: 0 <= b < bucketsN ==> counts[b] == |Grouped(bk, b)|
  {
    seq(bucketsN, b requires 0 <= b < bucketsN => |Grouped(bk, b)|)
  }

  /** What the sort may yield; it leaves open how equally large buckets follow each other. */
  ghost predicate LargestFirst(order: seq<(nat, nat)>, bk: seq<nat>, bucketsN: nat) {
    IsOrder(order, Counts(bk, bucketsN)) && Sorted(order, CountLe)
  }

  // ----- one table size

  ghost predicate PlacedAll(h: Hash, u: seq<Entry>, bk: seq<nat>, seeds: seq<nat>, positions: seq<nat>, size: nat)
    requires size > 0 && |bk| == |u| == |positions| && InRange(bk, |seeds|)
  {
    && (forall x :: 0 <= x < |u| ==> positions[x] == Pos(h, u[x], seeds[bk[x]], size))
    && (forall x, y :: 0 <= x < y < |u| ==> positions[x] != positions[y])
  }

  ghost function BucketsBefore(order: seq<(nat, nat)>, n: nat): set<nat>
    requires n <= |order|
  {
    set i | 0 <= i < n :: order[i].0
  }

  lemma AllBuckets(order: seq<(nat, nat)>, counts: seq<nat>, b: nat)
    requires IsOrder(order, counts) && b < |counts|
    ensures b in BucketsBefore(order, |order|)
  {
    assert (b, counts[b]) in order;
  }

  lemma BucketsNext(order: seq<(nat, nat)>, b: nat)
    requires b < |order|
    ensures BucketsBefore(order, b + 1) == BucketsBefore(order, b) + {order[b].0}
  {
  }

  lemma BucketIsNew(order: seq<(nat, nat)>, counts: seq<nat>, b: nat)
    requires IsOrder(order, counts) && b < |order|
    ensures order[b].0 < |counts| && order[b].1 == counts[order[b].0] && order[b].0 !in BucketsBefore(order, b)
  {
  }

  lemma PlacedNone(h: Hash, u: seq<Entry>, bk: seq<nat>, seeds: seq<nat>, positions: seq<nat>, used: seq<nat>)
    requires |used| > 0 && |bk| == |u| == |positions| && InRange(bk, |seeds|)
    ensures Placed(h, u, bk, {}, seeds, positions, used)
  {
  }

  /** An empty bucket is placed as it stands. */
  lemma PlacedSkip(h: Hash, u: seq<Entry>, bk: seq<nat>, done: set<nat>, bucket: nat, seeds: seq<nat>,
                   positions: seq<nat>, used: seq<nat>)
    requires |used| > 0 && |bk| == |u| == |positions| && InRange(bk, |seeds|)
    requires Placed(h, u, bk, done, seeds, positions, used) && Grouped(bk, bucket) == []
    ensures Placed(h, u, bk, done + {bucket}, seeds, positions, used)
  {
    GroupedExactly(bk, bucket);
    assert forall x :: 0 <= x < |u| ==> bk[x] != bucket;
  }

  lemma PlacedInAll(h: Hash, u: seq<Entry>, bk: seq<nat>, order: seq<(nat, nat)>, counts: seq<nat>,
                    seeds: seq<nat>, positions: seq<nat>, used: seq<nat>)
    requires |used| > 0 && |bk| == |u| == |positions| && InRange(bk, |seeds|) && |counts| == |seeds|
             && IsOrder(order, counts)
    requires Placed(h, u, bk, BucketsBefore(order, |order|), seeds, positions, used)
    ensures PlacedAll(h, u, bk, seeds, positions, |used|)
  {
    forall x | 0 <= x < |u| ensures bk[x] in BucketsBefore(order, |order|) {
      AllBuckets(order, counts, bk[x]);
    }
  }

  /** The slice of the sorted items that one bucket owns. */
  lemma GroupSlice(items: seq<nat>, bk: seq<nat>, offsets: seq<nat>, bucket: nat, count: nat)
    requires SortedItems(items, bk, offsets) && bucket < |offsets| && count == |Grouped(bk, bucket)|
    ensures offsets[bucket] + count <= |items| && items[offsets[bucket]..offsets[bucket] + count] == Grouped(bk, bucket)
    ensures forall k :: 0 <= k < |Grouped(bk, bucket)| ==> Grouped(bk, bucket)[k] < |bk|
  {
    assert GroupAt(items, offsets[bucket], Grouped(bk, bucket));
    GroupedExactly(bk, bucket);
  }

  predicate BucketsIn(order: seq<(nat, nat)>, bucketsN: nat) {
    forall i :: 0 <= i < |order| ==> order[i].0 < bucketsN
  }

  /** The seeds after the first n buckets of the order, each bucket taking the least seed that clashes with nothing
      placed before it; None as soon as a bucket finds no seed. */
  ghost function Pass(h: Hash, u: seq<Entry>, bk: seq<nat>, bucketsN: nat, order: seq<(nat, nat)>, n: nat, size: nat)
    : (r: Option<seq<nat>>)
    requires size > 0 && |u| == |bk| && InRange(bk, bucketsN) && BucketsIn(order, bucketsN) && n <= |order|
    ensures r.Some? ==> |r.value| == bucketsN
  {
    if n == 0 then Some(seq(bucketsN, _ => 0))
    else
      match Pass(h, u, bk, bucketsN, order, n - 1, size)
      case None => None
      case Some(seeds) =>
        var b := order[n - 1].0;
        if Grouped(bk, b) == [] then Some(seeds)
        else
          var seed := LeastSeed(h, u, bk, seeds, BucketsBefore(order, n - 1), b, size);
          if seed == SEEDS then None else Some(seeds[b := seed])
  }

  lemma {:induction false} PassStaysNone(h: Hash, u: seq<Entry>, bk: seq<nat>, bucketsN: nat, order: seq<(nat, nat)>,
                                         n: nat, m: nat, size: nat)
    requires size > 0 && |u| == |bk| && InRange(bk, bucketsN) && BucketsIn(order, bucketsN) && n <= m <= |order|
    requires Pass(h, u, bk, bucketsN, order, n, size).None?
    ensures Pass(h, u, bk, bucketsN, order, m, size).None?
  {
    hide LeastSeed, Grouped, BucketsBefore;
    if n < m { PassStaysNone(h, u, bk, bucketsN, order, n, m - 1, size); }
  }

  /** The seed found on the table of free slots is the least that clashes with nothing. */
  lemma FoundIsLeast(h: Hash, u: seq<Entry>, bk: seq<nat>, done: set<nat>, seeds: seq<nat>, b: nat, seed: nat,
                     positions: seq<nat>, used: seq<nat>)
    requires |used| > 0 && |bk| == |u| == |positions| && InRange(bk, |seeds|) && 1 <= seed <= SEEDS
    requires b !in done && ItemsOf(Grouped(bk, b), u)
    requires Placed(h, u, bk, done, seeds, positions, used) && Taken(bk, done, positions, used)
    requires seed < SEEDS ==> Fits(h, u, Grouped(bk, b), |Grouped(bk, b)|, seed, used)
    requires forall t :: 1 <= t < seed ==> !Fits(h, u, Grouped(bk, b), |Grouped(bk, b)|, t, used)
    ensures LeastSeed(h, u, bk, seeds, done, b, |used|) == seed
  {
    hide Fits, Clash, Placed, Taken, Grouped;
    forall t | 1 <= t < seed ensures Clash(h, u, bk, seeds, done, b, t, |used|) {
      FitIffNoClash(h, u, bk, done, seeds, b, t, positions, used);
    }
    FitIffNoClash(h, u, bk, done, seeds, b, seed, positions, used);
    LeastSeedIs(h, u, bk, seeds, done, b, |used|, seed);
  }

  lemma OrderIn(order: seq<(nat, nat)>, counts: seq<nat>)
    requires IsOrder(order, counts)
    ensures BucketsIn(order, |counts|)
  {
  }

  /** One pass over the buckets, largest first; it gives up at the first bucket that no seed fits. */
  method TrySize(h: Hash, u: seq<Entry>, bk: seq<nat>, order: seq<(nat, nat)>, counts: seq<nat>, items: seq<nat>,
                 offsets: seq<nat>, size: nat, positions: array<nat>, probe: array<nat>)
    returns (ok: bool, seeds: seq<nat>)
    requires size > 0 && |bk| == |u| == positions.Length == probe.Length && positions != probe
    requires InRange(bk, |offsets|) && |counts| == |offsets| && IsOrder(order, counts) && BucketsIn(order, |offsets|)
    requires forall b :: 0 <= b < |counts| ==> counts[b] == |Grouped(bk, b)|
    requires SortedItems(items, bk, offsets)
    modifies positions, probe
    ensures Pass(h, u, bk, |offsets|, order, |order|, size) == if ok then Some(seeds) else None
    ensures ok ==> |seeds| == |offsets| && PlacedAll(h, u, bk, seeds, positions[..], size)
  {
    hide Placed, PlacedAll, Marked, Fits, Grouped, SortedItems, IsOrder, BucketsBefore, Flat, Taken, Clash, LeastSeed;
    var used := new nat[size](_ => 0);
    seeds := seq(|offsets|, _ => 0);
    NoBuckets(order);
    PlacedNone(h, u, bk, seeds, positions[..], used[..]);
    NoneTaken(bk, positions[..], used[..]);
    for b := 0 to |order|
      invariant |seeds| == |offsets| && Pass(h, u, bk, |offsets|, order, b, size) == Some(seeds)
      invariant Placed(h, u, bk, BucketsBefore(order, b), seeds, positions[..], used[..])
      invariant Taken(bk, BucketsBefore(order, b), positions[..], used[..])
    {
      var bucket, count := order[b].0, order[b].1;
      BucketIsNew(order, counts, b);
      BucketsNext(order, b);
      GroupSlice(items, bk, offsets, bucket, count);
      if count == 0 {
        PlacedSkip(h, u, bk, BucketsBefore(order, b), bucket, seeds, positions[..], used[..]);
        TakenMore(bk, BucketsBefore(order, b), bucket, positions[..], used[..]);
        continue;
      }
      var group := items[offsets[bucket]..offsets[bucket] + count];
      var seed := FindSeed(h, u, group, used, probe);
      FoundIsLeast(h, u, bk, BucketsBefore(order, b), seeds, bucket, seed, positions[..], used[..]);
      if seed == SEEDS {
        PassStaysNone(h, u, bk, |offsets|, order, b + 1, |order|, size);
        return false, seeds;
      }
      ghost var positions0, used0 := positions[..], used[..];
      MarkGroup(h, u, group, seed, positions, used);
      TakenStep(h, u, bk, BucketsBefore(order, b), bucket, seed, positions0, used0, positions[..], used[..]);
      PlaceStep(h, u, bk, BucketsBefore(order, b), seeds, bucket, seed, positions0, used0, positions[..], used[..]);
      seeds := seeds[bucket := seed];
    }
    PlacedInAll(h, u, bk, order, counts, seeds, positions[..], used[..]);
    ok := true;
  }

  lemma NoneTaken(bk: seq<nat>, positions: seq<nat>, used: seq<nat>)
    requires |bk| == |positions| && forall p :: 0 <= p < |used| ==> used[p] == 0
    ensures Taken(bk, {}, positions, used)
  {
  }

  lemma TakenMore(bk: seq<nat>, done: set<nat>, bucket: nat, positions: seq<nat>, used: seq<nat>)
    requires |bk| == |positions| && Taken(bk, done, positions, used)
    ensures Taken(bk, done + {bucket}, positions, used)
  {
  }

  lemma NoBuckets(order: seq<(nat, nat)>)
    ensures BucketsBefore(order, 0) == {}
  {
  }

  // ----- the slot table

  function Data(u: seq<Entry>, n: nat): bytes
    requires n <= |u|
  {
    if n == 0 then [] else Data(u, n - 1) + u[n - 1].key
  }

  function SlotOf(u: seq<Entry>, i: nat): Slot
    requires i < |u|
  {
    Slot(|Data(u, i)|, |u[i].key|, u[i].flags)
  }

  lemma {:induction false} DataHolds(u: seq<Entry>, i: nat, n: nat)
    requires i < n <= |u|
    ensures |Data(u, i)| + |u[i].key| <= |Data(u, n)|
    ensures Data(u, n)[|Data(u, i)|..|Data(u, i)| + |u[i].key|] == u[i].key
    decreases n
  {
    if i < n - 1 {
      DataHolds(u, i, n - 1);
      var d, o := Data(u, n - 1), |Data(u, i)|;
      assert Data(u, n)[o..o + |u[i].key|] == d[o..o + |u[i].key|];
    }
  }

  const EmptySlot := Slot(0, 0, 0)

  /** Slots and key bytes, written in one pass; `data` grows by each copied key. */
  method WriteSlots(u: seq<Entry>, positions: seq<nat>, size: nat) returns (slots: seq<Slot>, data: bytes)
    requires |positions| == |u| && forall x :: 0 <= x < |u| ==> positions[x] < size
    requires forall x, y :: 0 <= x < y < |u| ==> positions[x] != positions[y]
    ensures |slots| == size && data == Data(u, |u|)
    ensures forall x :: 0 <= x < |u| ==> slots[positions[x]] == SlotOf(u, x)
    ensures forall p :: 0 <= p < size && p !in positions ==> slots[p] == EmptySlot
  {
    var slot := new Slot[size](_ => EmptySlot);
    data := [];
    for i := 0 to |u|
      invariant data == Data(u, i)
      invariant forall x :: 0 <= x < i ==> slot[positions[x]] == SlotOf(u, x)
      invariant forall p :: 0 <= p < size && p !in positions[..i] ==> slot[p] == EmptySlot
    {
      slot[positions[i]] := Slot(|data|, |u[i].key|, u[i].flags);
      data := data + u[i].key;
      assert positions[..i + 1] == positions[..i] + [positions[i]];
    }
    assert positions[..|u|] == positions;
    slots := slot[..];
  }

  // ----- lookup

  ghost predicate WellFormed(mph: Mph) {
    mph.size > 0 ==>
      && |mph.slots| == mph.size && |mph.seeds| == mph.bucketsN > 0
      && forall p :: 0 <= p < mph.size ==> mph.slots[p].offset + mph.slots[p].len <= |mph.data|
  }

  function Home(h: Hash, mph: Mph, key: bytes): (p: nat)
    requires mph.size > 0 && |mph.seeds| == mph.bucketsN > 0
    ensures p < mph.size
  {
    h(key, mph.seeds[BucketOf(h(key, 0), mph.bucketsN)]) % mph.size
  }

  function Find(h: Hash, mph: Mph, key: bytes): Option<Slot>
    requires WellFormed(mph)
  {
    if mph.size == 0 || |key| == 0 || |key| > 255 then None
    else
      var slot := mph.slots[Home(h, mph, key)];
      if SlotHas(mph.data, slot, key) then Some(slot) else None
  }

  predicate SlotHas(data: bytes, slot: Slot, key: bytes)
    requires slot.offset + slot.len <= |data|
  {
    slot.len == |key| && MemCmp(data[slot.offset..slot.offset + slot.len], key) == 0
  }

  lemma SlotHasKey(data: bytes, slot: Slot, key: bytes)
    requires slot.offset + slot.len <= |data|
    ensures SlotHas(data, slot, key) <==> data[slot.offset..slot.offset + slot.len] == key
  {
    var d := data[slot.offset..slot.offset + slot.len];
    if |d| == |key| { MemCmpSign(d, key); }
  }

  /** The lookup answers exactly for the entries' keys, with all their flags. */
  ghost predicate Decides(h: Hash, mph: Mph, s: seq<Entry>) {
    && WellFormed(mph)
    && forall key: bytes :: match Find(h, mph, key)
                            case None => !HasKey(s, key)
                            case Some(slot) => HasKey(s, key) && slot.len == |key| && slot.flags == OrOf(s, key)
  }

  /** What the finished table holds. */
  ghost predicate Holds(h: Hash, mph: Mph, u: seq<Entry>, positions: seq<nat>) {
    && mph.size > 0 && |mph.slots| == mph.size && |mph.seeds| == mph.bucketsN > 0
    && mph.data == Data(u, |u|) && |positions| == |u|
    && (forall x :: 0 <= x < |u| ==> positions[x] == Home(h, mph, u[x].key) && mph.slots[positions[x]] == SlotOf(u, x))
    && (forall p :: 0 <= p < mph.size && p !in positions ==> mph.slots[p] == EmptySlot)
  }

  lemma HoldsWellFormed(h: Hash, mph: Mph, u: seq<Entry>, positions: seq<nat>)
    requires Holds(h, mph, u, positions)
    ensures WellFormed(mph)
  {
    forall p | 0 <= p < mph.size ensures mph.slots[p].offset + mph.slots[p].len <= |mph.data| {
      if p in positions {
        var x :| 0 <= x < |u| && positions[x] == p;
        DataHolds(u, x, |u|);
      }
    }
  }

  /** The one comparison a lookup makes. */
  lemma FindCompares(h: Hash, mph: Mph, key: bytes)
    requires WellFormed(mph) && mph.size > 0 && 1 <= |key| <= 255
    ensures var slot := mph.slots[Home(h, mph, key)];
            Find(h, mph, key) == if mph.data[slot.offset..slot.offset + slot.len] == key then Some(slot) else None
  {
    SlotHasKey(mph.data, mph.slots[Home(h, mph, key)], key);
  }

  lemma HomeHolds(h: Hash, mph: Mph, u: seq<Entry>, positions: seq<nat>, x: nat)
    requires Holds(h, mph, u, positions) && x < |u|
    ensures positions[x] == Home(h, mph, u[x].key) < |mph.slots| && mph.slots[positions[x]] == SlotOf(u, x)
    ensures SlotOf(u, x).offset + SlotOf(u, x).len <= |mph.data|
    ensures mph.data[SlotOf(u, x).offset..SlotOf(u, x).offset + SlotOf(u, x).len] == u[x].key
  {
    hide Data, Home;
    DataHolds(u, x, |u|);
  }

  lemma FindHit(h: Hash, mph: Mph, u: seq<Entry>, positions: seq<nat>, x: nat)
    requires Holds(h, mph, u, positions) && WellFormed(mph) && Keyed(h, u) && x < |u|
    ensures Find(h, mph, u[x].key) == Some(SlotOf(u, x))
  {
    hide Find, Data;
    HomeHolds(h, mph, u, positions, x);
    FindCompares(h, mph, u[x].key);
  }

  lemma FindMiss(h: Hash, mph: Mph, u: seq<Entry>, positions: seq<nat>, key: bytes)
    requires Holds(h, mph, u, positions) && WellFormed(mph) && !HasKey(u, key)
    ensures Find(h, mph, key) == None
  {
    hide Data, SlotHas;
    if 0 < |key| <= 255 {
      var p := Home(h, mph, key);
      FindCompares(h, mph, key);
      if p in positions {
        var x :| 0 <= x < |u| && positions[x] == p;
        HomeHolds(h, mph, u, positions, x);
      }
    }
  }

  lemma HoldsDecides(h: Hash, mph: Mph, u: seq<Entry>, positions: seq<nat>, s: seq<Entry>)
    requires Holds(h, mph, u, positions) && Keyed(h, u) && Merges(u, s)
    ensures Decides(h, mph, s)
  {
    HoldsWellFormed(h, mph, u, positions);
    forall key: bytes
      ensures match Find(h, mph, key)
              case None => !HasKey(s, key)
              case Some(slot) => HasKey(s, key) && slot.len == |key| && slot.flags == OrOf(s, key)
    {
      if HasKey(u, key) {
        var x :| 0 <= x < |u| && u[x].key == key;
        FindHit(h, mph, u, positions, x);
      } else {
        FindMiss(h, mph, u, positions, key);
      }
    }
  }

  /** Two keys that the hash cannot tell apart under any seed are never in one table: every table is wrong about one. */
  lemma TwinsHaveNoTable(h: Hash, mph: Mph, s: seq<Entry>, a: bytes, b: bytes)
    requires a != b && HasKey(s, a) && HasKey(s, b) && forall seed :: h(a, seed) == h(b, seed)
    ensures !Decides(h, mph, s)
  {
    if Decides(h, mph, s) {
      assert Find(h, mph, a).Some? && Find(h, mph, b).Some?;
      FindCompares(h, mph, a);
      FindCompares(h, mph, b);
    }
  }

  // ----- the builder

  /** The table made for one size is exactly what the lookup needs. */
  lemma Assembled(h: Hash, mph: Mph, u: seq<Entry>, bk: seq<nat>, positions: seq<nat>)
    requires mph.size > 0 && |mph.slots| == mph.size && |mph.seeds| == mph.bucketsN > 0
    requires bk == Buckets(u, mph.bucketsN) && |positions| == |u|
    requires Keyed(h, u) && PlacedAll(h, u, bk, mph.seeds, positions, mph.size)
    requires mph.data == Data(u, |u|)
    requires forall x :: 0 <= x < |u| ==> mph.slots[positions[x]] == SlotOf(u, x)
    requires forall p :: 0 <= p < mph.size && p !in positions ==> mph.slots[p] == EmptySlot
    ensures Holds(h, mph, u, positions)
  {
  }

  ghost predicate Made(h: Hash, mph: Mph, u: seq<Entry>) {
    && |u| == mph.nelts <= mph.size <= 2 * |u| + 1
    && exists positions: seq<nat> :: Holds(h, mph, u, positions) && Distinct(positions)
  }

  method Finish(h: Hash, u: seq<Entry>, bucketsN: nat, seeds: seq<nat>, positions: seq<nat>, size: nat)
    returns (mph: Mph)
    requires 0 < |u| <= size <= 2 * |u| + 1 && |seeds| == bucketsN > 0 && |positions| == |u| && Keyed(h, u)
    requires PlacedAll(h, u, Buckets(u, bucketsN), seeds, positions, size)
    ensures Made(h, mph, u) && mph.size == size && mph.seeds == seeds && mph.bucketsN == bucketsN
  {
    var slots, data := WriteSlots(u, positions, size);
    mph := Mph(|u|, size, bucketsN, seeds, slots, data);
    Assembled(h, mph, u, Buckets(u, bucketsN), positions);
    assert Distinct(positions);
  }

  /** The sizes n, n + step, .. up to 2n + 1. */
  predicate Tried(n: nat, size: nat) { n <= size <= 2 * n + 1 && (size - n) % (n / 8 + 1) == 0 }

  lemma NextMultiple(a: nat, step: nat)
    requires step > 0 && a % step == 0
    ensures (a + step) % step == 0
  {
    RemainderOf(a + step, a / step + 1, step, 0);
  }

  lemma NoMultipleBetween(a: nat, step: nat, z: nat)
    requires step > 0 && a % step == 0 && a < z < a + step
    ensures z % step != 0
  {
    RemainderOf(z, a / step, step, z - a);
  }

  /** The first size, from this one on, at which the pass succeeds, and its seeds. */
  ghost function Search(h: Hash, u: seq<Entry>, bucketsN: nat, order: seq<(nat, nat)>, size: nat)
    : Option<(nat, seq<nat>)>
    requires 0 < size && bucketsN > 0 && BucketsIn(order, bucketsN)
    decreases 2 * |u| + 2 - size
  {
    if size > 2 * |u| + 1 then None
    else
      match Pass(h, u, Buckets(u, bucketsN), bucketsN, order, |order|, size)
      case Some(seeds) => Some((size, seeds))
      case None => Search(h, u, bucketsN, order, size + |u| / 8 + 1)
  }

  /** The pass fails at every size tried before this one. */
  ghost predicate FailsBelow(h: Hash, u: seq<Entry>, bucketsN: nat, order: seq<(nat, nat)>, from: nat, below: nat)
    requires bucketsN > 0 && BucketsIn(order, bucketsN)
  {
    forall z :: 0 < z && from <= z < below && Tried(|u|, z) ==>
      Pass(h, u, Buckets(u, bucketsN), bucketsN, order, |order|, z).None?
  }

  /** The search ends at the least tried size at which the pass succeeds, and fails exactly when it does at all. */
  lemma SearchIsFirst(h: Hash, u: seq<Entry>, bucketsN: nat, order: seq<(nat, nat)>)
    requires u != [] && bucketsN > 0 && BucketsIn(order, bucketsN)
    ensures match Search(h, u, bucketsN, order, |u|)
            case None => FailsBelow(h, u, bucketsN, order, |u|, 2 * |u| + 2)
            case Some((size, seeds)) =>
              && Tried(|u|, size) && FailsBelow(h, u, bucketsN, order, |u|, size)
              && Pass(h, u, Buckets(u, bucketsN), bucketsN, order, |order|, size) == Some(seeds)
  {
    hide Pass;
    SearchFrom(h, u, bucketsN, order, |u|);
  }

  lemma {:induction false} SearchFrom(h: Hash, u: seq<Entry>, bucketsN: nat, order: seq<(nat, nat)>, size: nat)
    requires u != [] && bucketsN > 0 && BucketsIn(order, bucketsN)
    requires |u| <= size && (size - |u|) % (|u| / 8 + 1) == 0
    ensures match Search(h, u, bucketsN, order, size)
            case None => FailsBelow(h, u, bucketsN, order, size, 2 * |u| + 2)
            case Some((z, seeds)) =>
              && Tried(|u|, z) && FailsBelow(h, u, bucketsN, order, size, z)
              && Pass(h, u, Buckets(u, bucketsN), bucketsN, order, |order|, z) == Some(seeds)
    decreases 2 * |u| + 2 - size
  {
    hide Pass;
    if size <= 2 * |u| + 1 && Pass(h, u, Buckets(u, bucketsN), bucketsN, order, |order|, size).None? {
      var step := |u| / 8 + 1;
      NextMultiple(size - |u|, step);
      SearchFrom(h, u, bucketsN, order, size + step);
      forall z | size < z < size + step ensures !Tried(|u|, z) {
        NoMultipleBetween(size - |u|, step, z - |u|);
      }
    }
  }

  /** Whatever the hash, a single key always gets its table. */
  lemma OneKeyNeverFails(h: Hash, u: seq<Entry>, bucketsN: nat, order: seq<(nat, nat)>)
    requires |u| == 1 && bucketsN > 0 && BucketsIn(order, bucketsN)
    ensures Search(h, u, bucketsN, order, |u|).Some?
  {
    OneKeyPasses(h, u, bucketsN, order, |order|);
  }

  lemma {:induction false} OneKeyPasses(h: Hash, u: seq<Entry>, bucketsN: nat, order: seq<(nat, nat)>, n: nat)
    requires |u| == 1 && bucketsN > 0 && BucketsIn(order, bucketsN) && n <= |order|
    ensures Pass(h, u, Buckets(u, bucketsN), bucketsN, order, n, 1).Some?
  {
    hide Grouped, BucketsBefore;
    if n > 0 {
      OneKeyPasses(h, u, bucketsN, order, n - 1);
      var bk, b, done := Buckets(u, bucketsN), order[n - 1].0, BucketsBefore(order, n - 1);
      var seeds := Pass(h, u, bk, bucketsN, order, n - 1, 1).value;
      LeastSeedIs(h, u, bk, seeds, done, b, 1, 1);
    }
  }

  /** Sizes n, n + step, .. up to 2n + 1; `positions` and `probe` survive a failed size. */
  method SearchSizes(h: Hash, u: seq<Entry>, bucketsN: nat, order: seq<(nat, nat)>, counts: seq<nat>,
                     items: seq<nat>, offsets: seq<nat>)
    returns (r: Option<Mph>)
    requires u != [] && Keyed(h, u) && bucketsN > 0 && |counts| == |offsets| == bucketsN && IsOrder(order, counts)
    requires BucketsIn(order, bucketsN)
    requires forall b :: 0 <= b < |counts| ==> counts[b] == |Grouped(Buckets(u, bucketsN), b)|
    requires SortedItems(items, Buckets(u, bucketsN), offsets)
    ensures match Search(h, u, bucketsN, order, |u|)
            case None => r.None?
            case Some((size, seeds)) =>
              && r.Some? && Made(h, r.value, u)
              && r.value.size == size && r.value.seeds == seeds && r.value.bucketsN == bucketsN
  {
    hide Pass, Made, PlacedAll, SortedItems, Grouped, Flat, IsOrder, Keyed, BucketsIn;
    var n, bk := |u|, Buckets(u, bucketsN);
    var positions, probe := new nat[n](_ => 0), new nat[n](_ => 0);
    var size := n;
    while size <= 2 * n + 1
      invariant size >= n && Search(h, u, bucketsN, order, size) == Search(h, u, bucketsN, order, n)
      decreases 2 * n + 1 - size
    {
      var ok, seeds := TrySize(h, u, bk, order, counts, items, offsets, size, positions, probe);
      if ok {
        var mph := Finish(h, u, bucketsN, seeds, positions[..], size);
        return Some(mph);
      }
      size := size + n / 8 + 1;
    }
    r := None;
  }

  /** The bucket count for n keys: the least power of two not below n / 4 + 1. */
  ghost predicate BucketCount(bucketsN: nat, n: nat) {
    && n / 4 + 1 <= bucketsN && (bucketsN == 1 || bucketsN < 2 * (n / 4 + 1))
    && exists k: nat :: bucketsN == Pow2(k)
  }

  /** What one run of the builder works with: the merged keys, the number of buckets, their order. */
  datatype Plan = Plan(keys: seq<Entry>, bucketsN: nat, order: seq<(nat, nat)>)

  ghost predicate PlanOk(plan: Plan) {
    && plan.keys != [] && BucketCount(plan.bucketsN, |plan.keys|)
    && LargestFirst(plan.order, Buckets(plan.keys, plan.bucketsN), plan.bucketsN)
    && BucketsIn(plan.order, plan.bucketsN)
  }

  /** What the greedy search over the sizes yields: the first size that works, and its seeds. */
  ghost function Greedy(h: Hash, plan: Plan): Option<(nat, seq<nat>)>
    requires PlanOk(plan)
  {
    Search(h, plan.keys, plan.bucketsN, plan.order, |plan.keys|)
  }

  /** Each key's bucket is its hash modulo the number of buckets, so two keys share one exactly when their hashes agree
      modulo that number. */
  ghost predicate ByRemainder(h: Hash, plan: Plan) {
    && plan.bucketsN > 0
    && forall i :: 0 <= i < |plan.keys| ==>
         Buckets(plan.keys, plan.bucketsN)[i] == h(plan.keys[i].key, 0) % plan.bucketsN
  }

  lemma PlanByRemainder(h: Hash, plan: Plan)
    requires PlanOk(plan) && Keyed(h, plan.keys)
    ensures ByRemainder(h, plan)
  {
    forall i | 0 <= i < |plan.keys|
      ensures Buckets(plan.keys, plan.bucketsN)[i] == h(plan.keys[i].key, 0) % plan.bucketsN
    {
      BucketIsRemainder(plan.keys[i].hash, plan.bucketsN);
    }
  }

  lemma PlanIsPower(plan: Plan)
    requires PlanOk(plan)
    ensures exists k: nat :: plan.bucketsN == Pow2(k)
  {
  }

  /** A lookup compares with one slot: that which the key's bucket, its hash modulo the number of buckets, gives it. */
  lemma LookupByRemainder(h: Hash, mph: Mph, key: bytes)
    requires mph.size > 0 && |mph.seeds| == mph.bucketsN && exists k: nat :: mph.bucketsN == Pow2(k)
    ensures Home(h, mph, key) == h(key, mph.seeds[h(key, 0) % mph.bucketsN]) % mph.size
  {
    BucketIsRemainder(h(key, 0), mph.bucketsN);
  }

  method BuildUnique(h: Hash, u: seq<Entry>) returns (r: Option<Mph>, ghost plan: Plan)
    requires u != [] && Keyed(h, u)
    ensures plan.keys == u && PlanOk(plan)
    ensures match Greedy(h, plan)
            case None => r.None?
            case Some((size, seeds)) =>
              && r.Some? && Made(h, r.value, u)
              && r.value.size == size && r.value.seeds == seeds && r.value.bucketsN == plan.bucketsN
  {
    hide Made, SortedItems, Grouped, Flat, IsOrder, Search, Pass;
    var bucketsN := NextPower(|u| / 4 + 1);
    var bk := Buckets(u, bucketsN);
    var counts := CountBuckets(bk, bucketsN);
    var offsets := BucketOffsets(bk, counts);
    var items := FillBuckets(bk, offsets);
    var order := SortBuckets(counts);
    OrderIn(order, counts);
    assert counts == Counts(bk, bucketsN);
    plan := Plan(u, bucketsN, order);
    r := SearchSizes(h, u, bucketsN, order, counts, items, offsets);
  }

  /** The greedy search gets nowhere with the merged keys of these entries, in some order that the sort may yield. */
  ghost predicate CannotBuild(h: Hash, s: seq<Entry>) {
    exists plan :: PlanOk(plan) && Merges(plan.keys, s) && Greedy(h, plan).None?
  }

  /** It succeeds, in some such order, or there is nothing to place. */
  ghost predicate CanBuild(h: Hash, s: seq<Entry>) {
    s == [] || exists plan :: PlanOk(plan) && Merges(plan.keys, s) && Greedy(h, plan).Some?
  }

  /** The whole builder: sort, merge duplicates in place, search, write the table. It fails exactly when the greedy
      search fails, and otherwise the table has the size and the seeds that the search found. */
  method Build(h: Hash, entries: array<Entry>) returns (r: Option<Mph>, ghost plan: Plan)
    requires Keyed(h, entries[..])
    modifies entries
    ensures r.Some? ==> Decides(h, r.value, old(entries[..]))
    ensures r.Some? ==> r.value.nelts <= r.value.size <= 2 * r.value.nelts + 1
    ensures old(entries[..]) == [] ==> r == Some(NoMph)
    ensures old(entries[..]) != [] ==>
              && PlanOk(plan) && Merges(plan.keys, old(entries[..])) && ByRemainder(h, plan)
              && match Greedy(h, plan)
                 case None => r.None?
                 case Some((size, seeds)) =>
                   && r.Some? && r.value.size == size && r.value.seeds == seeds && r.value.bucketsN == plan.bucketsN
                   && exists k: nat :: r.value.bucketsN == Pow2(k)
  {
    if entries.Length == 0 {
      plan := Plan([], 0, []);
      return Some(NoMph), plan;
    }
    hide Greedy, Decides, PlanOk;
    ghost var s := entries[..];
    EntryOrder();
    Sort(entries, EntryLe);
    ghost var sorted := entries[..];
    var n := Deduplicate(entries);
    var u := entries[..n];
    UniqueEntries(h, s, sorted);
    r, plan := BuildUnique(h, u);
    PlanByRemainder(h, plan);
    PlanIsPower(plan);
    if r.Some? {
      ghost var positions: seq<nat> :| Holds(h, r.value, u, positions);
      HoldsDecides(h, r.value, u, positions, s);
    }
  }

  /** The error path is real: two keys the hash cannot tell apart are refused. */
  method TwinsAreRefused(h: Hash, entries: array<Entry>, ghost a: bytes, ghost b: bytes) returns (r: Option<Mph>)
    requires Keyed(h, entries[..]) && HasKey(entries[..], a) && HasKey(entries[..], b)
    requires a != b && forall seed :: h(a, seed) == h(b, seed)
    modifies entries
    ensures r.None?
  {
    ghost var s := entries[..];
    ghost var plan;
    r, plan := Build(h, entries);
    if r.Some? { TwinsHaveNoTable(h, r.value, s, a, b); }
  }
}
