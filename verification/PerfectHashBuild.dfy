/** Building the perfect hash: counting sort into buckets, seed search, slot table. */
module PerfectHashBuild {
  import opened Bytes
  import opened PerfectHash

  /** The number of buckets is the next power of two. */
  method NextPower(n: nat) returns (p: nat)
    ensures n <= p && (p == 1 || p < 2 * n)
    ensures exists k: nat :: p == Pow2(k)
  {
    p := 1;
    ghost var k: nat := 0;
    while p < n
      invariant p == Pow2(k)
      invariant p == 1 || p < 2 * n
      decreases n - p
    {
      p := 2 * p;
      k := k + 1;
    }
  }

  function BucketOf(hash: nat, bucketsN: nat): (b: nat)
    requires bucketsN > 0
    ensures b < bucketsN
  {
    BitAnd(hash, bucketsN - 1)
  }

  /** With a power of two of buckets the low bits are the remainder: every bucket is in use. */
  lemma BucketIsRemainder(hash: nat, bucketsN: nat)
    requires exists k: nat :: bucketsN == Pow2(k)
    ensures bucketsN > 0 && BucketOf(hash, bucketsN) == hash % bucketsN
  {
    var k: nat :| bucketsN == Pow2(k);
    MaskIsRemainder(hash, k);
  }

  function Buckets(u: seq<Entry>, bucketsN: nat): (bk: seq<nat>)
    requires bucketsN > 0
    ensures |bk| == |u| && InRange(bk, bucketsN)
    ensures forall i :: 0 <= i < |u| ==> bk[i] == BucketOf(u[i].hash, bucketsN)
  {
    seq(|u|, i requires 0 <= i < |u| => BucketOf(u[i].hash, bucketsN))
  }

  predicate InRange(bk: seq<nat>, bucketsN: nat) {
    forall i :: 0 <= i < |bk| ==> bk[i] < bucketsN
  }

  // ----- the counting sort

  /** The items of one bucket, in input order. */
  function Grouped(bk: seq<nat>, b: nat): (g: seq<nat>)
    ensures |g| <= |bk|
  {
    if bk == [] then []
    else
      var g := Grouped(bk[..|bk| - 1], b);
      if bk[|bk| - 1] == b then g + [|bk| - 1] else g
  }

  /** A group holds exactly the items of its bucket, in increasing order. */
  lemma {:induction false} GroupedExactly(bk: seq<nat>, b: nat)
    ensures forall k :: 0 <= k < |Grouped(bk, b)| ==> Grouped(bk, b)[k] < |bk|
    ensures forall i :: i in Grouped(bk, b) <==> 0 <= i < |bk| && bk[i] == b
    ensures forall j, k :: 0 <= j < k < |Grouped(bk, b)| ==> Grouped(bk, b)[j] < Grouped(bk, b)[k]
  {
    if bk != [] { GroupedExactly(bk[..|bk| - 1], b); }
  }

  lemma GroupedNothing(b: nat)
    ensures Grouped([], b) == []
  {
  }

  lemma GroupedNext(bk: seq<nat>, i: nat, b: nat)
    requires i < |bk|
    ensures Grouped(bk[..i + 1], b) == Grouped(bk[..i], b) + Only(i, bk[i] == b)
  {
    assert bk[..i + 1][..i] == bk[..i];
  }

  /** All buckets below b, one after the other. */
  function Flat(bk: seq<nat>, b: nat): seq<nat> {
    if b == 0 then [] else Flat(bk, b - 1) + Grouped(bk, b - 1)
  }

  function Iota(n: nat): (s: seq<nat>)
    ensures |s| == n && forall i :: 0 <= i < n ==> s[i] == i
  {
    if n == 0 then [] else Iota(n - 1) + [n - 1]
  }

  function Only(x: nat, c: bool): seq<nat> {
    if c then [x] else []
  }

  lemma FlatNothing(bk: seq<nat>)
    ensures Flat(bk, 0) == []
  {
  }

  lemma FlatNext(bk: seq<nat>, b: nat)
    ensures |Flat(bk, b + 1)| == |Flat(bk, b)| + |Grouped(bk, b)|
  {
  }

  lemma {:induction false} FlatMonotone(bk: seq<nat>, b: nat, c: nat)
    requires b < c
    ensures |Flat(bk, b)| + |Grouped(bk, b)| <= |Flat(bk, c)|
    decreases c
  {
    if b + 1 < c { FlatMonotone(bk, b, c - 1); }
  }

  lemma {:induction false} FlatSnoc(bk: seq<nat>, x: nat, b: nat)
    ensures multiset(Flat(bk + [x], b)) == multiset(Flat(bk, b)) + multiset(Only(|bk|, x < b))
  {
    if b > 0 {
      FlatSnoc(bk, x, b - 1);
      assert (bk + [x])[..|bk|] == bk;
    }
  }

  /** The sorted items are a rearrangement of 0, .., n-1. */
  lemma {:induction false} FlatIsPermutation(bk: seq<nat>, bucketsN: nat)
    requires InRange(bk, bucketsN)
    ensures multiset(Flat(bk, bucketsN)) == multiset(Iota(|bk|))
    ensures |Flat(bk, bucketsN)| == |bk|
  {
    if bk == [] {
      FlatOfNothing(bucketsN);
      assert Iota(|bk|) == [];
    } else {
      var t, x := bk[..|bk| - 1], bk[|bk| - 1];
      assert bk == t + [x];
      FlatIsPermutation(t, bucketsN);
      FlatSnoc(t, x, bucketsN);
      assert Iota(|bk|) == Iota(|t|) + [|t|];
    }
    assert |multiset(Flat(bk, bucketsN))| == |multiset(Iota(|bk|))|;
  }

  lemma {:induction false} FlatOfNothing(b: nat)
    ensures Flat([], b) == []
  {
    if b > 0 { FlatOfNothing(b - 1); }
  }

  ghost predicate GroupAt(items: seq<nat>, offset: nat, g: seq<nat>) {
    offset + |g| <= |items| && items[offset..offset + |g|] == g
  }

  lemma TakeMore(s: seq<nat>, i: nat, j: nat)
    requires i <= j <= |s|
    ensures s[..j] == s[..i] + s[i..j]
  {
  }

  lemma {:induction false} GroupsMakeFlat(items: seq<nat>, bk: seq<nat>, b: nat)
    requires forall c :: 0 <= c < b ==> GroupAt(items, |Flat(bk, c)|, Grouped(bk, c))
    ensures |Flat(bk, b)| <= |items| && items[..|Flat(bk, b)|] == Flat(bk, b)
  {
    if b > 0 {
      GroupsMakeFlat(items, bk, b - 1);
      var f, g := Flat(bk, b - 1), Grouped(bk, b - 1);
      assert GroupAt(items, |f|, g);
      TakeMore(items, |f|, |f| + |g|);
    }
  }

  method CountBuckets(bk: seq<nat>, bucketsN: nat) returns (counts: seq<nat>)
    requires InRange(bk, bucketsN)
    ensures |counts| == bucketsN
    ensures forall b :: 0 <= b < bucketsN ==> counts[b] == |Grouped(bk, b)|
  {
    hide Grouped;
    var count := new nat[bucketsN](_ => 0);
    forall b ensures Grouped([], b) == [] { GroupedNothing(b); }
    for i := 0 to |bk|
      invariant forall b :: 0 <= b < bucketsN ==> count[b] == |Grouped(bk[..i], b)|
    {
      forall b ensures |Grouped(bk[..i + 1], b)| == |Grouped(bk[..i], b)| + if bk[i] == b then 1 else 0 {
        GroupedNext(bk, i, b);
      }
      count[bk[i]] := count[bk[i]] + 1;
    }
    assert bk[..|bk|] == bk;
    counts := count[..];
  }

  method BucketOffsets(bk: seq<nat>, counts: seq<nat>) returns (offsets: seq<nat>)
    requires forall b :: 0 <= b < |counts| ==> counts[b] == |Grouped(bk, b)|
    ensures |offsets| == |counts|
    ensures forall b :: 0 <= b < |counts| ==> offsets[b] == |Flat(bk, b)|
  {
    hide Flat, Grouped;
    var start := new nat[|counts|](_ => 0);
    var offset := 0;
    FlatNothing(bk);
    for b := 0 to |counts|
      invariant offset == |Flat(bk, b)|
      invariant forall c :: 0 <= c < b ==> start[c] == |Flat(bk, c)|
    {
      FlatNext(bk, b);
      start[b] := offset;
      offset := offset + counts[b];
    }
    offsets := start[..];
  }

  lemma {:induction false} GroupedPrefix(bk: seq<nat>, i: nat, b: nat)
    requires i <= |bk|
    ensures |Grouped(bk[..i], b)| <= |Grouped(bk, b)|
    decreases |bk| - i
  {
    if i < |bk| {
      assert bk[..i + 1][..i] == bk[..i];
      GroupedPrefix(bk, i + 1, b);
    } else {
      assert bk[..i] == bk;
    }
  }

  function Groups(bk: seq<nat>, i: nat, bucketsN: nat): (g: seq<seq<nat>>)
    requires i <= |bk|
    ensures |g| == bucketsN && forall b :: 0 <= b < bucketsN ==> g[b] == Grouped(bk[..i], b)
  {
    seq(bucketsN, b requires 0 <= b < bucketsN => Grouped(bk[..i], b))
  }

  ghost predicate Filled(items: seq<nat>, fill: seq<nat>, groups: seq<seq<nat>>, offsets: seq<nat>) {
    && |fill| == |groups| == |offsets|
    && (forall b :: 0 <= b < |groups| ==> fill[b] == |groups[b]|)
    && (forall b :: 0 <= b < |groups| ==> GroupAt(items, offsets[b], groups[b]))
  }

  lemma FillNext(items: seq<nat>, fill: seq<nat>, groups: seq<seq<nat>>, offsets: seq<nat>, b: nat, v: nat)
    requires Filled(items, fill, groups, offsets) && b < |groups|
    requires offsets[b] + fill[b] < |items|
    requires forall c :: 0 <= c < |groups| && c != b ==>
               offsets[b] + fill[b] < offsets[c] || offsets[c] + |groups[c]| <= offsets[b] + fill[b]
    ensures Filled(items[offsets[b] + fill[b] := v], fill[b := fill[b] + 1], groups[b := groups[b] + [v]], offsets)
  {
    var p := offsets[b] + fill[b];
    var next := items[p := v];
    forall c | 0 <= c < |groups| ensures GroupAt(next, offsets[c], groups[b := groups[b] + [v]][c]) {
      var g, o := groups[c], offsets[c];
      assert GroupAt(items, o, g);
      if c == b {
        assert next[o..o + |g| + 1] == g + [v];
      } else {
        assert next[o..o + |g|] == items[o..o + |g|];
      }
    }
  }

  lemma GroupsNext(bk: seq<nat>, i: nat, bucketsN: nat)
    requires i < |bk| && InRange(bk, bucketsN)
    ensures Groups(bk, i + 1, bucketsN) == Groups(bk, i, bucketsN)[bk[i] := Groups(bk, i, bucketsN)[bk[i]] + [i]]
  {
    var before, after := Groups(bk, i, bucketsN), Groups(bk, i + 1, bucketsN);
    var upd := before[bk[i] := before[bk[i]] + [i]];
    forall b | 0 <= b < bucketsN ensures after[b] == upd[b] {
      GroupedNext(bk, i, b);
    }
  }

  /** There is room for the next item, and no other group lies there. */
  lemma FillRoom(bk: seq<nat>, i: nat, offsets: seq<nat>, c: nat)
    requires i < |bk| && InRange(bk, |offsets|) && c < |offsets|
    requires forall b :: 0 <= b < |offsets| ==> offsets[b] == |Flat(bk, b)|
    ensures var p := offsets[bk[i]] + |Grouped(bk[..i], bk[i])|;
            && p < |bk|
            && (c != bk[i] ==> p < offsets[c] || offsets[c] + |Grouped(bk[..i], c)| <= p)
  {
    var b := bk[i];
    GroupedNext(bk, i, b);
    GroupedPrefix(bk, i + 1, b);
    GroupedPrefix(bk, i, c);
    FlatIsPermutation(bk, |offsets|);
    FlatMonotone(bk, b, |offsets|);
    if c < b { FlatMonotone(bk, c, b); }
    if b < c { FlatMonotone(bk, b, c); }
  }

  lemma FillStart(items: seq<nat>, fill: seq<nat>, bk: seq<nat>, offsets: seq<nat>)
    requires InRange(bk, |offsets|) && |items| == |bk| && |fill| == |offsets|
    requires forall c :: 0 <= c < |offsets| ==> offsets[c] == |Flat(bk, c)| && fill[c] == 0
    ensures Filled(items, fill, Groups(bk, 0, |offsets|), offsets)
  {
    FlatIsPermutation(bk, |offsets|);
    forall b | 0 <= b < |offsets| ensures GroupAt(items, offsets[b], Grouped(bk[..0], b)) {
      FlatMonotone(bk, b, |offsets|);
    }
  }

  /** The counting sort's result: every item once, bucket after bucket. */
  ghost predicate SortedItems(items: seq<nat>, bk: seq<nat>, offsets: seq<nat>) {
    && items == Flat(bk, |offsets|)
    && multiset(items) == multiset(Iota(|bk|))
    && (forall b :: 0 <= b < |offsets| ==> GroupAt(items, offsets[b], Grouped(bk, b)))
  }

  lemma FillAdvance(items: seq<nat>, fill: seq<nat>, bk: seq<nat>, i: nat, offsets: seq<nat>)
    requires i < |bk| && InRange(bk, |offsets|) && |items| == |bk|
    requires forall b :: 0 <= b < |offsets| ==> offsets[b] == |Flat(bk, b)|
    requires Filled(items, fill, Groups(bk, i, |offsets|), offsets)
    ensures var b := bk[i];
            && offsets[b] + fill[b] < |bk|
            && Filled(items[offsets[b] + fill[b] := i], fill[b := fill[b] + 1], Groups(bk, i + 1, |offsets|), offsets)
  {
    hide Flat, Grouped, GroupAt, Groups;
    forall c | 0 <= c < |offsets|
      ensures var p := offsets[bk[i]] + |Grouped(bk[..i], bk[i])|;
              && p < |bk|
              && (c != bk[i] ==> p < offsets[c] || offsets[c] + |Grouped(bk[..i], c)| <= p)
    {
      FillRoom(bk, i, offsets, c);
    }
    var groups := Groups(bk, i, |offsets|);
    GroupsNext(bk, i, |offsets|);
    FillNext(items, fill, groups, offsets, bk[i], i);
  }

  /** Items grouped by bucket, by one pass with a fill cursor per bucket. */
  method FillBuckets(bk: seq<nat>, offsets: seq<nat>) returns (items: seq<nat>)
    requires InRange(bk, |offsets|)
    requires forall b :: 0 <= b < |offsets| ==> offsets[b] == |Flat(bk, b)|
    ensures SortedItems(items, bk, offsets)
  {
    hide Filled, Groups, Flat, SortedItems;
    var item := new nat[|bk|](_ => 0);
    var fill := new nat[|offsets|](_ => 0);
    FillStart(item[..], fill[..], bk, offsets);
    assert InRange(bk, fill.Length);
    for i := 0 to |bk|
      invariant item.Length == |bk| && fill.Length == |offsets|
      invariant Filled(item[..], fill[..], Groups(bk, i, |offsets|), offsets)
    {
      var b := bk[i];
      FillAdvance(item[..], fill[..], bk, i, offsets);
      ghost var nextItem, nextFill := item[..][offsets[b] + fill[b] := i], fill[..][b := fill[b] + 1];
      item[offsets[b] + fill[b]] := i;
      fill[b] := fill[b] + 1;
      assert item[..] == nextItem && fill[..] == nextFill;
    }
    items := item[..];
    FlatMade(items, fill[..], bk, offsets);
  }

  lemma FlatMade(items: seq<nat>, fill: seq<nat>, bk: seq<nat>, offsets: seq<nat>)
    requires InRange(bk, |offsets|) && |items| == |bk|
    requires forall b :: 0 <= b < |offsets| ==> offsets[b] == |Flat(bk, b)|
    requires Filled(items, fill, Groups(bk, |bk|, |offsets|), offsets)
    ensures SortedItems(items, bk, offsets)
  {
    assert bk[..|bk|] == bk;
    forall b | 0 <= b < |offsets| ensures GroupAt(items, offsets[b], Grouped(bk, b)) {
      assert Groups(bk, |bk|, |offsets|)[b] == Grouped(bk, b);
    }
    FlatIsPermutation(bk, |offsets|);
    GroupsMakeFlat(items, bk, |offsets|);
    assert items[..|bk|] == items;
  }
}
