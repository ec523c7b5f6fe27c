/** The compact perfect hash over lower-cased domain keys. */
module PerfectHash {
  import opened Bytes
  import opened Sorting

  /** Any function of key and seed; nothing here depends on its quality. */
  type Hash = (bytes, nat) -> nat

  const SEEDS := 65536

  datatype Entry = Entry(key: bytes, flags: bv8, hash: nat)

  datatype Slot = Slot(offset: nat, len: nat, flags: bv8)

  datatype Mph = Mph(nelts: nat, size: nat, bucketsN: nat, seeds: seq<nat>, slots: seq<Slot>, data: bytes)

  const NoMph := Mph(0, 0, 0, [], [], [])

  // ----- duplicates

  function Min(a: nat, b: nat): nat { if a <= b then a else b }

  /** The comparator of the key sort: common prefix first, then length. */
  predicate KeyLe(a: bytes, b: bytes) {
    var n := Min(|a|, |b|);
    var rc := MemCmp(a[..n], b[..n]);
    if rc != 0 then rc < 0 else |a| <= |b|
  }

  lemma {:induction false} KeyLeIsLex(a: bytes, b: bytes)
    ensures KeyLe(a, b) <==> Lex(a, b)
  {
    if a != [] && b != [] {
      var n := Min(|a|, |b|);
      KeyLeIsLex(a[1..], b[1..]);
      assert a[..n][1..] == a[1..][..n - 1];
      assert b[..n][1..] == b[1..][..n - 1];
    }
  }

  predicate EntryLe(a: Entry, b: Entry) { KeyLe(a.key, b.key) }

  lemma EntryOrder()
    ensures TotalPreorder(EntryLe)
  {
    forall a: Entry, b: Entry ensures EntryLe(a, b) || EntryLe(b, a) {
      KeyLeIsLex(a.key, b.key);
      KeyLeIsLex(b.key, a.key);
      LexTotal(a.key, b.key);
    }
    forall a: Entry, b: Entry, c: Entry | EntryLe(a, b) && EntryLe(b, c) ensures EntryLe(a, c) {
      KeyLeIsLex(a.key, b.key);
      KeyLeIsLex(b.key, c.key);
      KeyLeIsLex(a.key, c.key);
      LexTransitive(a.key, b.key, c.key);
    }
  }

  predicate Repeats(m: seq<Entry>, e: Entry) { m != [] && m[|m| - 1].key == e.key }

  function WithFlags(e: Entry, flags: bv8): Entry { Entry(e.key, e.flags | flags, e.hash) }

  function MergeOne(m: seq<Entry>, e: Entry): seq<Entry> {
    if Repeats(m, e) then m[|m| - 1 := WithFlags(m[|m| - 1], e.flags)] else m + [e]
  }

  /** Neighbours with equal keys merged, their flags or-ed together. */
  function Merged(s: seq<Entry>): (m: seq<Entry>)
    ensures |m| <= |s|
  {
    if s == [] then [] else MergeOne(Merged(s[..|s| - 1]), s[|s| - 1])
  }

  lemma MergedSnoc(t: seq<Entry>, e: Entry)
    ensures Merged(t + [e]) == MergeOne(Merged(t), e)
  {
    assert (t + [e])[..|t|] == t;
  }

  predicate HasKey(s: seq<Entry>, key: bytes) {
    exists i :: 0 <= i < |s| && s[i].key == key
  }

  /** The OR of the flags of every entry with this key. */
  function OrOf(s: seq<Entry>, key: bytes): bv8 {
    if s == [] then 0
    else OrOf(s[..|s| - 1], key) | (if s[|s| - 1].key == key then s[|s| - 1].flags else 0)
  }

  lemma {:induction false} OrOfAbsent(s: seq<Entry>, key: bytes)
    requires !HasKey(s, key)
    ensures OrOf(s, key) == 0
  {
    if s != [] {
      var t := s[..|s| - 1];
      assert forall i :: 0 <= i < |t| ==> t[i] == s[i];
      OrOfAbsent(t, key);
    }
  }

  lemma OrOfSnoc(t: seq<Entry>, e: Entry, key: bytes)
    ensures OrOf(t + [e], key) == OrOf(t, key) | (if e.key == key then e.flags else 0)
  {
    assert (t + [e])[..|t|] == t;
  }

  lemma OrSwap(a: bv8, b: bv8, c: bv8)
    ensures (a | b) | c == (a | c) | b
  {
  }

  lemma {:induction false} OrOfRemoved(p: seq<Entry>, e: Entry, q: seq<Entry>, key: bytes)
    ensures OrOf(p + [e] + q, key) == OrOf(p + q, key) | (if e.key == key then e.flags else 0)
    decreases |q|
  {
    hide OrOf;
    if q == [] {
      assert p + [e] + q == p + [e] && p + q == p;
      OrOfSnoc(p, e, key);
    } else {
      var r, z := q[..|q| - 1], q[|q| - 1];
      OrOfRemoved(p, e, r, key);
      assert p + [e] + q == (p + [e] + r) + [z] && p + q == (p + r) + [z];
      OrOfSnoc(p + [e] + r, z, key);
      OrOfSnoc(p + r, z, key);
      OrSwap(OrOf(p + r, key), if e.key == key then e.flags else 0, if z.key == key then z.flags else 0);
    }
  }

  lemma OneLess<T>(r: seq<T>, z: T, p: seq<T>, q: seq<T>)
    requires multiset(r + [z]) == multiset(p + [z] + q)
    ensures multiset(r) == multiset(p + q)
  {
    assert multiset(r + [z]) == multiset(r) + multiset{z};
    assert multiset(p + [z] + q) == multiset(p + q) + multiset{z};
    assert multiset(r) == (multiset(r) + multiset{z}) - multiset{z};
  }

  lemma {:induction false} OrOfPermuted(s: seq<Entry>, t: seq<Entry>, key: bytes)
    requires multiset(s) == multiset(t)
    ensures OrOf(s, key) == OrOf(t, key)
    decreases |s|
  {
    hide OrOf;
    if s == [] {
      assert |multiset(t)| == 0;
      assert t == [];
    } else {
      var r, z := s[..|s| - 1], s[|s| - 1];
      assert s == r + [z];
      assert z in multiset(t);
      var i :| 0 <= i < |t| && t[i] == z;
      var p, q := t[..i], t[i + 1..];
      assert t == p + [z] + q;
      OneLess(r, z, p, q);
      OrOfPermuted(r, p + q, key);
      OrOfSnoc(r, z, key);
      OrOfRemoved(p, z, q, key);
    }
  }

  lemma HasKeyPermuted(s: seq<Entry>, t: seq<Entry>, key: bytes)
    requires multiset(s) == multiset(t)
    ensures HasKey(s, key) <==> HasKey(t, key)
  {
    if i :| 0 <= i < |s| && s[i].key == key { assert s[i] in multiset(t); }
    if i :| 0 <= i < |t| && t[i].key == key { assert t[i] in multiset(s); }
  }

  ghost predicate DistinctKeys(m: seq<Entry>) {
    forall i, j :: 0 <= i < j < |m| ==> m[i].key != m[j].key
  }

  ghost predicate RightFlags(m: seq<Entry>, s: seq<Entry>) {
    forall i :: 0 <= i < |m| ==> m[i].flags == OrOf(s, m[i].key)
  }

  /** What the deduplicated table must say about the entries it was made from. */
  ghost predicate Merges(m: seq<Entry>, s: seq<Entry>) {
    && DistinctKeys(m)
    && RightFlags(m, s)
    && (forall k :: HasKey(m, k) <==> HasKey(s, k))
  }

  lemma MergeOneKeys(m: seq<Entry>, e: Entry, key: bytes)
    ensures HasKey(MergeOne(m, e), key) <==> HasKey(m, key) || e.key == key
    ensures var r := MergeOne(m, e); r != [] && r[|r| - 1].key == e.key
  {
    var r := MergeOne(m, e);
    if Repeats(m, e) {
      assert forall i :: 0 <= i < |m| ==> m[i].key == r[i].key;
    } else {
      KeyOfSnoc(m, e, key);
    }
  }

  lemma {:induction false} MergedKeys(s: seq<Entry>, key: bytes)
    ensures HasKey(Merged(s), key) <==> HasKey(s, key)
    ensures s != [] ==> Merged(s) != [] && Merged(s)[|Merged(s)| - 1].key == s[|s| - 1].key
  {
    if s != [] {
      var t, e := s[..|s| - 1], s[|s| - 1];
      MergedKeys(t, key);
      KeyOfSnoc(t, e, key);
      assert s == t + [e];
      MergeOneKeys(Merged(t), e, key);
    }
  }

  lemma KeyOfSnoc(t: seq<Entry>, e: Entry, key: bytes)
    ensures HasKey(t + [e], key) <==> HasKey(t, key) || e.key == key
  {
    var s := t + [e];
    if i :| 0 <= i < |t| && t[i].key == key { assert s[i].key == key; }
    assert s[|t|].key == e.key;
  }

  lemma JoinLast(t: seq<Entry>, m: seq<Entry>, e: Entry)
    requires DistinctKeys(m) && RightFlags(m, t) && Repeats(m, e)
    ensures DistinctKeys(MergeOne(m, e)) && RightFlags(MergeOne(m, e), t + [e])
  {
    hide OrOf;
    var r := MergeOne(m, e);
    forall i | 0 <= i < |r| ensures r[i].flags == OrOf(t + [e], r[i].key) {
      OrOfSnoc(t, e, r[i].key);
      OrNothing(m[i].flags);
      if i < |m| - 1 { assert m[i].key != m[|m| - 1].key; }
    }
  }

  lemma OrNothing(f: bv8)
    ensures f | 0 == f && 0 | f == f
  {
  }

  lemma AddLast(t: seq<Entry>, m: seq<Entry>, e: Entry)
    requires DistinctKeys(m) && RightFlags(m, t)
    requires !HasKey(t, e.key) && !HasKey(m, e.key)
    ensures DistinctKeys(m + [e]) && RightFlags(m + [e], t + [e])
  {
    hide OrOf;
    var r := m + [e];
    OrOfAbsent(t, e.key);
    OrNothing(e.flags);
    forall i | 0 <= i < |r| ensures r[i].flags == OrOf(t + [e], r[i].key) {
      OrOfSnoc(t, e, r[i].key);
      if i < |m| {
        OrNothing(m[i].flags);
        assert m[i].key != e.key;
      }
    }
  }

  lemma {:induction false} MergedFlags(s: seq<Entry>)
    requires Sorted(s, EntryLe)
    ensures DistinctKeys(Merged(s)) && RightFlags(Merged(s), s)
  {
    hide EntryLe, OrOf, HasKey;
    if s != [] {
      var t, e := s[..|s| - 1], s[|s| - 1];
      assert s == t + [e];
      MergedFlags(t);
      MergedKeys(t, e.key);
      MergedSnoc(t, e);
      if Repeats(Merged(t), e) {
        JoinLast(t, Merged(t), e);
      } else {
        if t != [] { MergedKeys(t, t[|t| - 1].key); }
        LastKeyIsNew(t, e);
        AddLast(t, Merged(t), e);
      }
    }
  }

  lemma MergedMerges(s: seq<Entry>)
    requires Sorted(s, EntryLe)
    ensures Merges(Merged(s), s)
  {
    MergedFlags(s);
    forall k: bytes ensures HasKey(Merged(s), k) <==> HasKey(s, k) { MergedKeys(s, k); }
  }

  lemma LastKeyIsNew(t: seq<Entry>, e: Entry)
    requires Sorted(t + [e], EntryLe)
    requires t != [] ==> t[|t| - 1].key != e.key
    ensures !HasKey(t, e.key)
  {
    var s := t + [e];
    if i :| 0 <= i < |t| && t[i].key == e.key {
      var l := t[|t| - 1];
      assert s[|t| - 1] == l && s[|t|] == e && s[i] == t[i];
      assert EntryLe(l, e);
      if i == |t| - 1 { assert false; }
      assert EntryLe(s[i], s[|t| - 1]);
      KeyLeIsLex(e.key, l.key);
      KeyLeIsLex(l.key, e.key);
      LexTotal(l.key, e.key);
      assert false;
    }
  }

  /** The in-place removal of duplicates from the sorted entries. */
  method Deduplicate(entries: array<Entry>) returns (n: nat)
    modifies entries
    ensures n <= entries.Length
    ensures entries[..n] == Merged(old(entries[..]))
  {
    hide Merged;
    n := 0;
    ghost var was := entries[..];
    MergedNothing();
    for i := 0 to entries.Length
      invariant n <= i && n == |Merged(was[..i])|
      invariant forall k :: 0 <= k < n ==> entries[k] == Merged(was[..i])[k]
      invariant forall k :: i <= k < entries.Length ==> entries[k] == was[k]
    {
      assert was[..i + 1] == was[..i] + [was[i]];
      MergedSnoc(was[..i], was[i]);
      if n != 0 && entries[n - 1].key == entries[i].key {
        entries[n - 1] := Entry(entries[n - 1].key, entries[n - 1].flags | entries[i].flags, entries[n - 1].hash);
      } else {
        entries[n] := entries[i];
        n := n + 1;
      }
    }
    assert was[..entries.Length] == was;
  }

  lemma MergedNothing()
    ensures Merged([]) == []
  {
  }

  ghost predicate Keyed(h: Hash, s: seq<Entry>) {
    forall i :: 0 <= i < |s| ==> 1 <= |s[i].key| <= 255 && s[i].hash == h(s[i].key, 0)
  }

  lemma {:induction false} MergedKeyed(h: Hash, s: seq<Entry>)
    requires Keyed(h, s)
    ensures Keyed(h, Merged(s))
  {
    if s != [] { MergedKeyed(h, s[..|s| - 1]); }
  }

  /** Sorting and merging leave one entry per key of the input, carrying all its flags. */
  lemma UniqueEntries(h: Hash, s: seq<Entry>, sorted: seq<Entry>)
    requires s != [] && Keyed(h, s)
    requires multiset(sorted) == multiset(s) && Sorted(sorted, EntryLe)
    ensures Merged(sorted) != [] && Keyed(h, Merged(sorted)) && Merges(Merged(sorted), s)
  {
    forall i | 0 <= i < |sorted| ensures sorted[i] in s { assert sorted[i] in multiset(s); }
    assert |multiset(sorted)| == |multiset(s)|;
    MergedKeyed(h, sorted);
    MergedMerges(sorted);
    MergedKeys(sorted, sorted[0].key);
    var m := Merged(sorted);
    forall i | 0 <= i < |m| ensures m[i].flags == OrOf(s, m[i].key) {
      OrOfPermuted(sorted, s, m[i].key);
    }
    forall k: bytes ensures HasKey(m, k) <==> HasKey(s, k) {
      HasKeyPermuted(sorted, s, k);
    }
  }
}
