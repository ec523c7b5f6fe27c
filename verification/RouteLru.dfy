/** The route cache read as a bounded least-recently-used map. */
module RouteLru {
  import opened Bytes
  import opened RouteState

  /** What a key is mapped to. */
  datatype Item = Item(key: Key, outbound: nat, ttl: bool, expires: int)

  function ItemOf(e: Entry): Item { Item(e.key, e.outbound, e.ttl, e.expires) }

  function Written(key: Key, outbound: nat, ttl: bool, expires: int): Item {
    Item(key, outbound, ttl, if ttl then expires else 0)
  }

  predicate InRange(slots: seq<Entry>, lru: seq<nat>) { forall k :: 0 <= k < |lru| ==> lru[k] < |slots| }

  function Items(slots: seq<Entry>, lru: seq<nat>): (r: seq<Item>)
    requires InRange(slots, lru)
    ensures |r| == |lru| && forall k :: 0 <= k < |lru| ==> r[k] == ItemOf(slots[lru[k]])
  {
    seq(|lru|, k requires 0 <= k < |lru| => ItemOf(slots[lru[k]]))
  }

  /** The map, most recently used first. */
  function Abs(s: State): seq<Item>
    requires InRange(s.slots, s.lru)
  {
    Items(s.slots, s.lru)
  }

  // ----- the specification: an ordered, bounded map

  function Find(m: seq<Item>, key: Key): (r: Option<Item>)
    ensures r.Some? ==> r.value in m && r.value.key == key
    ensures r.None? ==> forall k :: 0 <= k < |m| ==> m[k].key != key
  {
    if m == [] then None else if m[0].key == key then Some(m[0]) else Find(m[1..], key)
  }

  function Forget(m: seq<Item>, key: Key): (r: seq<Item>)
    ensures |r| <= |m|
  {
    if m == [] then [] else if m[0].key == key then m[1..] else [m[0]] + Forget(m[1..], key)
  }

  function Take<T>(m: seq<T>, n: nat): (r: seq<T>)
    ensures |r| <= n
  {
    if |m| <= n then m else m[..n]
  }

  /** A hit moves its item to the front. */
  function Get(m: seq<Item>, key: Key): seq<Item> {
    if Find(m, key).Some? then [Find(m, key).value] + Forget(m, key) else m
  }

  /** A write puts its item in front and drops what exceeds the capacity. */
  function Put(m: seq<Item>, item: Item, capacity: nat): seq<Item> {
    Take([item] + Forget(m, item.key), capacity)
  }

  // ----- refinement

  lemma {:induction false} FindIsSlot(s: State, key: Key, lru: seq<nat>, i: nat)
    requires Keyed(s) && InRange(s.slots, lru) && i in lru && s.slots[i].key == key
    ensures Find(Items(s.slots, lru), key) == Some(ItemOf(s.slots[i]))
  {
    var m := Items(s.slots, lru);
    if lru[0] != i {
      assert m[0].key != key;
      assert Items(s.slots, lru[1..]) == m[1..];
      FindIsSlot(s, key, lru[1..], i);
    }
  }

  lemma {:induction false} WithoutInRange(slots: seq<Entry>, lru: seq<nat>, i: nat)
    requires InRange(slots, lru)
    ensures InRange(slots, Without(lru, i))
  {
    if lru != [] && lru[0] != i {
      WithoutInRange(slots, lru[1..], i);
    }
  }

  lemma ItemsFront(slots: seq<Entry>, x: nat, lru: seq<nat>)
    requires x < |slots| && InRange(slots, lru)
    ensures InRange(slots, [x] + lru) && Items(slots, [x] + lru) == [ItemOf(slots[x])] + Items(slots, lru)
  {
  }

  lemma ForgetFront(item: Item, m: seq<Item>, key: Key)
    ensures Forget([item] + m, key) == if item.key == key then m else [item] + Forget(m, key)
  {
    assert ([item] + m)[1..] == m;
  }

  lemma {:induction false} ForgetIsWithout(s: State, lru: seq<nat>, i: nat)
    requires Keyed(s) && InRange(s.slots, lru) && i < |s.slots|
    ensures InRange(s.slots, Without(lru, i))
    ensures Forget(Items(s.slots, lru), s.slots[i].key) == Items(s.slots, Without(lru, i))
  {
    WithoutInRange(s.slots, lru, i);
    if lru != [] {
      var x, rest := lru[0], lru[1..];
      assert lru == [x] + rest;
      ItemsFront(s.slots, x, rest);
      ForgetFront(ItemOf(s.slots[x]), Items(s.slots, rest), s.slots[i].key);
      if x != i {
        ForgetIsWithout(s, rest, i);
        ItemsFront(s.slots, x, Without(rest, i));
      }
    }
  }

  lemma {:induction false} ForgetAbsent(m: seq<Item>, key: Key)
    requires forall k :: 0 <= k < |m| ==> m[k].key != key
    ensures Forget(m, key) == m && Find(m, key).None?
  {
    if m != [] {
      ForgetAbsent(m[1..], key);
      assert m == [m[0]] + m[1..];
    }
  }

  lemma NoItem(s: State, key: Key)
    requires Recency(s) && SlotOf(s, key).None? && KeyOk(key)
    ensures forall k :: 0 <= k < |s.lru| ==> Abs(s)[k].key != key
  {
  }

  predicate Sound(s: State) { InRange(s.slots, s.lru) }

  lemma LookupSound(s: State, key: Key)
    requires Valid(s)
    ensures Sound(Lookup(s, key).0)
  {
    LookupKeeps(s, key);
  }

  lemma TouchItems(s: State, i: nat)
    requires Keyed(s) && Sound(s) && i < |s.slots| && i in s.lru
    ensures var u := s.(lru := Touch(s.lru, i)); Sound(u) && Abs(u) == Get(Abs(s), s.slots[i].key)
    ensures Find(Abs(s), s.slots[i].key) == Some(ItemOf(s.slots[i]))
  {
    FindIsSlot(s, s.slots[i].key, s.lru, i);
    ForgetIsWithout(s, s.lru, i);
    ItemsFront(s.slots, i, Without(s.lru, i));
  }

  /** A lookup hits exactly when the map has the key, with the map's answer, and refreshes its recency. */
  lemma LookupRefines(s: State, key: Key)
    requires Valid(s) && KeyOk(key)
    ensures var (u, r) := Lookup(s, key);
            && Sound(u) && Abs(u) == Get(Abs(s), key)
            && (r.Some? <==> Find(Abs(s), key).Some?)
            && (r.Some? ==> r.value < |u.slots| && ItemOf(u.slots[r.value]) == Find(Abs(s), key).value)
  {
    if SlotOf(s, key).Some? {
      TouchItems(s, SlotOf(s, key).value);
    } else {
      NoItem(s, key);
      ForgetAbsent(Abs(s), key);
    }
  }

  lemma FoundItems(s: State, u: State, i: nat)
    requires Recency(s) && i < |s.slots| && |u.slots| == |s.slots| && u.lru == Touch(s.lru, i)
    requires forall j :: 0 <= j < |s.slots| && j != i ==> u.slots[j] == s.slots[j]
    ensures InRange(s.slots, Without(s.lru, i)) && Sound(u)
    ensures Abs(u) == [ItemOf(u.slots[i])] + Items(s.slots, Without(s.lru, i))
  {
    WithoutIs(s.lru, i);
    WithoutInRange(s.slots, s.lru, i);
    var w := Without(s.lru, i);
    forall k | 0 <= k < |w| ensures u.slots[w[k]] == s.slots[w[k]] {
      assert w[k] in w;
    }
  }

  lemma FoundRefines(s: State, key: Key, i: nat, outbound: nat, ttl: bool, expires: int, now: nat)
    requires Valid(s) && KeyOk(key) && SlotOf(s, key) == Some(i) && 0 < s.size
    ensures Sound(Insert(s, key, outbound, ttl, expires, now).0)
    ensures Abs(Insert(s, key, outbound, ttl, expires, now).0) ==
            Put(Abs(s), Written(key, outbound, ttl, expires), s.size)
  {
    InsertsFound(s, key, i, outbound, ttl, expires, now);
    ForgetIsWithout(s, s.lru, i);
    WithoutIs(s.lru, i);
    FoundItems(s, Insert(s, key, outbound, ttl, expires, now).0, i);
  }

  /** The evicted slot is the last one, so the others keep their items and their order. */
  lemma EvictItems(s: State, e: Entry)
    requires Recency(s) && s.lru != []
    ensures var i := s.lru[|s.lru| - 1];
            && InRange(Evict(s, i, e).slots, Evict(s, i, e).lru)
            && Abs(Evict(s, i, e)) == [ItemOf(e)] + Abs(s)[..|s.lru| - 1]
  {
    var i, kept := s.lru[|s.lru| - 1], s.lru[..|s.lru| - 1];
    assert forall k :: 0 <= k < |kept| ==> kept[k] == s.lru[k] && kept[k] != i;
  }

  lemma PutFull(m: seq<Item>, item: Item, n: nat)
    requires |m| == n > 0 && forall k :: 0 <= k < |m| ==> m[k].key != item.key
    ensures Put(m, item, n) == [item] + m[..n - 1]
  {
    ForgetAbsent(m, item.key);
    assert ([item] + m)[..n] == [item] + m[..n - 1];
  }

  lemma FullRefines(s: State, key: Key, outbound: nat, ttl: bool, expires: int, now: nat)
    requires Valid(s) && KeyOk(key) && SlotOf(s, key).None? && 0 < s.size == |s.slots|
    ensures Sound(Insert(s, key, outbound, ttl, expires, now).0)
    ensures Abs(Insert(s, key, outbound, ttl, expires, now).0) ==
            Put(Abs(s), Written(key, outbound, ttl, expires), s.size)
  {
    var e := Fresh(s, key, outbound, ttl, expires);
    InsertsOver(s, key, outbound, ttl, expires, now);
    EvictItems(s, e);
    NoItem(s, key);
    PutFull(Abs(s), ItemOf(e), s.size);
  }

  lemma AppendItems(s: State, e: Entry)
    requires Sound(s)
    ensures Sound(Append(s, e)) && Abs(Append(s, e)) == [ItemOf(e)] + Abs(s)
  {
  }

  lemma FreeRefines(s: State, key: Key, outbound: nat, ttl: bool, expires: int, now: nat)
    requires Valid(s) && KeyOk(key) && SlotOf(s, key).None? && |s.slots| < s.size
    ensures Sound(Insert(s, key, outbound, ttl, expires, now).0)
    ensures Abs(Insert(s, key, outbound, ttl, expires, now).0) ==
            Put(Abs(s), Written(key, outbound, ttl, expires), s.size)
  {
    InsertsNew(s, key, outbound, ttl, expires, now);
    NoItem(s, key);
    ForgetAbsent(Abs(s), key);
    AppendItems(s, Fresh(s, key, outbound, ttl, expires));
  }

  /** An insert is a bounded write: present or not, full or not. */
  lemma InsertRefines(s: State, key: Key, outbound: nat, ttl: bool, expires: int, now: nat)
    requires Valid(s) && KeyOk(key) && 0 < s.size
    ensures Sound(Insert(s, key, outbound, ttl, expires, now).0)
    ensures Abs(Insert(s, key, outbound, ttl, expires, now).0) ==
            Put(Abs(s), Written(key, outbound, ttl, expires), s.size)
  {
    if SlotOf(s, key).Some? {
      FoundRefines(s, key, SlotOf(s, key).value, outbound, ttl, expires, now);
    } else if |s.slots| == s.size {
      FullRefines(s, key, outbound, ttl, expires, now);
    } else {
      FreeRefines(s, key, outbound, ttl, expires, now);
    }
  }

  /** An insert of an unknown key into a full cache loses the least recently used key and no other. */
  lemma FullInsertEvictsLast(s: State, key: Key, outbound: nat, ttl: bool, expires: int, now: nat, other: Key)
    requires Valid(s) && KeyOk(key) && SlotOf(s, key).None? && 0 < s.size == |s.slots| && KeyOk(other) && other != key
    ensures SlotOf(Insert(s, key, outbound, ttl, expires, now).0, other).Some? <==>
              SlotOf(s, other).Some? && other != Abs(s)[|s.lru| - 1].key
  {
    InsertsOver(s, key, outbound, ttl, expires, now);
    var u, i := Insert(s, key, outbound, ttl, expires, now).0, s.lru[|s.lru| - 1];
    if SlotOf(s, other).Some? && SlotOf(s, other).value != i {
      assert u.slots[SlotOf(s, other).value].key == other;
    }
    if SlotOf(u, other).Some? {
      assert s.slots[SlotOf(u, other).value].key == other;
    }
  }

  // ----- whole runs

  /** Renew is a refresh completion: it rewrites the key's slot, if the key is still there. */
  datatype Event =
    | Ask(key: Key)
    | Store(key: Key, outbound: nat, ttl: bool, expires: int, now: nat)
    | Renew(key: Key, outbound: nat, ttl: bool, expires: int, now: nat)

  function Step(s: State, e: Event): State
    requires InRange(s.slots, s.lru)
  {
    match e
    case Ask(key) => Lookup(s, key).0
    case Store(key, outbound, ttl, expires, now) => Insert(s, key, outbound, ttl, expires, now).0
    case Renew(key, outbound, ttl, expires, now) =>
      if SlotOf(s, key).Some? then Update(s, SlotOf(s, key).value, outbound, ttl, expires, now) else s
  }

  lemma StepKeeps(s: State, e: Event)
    requires Valid(s)
    ensures Valid(Step(s, e)) && Step(s, e).size == s.size
  {
    match e
    case Ask(key) => LookupKeeps(s, key);
    case Store(key, outbound, ttl, expires, now) => InsertKeeps(s, key, outbound, ttl, expires, now);
    case Renew(key, outbound, ttl, expires, now) =>
      if SlotOf(s, key).Some? { UpdateKeeps(s, SlotOf(s, key).value, outbound, ttl, expires, now); }
  }

  ghost function After(size: nat, events: seq<Event>): (s: State)
    ensures Valid(s) && s.size == size
  {
    if events == [] then Start(size)
    else
      var s := After(size, events[..|events| - 1]);
      StepKeeps(s, events[|events| - 1]);
      Step(s, events[|events| - 1])
  }

  function ForgetKey(used: seq<Key>, key: Key): seq<Key> {
    if used == [] then [] else if used[0] == key then used[1..] else [used[0]] + ForgetKey(used[1..], key)
  }

  /** Promotion of one use among all keys ever used, the most recent first; a miss is no use. */
  function Used(used: seq<Key>, size: nat, e: Event): seq<Key> {
    match e
    case Ask(key) => if key in Take(used, size) then [key] + ForgetKey(used, key) else used
    case Store(key, _, _, _, _) => if KeyOk(key) then [key] + ForgetKey(used, key) else used
    case Renew(_, _, _, _, _) => used
  }

  function Uses(size: nat, events: seq<Event>): seq<Key> {
    if events == [] then [] else Used(Uses(size, events[..|events| - 1]), size, events[|events| - 1])
  }

  /** The last answer written for a key. */
  function LastWrite(events: seq<Event>, key: Key): Option<Item> {
    if events == [] then None
    else
      var e := events[|events| - 1];
      if !e.Ask? && e.key == key then Some(Written(key, e.outbound, e.ttl, e.expires))
      else LastWrite(events[..|events| - 1], key)
  }

  function Keys(m: seq<Item>): (r: seq<Key>)
    ensures |r| == |m| && forall k :: 0 <= k < |m| ==> r[k] == m[k].key
  {
    seq(|m|, k requires 0 <= k < |m| => m[k].key)
  }

  lemma {:induction false} KeysForget(m: seq<Item>, key: Key)
    ensures Keys(Forget(m, key)) == ForgetKey(Keys(m), key)
  {
    if m != [] {
      assert Keys(m)[1..] == Keys(m[1..]);
      if m[0].key != key {
        KeysForget(m[1..], key);
        assert Keys([m[0]] + Forget(m[1..], key)) == [m[0].key] + Keys(Forget(m[1..], key));
      }
    }
  }

  lemma TakeFront(x: Key, rest: seq<Key>, n: nat)
    requires n > 0
    ensures Take([x] + rest, n) == [x] + Take(rest, n - 1)
  {
  }

  lemma ForgetKeyFront(x: Key, rest: seq<Key>, key: Key)
    ensures ForgetKey([x] + rest, key) == if x == key then rest else [x] + ForgetKey(rest, key)
  {
    assert ([x] + rest)[1..] == rest;
  }

  /** Taking a key out of the first n leaves the first n - 1 of what remains. */
  lemma {:induction false} ForgetInPrefix(used: seq<Key>, key: Key, n: nat)
    requires n > 0
    ensures Take(ForgetKey(Take(used, n), key), n - 1) == Take(ForgetKey(used, key), n - 1)
  {
    if used != [] {
      var x, rest := used[0], used[1..];
      assert used == [x] + rest;
      TakeFront(x, rest, n);
      ForgetKeyFront(x, rest, key);
      ForgetKeyFront(x, Take(rest, n - 1), key);
      if x != key && n > 1 {
        ForgetInPrefix(rest, key, n - 1);
        TakeFront(x, ForgetKey(rest, key), n - 1);
        TakeFront(x, ForgetKey(Take(rest, n - 1), key), n - 1);
      }
    }
  }

  lemma {:induction false} ForgetShorter(used: seq<Key>, key: Key)
    requires key in used
    ensures |ForgetKey(used, key)| == |used| - 1
  {
    if used[0] != key { ForgetShorter(used[1..], key); }
  }

  lemma PromotePrefix(used: seq<Key>, key: Key, n: nat)
    requires n > 0
    ensures Take([key] + ForgetKey(used, key), n) == Take([key] + ForgetKey(Take(used, n), key), n)
    ensures key in Take(used, n) ==> Take([key] + ForgetKey(used, key), n) == [key] + ForgetKey(Take(used, n), key)
  {
    ForgetInPrefix(used, key, n);
    TakeFront(key, ForgetKey(used, key), n);
    TakeFront(key, ForgetKey(Take(used, n), key), n);
    if key in Take(used, n) { ForgetShorter(Take(used, n), key); }
  }

  lemma {:induction false} FindByKeys(m: seq<Item>, key: Key)
    ensures Find(m, key).Some? <==> key in Keys(m)
  {
    if Find(m, key).Some? {
      var k :| 0 <= k < |m| && m[k] == Find(m, key).value;
      assert Keys(m)[k] == key;
    }
  }

  lemma AskKeys(s: State, key: Key, used: seq<Key>)
    requires Valid(s) && Keys(Abs(s)) == Take(used, s.size)
    ensures Sound(Lookup(s, key).0)
    ensures Keys(Abs(Lookup(s, key).0)) ==
            Take(if key in Take(used, s.size) then [key] + ForgetKey(used, key) else used, s.size)
  {
    LookupSound(s, key);
    if KeyOk(key) {
      LookupRefines(s, key);
      GetKeys(Abs(s), key);
      if key in Take(used, s.size) { PromotePrefix(used, key, s.size); }
    } else {
      BadKeyAbsent(s, key);
    }
  }

  lemma BadKeyAbsent(s: State, key: Key)
    requires Valid(s) && !KeyOk(key)
    ensures key !in Keys(Abs(s)) && Lookup(s, key).0 == s
  {
    assert forall k :: 0 <= k < |s.lru| ==> Abs(s)[k].key != key;
  }

  lemma RenewKeys(s: State, e: Event)
    requires Valid(s) && e.Renew?
    ensures Sound(Step(s, e)) && Keys(Abs(Step(s, e))) == Keys(Abs(s))
  {
    StepKeeps(s, e);
    var u := Step(s, e);
    assert forall i :: 0 <= i < |s.slots| ==> u.slots[i].key == s.slots[i].key;
  }

  lemma KeysStep(s: State, e: Event, used: seq<Key>)
    requires Valid(s) && s.size > 0 && Keys(Abs(s)) == Take(used, s.size)
    ensures Sound(Step(s, e)) && Keys(Abs(Step(s, e))) == Take(Used(used, s.size, e), s.size)
  {
    if e.Ask? {
      AskKeys(s, e.key, used);
    } else if e.Renew? {
      RenewKeys(s, e);
    } else if KeyOk(e.key) {
      StoreKeys(s, e, used);
    }
  }

  lemma KeysFront(item: Item, m: seq<Item>)
    ensures Keys([item] + m) == [item.key] + Keys(m)
  {
  }

  lemma PutKeys(m: seq<Item>, item: Item, n: nat)
    ensures Keys(Put(m, item, n)) == Take([item.key] + ForgetKey(Keys(m), item.key), n)
  {
    KeysForget(m, item.key);
    var full := [item] + Forget(m, item.key);
    KeysFront(item, Forget(m, item.key));
    assert Keys(Take(full, n)) == Take(Keys(full), n);
  }

  lemma GetKeys(m: seq<Item>, key: Key)
    ensures Keys(Get(m, key)) == if key in Keys(m) then [key] + ForgetKey(Keys(m), key) else Keys(m)
  {
    FindByKeys(m, key);
    KeysForget(m, key);
    if key in Keys(m) { KeysFront(Find(m, key).value, Forget(m, key)); }
  }

  lemma StoreKeys(s: State, e: Event, used: seq<Key>)
    requires Valid(s) && s.size > 0 && Keys(Abs(s)) == Take(used, s.size) && e.Store? && KeyOk(e.key)
    ensures Sound(Step(s, e)) && Keys(Abs(Step(s, e))) == Take([e.key] + ForgetKey(used, e.key), s.size)
  {
    InsertRefines(s, e.key, e.outbound, e.ttl, e.expires, e.now);
    PutKeys(Abs(s), Written(e.key, e.outbound, e.ttl, e.expires), s.size);
    PromotePrefix(used, e.key, s.size);
  }

  /** After any run the cache holds the `size` most recently used keys, in that order. */
  lemma {:induction false} HoldsMostRecentlyUsed(size: nat, events: seq<Event>)
    requires size > 0
    ensures Keys(Abs(After(size, events))) == Take(Uses(size, events), size)
  {
    if events != [] {
      var before := events[..|events| - 1];
      HoldsMostRecentlyUsed(size, before);
      KeysStep(After(size, before), events[|events| - 1], Uses(size, before));
    }
  }

  lemma StepSlot(s: State, e: Event, key: Key)
    requires Valid(s) && KeyOk(key) && SlotOf(Step(s, e), key).Some?
    ensures ItemOf(Step(s, e).slots[SlotOf(Step(s, e), key).value]) ==
              if !e.Ask? && e.key == key then Written(key, e.outbound, e.ttl, e.expires)
              else if SlotOf(s, key).Some? then ItemOf(s.slots[SlotOf(s, key).value]) else Written(key, 0, false, 0)
    ensures !(!e.Ask? && e.key == key) ==> SlotOf(s, key).Some?
  {
    StepKeeps(s, e);
    var u := Step(s, e);
    var j := SlotOf(u, key).value;
    if e.Ask? {
    } else if e.Renew? {
      if SlotOf(s, e.key).Some? {
        assert forall k :: 0 <= k < |s.slots| ==> u.slots[k].key == s.slots[k].key;
      }
    } else {
      StoreSlot(s, e, key);
    }
  }

  /** A slot after an insert is the one written, or it is as it was. */
  lemma InsertSlots(s: State, e: Event, j: nat)
    requires Valid(s) && e.Store? && j < |Step(s, e).slots|
    ensures var u := Step(s, e);
            if u.slots[j].key == e.key && KeyOk(e.key)
            then ItemOf(u.slots[j]) == Written(e.key, e.outbound, e.ttl, e.expires)
            else j < |s.slots| && u.slots[j] == s.slots[j]
  {
    if s.size == 0 || !KeyOk(e.key) {
    } else if SlotOf(s, e.key).Some? {
      InsertsFound(s, e.key, SlotOf(s, e.key).value, e.outbound, e.ttl, e.expires, e.now);
    } else if |s.slots| < s.size {
      InsertsNew(s, e.key, e.outbound, e.ttl, e.expires, e.now);
    } else {
      InsertsOver(s, e.key, e.outbound, e.ttl, e.expires, e.now);
    }
  }

  lemma StoreSlot(s: State, e: Event, key: Key)
    requires Valid(s) && KeyOk(key) && SlotOf(Step(s, e), key).Some? && e.Store?
    ensures var u := Step(s, e);
            && (e.key == key ==> ItemOf(u.slots[SlotOf(u, key).value]) == Written(key, e.outbound, e.ttl, e.expires))
            && (e.key != key ==> SlotOf(s, key).Some?
                                 && ItemOf(u.slots[SlotOf(u, key).value]) == ItemOf(s.slots[SlotOf(s, key).value]))
  {
    var j := SlotOf(Step(s, e), key).value;
    InsertSlots(s, e, j);
    if e.key != key { assert s.slots[j].key == key; }
  }

  /** After any run a key that is found answers what was last written for it. */
  lemma {:induction false} AnswersLastWrite(size: nat, events: seq<Event>, key: Key)
    requires KeyOk(key)
    ensures var s := After(size, events);
            SlotOf(s, key).Some? ==> LastWrite(events, key) == Some(ItemOf(s.slots[SlotOf(s, key).value]))
  {
    if events != [] {
      var before, e := events[..|events| - 1], events[|events| - 1];
      AnswersLastWrite(size, before, key);
      if SlotOf(After(size, events), key).Some? {
        StepSlot(After(size, before), e, key);
      }
    }
  }
}
