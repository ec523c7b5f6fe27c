/** The route cache itself: an array of entries, hash chains through it, a recency queue, active queues. */
module RouteCache {
  import opened Address
  import opened Bytes
  import opened Sorting
  import opened Routing
  import opened RouteState
  import opened RouteChains

  function Infos(nodes: seq<Node>, n: nat): (r: seq<Entry>)
    requires n <= |nodes|
    ensures |r| == n && forall i :: 0 <= i < n ==> r[i] == nodes[i].info
  {
    seq(n, i requires 0 <= i < n => nodes[i].info)
  }

  ghost function Below(n: nat): (r: set<nat>)
    ensures forall x: nat :: x in r <==> x < n
  {
    if n == 0 then {} else Below(n - 1) + {n - 1}
  }

  lemma SlotFromIs(slots: seq<Entry>, key: Key, i: nat, x: nat)
    requires i <= x < |slots| && slots[x].key == key
    requires forall a, b :: 0 <= a < b < |slots| ==> slots[a].key != slots[b].key
    ensures SlotFrom(slots, key, i) == Some(x)
  {
  }

  lemma InfosChanged(nodes: seq<Node>, nodes': seq<Node>, n: nat, i: nat, info: Entry)
    requires i < n <= |nodes| == |nodes'|
    requires forall j :: 0 <= j < |nodes| ==> nodes'[j].info == if j == i then info else nodes[j].info
    ensures Infos(nodes', n) == Infos(nodes, n)[i := info]
  {
  }

  lemma InfosGrown(nodes: seq<Node>, nodes': seq<Node>, n: nat, info: Entry)
    requires n < |nodes| == |nodes'|
    requires forall j :: 0 <= j < |nodes| ==> nodes'[j].info == if j == n then info else nodes[j].info
    ensures Infos(nodes', n + 1) == Infos(nodes, n) + [info]
  {
  }

  class Cache {
    const size: nat
    /** The hash of a folded key, as HashTarget computes it. */
    const keyHash: Key -> nat
    const bucketOf: Spread
    var nextFree: nat
    var generation: nat
    var lru: seq<nat>
    const buckets: array<int>
    const entries: array<Node>
    var sessions: map<nat, Session>
    ghost var chains: seq<seq<nat>>

    function State(): RouteState.State
      requires nextFree <= entries.Length
      reads this`nextFree, this`lru, this`generation, this`sessions, entries
    {
      RouteState.State(size, Infos(entries[..], nextFree), lru, generation, sessions)
    }

    /** The chains hold exactly the given slots; members carry the hash of their key. */
    ghost predicate Linked(member: set<nat>)
      reads this`chains, entries, buckets
    {
      && entries.Length == size > 0
      && Shape(bucketOf, entries[..], buckets[..], chains, member)
      && forall x :: x in member ==> x < entries.Length && entries[x].hash == keyHash(entries[x].info.key)
    }

    ghost predicate Valid()
      reads this, entries, buckets
    {
      nextFree <= size && Linked(Below(nextFree)) && RouteState.Valid(State())
    }

    constructor (size: nat, keyHash: Key -> nat)
      requires size > 0
      ensures Valid() && State() == Start(size)
      ensures fresh(entries) && fresh(buckets)
    {
      var n := 1;
      while n < size * 2
        invariant n > 0
        decreases size * 2 - n
      {
        n := n * 2;
      }
      this.size := size;
      this.keyHash := keyHash;
      bucketOf := (h: nat) => LowBits(h, n);
      nextFree, generation, lru, sessions := 0, 0, [], map[];
      entries := new Node[size](_ => Node(Entry(Key(0, 0, []), 0, false, 0, false, 0, []), 0, NULL));
      buckets := new int[n](_ => NULL);
      chains := seq(n, _ => []);
      new;
      assert State().slots == [];
    }

    /** Walks one chain for the target's key. */
    method Walk(t: Target, hash: nat, ghost member: set<nat>) returns (x: int)
      requires Linked(member) && hash == keyHash(KeyOf(t))
      ensures x != NULL ==> 0 <= x < entries.Length && x in member && entries[x].info.key == KeyOf(t)
      ensures x == NULL ==> NoneBefore(entries[..], chains[bucketOf(hash)], |chains[bucketOf(hash)]|, KeyOf(t))
    {
      var bucket := bucketOf(hash);
      ghost var chain, nodes, k := chains[bucket], entries[..], 0;
      x := buckets[bucket];
      ChainHead(bucketOf, nodes, buckets[..], chains, member, bucket);
      while x != NULL
        invariant 0 <= k <= |chain| && x == At(chain, k)
        invariant NoneBefore(nodes, chain, k, KeyOf(t))
        decreases |chain| - k
      {
        ChainMember(bucketOf, nodes, buckets[..], chains, member, bucket, k);
        assert entries[x] == nodes[chain[k]];
        SameKeyIsKey(entries[x].info.key, t);
        if entries[x].hash == hash && SameKey(entries[x].info.key, t) {
          return;
        }
        x := entries[x].next;
        k := k + 1;
      }
    }

    /** The chain walk decides whether any entry has the key. */
    method Search(t: Target) returns (x: int)
      requires nextFree <= size && Linked(Below(nextFree)) && Keyed(State())
      ensures KeyOk(KeyOf(t)) ==> x == match SlotOf(State(), KeyOf(t)) case Some(i) => i case None => NULL
    {
      var hash := keyHash(KeyOf(t));
      x := Walk(t, hash, Below(nextFree));
      if x != NULL {
        SlotFromIs(State().slots, KeyOf(t), 0, x);
      } else {
        forall i | 0 <= i < nextFree ensures State().slots[i].key != KeyOf(t) {
          assert i in Below(nextFree);
          if entries[i].hash == hash {
            OnlyInItsChain(bucketOf, entries[..], buckets[..], chains, Below(nextFree), i, KeyOf(t));
          }
        }
      }
    }

    method Lookup(t: Target) returns (r: Option<nat>)
      requires Valid()
      modifies this`lru
      ensures Valid()
      ensures (State(), r) == RouteState.Lookup(old(State()), KeyOf(t))
    {
      hide Shape;
      if |t.host| == 0 || |t.host| > 255 {
        return None;
      }
      var x := Search(t);
      if x == NULL {
        return None;
      }
      LookupKeeps(State(), KeyOf(t));
      lru := Touch(lru, x);
      r := Some(x);
    }

    /** What a slot's active queue must offer the queue loops. */
    ghost predicate QueueOk(i: nat)
      requires i < entries.Length
      reads this`sessions, entries
    {
      Distinct(entries[i].info.active) && forall sid :: sid in entries[i].info.active ==> sid in sessions
    }

    /** Pops the active queue; each session forgets its entry. */
    method UnlinkActive(i: nat)
      requires i < nextFree <= entries.Length
      requires QueueOk(i)
      modifies this`sessions, entries
      ensures sessions == UnlinkAll(old(sessions), old(entries[i].info.active))
      ensures entries[..] == old(entries[..])[i := old(entries[i]).(info := old(entries[i].info).(active := []))]
    {
      ghost var active := entries[i].info.active;
      ghost var n := 0;
      while entries[i].info.active != []
        invariant 0 <= n <= |active| && entries[i].info.active == active[n..]
        invariant entries[i] == old(entries[i]).(info := old(entries[i].info).(active := active[n..]))
        invariant forall k :: 0 <= k < entries.Length && k != i ==> entries[k] == old(entries[k])
        invariant sessions == UnlinkAll(old(sessions), active[..n])
        decreases |active| - n
      {
        var sid := entries[i].info.active[0];
        assert sid == active[n] && sid !in active[..n] && sid in active;
        assert active[..n + 1] == active[..n] + [sid];
        assert active[n..][1..] == active[n + 1..];
        entries[i] := entries[i].(info := entries[i].info.(active := entries[i].info.active[1..]));
        sessions := sessions[sid := Unlink(sessions[sid])];
        n := n + 1;
      }
      assert active[..n] == active && active[n..] == [];
    }

    method MarkQueueStale(i: nat, outbound: nat, now: nat)
      requires i < nextFree <= entries.Length
      requires QueueOk(i)
      modifies this`sessions
      ensures sessions == MarkStale(old(sessions), entries[i].info.active, outbound, now)
    {
      var active := entries[i].info.active;
      for n := 0 to |active|
        invariant sessions == MarkStale(old(sessions), active[..n], outbound, now)
      {
        var sid := active[n];
        assert sid !in active[..n] && sid in active;
        assert active[..n + 1] == active[..n] + [sid];
        if sessions[sid].tracked == Some(outbound) {
          sessions := sessions[sid := sessions[sid].(stale := true, lastActive := now)];
        }
      }
      assert active[..|active|] == active;
    }

    lemma QueueIsOk(i: nat)
      requires Valid() && i < nextFree
      ensures QueueOk(i)
    {
      assert State().slots[i] == entries[i].info;
      assert forall sid :: sid in entries[i].info.active ==> LinkedTo(State(), sid, i);
    }

    /** A new answer under the next generation number; sessions tracked on the old outbound go stale. */
    method WriteUpdate(i: nat, outbound: nat, ttl: bool, expires: int, now: nat)
      requires i < nextFree <= entries.Length && QueueOk(i)
      modifies this`sessions, this`generation, entries
      ensures State() == Update(old(State()), i, outbound, ttl, expires, now)
      ensures entries[..] == old(entries[..])[i := old(entries[i]).(info := State().slots[i])]
    {
      hide Shape;
      var info := entries[i].info;
      if info.outbound != outbound {
        MarkQueueStale(i, info.outbound, now);
      }
      generation := generation + 1;
      entries[i] := entries[i].(info := info.(outbound := outbound, ttl := ttl, expires := if ttl then expires else 0,
                                              refreshing := false, generation := generation));
    }

    method UpdateEntry(i: nat, outbound: nat, ttl: bool, expires: int, now: nat)
      requires Valid() && i < |State().slots|
      modifies this`sessions, this`generation, entries
      ensures Valid() && State() == Update(old(State()), i, outbound, ttl, expires, now)
    {
      hide Shape;
      QueueIsOk(i);
      UpdateKeeps(State(), i, outbound, ttl, expires, now);
      PayloadKeepsShape(bucketOf, entries[..], buckets[..], chains, Below(nextFree), i,
                        Update(State(), i, outbound, ttl, expires, now).slots[i]);
      WriteUpdate(i, outbound, ttl, expires, now);
    }

    /** The pointer-to-link loop that takes an entry out of its bucket's chain. */
    method Unchain(i: nat, ghost member: set<nat>)
      requires Linked(member) && i in member
      modifies this`chains, entries, buckets
      ensures Linked(member - {i})
      ensures forall j :: 0 <= j < entries.Length ==>
                entries[j].info == old(entries[j].info) && entries[j].hash == old(entries[j].hash)
    {
      var b := bucketOf(entries[i].hash);
      ghost var chain := chains[b];
      ghost var k := 0;
      var prev, cur := NULL, buckets[b];
      while cur != NULL && cur != i
        invariant 0 <= k < |chain| && cur == chain[k] && i !in chain[..k]
        invariant prev == if k == 0 then NULL else chain[k - 1]
        decreases |chain| - k
      {
        assert i in chain && chain[..k + 1] == chain[..k] + [chain[k]];
        prev := cur;
        cur := entries[cur].next;
        k := k + 1;
        assert chain[..|chain|] == chain;
      }
      ghost var nodes := entries[..];
      if prev == NULL {
        RemoveFirst(bucketOf, entries[..], buckets[..], chains, member, b);
        ghost var heads := buckets[..][b := entries[i].next];
        buckets[b] := entries[i].next;
        assert entries[..] == nodes && buckets[..] == heads;
      } else {
        RemoveInner(bucketOf, entries[..], buckets[..], chains, member, b, k);
        ghost var relinked, heads := entries[..][prev := entries[prev].(next := entries[i].next)], buckets[..];
        entries[prev] := entries[prev].(next := entries[i].next);
        assert entries[..] == relinked && buckets[..] == heads;
      }
      chains := chains[b := Removed(chain, k)];
    }

    /** Fills a free slot and puts it in front of its bucket's chain. */
    method Fill(i: nat, info: Entry, hash: nat, ghost member: set<nat>, ghost after: set<nat>)
      requires Linked(member) && i < entries.Length && i !in member && hash == keyHash(info.key)
      requires after == member + {i}
      modifies this`chains, entries, buckets
      ensures Linked(after)
      ensures forall j :: 0 <= j < entries.Length ==> entries[j].info == if j == i then info else old(entries[j].info)
    {
      var b := bucketOf(hash);
      var node := Node(info, hash, buckets[b]);
      PrependShape(bucketOf, entries[..], buckets[..], chains, member, i, node);
      ghost var nodes, heads := entries[..][i := node], buckets[..][b := i];
      entries[i] := node;
      buckets[b] := i;
      assert entries[..] == nodes && buckets[..] == heads;
      chains := chains[b := [i] + chains[b]];
    }

    /** A slot never used before. */
    method FillNext(info: Entry, hash: nat)
      requires nextFree < size && Linked(Below(nextFree)) && hash == keyHash(info.key)
      modifies this`chains, entries, buckets
      ensures Linked(Below(nextFree + 1))
      ensures Infos(entries[..], nextFree + 1) == Infos(old(entries[..]), nextFree) + [info]
    {
      hide Shape;
      ghost var nodes := entries[..];
      Fill(nextFree, info, hash, Below(nextFree), Below(nextFree + 1));
      InfosGrown(nodes, entries[..], nextFree, info);
    }

    method AppendEntry(info: Entry, hash: nat)
      requires nextFree < size && Linked(Below(nextFree)) && hash == keyHash(info.key)
      modifies this`chains, this`nextFree, this`lru, this`generation, entries, buckets
      ensures nextFree <= size && Linked(Below(nextFree)) && State() == Append(old(State()), info)
    {
      hide Shape;
      FillNext(info, hash);
      lru := [nextFree] + lru;
      nextFree := nextFree + 1;
      generation := generation + 1;
    }

    /** The victim lets go of its sessions, turns most recent, and leaves its chain. */
    method Recycle(i: nat, ghost member: set<nat>)
      requires Linked(member) && lru != [] && i == lru[|lru| - 1] && i in member && i < nextFree <= size && QueueOk(i)
      modifies this`chains, this`lru, this`generation, this`sessions, entries, buckets
      ensures Linked(member - {i})
      ensures forall j :: 0 <= j < entries.Length && j != i ==> entries[j].info == old(entries[j].info)
      ensures sessions == UnlinkAll(old(sessions), old(entries[i].info.active))
      ensures lru == [i] + old(lru)[..|old(lru)| - 1] && generation == old(generation) + 1
    {
      hide Shape;
      PayloadKeepsShape(bucketOf, entries[..], buckets[..], chains, member, i, entries[i].info.(active := []));
      UnlinkActive(i);
      lru := [i] + lru[..|lru| - 1];
      generation := generation + 1;
      Unchain(i, member);
    }

    /** The least recently used slot, recycled. */
    method EvictEntry(i: nat, info: Entry, hash: nat)
      requires nextFree <= size && Linked(Below(nextFree)) && lru != [] && i == lru[|lru| - 1] && i < nextFree
               && QueueOk(i)
      requires hash == keyHash(info.key)
      modifies this`chains, this`lru, this`generation, this`sessions, entries, buckets
      ensures nextFree <= size && Linked(Below(nextFree))
      ensures State() == Evict(old(State()), i, info)
    {
      hide Shape;
      ghost var nodes := entries[..];
      assert State().slots[i] == entries[i].info;
      Recycle(i, Below(nextFree));
      Fill(i, info, hash, Below(nextFree) - {i}, Below(nextFree));
      InfosChanged(nodes, entries[..], nextFree, i, info);
    }

    /** The key is there: a new answer, and most recent. */
    method InsertFound(x: nat, t: Target, outbound: nat, ttl: bool, expires: int, now: nat)
      requires x < nextFree <= size && Linked(Below(nextFree)) && QueueOk(x)
      requires KeyOk(KeyOf(t)) && SlotOf(State(), KeyOf(t)) == Some(x)
      requires forall k :: 0 <= k < |lru| ==> lru[k] < nextFree
      modifies this`lru, this`generation, this`sessions, entries
      ensures Linked(Below(nextFree))
      ensures (State(), Some(x)) == RouteState.Insert(old(State()), KeyOf(t), outbound, ttl, expires, now)
    {
      hide Shape;
      InsertsFound(State(), KeyOf(t), x, outbound, ttl, expires, now);
      ghost var next := Update(State(), x, outbound, ttl, expires, now).slots[x];
      PayloadKeepsShape(bucketOf, entries[..], buckets[..], chains, Below(nextFree), x, next);
      lru := Touch(lru, x);
      WriteUpdate(x, outbound, ttl, expires, now);
      assert entries[x].info == next;
    }

    /** A slot is still free. */
    method InsertFree(t: Target, outbound: nat, ttl: bool, expires: int, now: nat)
      requires nextFree < size && Linked(Below(nextFree)) && forall k :: 0 <= k < |lru| ==> lru[k] < nextFree
      requires KeyOk(KeyOf(t)) && SlotOf(State(), KeyOf(t)).None?
      modifies this`chains, this`nextFree, this`lru, this`generation, entries, buckets
      ensures nextFree <= size && Linked(Below(nextFree))
      ensures (State(), Some(old(nextFree))) == RouteState.Insert(old(State()), KeyOf(t), outbound, ttl, expires, now)
    {
      hide Shape;
      InsertsNew(State(), KeyOf(t), outbound, ttl, expires, now);
      var info := Entry(KeyOf(t), outbound, ttl, if ttl then expires else 0, false, generation + 1, []);
      assert info == Fresh(State(), KeyOf(t), outbound, ttl, expires);
      AppendEntry(info, keyHash(KeyOf(t)));
    }

    /** All slots are used. */
    method InsertFull(i: nat, t: Target, outbound: nat, ttl: bool, expires: int, now: nat)
      requires nextFree == size && Linked(Below(nextFree)) && forall k :: 0 <= k < |lru| ==> lru[k] < nextFree
      requires KeyOk(KeyOf(t)) && SlotOf(State(), KeyOf(t)).None?
      requires lru != [] && i == lru[|lru| - 1] && QueueOk(i)
      modifies this`chains, this`lru, this`generation, this`sessions, entries, buckets
      ensures Linked(Below(nextFree))
      ensures (State(), Some(i)) == RouteState.Insert(old(State()), KeyOf(t), outbound, ttl, expires, now)
    {
      hide Shape;
      InsertsOver(State(), KeyOf(t), outbound, ttl, expires, now);
      var info := Entry(KeyOf(t), outbound, ttl, if ttl then expires else 0, false, generation + 1, []);
      assert info == Fresh(State(), KeyOf(t), outbound, ttl, expires);
      EvictEntry(i, info, keyHash(KeyOf(t)));
    }

    method InsertEntry(t: Target, outbound: nat, ttl: bool, expires: int, now: nat) returns (r: Option<nat>)
      requires nextFree <= size && Linked(Below(nextFree)) && Keyed(State())
      requires |lru| == nextFree && forall k :: 0 <= k < |lru| ==> lru[k] < nextFree
      requires forall i :: 0 <= i < nextFree ==> QueueOk(i)
      modifies this`chains, this`nextFree, this`lru, this`generation, this`sessions, entries, buckets
      ensures nextFree <= size && Linked(Below(nextFree))
      ensures (State(), r) == RouteState.Insert(old(State()), KeyOf(t), outbound, ttl, expires, now)
    {
      hide Shape;
      if |t.host| == 0 || |t.host| > 255 {
        return None;
      }
      var x := Search(t);
      if x != NULL {
        InsertFound(x, t, outbound, ttl, expires, now);
        r := Some(x);
      } else if nextFree < size {
        r := Some(nextFree);
        InsertFree(t, outbound, ttl, expires, now);
      } else {
        r := Some(lru[|lru| - 1]);
        InsertFull(lru[|lru| - 1], t, outbound, ttl, expires, now);
      }
    }

    method Insert(t: Target, outbound: nat, ttl: bool, expires: int, now: nat) returns (r: Option<nat>)
      requires Valid()
      modifies this`chains, this`nextFree, this`lru, this`generation, this`sessions, entries, buckets
      ensures Valid()
      ensures (State(), r) == RouteState.Insert(old(State()), KeyOf(t), outbound, ttl, expires, now)
    {
      hide Shape;
      InsertKeeps(State(), KeyOf(t), outbound, ttl, expires, now);
      forall i | 0 <= i < nextFree ensures QueueOk(i) { QueueIsOk(i); }
      r := InsertEntry(t, outbound, ttl, expires, now);
    }

    method Peek(i: nat) returns (e: Entry)
      requires Valid() && i < |State().slots|
      ensures e == State().slots[i]
    {
      e := entries[i].info;
    }

    method WriteInfo(i: nat, info: Entry)
      requires i < nextFree <= size && Linked(Below(nextFree)) && info.key == entries[i].info.key
      modifies entries
      ensures Linked(Below(nextFree))
      ensures Infos(entries[..], nextFree) == Infos(old(entries[..]), nextFree)[i := info]
    {
      hide Shape;
      ghost var nodes := entries[..];
      PayloadKeepsShape(bucketOf, nodes, buckets[..], chains, Below(nextFree), i, info);
      entries[i] := entries[i].(info := info);
      assert entries[..] == nodes[i := nodes[i].(info := info)];
      InfosChanged(nodes, entries[..], nextFree, i, info);
    }

    method MarkRefreshing(i: nat, flag: bool)
      requires Valid() && i < |State().slots|
      modifies entries
      ensures Valid() && State() == SetRefreshing(old(State()), i, flag)
    {
      hide Shape;
      SetRefreshingKeeps(State(), i, flag);
      assert State().slots[i] == entries[i].info;
      WriteInfo(i, entries[i].info.(refreshing := flag));
    }

    method Unqueue(sid: nat, i: nat)
      requires i < nextFree <= size && Linked(Below(nextFree))
      requires sid in sessions && sessions[sid].linked && sessions[sid].entry == Some(i)
      modifies this`sessions, entries
      ensures Linked(Below(nextFree)) && State() == Untrack(old(State()), sid)
    {
      hide Shape;
      UntrackIs(State(), sid, i);
      assert State().slots[i] == entries[i].info;
      sessions := sessions[sid := sessions[sid].(linked := false, stale := false, entry := None, tracked := None)];
      WriteInfo(i, entries[i].info.(active := Without(entries[i].info.active, sid)));
    }

    method UntrackTcp(sid: nat)
      requires Valid()
      modifies this`sessions, entries
      ensures Valid() && State() == Untrack(old(State()), sid)
    {
      hide Shape;
      UntrackKeeps(State(), sid);
      if sid in sessions && sessions[sid].linked {
        assert InItsQueue(State(), sid);
        Unqueue(sid, sessions[sid].entry.value);
      }
    }

    /** The tail of tracking, once the session is on no queue. */
    method Enqueue(sid: nat, i: nat, outbound: nat, now: nat)
      requires i < nextFree <= size && Linked(Below(nextFree))
      modifies this`sessions, entries
      ensures Linked(Below(nextFree))
      ensures Infos(entries[..], nextFree) == Infos(old(entries[..]), nextFree)[i := Queued(old(entries[i]).info, sid)]
      ensures sessions == old(sessions)[sid := Session(true, false, Some(i), Some(outbound), now)]
    {
      hide Shape;
      sessions := sessions[sid := Session(true, false, Some(i), Some(outbound), now)];
      WriteInfo(i, entries[i].info.(active := entries[i].info.active + [sid]));
    }

    method Retrack(sid: nat, i: nat, outbound: nat, now: nat)
      requires i < nextFree <= size && Linked(Below(nextFree)) && entries[i].info.ttl
      requires sid in sessions && sessions[sid].linked ==>
               sessions[sid].entry.Some? && sessions[sid].entry.value < nextFree
      modifies this`sessions, entries
      ensures Linked(Below(nextFree)) && State() == Track(old(State()), sid, i, outbound, now)
    {
      hide Shape;
      assert State().slots[i] == entries[i].info;
      TrackIs(State(), sid, i, outbound, now);
      if sid in sessions && sessions[sid].linked {
        Unqueue(sid, sessions[sid].entry.value);
      }
      assert State().slots[i] == entries[i].info;
      Enqueue(sid, i, outbound, now);
    }

    /** Tracking needs fast draining, an entry with a ttl and a chosen outbound. */
    method TrackTcp(sid: nat, entry: Option<nat>, outbound: Option<nat>, fastDrain: bool, now: nat)
      requires Valid() && (entry.Some? ==> entry.value < nextFree)
      modifies this`sessions, entries
      ensures Valid()
      ensures State() == if fastDrain && entry.Some? && outbound.Some?
                         then Track(old(State()), sid, entry.value, outbound.value, now) else old(State())
    {
      hide Shape;
      if !fastDrain || entry.None? || outbound.None? {
        return;
      }
      var i := entry.value;
      assert State().slots[i] == entries[i].info;
      TrackKeeps(State(), sid, i, outbound.value, now);
      if entries[i].info.ttl {
        assert sid in sessions && sessions[sid].linked ==> InItsQueue(State(), sid);
        Retrack(sid, i, outbound.value, now);
      }
    }
  }
}
