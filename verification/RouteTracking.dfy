/** Tracked sessions over whole runs: where they are linked, when they go stale, what recycling does to them. */
module RouteTracking {
  import opened Address
  import opened Bytes
  import Sorting
  import opened Routing
  import opened RouteState
  import opened RouteWorld
  import opened RouteRun
  import IpRules

  /** In every reachable state a session is linked exactly when one active queue holds it, that of its own entry. */
  lemma LinkedIffInOneQueue(conf: Conf, size: nat, ops: seq<Op>, sid: nat)
    ensures var s := Run(conf, size, ops).cache;
            (sid in s.sessions && s.sessions[sid].linked) <==>
              exists i :: 0 <= i < |s.slots| && sid in s.slots[i].active && s.sessions[sid].entry == Some(i)
                          && multiset(s.slots[i].active)[sid] == 1
                          && forall j :: 0 <= j < |s.slots| && sid in s.slots[j].active ==> j == i
  {
    var s := Run(conf, size, ops).cache;
    if sid in s.sessions && s.sessions[sid].linked {
      assert InItsQueue(s, sid);
      var i := s.sessions[sid].entry.value;
      Sorting.DistinctMultiplicity(s.slots[i].active, sid);
      forall j | 0 <= j < |s.slots| && sid in s.slots[j].active ensures j == i {
        assert LinkedTo(s, sid, j);
      }
    }
    if i :| 0 <= i < |s.slots| && sid in s.slots[i].active {
      assert LinkedTo(s, sid, i);
    }
  }

  /** Recycling a slot leaves no session linked to it. */
  lemma RecyclingUnlinks(s: State, key: Key, outbound: nat, ttl: bool, expires: int, now: nat)
    requires Valid(s) && KeyOk(key) && SlotOf(s, key).None? && 0 < s.size == |s.slots|
    ensures var u, i := Insert(s, key, outbound, ttl, expires, now).0, s.lru[|s.lru| - 1];
            && u.slots[i].key == key && u.slots[i].active == []
            && forall sid :: sid in u.sessions && u.sessions[sid].linked ==> u.sessions[sid].entry != Some(i)
  {
    InsertsOver(s, key, outbound, ttl, expires, now);
    EvictLinks(s, s.lru[|s.lru| - 1], Fresh(s, key, outbound, ttl, expires));
  }

  /** An update that changes the outbound makes stale exactly the entry's linked sessions on the old one. */
  lemma UpdateMarksStale(s: State, i: nat, outbound: nat, ttl: bool, expires: int, now: nat, sid: nat)
    requires Valid(s) && i < |s.slots| && sid in s.sessions
    ensures var u := Update(s, i, outbound, ttl, expires, now);
            && u.sessions[sid].linked == s.sessions[sid].linked
            && (u.sessions[sid].stale <==>
                  || s.sessions[sid].stale
                  || (s.sessions[sid].linked && s.sessions[sid].entry == Some(i)
                      && s.sessions[sid].tracked == Some(s.slots[i].outbound) && outbound != s.slots[i].outbound))
  {
    if sid in s.slots[i].active {
      assert LinkedTo(s, sid, i);
    } else if s.sessions[sid].linked {
      assert InItsQueue(s, sid);
    }
  }

  /** Stale while linked: a session either is stale or is not linked any more. */
  predicate StaleOrGone(s: State, sid: nat) {
    sid in s.sessions ==> s.sessions[sid].stale || !s.sessions[sid].linked
  }

  lemma InsertKeepsStale(s: State, key: Key, outbound: nat, ttl: bool, expires: int, now: nat, sid: nat)
    requires Valid(s) && StaleOrGone(s, sid)
    ensures StaleOrGone(Insert(s, key, outbound, ttl, expires, now).0, sid)
  {
    if s.size == 0 || !KeyOk(key) {
    } else if SlotOf(s, key).Some? {
      InsertsFound(s, key, SlotOf(s, key).value, outbound, ttl, expires, now);
    } else if |s.slots| < s.size {
      InsertsNew(s, key, outbound, ttl, expires, now);
    } else {
      InsertsOver(s, key, outbound, ttl, expires, now);
    }
  }

  lemma KeepKeepsStale(conf: Conf, w: World, t: Target, choice: Choice, expires: int, now: nat, sid: nat)
    requires Consistent(w) && StaleOrGone(w.cache, sid)
    ensures StaleOrGone(Keep(conf, w, t, choice, expires, now).0.cache, sid)
  {
    if choice.Chosen? { InsertKeepsStale(w.cache, KeyOf(t), choice.index, choice.ttl, expires, now, sid); }
  }

  lemma MissKeepsStale(conf: Conf, w: World, t: Target, system: seq<IpRules.Sock>, now: nat, sid: nat)
    requires Consistent(w) && StaleOrGone(w.cache, sid)
    ensures StaleOrGone(Miss(conf, w, t, system, now).0.cache, sid)
  {
    KeepKeepsStale(conf, w, t, Choose(conf, t, [], false), 0, now, sid);
    KeepKeepsStale(conf, w, t, Choose(conf, t, system, true), Seconds(now) + DEFAULT_TTL, now, sid);
  }

  lemma ServeKeepsStale(conf: Conf, w: World, raw: Target, system: seq<IpRules.Sock>, starts: bool, now: nat, sid: nat)
    requires Consistent(w) && StaleOrGone(w.cache, sid)
    ensures StaleOrGone(Serve(conf, w, raw, system, starts, now).0.cache, sid)
  {
    var t := Normalized(conf, raw);
    var (c, hit) := Lookup(w.cache, KeyOf(t));
    LookupConsistent(w, KeyOf(t));
    if !(hit.Some? && (!Expired(c.slots[hit.value], now) || conf.nginx)) {
      MissKeepsStale(conf, w.(cache := c), t, system, now, sid);
    }
  }

  lemma TrackKeepsStale(s: State, other: nat, i: nat, outbound: nat, now: nat, sid: nat)
    requires i < |s.slots| && sid != other && StaleOrGone(s, sid)
    ensures StaleOrGone(Track(s, other, i, outbound, now), sid)
  {
  }

  lemma NextKeepsStale(conf: Conf, w: World, op: Op, sid: nat)
    requires Consistent(w) && StaleOrGone(w.cache, sid) && !(op.Tracked? && op.sid == sid)
    ensures StaleOrGone(Next(conf, w, op).0.cache, sid)
  {
    match op
    case Request(target, system, starts, now) => ServeKeepsStale(conf, w, target, system, starts, now, sid);
    case Resolved(j, addrs, valid, now) =>
      if j < |w.waiting| {
        var t := w.waiting[j];
        KeepKeepsStale(conf, w.(waiting := Removed(w.waiting, j)), t, Choose(conf, t, addrs, true),
          ValidTime(valid, now), now, sid);
      }
    case Completed(_, _, _, _) =>
    case Tracked(other, entry, outbound, now) =>
      if entry < |w.cache.slots| { TrackKeepsStale(w.cache, other, entry, outbound, now, sid); }
    case Untracked(other) =>
  }

  /** Once stale a session stays so while it is linked, over any run that does not track it anew. */
  lemma {:induction false} StaysStale(conf: Conf, w: World, ops: seq<Op>, sid: nat)
    requires Consistent(w) && StaleOrGone(w.cache, sid)
    requires forall k :: 0 <= k < |ops| ==> !(ops[k].Tracked? && ops[k].sid == sid)
    ensures StaleOrGone(Reached(conf, w, ops).cache, sid)
    decreases |ops|
  {
    if ops != [] {
      NextKeeps(conf, w, ops[0]);
      NextKeepsStale(conf, w, ops[0], sid);
      StaysStale(conf, Next(conf, w, ops[0]).0, ops[1..], sid);
    }
  }
}
