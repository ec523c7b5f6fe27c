/** Routed requests over the cache: hits, misses, delayed refreshes and waiting resolutions, as steps. */
module RouteWorld {
  import opened Address
  import opened Bytes
  import opened Routing
  import opened RouteState
  import opened RouteLru
  import IpRules

  datatype Mode = Off | Literal | Lazy

  /** `nginx`: a resolver is configured. `literal`: what parsing a host as an address literal yields. */
  datatype Conf = Conf(outs: seq<Outbound>, mode: Mode, enabled: bool, nginx: bool, fastDrain: bool,
    literal: Target -> Target)

  const DEFAULT_TTL := 60

  /** A refresh on its way, with the slot's generation when it began. */
  datatype Refresh = Refresh(slot: nat, generation: nat, target: Target)

  datatype World = World(cache: State, pending: seq<Refresh>, waiting: seq<Target>)

  datatype Reply = Routed(outbound: nat, entry: Option<nat>) | Unrouted | Waiting

  function Seconds(now: nat): nat { now / 1000 }

  function Normalized(conf: Conf, t: Target): Target {
    if conf.mode.Off? || t.kind != DOMAIN then t else conf.literal(t)
  }

  function ValidTime(valid: int, now: nat): int {
    if valid > Seconds(now) then valid else Seconds(now) + DEFAULT_TTL
  }

  function Choose(conf: Conf, t: Target, addrs: seq<IpRules.Sock>, lazyUsed: bool): Choice {
    Select(conf.outs, conf.mode.Lazy?, t, addrs, lazyUsed)
  }

  // ----- steps

  predicate Expired(e: Entry, now: nat) { e.ttl && e.expires <= Seconds(now) }

  /** Remembers the choice, unless there is none. */
  function Keep(conf: Conf, w: World, t: Target, choice: Choice, expires: int, now: nat): (World, Reply)
    requires Sound(w.cache)
  {
    if choice.Chosen? then
      var (c, i) := Insert(w.cache, KeyOf(t), choice.index, choice.ttl, expires, now);
      (World(c, w.pending, w.waiting), Routed(choice.index, i))
    else (w, Unrouted)
  }

  function Miss(conf: Conf, w: World, t: Target, system: seq<IpRules.Sock>, now: nat): (World, Reply)
    requires Sound(w.cache)
  {
    var choice := Choose(conf, t, [], false);
    if choice != NeedsResolve then Keep(conf, w, t, choice, 0, now)
    else if conf.nginx then (World(w.cache, w.pending, w.waiting + [t]), Waiting)
    else Keep(conf, w, t, Choose(conf, t, system, true), Seconds(now) + DEFAULT_TTL, now)
  }

  predicate MayRefresh(conf: Conf, e: Entry, t: Target) {
    !e.refreshing && t.kind == DOMAIN && 1 <= |t.host| <= 255 && conf.nginx
  }

  /** `starts` is false when the resolver declines the query. */
  function StartRefresh(conf: Conf, w: World, i: nat, t: Target, starts: bool): World
    requires i < |w.cache.slots|
  {
    if MayRefresh(conf, w.cache.slots[i], t) && starts then
      World(SetRefreshing(w.cache, i, true), w.pending + [Refresh(i, w.cache.slots[i].generation, t)], w.waiting)
    else w
  }

  function Serve(conf: Conf, w: World, raw: Target, system: seq<IpRules.Sock>, starts: bool, now: nat): (World, Reply)
    requires Sound(w.cache)
  {
    if conf.outs == [] then (w, Unrouted)
    else if !conf.enabled then (w, Routed(0, None))
    else
      var t := Normalized(conf, raw);
      var (c, hit) := Lookup(w.cache, KeyOf(t));
      if hit.Some? && !Expired(c.slots[hit.value], now) then
        (World(c, w.pending, w.waiting), Routed(c.slots[hit.value].outbound, hit))
      else if hit.Some? && conf.nginx then
        (StartRefresh(conf, World(c, w.pending, w.waiting), hit.value, t, starts),
          Routed(c.slots[hit.value].outbound, hit))
      else if Sound(c) then Miss(conf, World(c, w.pending, w.waiting), t, system, now)
      else (w, Unrouted)
  }

  /** A resolver answer for a waiting request. */
  function Resolve(conf: Conf, w: World, j: nat, addrs: seq<IpRules.Sock>, valid: int, now: nat): (World, Reply)
    requires Sound(w.cache) && j < |w.waiting|
  {
    var t := w.waiting[j];
    Keep(conf, World(w.cache, w.pending, Removed(w.waiting, j)), t, Choose(conf, t, addrs, true),
      ValidTime(valid, now), now)
  }

  predicate Current(s: State, p: Refresh) {
    p.slot < |s.slots| && s.slots[p.slot].generation == p.generation
  }

  /** A refresh completes; no addresses stand for a failed one. Only a current refresh writes. */
  function Complete(conf: Conf, w: World, j: nat, addrs: seq<IpRules.Sock>, valid: int, now: nat): World
    requires j < |w.pending|
  {
    var p := w.pending[j];
    var rest := Removed(w.pending, j);
    if !Current(w.cache, p) then World(w.cache, rest, w.waiting)
    else
      var c := SetRefreshing(w.cache, p.slot, false);
      var choice := Choose(conf, p.target, addrs, true);
      if addrs != [] && choice.Chosen? then
        World(Update(c, p.slot, choice.index, choice.ttl, ValidTime(valid, now), now), rest, w.waiting)
      else World(c, rest, w.waiting)
  }

  datatype Op =
    | Request(target: Target, system: seq<IpRules.Sock>, starts: bool, now: nat)
    | Resolved(j: nat, addrs: seq<IpRules.Sock>, valid: int, now: nat)
    | Completed(j: nat, addrs: seq<IpRules.Sock>, valid: int, now: nat)
    | Tracked(sid: nat, entry: nat, outbound: nat, now: nat)
    | Untracked(sid: nat)

  function Next(conf: Conf, w: World, op: Op): (World, Option<Reply>)
    requires Sound(w.cache)
  {
    match op
    case Request(target, system, starts, now) =>
      var (u, r) := Serve(conf, w, target, system, starts, now); (u, Some(r))
    case Resolved(j, addrs, valid, now) =>
      if j < |w.waiting| then var (u, r) := Resolve(conf, w, j, addrs, valid, now); (u, Some(r)) else (w, None)
    case Completed(j, addrs, valid, now) =>
      (if j < |w.pending| then Complete(conf, w, j, addrs, valid, now) else w, None)
    case Tracked(sid, entry, outbound, now) =>
      (if conf.fastDrain && conf.mode.Lazy? && entry < |w.cache.slots|
       then w.(cache := Track(w.cache, sid, entry, outbound, now)) else w, None)
    case Untracked(sid) => (w.(cache := Untrack(w.cache, sid)), None)
  }

  // ----- how a step may change the slots

  predicate Same(a: Entry, b: Entry) {
    ItemOf(a) == ItemOf(b) && a.generation == b.generation && a.refreshing == b.refreshing
  }

  /** Every slot is as it was, or was rewritten under a new generation number. */
  ghost predicate Moves(s: State, u: State) {
    && u.size == s.size && |s.slots| <= |u.slots| && s.generation <= u.generation
    && (forall i :: 0 <= i < |s.slots| ==> Same(s.slots[i], u.slots[i]) || Rewritten(s, u, i))
    && (forall i :: |s.slots| <= i < |u.slots| ==> Rewritten(s, u, i))
  }

  predicate Rewritten(s: State, u: State, i: nat)
    requires i < |u.slots|
  {
    s.generation < u.slots[i].generation && !u.slots[i].refreshing
  }

  lemma UpdateMoves(s: State, i: nat, outbound: nat, ttl: bool, expires: int, now: nat)
    requires i < |s.slots|
    ensures Moves(s, Update(s, i, outbound, ttl, expires, now))
  {
  }

  lemma InsertMoves(s: State, key: Key, outbound: nat, ttl: bool, expires: int, now: nat)
    requires Valid(s)
    ensures Moves(s, Insert(s, key, outbound, ttl, expires, now).0)
  {
    if s.size == 0 || !KeyOk(key) {
    } else if SlotOf(s, key).Some? {
      InsertsFound(s, key, SlotOf(s, key).value, outbound, ttl, expires, now);
    } else if |s.slots| < s.size {
      InsertsNew(s, key, outbound, ttl, expires, now);
    } else {
      InsertsOver(s, key, outbound, ttl, expires, now);
    }
  }

  lemma UntrackMoves(s: State, sid: nat)
    ensures Moves(s, Untrack(s, sid)) && |Untrack(s, sid).slots| == |s.slots|
  {
  }

  lemma TrackMoves(s: State, sid: nat, i: nat, outbound: nat, now: nat)
    requires i < |s.slots|
    ensures Moves(s, Track(s, sid, i, outbound, now))
  {
    UntrackMoves(s, sid);
    if s.slots[i].ttl { TrackIs(s, sid, i, outbound, now); }
  }

  // ----- outstanding refreshes

  /** A current refresh was asked for the very key its slot holds. */
  ghost predicate Asked(s: State, pending: seq<Refresh>) {
    forall j :: 0 <= j < |pending| ==>
      && pending[j].slot < |s.slots| && pending[j].generation <= s.generation
      && (Current(s, pending[j]) ==>
         s.slots[pending[j].slot].refreshing && s.slots[pending[j].slot].key == KeyOf(pending[j].target))
  }

  ghost predicate Outstanding(s: State, pending: seq<Refresh>, i: nat) {
    exists j :: 0 <= j < |pending| && pending[j].slot == i && Current(s, pending[j])
  }

  /** A slot is marked refreshing exactly while one current refresh is outstanding for it, and never two. */
  ghost predicate Single(s: State, pending: seq<Refresh>) {
    && (forall i :: 0 <= i < |s.slots| ==> (s.slots[i].refreshing <==> Outstanding(s, pending, i)))
    && (forall j, k :: 0 <= j < k < |pending| && pending[j].slot == pending[k].slot ==>
                         !(Current(s, pending[j]) && Current(s, pending[k])))
  }

  ghost predicate Consistent(w: World) {
    Valid(w.cache) && Asked(w.cache, w.pending) && Single(w.cache, w.pending)
  }

  lemma MovesKeepRefreshes(s: State, u: State, pending: seq<Refresh>)
    requires Valid(s) && Asked(s, pending) && Single(s, pending) && Moves(s, u)
    ensures Asked(u, pending) && Single(u, pending)
  {
    forall j | 0 <= j < |pending|
      ensures Current(u, pending[j]) <==>
                Current(s, pending[j]) && Same(s.slots[pending[j].slot], u.slots[pending[j].slot])
    {
    }
    forall i | 0 <= i < |u.slots| ensures u.slots[i].refreshing <==> Outstanding(u, pending, i) {
      if u.slots[i].refreshing {
        assert !Rewritten(s, u, i);
        assert Same(s.slots[i], u.slots[i]) && Outstanding(s, pending, i);
        var j :| 0 <= j < |pending| && pending[j].slot == i && Current(s, pending[j]);
        assert Current(u, pending[j]);
      }
    }
  }

  /** Marking a slot changes no generation number. */
  lemma MarkIsCurrent(s: State, i: nat, flag: bool, p: Refresh)
    requires i < |s.slots|
    ensures Current(SetRefreshing(s, i, flag), p) <==> Current(s, p)
  {
  }

  lemma StartedMarks(s: State, pending: seq<Refresh>, i: nat, p: Refresh, k: nat)
    requires Single(s, pending) && i < |s.slots| && k < |s.slots|
    requires p.slot == i && Current(s, p)
    ensures SetRefreshing(s, i, true).slots[k].refreshing <==> Outstanding(SetRefreshing(s, i, true), pending + [p], k)
  {
    var u, more := SetRefreshing(s, i, true), pending + [p];
    if k == i {
      assert more[|pending|] == p && Current(u, p);
    } else {
      if u.slots[k].refreshing {
        assert Outstanding(s, pending, k);
        var j :| 0 <= j < |pending| && pending[j].slot == k && Current(s, pending[j]);
        assert more[j] == pending[j] && Current(u, more[j]);
      }
      if Outstanding(u, more, k) {
        var j :| 0 <= j < |more| && more[j].slot == k && Current(u, more[j]);
        assert more[j] == pending[j] && Current(s, pending[j]);
      }
    }
  }

  lemma StartedSingle(s: State, pending: seq<Refresh>, i: nat, p: Refresh)
    requires Single(s, pending) && Asked(s, pending) && i < |s.slots| && !s.slots[i].refreshing
    requires p.slot == i && Current(s, p) && p.generation <= s.generation && s.slots[i].key == KeyOf(p.target)
    ensures Single(SetRefreshing(s, i, true), pending + [p]) && Asked(SetRefreshing(s, i, true), pending + [p])
  {
    var u, more := SetRefreshing(s, i, true), pending + [p];
    forall k | 0 <= k < |u.slots| ensures u.slots[k].refreshing <==> Outstanding(u, more, k) {
      StartedMarks(s, pending, i, p, k);
    }
    assert !Outstanding(s, pending, i);
    forall j, k | 0 <= j < k < |more| && more[j].slot == more[k].slot
      ensures !(Current(u, more[j]) && Current(u, more[k])) {
      MarkIsCurrent(s, i, true, more[j]);
      MarkIsCurrent(s, i, true, more[k]);
      assert more[j] == pending[j];
      if k < |pending| { assert more[k] == pending[k]; }
    }
    forall j | 0 <= j < |more| && Current(u, more[j])
      ensures u.slots[more[j].slot].refreshing && u.slots[more[j].slot].key == KeyOf(more[j].target)
    {
      MarkIsCurrent(s, i, true, more[j]);
      if j < |pending| { assert more[j] == pending[j]; }
    }
    assert forall j :: 0 <= j < |pending| ==> more[j] == pending[j];
  }

  lemma StartKeeps(conf: Conf, w: World, i: nat, t: Target, starts: bool)
    requires Consistent(w) && i < |w.cache.slots| && w.cache.slots[i].key == KeyOf(t)
    ensures Consistent(StartRefresh(conf, w, i, t, starts))
  {
    if MayRefresh(conf, w.cache.slots[i], t) && starts {
      SetRefreshingKeeps(w.cache, i, true);
      StartedSingle(w.cache, w.pending, i, Refresh(i, w.cache.slots[i].generation, t));
    }
  }

  /** The slots after a refresh was taken off the list: its own no longer marked, if it was current. */
  function Settled(s: State, p: Refresh): State {
    if Current(s, p) then SetRefreshing(s, p.slot, false) else s
  }

  lemma SettledAsked(s: State, pending: seq<Refresh>, j: nat)
    requires Asked(s, pending) && Single(s, pending) && j < |pending|
    ensures Asked(Settled(s, pending[j]), Removed(pending, j))
  {
    var u, rest := Settled(s, pending[j]), Removed(pending, j);
    forall k | 0 <= k < |rest| && Current(u, rest[k]) ensures u.slots[rest[k].slot].refreshing {
      var m := if k < j then k else k + 1;
      assert rest[k] == pending[m] && Current(s, pending[m]);
    }
  }

  /** Other slots keep their outstanding refreshes. */
  lemma SettledMarks(s: State, pending: seq<Refresh>, j: nat, i: nat)
    requires j < |pending| && i < |s.slots|
    requires pending[j].slot != i || !Current(s, pending[j])
    ensures Outstanding(Settled(s, pending[j]), Removed(pending, j), i) <==> Outstanding(s, pending, i)
  {
    var u, rest := Settled(s, pending[j]), Removed(pending, j);
    if Outstanding(s, pending, i) {
      var m :| 0 <= m < |pending| && pending[m].slot == i && Current(s, pending[m]);
      assert rest[if m < j then m else m - 1] == pending[m] && Current(u, pending[m]);
    }
    if Outstanding(u, rest, i) {
      var k :| 0 <= k < |rest| && rest[k].slot == i && Current(u, rest[k]);
      assert rest[k] == pending[if k < j then k else k + 1] && Current(s, rest[k]);
    }
  }

  /** The refreshed slot itself has none left: there was only the one. */
  lemma SettledOwn(s: State, pending: seq<Refresh>, j: nat)
    requires Single(s, pending) && j < |pending| && Current(s, pending[j])
    ensures !Outstanding(Settled(s, pending[j]), Removed(pending, j), pending[j].slot)
  {
    var u, rest := Settled(s, pending[j]), Removed(pending, j);
    forall k | 0 <= k < |rest| && rest[k].slot == pending[j].slot ensures !Current(u, rest[k]) {
      var m := if k < j then k else k + 1;
      assert rest[k] == pending[m];
      MarkIsCurrent(s, pending[j].slot, false, pending[m]);
    }
  }

  lemma SettleKeeps(s: State, pending: seq<Refresh>, j: nat)
    requires Asked(s, pending) && Single(s, pending) && j < |pending|
    ensures Asked(Settled(s, pending[j]), Removed(pending, j)) && Single(Settled(s, pending[j]), Removed(pending, j))
  {
    var u, rest := Settled(s, pending[j]), Removed(pending, j);
    SettledAsked(s, pending, j);
    forall i | 0 <= i < |u.slots| ensures u.slots[i].refreshing <==> Outstanding(u, rest, i) {
      if pending[j].slot == i && Current(s, pending[j]) {
        SettledOwn(s, pending, j);
      } else {
        SettledMarks(s, pending, j, i);
      }
    }
    forall k, l | 0 <= k < l < |rest| && rest[k].slot == rest[l].slot
      ensures !(Current(u, rest[k]) && Current(u, rest[l])) {
      var m, n := if k < j then k else k + 1, if l < j then l else l + 1;
      assert rest[k] == pending[m] && rest[l] == pending[n];
    }
  }

  lemma KeepKeeps(conf: Conf, w: World, t: Target, choice: Choice, expires: int, now: nat)
    requires Consistent(w)
    ensures Consistent(Keep(conf, w, t, choice, expires, now).0)
  {
    if choice.Chosen? {
      InsertKeeps(w.cache, KeyOf(t), choice.index, choice.ttl, expires, now);
      InsertMoves(w.cache, KeyOf(t), choice.index, choice.ttl, expires, now);
      MovesKeepRefreshes(w.cache, Insert(w.cache, KeyOf(t), choice.index, choice.ttl, expires, now).0, w.pending);
    }
  }

  lemma LookupConsistent(w: World, key: Key)
    requires Consistent(w)
    ensures Consistent(w.(cache := Lookup(w.cache, key).0))
  {
    LookupKeeps(w.cache, key);
    MovesKeepRefreshes(w.cache, Lookup(w.cache, key).0, w.pending);
  }

  lemma ServeKeeps(conf: Conf, w: World, raw: Target, system: seq<IpRules.Sock>, starts: bool, now: nat)
    requires Consistent(w)
    ensures Consistent(Serve(conf, w, raw, system, starts, now).0)
  {
    var t := Normalized(conf, raw);
    var (c, hit) := Lookup(w.cache, KeyOf(t));
    LookupConsistent(w, KeyOf(t));
    var v := w.(cache := c);
    if conf.outs == [] || !conf.enabled {
    } else if hit.Some? && !Expired(c.slots[hit.value], now) {
    } else if hit.Some? && conf.nginx {
      StartKeeps(conf, v, hit.value, t, starts);
    } else {
      MissKeeps(conf, v, t, system, now);
    }
  }

  lemma MissKeeps(conf: Conf, w: World, t: Target, system: seq<IpRules.Sock>, now: nat)
    requires Consistent(w)
    ensures Consistent(Miss(conf, w, t, system, now).0)
  {
    var choice := Choose(conf, t, [], false);
    if choice != NeedsResolve {
      KeepKeeps(conf, w, t, choice, 0, now);
    } else if !conf.nginx {
      KeepKeeps(conf, w, t, Choose(conf, t, system, true), Seconds(now) + DEFAULT_TTL, now);
    }
  }

  lemma CompleteKeeps(conf: Conf, w: World, j: nat, addrs: seq<IpRules.Sock>, valid: int, now: nat)
    requires Consistent(w) && j < |w.pending|
    ensures Consistent(Complete(conf, w, j, addrs, valid, now))
  {
    var p := w.pending[j];
    var c := Settled(w.cache, p);
    SettleKeeps(w.cache, w.pending, j);
    if Current(w.cache, p) {
      SetRefreshingKeeps(w.cache, p.slot, false);
      var choice := Choose(conf, p.target, addrs, true);
      if addrs != [] && choice.Chosen? {
        UpdateKeeps(c, p.slot, choice.index, choice.ttl, ValidTime(valid, now), now);
        UpdateMoves(c, p.slot, choice.index, choice.ttl, ValidTime(valid, now), now);
        MovesKeepRefreshes(c, Update(c, p.slot, choice.index, choice.ttl, ValidTime(valid, now), now),
          Removed(w.pending, j));
      }
    }
  }

  /** Every step of every interleaving keeps the cache, tracking and refresh invariants. */
  lemma NextKeeps(conf: Conf, w: World, op: Op)
    requires Consistent(w)
    ensures Consistent(Next(conf, w, op).0)
  {
    match op
    case Request(target, system, starts, now) => ServeKeeps(conf, w, target, system, starts, now);
    case Resolved(j, addrs, valid, now) =>
      if j < |w.waiting| {
        var t := w.waiting[j];
        KeepKeeps(conf, w.(waiting := Removed(w.waiting, j)), t, Choose(conf, t, addrs, true), ValidTime(valid, now),
          now);
      }
    case Completed(j, addrs, valid, now) => if j < |w.pending| { CompleteKeeps(conf, w, j, addrs, valid, now); }
    case Tracked(sid, entry, outbound, now) =>
      if entry < |w.cache.slots| {
        TrackKeeps(w.cache, sid, entry, outbound, now);
        TrackMoves(w.cache, sid, entry, outbound, now);
        MovesKeepRefreshes(w.cache, Track(w.cache, sid, entry, outbound, now), w.pending);
      }
    case Untracked(sid) =>
      UntrackKeeps(w.cache, sid);
      UntrackMoves(w.cache, sid);
      MovesKeepRefreshes(w.cache, Untrack(w.cache, sid), w.pending);
  }
}
