/** Whole interleaved runs of routing, seen by the recency map: which lookups, writes and renewals they make of the
    cache. */
module RouteRecency {
  import opened Address
  import opened Bytes
  import opened Routing
  import opened RouteState
  import opened RouteLru
  import opened RouteWorld
  import opened RouteRun
  import IpRules

  /** The same items in the same slots, used in the same order. */
  ghost predicate Similar(s: State, u: State) {
    && s.size == u.size && s.lru == u.lru && |s.slots| == |u.slots|
    && forall i :: 0 <= i < |s.slots| ==> ItemOf(s.slots[i]) == ItemOf(u.slots[i])
  }

  // ----- the events of one step

  function KeepEvents(t: Target, choice: Choice, expires: int, now: nat): seq<Event> {
    if choice.Chosen? then [Store(KeyOf(t), choice.index, choice.ttl, expires, now)] else []
  }

  function MissEvents(conf: Conf, t: Target, system: seq<IpRules.Sock>, now: nat): seq<Event> {
    var choice := Choose(conf, t, [], false);
    if choice != NeedsResolve then KeepEvents(t, choice, 0, now)
    else if conf.nginx then []
    else KeepEvents(t, Choose(conf, t, system, true), Seconds(now) + DEFAULT_TTL, now)
  }

  function ServeEvents(conf: Conf, w: World, raw: Target, system: seq<IpRules.Sock>, now: nat): seq<Event> {
    if conf.outs == [] || !conf.enabled then []
    else
      var t := Normalized(conf, raw);
      var (c, hit) := Lookup(w.cache, KeyOf(t));
      [Ask(KeyOf(t))]
      + if hit.Some? && (!Expired(c.slots[hit.value], now) || conf.nginx) then [] else MissEvents(conf, t, system, now)
  }

  function CompleteEvents(conf: Conf, w: World, p: Refresh, addrs: seq<IpRules.Sock>, valid: int,
                          now: nat): seq<Event> {
    var choice := Choose(conf, p.target, addrs, true);
    if Current(w.cache, p) && addrs != [] && choice.Chosen?
    then [Renew(KeyOf(p.target), choice.index, choice.ttl, ValidTime(valid, now), now)] else []
  }

  /** What a step of routing does to the cache, as lookups, writes and renewals; tracking does nothing to it. */
  function EventsOf(conf: Conf, w: World, op: Op): seq<Event> {
    match op
    case Request(target, system, _, now) => ServeEvents(conf, w, target, system, now)
    case Resolved(j, addrs, valid, now) =>
      if j < |w.waiting|
      then KeepEvents(w.waiting[j], Choose(conf, w.waiting[j], addrs, true), ValidTime(valid, now), now) else []
    case Completed(j, addrs, valid, now) =>
      if j < |w.pending| then CompleteEvents(conf, w, w.pending[j], addrs, valid, now) else []
    case Tracked(_, _, _, _) => []
    case Untracked(_) => []
  }

  // ----- playing events

  ghost function Play(s: State, events: seq<Event>): (r: State)
    requires Valid(s)
    ensures Valid(r)
    decreases |events|
  {
    if events == [] then s
    else
      StepKeeps(s, events[0]);
      Play(Step(s, events[0]), events[1..])
  }

  lemma {:induction false} PlayAfter(size: nat, past: seq<Event>, events: seq<Event>)
    ensures Play(After(size, past), events) == After(size, past + events)
    decreases |events|
  {
    if events == [] {
      assert past + events == past;
    } else {
      var more := past + [events[0]];
      assert more[..|past|] == past && past + events == more + events[1..];
      PlayAfter(size, more, events[1..]);
    }
  }

  lemma PlayOne(s: State, e: Event)
    requires Valid(s)
    ensures Play(s, [e]) == Step(s, e)
  {
    StepKeeps(s, e);
    assert [e][1..] == [];
  }

  lemma {:induction false} SameSlot(s: State, u: State, key: Key, i: nat)
    requires Similar(s, u) && i <= |s.slots|
    ensures SlotFrom(s.slots, key, i) == SlotFrom(u.slots, key, i)
    decreases |s.slots| - i
  {
    if i < |s.slots| {
      assert ItemOf(s.slots[i]) == ItemOf(u.slots[i]);
      SameSlot(s, u, key, i + 1);
    }
  }

  lemma StepSimilar(s: State, u: State, e: Event)
    requires Valid(s) && Valid(u) && Similar(s, u)
    ensures Similar(Step(s, e), Step(u, e))
  {
    hide Tracking, Generations;
    SameSlot(s, u, e.key, 0);
  }

  lemma {:induction false} PlaySimilar(s: State, u: State, events: seq<Event>)
    requires Valid(s) && Valid(u) && Similar(s, u)
    ensures Similar(Play(s, events), Play(u, events))
    decreases |events|
  {
    if events != [] {
      StepKeeps(s, events[0]);
      StepKeeps(u, events[0]);
      StepSimilar(s, u, events[0]);
      PlaySimilar(Step(s, events[0]), Step(u, events[0]), events[1..]);
    }
  }

  // ----- a step of routing plays its events

  lemma KeepPlays(conf: Conf, w: World, t: Target, choice: Choice, expires: int, now: nat)
    requires Consistent(w)
    ensures Similar(Keep(conf, w, t, choice, expires, now).0.cache, Play(w.cache, KeepEvents(t, choice, expires, now)))
  {
    if choice.Chosen? { PlayOne(w.cache, Store(KeyOf(t), choice.index, choice.ttl, expires, now)); }
  }

  lemma MissPlays(conf: Conf, w: World, t: Target, system: seq<IpRules.Sock>, now: nat)
    requires Consistent(w)
    ensures Similar(Miss(conf, w, t, system, now).0.cache, Play(w.cache, MissEvents(conf, t, system, now)))
  {
    hide Keep, KeepEvents, Play, Similar, Valid, Choose;
    PlayNothing(w);
    KeepPlays(conf, w, t, Choose(conf, t, [], false), 0, now);
    KeepPlays(conf, w, t, Choose(conf, t, system, true), Seconds(now) + DEFAULT_TTL, now);
  }

  lemma PlayNothing(w: World)
    requires Consistent(w)
    ensures Valid(w.cache) && Play(w.cache, []) == w.cache && Similar(w.cache, w.cache)
  {
  }

  lemma PlayAsk(s: State, key: Key, rest: seq<Event>)
    requires Valid(s)
    ensures Valid(Lookup(s, key).0) && Play(s, [Ask(key)] + rest) == Play(Lookup(s, key).0, rest)
  {
    hide Tracking, Generations, Lookup;
    var events := [Ask(key)] + rest;
    StepKeeps(s, Ask(key));
    assert events[0] == Ask(key) && events[1..] == rest;
    assert Play(s, events) == Play(Step(s, events[0]), events[1..]);
  }

  lemma HitIsSlot(s: State, key: Key)
    ensures var (c, hit) := Lookup(s, key); hit.Some? ==> hit.value < |c.slots|
  {
  }

  /** Marking a slot and remembering a query changes no item. */
  lemma StartPlays(conf: Conf, w: World, i: nat, t: Target, starts: bool)
    requires Consistent(w) && i < |w.cache.slots|
    ensures Similar(StartRefresh(conf, w, i, t, starts).cache, Play(w.cache, []))
  {
    hide Valid;
  }

  lemma ServePlays(conf: Conf, w: World, raw: Target, system: seq<IpRules.Sock>, starts: bool, now: nat)
    requires Consistent(w)
    ensures Similar(Serve(conf, w, raw, system, starts, now).0.cache,
            Play(w.cache, ServeEvents(conf, w, raw, system, now)))
  {
    hide Play, Similar, Valid, Consistent, Miss, MissEvents, StartRefresh, Lookup, KeyOf, Normalized, Expired;
    CacheIsValid(w);
    PlayNothing(w);
    if conf.outs != [] && conf.enabled {
      var t := Normalized(conf, raw);
      var (c, hit) := Lookup(w.cache, KeyOf(t));
      var v := World(c, w.pending, w.waiting);
      LookupConsistent(w, KeyOf(t));
      assert v == w.(cache := c);
      CacheIsValid(v);
      HitIsSlot(w.cache, KeyOf(t));
      PlayNothing(v);
      if hit.Some? && (!Expired(c.slots[hit.value], now) || conf.nginx) {
        PlayAsk(w.cache, KeyOf(t), []);
        StartPlays(conf, v, hit.value, t, starts);
      } else {
        PlayAsk(w.cache, KeyOf(t), MissEvents(conf, t, system, now));
        MissPlays(conf, v, t, system, now);
      }
    }
  }

  lemma CompletePlays(conf: Conf, w: World, j: nat, addrs: seq<IpRules.Sock>, valid: int, now: nat)
    requires Consistent(w) && j < |w.pending|
    ensures Similar(Complete(conf, w, j, addrs, valid, now).cache,
                    Play(w.cache, CompleteEvents(conf, w, w.pending[j], addrs, valid, now)))
  {
    var p := w.pending[j];
    var choice := Choose(conf, p.target, addrs, true);
    if Current(w.cache, p) && addrs != [] && choice.Chosen? {
      PlayOne(w.cache, Renew(KeyOf(p.target), choice.index, choice.ttl, ValidTime(valid, now), now));
      assert w.cache.slots[p.slot].key == KeyOf(p.target);
      assert SlotOf(w.cache, KeyOf(p.target)) == Some(p.slot);
    }
  }

  lemma NextPlays(conf: Conf, w: World, op: Op)
    requires Consistent(w)
    ensures Similar(Next(conf, w, op).0.cache, Play(w.cache, EventsOf(conf, w, op)))
  {
    hide Serve, ServeEvents, Complete, CompleteEvents, Keep, KeepEvents, Valid;
    match op
    case Request(target, system, starts, now) => ServePlays(conf, w, target, system, starts, now);
    case Resolved(j, addrs, valid, now) =>
      if j < |w.waiting| {
        var t := w.waiting[j];
        KeepPlays(conf, World(w.cache, w.pending, Removed(w.waiting, j)), t, Choose(conf, t, addrs, true),
                  ValidTime(valid, now), now);
      }
    case Completed(j, addrs, valid, now) => if j < |w.pending| { CompletePlays(conf, w, j, addrs, valid, now); }
    case Tracked(_, _, _, _) =>
    case Untracked(_) =>
  }

  // ----- whole runs

  /** All the lookups, writes and renewals that a run makes, in order. */
  ghost function Trace(conf: Conf, w: World, ops: seq<Op>): seq<Event>
    requires Consistent(w)
    decreases |ops|
  {
    if ops == [] then []
    else
      NextKeeps(conf, w, ops[0]);
      EventsOf(conf, w, ops[0]) + Trace(conf, Next(conf, w, ops[0]).0, ops[1..])
  }

  lemma CacheIsValid(w: World)
    requires Consistent(w)
    ensures Valid(w.cache) && Sound(w.cache)
  {
  }

  lemma SimilarTransitive(s: State, u: State, v: State)
    requires Similar(s, u) && Similar(u, v)
    ensures Similar(s, v)
  {
  }

  lemma {:induction false} ReachedPlays(conf: Conf, w: World, ops: seq<Op>, size: nat, past: seq<Event>)
    requires Consistent(w) && Similar(w.cache, After(size, past))
    ensures Similar(Reached(conf, w, ops).cache, After(size, past + Trace(conf, w, ops)))
    decreases |ops|
  {
    hide Next, EventsOf, Similar, Play, Consistent, After, Valid;
    CacheIsValid(w);
    if ops == [] {
      assert past + [] == past;
    } else {
      var next, events := Next(conf, w, ops[0]).0, EventsOf(conf, w, ops[0]);
      NextKeeps(conf, w, ops[0]);
      NextPlays(conf, w, ops[0]);
      PlaySimilar(w.cache, After(size, past), events);
      PlayAfter(size, past, events);
      SimilarTransitive(next.cache, Play(w.cache, events), After(size, past + events));
      ReachedPlays(conf, next, ops[1..], size, past + events);
      assert past + (events + Trace(conf, next, ops[1..])) == past + events + Trace(conf, next, ops[1..]);
    }
  }

  /** After every interleaved run of requests, resolver answers, refresh completions and tracking, the cache holds the
      `size` most recently used keys of that run, in that order, and each answers what was last written for it. */
  lemma RunHoldsMostRecentlyUsed(conf: Conf, size: nat, ops: seq<Op>, key: Key)
    requires size > 0
    ensures var s, events := Run(conf, size, ops).cache, Trace(conf, Empty(size), ops);
            && Sound(s) && Keys(Abs(s)) == Take(Uses(size, events), size)
            && (KeyOk(key) && SlotOf(s, key).Some? ==>
                  LastWrite(events, key) == Some(ItemOf(s.slots[SlotOf(s, key).value])))
  {
    EmptyIsConsistent(size);
    var s, events := Run(conf, size, ops).cache, Trace(conf, Empty(size), ops);
    ReachedPlays(conf, Empty(size), ops, size, []);
    assert [] + events == events;
    var u := After(size, events);
    assert Keys(Abs(s)) == Keys(Abs(u));
    HoldsMostRecentlyUsed(size, events);
    SameSlot(s, u, key, 0);
    if KeyOk(key) { AnswersLastWrite(size, events, key); }
  }
}
