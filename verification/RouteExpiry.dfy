/** Cached answers and the clock, over whole runs: when an entry is served, refreshed or chosen anew, and until when an
    answer may be kept. Times are milliseconds; entries expire in seconds. */
module RouteExpiry {
  import opened Address
  import opened Bytes
  import opened Routing
  import opened RouteState
  import opened RouteLru
  import opened RouteWorld
  import opened RouteRun
  import IpRules

  /** The target of a request as routing sees it: names may turn out to be address literals, unless that is off. */
  ghost predicate SeenAs(conf: Conf, raw: Target, t: Target) {
    t == if conf.mode.Off? || raw.kind != 3 then raw else conf.literal(raw)
  }

  /** Slot i holds the answer for the target. */
  ghost predicate HeldAt(s: State, t: Target, i: nat) {
    i < |s.slots| && s.slots[i].key == KeyOf(t)
  }

  /** All that a served request changes: the slot is now the most recent. */
  ghost predicate OnlyTouched(s: State, u: State, i: nat) {
    u == s.(lru := [i] + Without(s.lru, i))
  }

  lemma HeldIsFound(w: World, t: Target, i: nat)
    requires Consistent(w) && HeldAt(w.cache, t, i)
    ensures Lookup(w.cache, KeyOf(t)) == (w.cache.(lru := [i] + Without(w.cache.lru, i)), Some(i))
    ensures KeyOk(KeyOf(t)) && Consistent(w.(cache := Lookup(w.cache, KeyOf(t)).0))
  {
    LookupConsistent(w, KeyOf(t));
    assert SlotOf(w.cache, KeyOf(t)) == Some(i);
  }

  // ----- one request

  /** An answer that never expires, or expires later than now, is served; nothing else changes. */
  lemma LiveIsServed(conf: Conf, w: World, raw: Target, t: Target, i: nat, system: seq<IpRules.Sock>, starts: bool,
                     now: nat)
    requires Consistent(w) && conf.enabled && conf.outs != [] && SeenAs(conf, raw, t) && HeldAt(w.cache, t, i)
    requires !w.cache.slots[i].ttl || w.cache.slots[i].expires > now / 1000
    ensures var (u, r) := Serve(conf, w, raw, system, starts, now);
            && r == Routed(w.cache.slots[i].outbound, Some(i)) && OnlyTouched(w.cache, u.cache, i)
            && u.pending == w.pending && u.waiting == w.waiting
  {
    HeldIsFound(w, t, i);
    hide Lookup, KeyOf, Valid, Consistent;
  }

  /** With a resolver an expired answer is served once more, and a refresh is on its way, unless one already is, the
      target is no name, or the resolver declines. */
  lemma ExpiredIsRefreshed(conf: Conf, w: World, raw: Target, t: Target, i: nat, system: seq<IpRules.Sock>,
                           starts: bool, now: nat)
    requires Consistent(w) && conf.enabled && conf.outs != [] && SeenAs(conf, raw, t) && HeldAt(w.cache, t, i)
    requires conf.nginx && w.cache.slots[i].ttl && w.cache.slots[i].expires <= now / 1000
    ensures var (u, r) := Serve(conf, w, raw, system, starts, now);
            var e := w.cache.slots[i];
            && r == Routed(e.outbound, Some(i)) && u.waiting == w.waiting
            && if starts && t.kind == 3 && !e.refreshing
               then
                 && u.pending == w.pending + [Refresh(i, e.generation, t)]
                 && OnlyTouched(w.cache.(slots := w.cache.slots[i := e.(refreshing := true)]), u.cache, i)
               else u.pending == w.pending && OnlyTouched(w.cache, u.cache, i)
  {
    HeldIsFound(w, t, i);
    assert |KeyOf(t).host| == |t.host|;
    hide Lookup, KeyOf, Valid, Consistent;
  }

  /** Without a resolver the choice is made anew: without addresses, or on the system's where it needs some. */
  ghost function FreshChoice(conf: Conf, t: Target, system: seq<IpRules.Sock>): Choice {
    var first := Select(conf.outs, conf.mode.Lazy?, t, [], false);
    if first == NeedsResolve then Select(conf.outs, conf.mode.Lazy?, t, system, true) else first
  }

  /** Without a resolver an expired answer is replaced by the fresh choice, kept for another 60 seconds if it
      expires. */
  lemma ExpiredIsChosenAnew(conf: Conf, w: World, raw: Target, t: Target, i: nat, system: seq<IpRules.Sock>,
                            starts: bool, now: nat)
    requires Consistent(w) && conf.enabled && conf.outs != [] && SeenAs(conf, raw, t) && HeldAt(w.cache, t, i)
    requires !conf.nginx && w.cache.slots[i].ttl && w.cache.slots[i].expires <= now / 1000
    ensures var (u, r) := Serve(conf, w, raw, system, starts, now);
            var choice := FreshChoice(conf, t, system);
            && u.pending == w.pending && u.waiting == w.waiting
            && if choice.Chosen?
               then
                 && r == Routed(choice.index, Some(i)) && |u.cache.slots| == |w.cache.slots|
                 && (forall k :: 0 <= k < |u.cache.slots| && k != i ==> u.cache.slots[k] == w.cache.slots[k])
                 && ItemOf(u.cache.slots[i]) ==
                    Item(KeyOf(t), choice.index, choice.ttl, if choice.ttl then now / 1000 + 60 else 0)
               else r == Unrouted && OnlyTouched(w.cache, u.cache, i)
  {
    HeldIsFound(w, t, i);
    var c := Lookup(w.cache, KeyOf(t)).0;
    var v := World(c, w.pending, w.waiting);
    assert v == w.(cache := c);
    NoExpiryWithoutAddresses(conf.outs, conf.mode.Lazy?, t, 0);
    KeptAt(conf, v, t, i, Choose(conf, t, [], false), 0, now);
    KeptAt(conf, v, t, i, Choose(conf, t, system, true), Seconds(now) + DEFAULT_TTL, now);
    hide Lookup, KeyOf, Valid, Consistent, Keep, Select;
  }

  /** Keeping a choice for a target that has a slot rewrites this slot. */
  lemma KeptAt(conf: Conf, w: World, t: Target, i: nat, choice: Choice, expires: int, now: nat)
    requires Consistent(w) && HeldAt(w.cache, t, i)
    ensures var (u, r) := Keep(conf, w, t, choice, expires, now);
            && u.pending == w.pending && u.waiting == w.waiting
            && if choice.Chosen?
               then
                 && r == Routed(choice.index, Some(i)) && |u.cache.slots| == |w.cache.slots|
                 && (forall k :: 0 <= k < |u.cache.slots| && k != i ==> u.cache.slots[k] == w.cache.slots[k])
                 && ItemOf(u.cache.slots[i]) ==
                    Item(KeyOf(t), choice.index, choice.ttl, if choice.ttl then expires else 0)
               else r == Unrouted && u == w
  {
    HeldIsFound(w, t, i);
    if choice.Chosen? { InsertsFound(w.cache, KeyOf(t), i, choice.index, choice.ttl, expires, now); }
  }

  lemma {:induction false} NoExpiryWithoutAddresses(outs: seq<Outbound>, lazy: bool, t: Target, i: nat)
    requires i <= |outs|
    ensures SelectFrom(outs, lazy, t, [], false, i).Chosen? ==> !SelectFrom(outs, lazy, t, [], false, i).ttl
    decreases |outs| - i
  {
    if i < |outs| { NoExpiryWithoutAddresses(outs, lazy, t, i + 1); }
  }

  /** A kept choice stands in the slot that the reply names, with its expiry. */
  lemma KeptSomewhere(conf: Conf, w: World, t: Target, choice: Choice, expires: int, now: nat)
    requires Consistent(w) && choice.Chosen? && w.cache.size > 0 && 1 <= |t.host| <= 255
    ensures var (u, r) := Keep(conf, w, t, choice, expires, now);
            && r.Routed? && r.outbound == choice.index && r.entry.Some? && r.entry.value < |u.cache.slots|
            && ItemOf(u.cache.slots[r.entry.value]) ==
               Item(KeyOf(t), choice.index, choice.ttl, if choice.ttl then expires else 0)
  {
    hide Tracking, Generations, SessionsAfter, UnlinkAll;
  }

  /** A target without a slot waits for the resolver if the choice needs addresses; else it is chosen afresh, and the
      choice is kept, for 60 seconds if it expires. */
  lemma UnknownIsChosen(conf: Conf, w: World, raw: Target, t: Target, system: seq<IpRules.Sock>, starts: bool, now: nat)
    requires Consistent(w) && conf.enabled && conf.outs != [] && SeenAs(conf, raw, t)
    requires 1 <= |t.host| <= 255 && w.cache.size > 0
    requires forall i :: 0 <= i < |w.cache.slots| ==> w.cache.slots[i].key != KeyOf(t)
    ensures var (u, r) := Serve(conf, w, raw, system, starts, now);
            var choice := FreshChoice(conf, t, system);
            if conf.nginx && Select(conf.outs, conf.mode.Lazy?, t, [], false) == NeedsResolve
            then r == Waiting && u == w.(waiting := w.waiting + [t])
            else if choice.Chosen?
            then
              && u.pending == w.pending && u.waiting == w.waiting
              && r.Routed? && r.outbound == choice.index && r.entry.Some? && r.entry.value < |u.cache.slots|
              && ItemOf(u.cache.slots[r.entry.value]) ==
                 Item(KeyOf(t), choice.index, choice.ttl, if choice.ttl then now / 1000 + 60 else 0)
            else r == Unrouted && u == w
  {
    assert Lookup(w.cache, KeyOf(t)) == (w.cache, None);
    NoExpiryWithoutAddresses(conf.outs, conf.mode.Lazy?, t, 0);
    var first, second := Choose(conf, t, [], false), Choose(conf, t, system, true);
    if first.Chosen? { KeptSomewhere(conf, w, t, first, 0, now); }
    if second.Chosen? { KeptSomewhere(conf, w, t, second, Seconds(now) + DEFAULT_TTL, now); }
    hide Lookup, KeyOf, Valid, Consistent, Insert, Select;
  }

  // ----- the resolver's answers

  /** Until when a resolver's answer counts: as long as it says, or 60 seconds if it says nothing useful. */
  function Until(valid: int, now: nat): int { if valid > now / 1000 then valid else now / 1000 + 60 }

  /** A waiting request gets the choice on the addresses found, kept until they stop counting. */
  lemma AnswerIsKept(conf: Conf, w: World, j: nat, addrs: seq<IpRules.Sock>, valid: int, now: nat)
    requires Consistent(w) && j < |w.waiting| && 1 <= |w.waiting[j].host| <= 255 && w.cache.size > 0
    ensures var (u, r) := Resolve(conf, w, j, addrs, valid, now);
            var t := w.waiting[j];
            var choice := Select(conf.outs, conf.mode.Lazy?, t, addrs, true);
            && u.pending == w.pending && u.waiting == Removed(w.waiting, j)
            && if choice.Chosen?
               then
                 && r.Routed? && r.outbound == choice.index && r.entry.Some? && r.entry.value < |u.cache.slots|
                 && ItemOf(u.cache.slots[r.entry.value]) ==
                    Item(KeyOf(t), choice.index, choice.ttl, if choice.ttl then Until(valid, now) else 0)
               else r == Unrouted && u.cache == w.cache
  {
    var v, t := World(w.cache, w.pending, Removed(w.waiting, j)), w.waiting[j];
    var choice := Choose(conf, t, addrs, true);
    assert Consistent(v);
    if choice.Chosen? { KeptSomewhere(conf, v, t, choice, ValidTime(valid, now), now); }
    hide KeyOf, Valid, Consistent, Insert, Select;
  }

  /** A refresh whose entry was not written since renews it: the new choice, kept until the new addresses stop
      counting. One whose entry was, or that finds no addresses or no choice, leaves the answer as it is. */
  lemma RefreshRenews(conf: Conf, w: World, j: nat, addrs: seq<IpRules.Sock>, valid: int, now: nat)
    requires Consistent(w) && j < |w.pending|
    ensures var u, p := Complete(conf, w, j, addrs, valid, now), w.pending[j];
            var choice := Select(conf.outs, conf.mode.Lazy?, p.target, addrs, true);
            && u.pending == Removed(w.pending, j) && u.waiting == w.waiting && |u.cache.slots| == |w.cache.slots|
            && forall i :: 0 <= i < |w.cache.slots| ==>
                 ItemOf(u.cache.slots[i]) ==
                   if i == p.slot && w.cache.slots[i].generation == p.generation && addrs != [] && choice.Chosen?
                   then Item(KeyOf(p.target), choice.index, choice.ttl, if choice.ttl then Until(valid, now) else 0)
                   else ItemOf(w.cache.slots[i])
  {
    CompletionWritesOwnKey(conf, w, j, addrs, valid, now);
    hide Select, KeyOf;
  }

  // ----- whole runs

  /** The step wrote an answer with this expiry: a resolver's, until it stops counting, or for 60 seconds the choice on
      the system's addresses. */
  predicate Granted(op: Op, expires: int) {
    match op
    case Request(_, _, _, now) => expires == now / 1000 + 60
    case Resolved(_, _, valid, now) => expires == Until(valid, now)
    case Completed(_, _, valid, now) => expires == Until(valid, now)
    case Tracked(_, _, _, _) => false
    case Untracked(_) => false
  }

  ghost predicate HasOrigin(e: Item, ops: seq<Op>) {
    if e.ttl then exists op :: op in ops && Granted(op, e.expires) else e.expires == 0
  }

  ghost predicate AllHaveOrigin(s: State, ops: seq<Op>) {
    forall i :: 0 <= i < |s.slots| ==> HasOrigin(ItemOf(s.slots[i]), ops)
  }

  lemma MoreOrigins(s: State, past: seq<Op>, op: Op)
    requires AllHaveOrigin(s, past)
    ensures AllHaveOrigin(s, past + [op])
  {
    forall i | 0 <= i < |s.slots| ensures HasOrigin(ItemOf(s.slots[i]), past + [op]) {
      assert HasOrigin(ItemOf(s.slots[i]), past);
    }
  }

  lemma KeepOrigins(conf: Conf, w: World, t: Target, choice: Choice, expires: int, now: nat, past: seq<Op>)
    requires Consistent(w) && AllHaveOrigin(w.cache, past)
    requires choice.Chosen? && choice.ttl ==> exists op :: op in past && Granted(op, expires)
    ensures AllHaveOrigin(Keep(conf, w, t, choice, expires, now).0.cache, past)
  {
    if choice.Chosen? {
      var e := Store(KeyOf(t), choice.index, choice.ttl, expires, now);
      var u := Step(w.cache, e);
      forall i | 0 <= i < |u.slots| ensures HasOrigin(ItemOf(u.slots[i]), past) { InsertSlots(w.cache, e, i); }
    }
  }

  lemma ServeOrigins(conf: Conf, w: World, op: Op, past: seq<Op>)
    requires Consistent(w) && AllHaveOrigin(w.cache, past) && op.Request? && op in past
    ensures AllHaveOrigin(Serve(conf, w, op.target, op.system, op.starts, op.now).0.cache, past)
  {
    if conf.outs != [] && conf.enabled {
      hide Keep, HasOrigin, Valid, KeyOf, Choose, Normalized, Expired;
      var t, now := Normalized(conf, op.target), op.now;
      var (c, hit) := Lookup(w.cache, KeyOf(t));
      LookupConsistent(w, KeyOf(t));
      var v := World(c, w.pending, w.waiting);
      assert v == w.(cache := c) && AllHaveOrigin(c, past);
      assert Choose(conf, t, [], false).Chosen? ==> !Choose(conf, t, [], false).ttl by {
        NoExpiryWithoutAddresses(conf.outs, conf.mode.Lazy?, t, 0);
      }
      assert Granted(op, now / 1000 + 60);
      KeepOrigins(conf, v, t, Choose(conf, t, [], false), 0, now, past);
      KeepOrigins(conf, v, t, Choose(conf, t, op.system, true), Seconds(now) + DEFAULT_TTL, now, past);
      hide Consistent, Lookup;
    }
  }

  lemma NextOrigins(conf: Conf, w: World, op: Op, past: seq<Op>)
    requires Consistent(w) && AllHaveOrigin(w.cache, past)
    ensures AllHaveOrigin(Next(conf, w, op).0.cache, past + [op])
  {
    MoreOrigins(w.cache, past, op);
    var all := past + [op];
    assert op in all;
    match op
    case Request(_, _, _, _) => ServeOrigins(conf, w, op, all);
    case Resolved(j, addrs, valid, now) =>
      if j < |w.waiting| {
        var t := w.waiting[j];
        assert Granted(op, ValidTime(valid, now));
        KeepOrigins(conf, World(w.cache, w.pending, Removed(w.waiting, j)), t, Choose(conf, t, addrs, true),
                    ValidTime(valid, now), now, all);
      }
    case Completed(j, addrs, valid, now) =>
      if j < |w.pending| {
        assert Granted(op, Until(valid, now));
        RefreshRenews(conf, w, j, addrs, valid, now);
      }
    case Tracked(_, _, _, _) => hide HasOrigin;
    case Untracked(_) => hide HasOrigin;
  }

  lemma {:induction false} ReachedOrigins(conf: Conf, w: World, ops: seq<Op>, past: seq<Op>)
    requires Consistent(w) && AllHaveOrigin(w.cache, past)
    ensures AllHaveOrigin(Reached(conf, w, ops).cache, past + ops)
    decreases |ops|
  {
    if ops == [] {
      assert past + ops == past;
    } else {
      NextKeeps(conf, w, ops[0]);
      NextOrigins(conf, w, ops[0], past);
      ReachedOrigins(conf, Next(conf, w, ops[0]).0, ops[1..], past + [ops[0]]);
      assert past + [ops[0]] + ops[1..] == past + ops;
    }
  }

  /** In every reachable state an answer that expires does so when some step of the run said: the resolver's validity,
      or 60 seconds after the step; and one that does not expire is marked by 0. */
  lemma EveryExpiryWasGranted(conf: Conf, size: nat, ops: seq<Op>, i: nat)
    requires i < |Run(conf, size, ops).cache.slots|
    ensures var e := Run(conf, size, ops).cache.slots[i];
            if e.ttl then exists op :: op in ops && Granted(op, e.expires) else e.expires == 0
  {
    EmptyIsConsistent(size);
    ReachedOrigins(conf, Empty(size), ops, []);
    assert [] + ops == ops;
    assert HasOrigin(ItemOf(Run(conf, size, ops).cache.slots[i]), ops);
  }

  /** In every reachable state the clock decides what becomes of a request whose target has a slot: a live answer is
      served; an expired one is served once more and refreshed where there is a resolver, and chosen anew where there
      is none. */
  lemma RequestsFollowTheClock(conf: Conf, size: nat, ops: seq<Op>, raw: Target, t: Target, i: nat,
                               system: seq<IpRules.Sock>, now: nat)
    requires conf.enabled && conf.outs != [] && SeenAs(conf, raw, t) && HeldAt(Run(conf, size, ops).cache, t, i)
    ensures var w := Run(conf, size, ops);
            var (u, r) := Serve(conf, w, raw, system, true, now);
            var e, choice := w.cache.slots[i], FreshChoice(conf, t, system);
            if !(e.ttl && e.expires <= now / 1000)
            then r == Routed(e.outbound, Some(i)) && u.pending == w.pending && OnlyTouched(w.cache, u.cache, i)
            else if conf.nginx
            then
              && r == Routed(e.outbound, Some(i)) && u.waiting == w.waiting
              && (t.kind == 3 && !e.refreshing ==> u.pending == w.pending + [Refresh(i, e.generation, t)])
            else
              && (choice.Chosen? ==> r == Routed(choice.index, Some(i)) && i < |u.cache.slots|
                                     && u.cache.slots[i].outbound == choice.index)
              && (!choice.Chosen? ==> r == Unrouted)
  {
    var w := Run(conf, size, ops);
    hide Serve, Run, Consistent, SeenAs, KeyOf;
    var e := w.cache.slots[i];
    if !(e.ttl && e.expires <= now / 1000) {
      LiveIsServed(conf, w, raw, t, i, system, true, now);
    } else if conf.nginx {
      ExpiredIsRefreshed(conf, w, raw, t, i, system, true, now);
    } else {
      ExpiredIsChosenAnew(conf, w, raw, t, i, system, true, now);
    }
  }
}
