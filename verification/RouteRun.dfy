/** Whole runs of routed requests: refresh safety, what cached answers mean, when the cache is invisible. */
module RouteRun {
  import opened Address
  import opened Bytes
  import opened Routing
  import opened RouteState
  import opened RouteLru
  import opened RouteWorld
  import IpRules

  function Empty(size: nat): World { World(Start(size), [], []) }

  ghost function Reached(conf: Conf, w: World, ops: seq<Op>): (r: World)
    requires Consistent(w)
    ensures Consistent(r)
    decreases |ops|
  {
    if ops == [] then w
    else
      NextKeeps(conf, w, ops[0]);
      Reached(conf, Next(conf, w, ops[0]).0, ops[1..])
  }

  lemma EmptyIsConsistent(size: nat)
    ensures Consistent(Empty(size))
  {
  }

  /** A run from the start, for a cache of any size. */
  ghost function Run(conf: Conf, size: nat, ops: seq<Op>): (w: World)
    ensures Consistent(w)
  {
    EmptyIsConsistent(size);
    Reached(conf, Empty(size), ops)
  }

  // ----- generations pin answers

  /** A slot whose generation number did not change still holds the same key and answer. */
  ghost predicate Pins(s: State, u: State) {
    && |s.slots| <= |u.slots| && s.generation <= u.generation
    && forall i :: 0 <= i < |s.slots| ==>
         (u.slots[i].generation == s.slots[i].generation && ItemOf(u.slots[i]) == ItemOf(s.slots[i]))
         || s.generation < u.slots[i].generation
  }

  lemma PinsTransitive(s: State, u: State, v: State)
    requires Pins(s, u) && Pins(u, v)
    ensures Pins(s, v)
  {
  }

  lemma KeepPins(conf: Conf, w: World, t: Target, choice: Choice, expires: int, now: nat)
    requires Consistent(w)
    ensures Pins(w.cache, Keep(conf, w, t, choice, expires, now).0.cache)
  {
    if choice.Chosen? {
      InsertMoves(w.cache, KeyOf(t), choice.index, choice.ttl, expires, now);
      MovesPin(w.cache, Insert(w.cache, KeyOf(t), choice.index, choice.ttl, expires, now).0);
    }
  }

  lemma MovesPin(s: State, u: State)
    requires Moves(s, u)
    ensures Pins(s, u)
  {
  }

  lemma MissPins(conf: Conf, w: World, t: Target, system: seq<IpRules.Sock>, now: nat)
    requires Consistent(w)
    ensures Pins(w.cache, Miss(conf, w, t, system, now).0.cache)
  {
    KeepPins(conf, w, t, Choose(conf, t, [], false), 0, now);
    KeepPins(conf, w, t, Choose(conf, t, system, true), Seconds(now) + DEFAULT_TTL, now);
  }

  lemma ServePins(conf: Conf, w: World, raw: Target, system: seq<IpRules.Sock>, starts: bool, now: nat)
    requires Consistent(w)
    ensures Pins(w.cache, Serve(conf, w, raw, system, starts, now).0.cache)
  {
    var t := Normalized(conf, raw);
    var (c, hit) := Lookup(w.cache, KeyOf(t));
    LookupConsistent(w, KeyOf(t));
    if !(hit.Some? && (!Expired(c.slots[hit.value], now) || conf.nginx)) {
      MissPins(conf, w.(cache := c), t, system, now);
    }
  }

  lemma CompletePins(conf: Conf, w: World, j: nat, addrs: seq<IpRules.Sock>, valid: int, now: nat)
    requires Consistent(w) && j < |w.pending|
    ensures Pins(w.cache, Complete(conf, w, j, addrs, valid, now).cache)
  {
  }

  lemma NextPins(conf: Conf, w: World, op: Op)
    requires Consistent(w)
    ensures Pins(w.cache, Next(conf, w, op).0.cache)
  {
    match op
    case Request(target, system, starts, now) => ServePins(conf, w, target, system, starts, now);
    case Resolved(j, addrs, valid, now) =>
      if j < |w.waiting| {
        var t := w.waiting[j];
        KeepPins(conf, w.(waiting := Removed(w.waiting, j)), t, Choose(conf, t, addrs, true), ValidTime(valid, now),
          now);
      }
    case Completed(j, addrs, valid, now) => if j < |w.pending| { CompletePins(conf, w, j, addrs, valid, now); }
    case Tracked(sid, entry, outbound, now) =>
      if entry < |w.cache.slots| {
        TrackMoves(w.cache, sid, entry, outbound, now);
        MovesPin(w.cache, Track(w.cache, sid, entry, outbound, now));
      }
    case Untracked(sid) =>
      UntrackMoves(w.cache, sid);
      MovesPin(w.cache, Untrack(w.cache, sid));
  }

  lemma {:induction false} RunPins(conf: Conf, w: World, ops: seq<Op>)
    requires Consistent(w)
    ensures Pins(w.cache, Reached(conf, w, ops).cache)
    decreases |ops|
  {
    if ops != [] {
      NextKeeps(conf, w, ops[0]);
      var v := Next(conf, w, ops[0]).0;
      NextPins(conf, w, ops[0]);
      RunPins(conf, v, ops[1..]);
      PinsTransitive(w.cache, v.cache, Reached(conf, w, ops).cache);
    }
  }

  /** A refresh that is still current when it completes finds its entry as it was when the refresh began:
      same slot, same key, same answer, whatever happened in between. */
  lemma CurrentMeansUntouched(conf: Conf, w: World, ops: seq<Op>, i: nat, p: Refresh)
    requires Consistent(w) && i < |w.cache.slots| && p.slot == i && p.generation == w.cache.slots[i].generation
    requires p in w.pending && Current(Reached(conf, w, ops).cache, p)
    ensures ItemOf(Reached(conf, w, ops).cache.slots[i]) == ItemOf(w.cache.slots[i])
    ensures Reached(conf, w, ops).cache.slots[i].key == KeyOf(p.target)
  {
    RunPins(conf, w, ops);
    assert Current(w.cache, p);
    var j :| 0 <= j < |w.pending| && w.pending[j] == p;
    assert w.cache.slots[i].key == KeyOf(p.target);
  }

  /** A completion leaves every other slot alone, never changes a key, and writes only what the selection
      yields for the slot's own key; a refresh that is no longer current writes nothing. */
  lemma CompletionWritesOwnKey(conf: Conf, w: World, j: nat, addrs: seq<IpRules.Sock>, valid: int, now: nat)
    requires Consistent(w) && j < |w.pending|
    ensures var u, p := Complete(conf, w, j, addrs, valid, now), w.pending[j];
            && (!Current(w.cache, p) ==> u.cache == w.cache)
            && |u.cache.slots| == |w.cache.slots|
            && (forall k :: 0 <= k < |w.cache.slots| && k != p.slot ==> u.cache.slots[k] == w.cache.slots[k])
            && (Current(w.cache, p) ==>
                  var was, after := w.cache.slots[p.slot], u.cache.slots[p.slot];
                  && after.key == was.key == KeyOf(p.target) && !after.refreshing
                  && if addrs != [] && Choose(conf, p.target, addrs, true).Chosen?
                     then Choose(conf, p.target, addrs, true) == Chosen(after.outbound, after.ttl)
                       && after.generation > was.generation
                     else ItemOf(after) == ItemOf(was) && after.generation == was.generation)
  {
  }

  /** At any reachable moment an entry is marked refreshing exactly when one refresh may still write it, and never
      two. */
  lemma OneWriterPerEntry(conf: Conf, size: nat, ops: seq<Op>, i: nat)
    requires i < |Run(conf, size, ops).cache.slots|
    ensures var w := Run(conf, size, ops);
            w.cache.slots[i].refreshing <==>
              exists j :: 0 <= j < |w.pending| && w.pending[j].slot == i && Current(w.cache, w.pending[j])
                          && forall k :: 0 <= k < |w.pending| && k != j ==>
                               !(w.pending[k].slot == i && Current(w.cache, w.pending[k]))
  {
    var w := Run(conf, size, ops);
    if w.cache.slots[i].refreshing {
      assert Outstanding(w.cache, w.pending, i);
      var j :| 0 <= j < |w.pending| && w.pending[j].slot == i && Current(w.cache, w.pending[j]);
      forall k | 0 <= k < |w.pending| && w.pending[k].slot == i && Current(w.cache, w.pending[k]) ensures k == j {
      }
    } else {
      assert !Outstanding(w.cache, w.pending, i);
    }
  }

  // ----- every cached answer was computed for its key

  /** The target of some request, as routing sees it. */
  ghost predicate Image(conf: Conf, t: Target) {
    exists raw :: Normalized(conf, raw) == t
  }

  ghost predicate Justified(conf: Conf, e: Item) {
    exists t, addrs, lazyUsed :: Image(conf, t) && KeyOf(t) == e.key
      && Choose(conf, t, addrs, lazyUsed) == Chosen(e.outbound, e.ttl)
  }

  ghost predicate AllJustified(conf: Conf, s: State) {
    forall i :: 0 <= i < |s.slots| ==> Justified(conf, ItemOf(s.slots[i]))
  }

  /** Cached answers, and the targets still to be answered, come from requests. */
  ghost predicate Faithful(conf: Conf, w: World) {
    && AllJustified(conf, w.cache)
    && (forall j :: 0 <= j < |w.waiting| ==> Image(conf, w.waiting[j]))
    && (forall j :: 0 <= j < |w.pending| ==> Image(conf, w.pending[j].target))
  }

  lemma JustifiedItem(conf: Conf, t: Target, addrs: seq<IpRules.Sock>, lazyUsed: bool, expires: int)
    requires Image(conf, t) && Choose(conf, t, addrs, lazyUsed).Chosen?
    ensures var c := Choose(conf, t, addrs, lazyUsed); Justified(conf, Written(KeyOf(t), c.index, c.ttl, expires))
  {
  }

  lemma KeepFaithful(conf: Conf, w: World, t: Target, addrs: seq<IpRules.Sock>, lazyUsed: bool, expires: int, now: nat)
    requires Consistent(w) && Faithful(conf, w) && Image(conf, t)
    ensures Faithful(conf, Keep(conf, w, t, Choose(conf, t, addrs, lazyUsed), expires, now).0)
  {
    var c := Choose(conf, t, addrs, lazyUsed);
    if c.Chosen? {
      JustifiedItem(conf, t, addrs, lazyUsed, expires);
      var u := Insert(w.cache, KeyOf(t), c.index, c.ttl, expires, now).0;
      forall i | 0 <= i < |u.slots| ensures Justified(conf, ItemOf(u.slots[i])) {
        InsertSlots(w.cache, Store(KeyOf(t), c.index, c.ttl, expires, now), i);
      }
    }
  }

  /** Slots that keep their items keep their justification. */
  lemma ItemsFaithful(conf: Conf, w: World, u: State)
    requires Faithful(conf, w) && |u.slots| == |w.cache.slots|
    requires forall i :: 0 <= i < |u.slots| ==> ItemOf(u.slots[i]) == ItemOf(w.cache.slots[i])
    ensures Faithful(conf, w.(cache := u))
  {
  }

  lemma StartFaithful(conf: Conf, w: World, i: nat, t: Target, starts: bool)
    requires Faithful(conf, w) && Image(conf, t) && i < |w.cache.slots|
    ensures Faithful(conf, StartRefresh(conf, w, i, t, starts))
  {
    ItemsFaithful(conf, w, SetRefreshing(w.cache, i, true));
  }

  lemma MissFaithful(conf: Conf, w: World, t: Target, system: seq<IpRules.Sock>, now: nat)
    requires Consistent(w) && Faithful(conf, w) && Image(conf, t)
    ensures Faithful(conf, Miss(conf, w, t, system, now).0)
  {
    KeepFaithful(conf, w, t, [], false, 0, now);
    KeepFaithful(conf, w, t, system, true, Seconds(now) + DEFAULT_TTL, now);
  }

  lemma ServeFaithful(conf: Conf, w: World, raw: Target, system: seq<IpRules.Sock>, starts: bool, now: nat)
    requires Consistent(w) && Faithful(conf, w)
    ensures Faithful(conf, Serve(conf, w, raw, system, starts, now).0)
  {
    var t := Normalized(conf, raw);
    assert Image(conf, t);
    var (c, hit) := Lookup(w.cache, KeyOf(t));
    LookupConsistent(w, KeyOf(t));
    ItemsFaithful(conf, w, c);
    var v := w.(cache := c);
    if hit.Some? && (!Expired(c.slots[hit.value], now) || conf.nginx) {
      StartFaithful(conf, v, hit.value, t, starts);
    } else {
      MissFaithful(conf, v, t, system, now);
    }
  }

  lemma CompleteFaithful(conf: Conf, w: World, j: nat, addrs: seq<IpRules.Sock>, valid: int, now: nat)
    requires Consistent(w) && Faithful(conf, w) && j < |w.pending|
    ensures Faithful(conf, Complete(conf, w, j, addrs, valid, now))
  {
    CompletionWritesOwnKey(conf, w, j, addrs, valid, now);
    var u, p := Complete(conf, w, j, addrs, valid, now), w.pending[j];
    forall i | 0 <= i < |u.cache.slots| ensures Justified(conf, ItemOf(u.cache.slots[i])) {
      if i != p.slot {
        assert u.cache.slots[i] == w.cache.slots[i];
      } else if Current(w.cache, p) && addrs != [] && Choose(conf, p.target, addrs, true).Chosen? {
        assert Image(conf, p.target) && KeyOf(p.target) == u.cache.slots[i].key;
      }
    }
  }

  lemma NextFaithful(conf: Conf, w: World, op: Op)
    requires Consistent(w) && Faithful(conf, w)
    ensures Faithful(conf, Next(conf, w, op).0)
  {
    match op
    case Request(target, system, starts, now) => ServeFaithful(conf, w, target, system, starts, now);
    case Resolved(j, addrs, valid, now) =>
      if j < |w.waiting| {
        KeepFaithful(conf, w.(waiting := Removed(w.waiting, j)), w.waiting[j], addrs, true, ValidTime(valid, now), now);
      }
    case Completed(j, addrs, valid, now) => if j < |w.pending| { CompleteFaithful(conf, w, j, addrs, valid, now); }
    case Tracked(sid, entry, outbound, now) =>
      if entry < |w.cache.slots| { ItemsFaithful(conf, w, Track(w.cache, sid, entry, outbound, now)); }
    case Untracked(sid) => ItemsFaithful(conf, w, Untrack(w.cache, sid));
  }

  /** In every reachable state each cached outbound is what the selection yields, on some addresses,
      for the target of some request with the entry's key. */
  lemma {:induction false} CachedAnswersAreSelections(conf: Conf, w: World, ops: seq<Op>)
    requires Consistent(w) && Faithful(conf, w)
    ensures Faithful(conf, Reached(conf, w, ops))
    decreases |ops|
  {
    if ops != [] {
      NextKeeps(conf, w, ops[0]);
      NextFaithful(conf, w, ops[0]);
      CachedAnswersAreSelections(conf, Next(conf, w, ops[0]).0, ops[1..]);
    }
  }
}
