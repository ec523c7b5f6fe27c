/** The routing entry points over the cache object: choosing an outbound, a resolver's answer, a refresh's
    completion. */
module RouteRouter {
  import opened Address
  import opened Bytes
  import opened Routing
  import opened RouteState
  import RouteLru
  import opened RouteWorld
  import opened RouteRun
  import opened RouteCache
  import IpRules

  class Router {
    const conf: Conf
    /** NULL when the configured size is 0. */
    const cache: Cache?
    var pending: seq<Refresh>
    var waiting: seq<Target>

    ghost function Parts(): set<object> {
      if cache == null then {} else {cache, cache.entries, cache.buckets}
    }

    ghost predicate Ready()
      reads Parts()
    {
      cache != null ==> cache.Valid()
    }

    ghost function Stored(): State
      requires Ready()
      reads Parts()
    {
      if cache == null then Start(0) else cache.State()
    }

    /** Kept entries have the shape routing relies on. */
    lemma StoredIsSound()
      requires Ready()
      ensures RouteLru.Sound(Stored())
    {
    }

    ghost function Held(): World
      requires Ready()
      reads this, Parts()
    {
      World(Stored(), pending, waiting)
    }

    ghost predicate Valid()
      reads this, Parts()
    {
      Ready() && Consistent(Held())
    }

    constructor (conf: Conf, size: nat, keyHash: Key -> nat)
      ensures Valid() && this.conf == conf && Held() == Empty(size)
      ensures fresh(Parts())
    {
      var c: Cache? := null;
      if size != 0 {
        c := new Cache(size, keyHash);
      }
      this.conf := conf;
      cache := c;
      pending, waiting := [], [];
      new;
      EmptyIsConsistent(size);
    }

    method Find(t: Target) returns (hit: Option<nat>)
      requires Ready()
      modifies Parts()
      ensures Ready() && (Stored(), hit) == RouteState.Lookup(old(Stored()), KeyOf(t))
    {
      if cache == null {
        hit := None;
      } else {
        hit := cache.Lookup(t);
      }
    }

    method Remember(t: Target, choice: Choice, expires: int, now: nat) returns (r: Reply)
      requires Ready()
      modifies Parts()
      ensures Ready() && (Held(), r) == Keep(conf, old(Held()), t, choice, expires, now)
    {
      hide Cache.Valid;
      StoredIsSound();
      if !choice.Chosen? {
        return Unrouted;
      }
      if cache == null {
        return Routed(choice.index, None);
      }
      var i := cache.Insert(t, choice.index, choice.ttl, expires, now);
      r := Routed(choice.index, i);
    }

    /** Marks the entry and puts the query on its way, unless the resolver declines it. */
    method StartRefresh(i: nat, t: Target, starts: bool)
      requires Ready() && i < |Stored().slots|
      modifies this`pending, Parts()
      ensures Ready() && Held() == RouteWorld.StartRefresh(conf, old(Held()), i, t, starts)
    {
      hide Cache.Valid;
      if cache == null {
        return;
      }
      var e := cache.Peek(i);
      if e.refreshing || t.kind != DOMAIN || |t.host| == 0 || |t.host| > 255 || !conf.nginx {
        return;
      }
      if starts {
        cache.MarkRefreshing(i, true);
        pending := pending + [Refresh(i, e.generation, t)];
      }
    }

    method OnMiss(t: Target, system: seq<IpRules.Sock>, now: nat) returns (r: Reply)
      requires Ready()
      modifies this`waiting, Parts()
      ensures Ready() && (Held(), r) == Miss(conf, old(Held()), t, system, now)
    {
      hide Cache.Valid;
      StoredIsSound();
      var choice := SelectOutboundNow(conf.outs, conf.mode.Lazy?, t, [], false);
      var expires := 0;
      if choice == NeedsResolve {
        if conf.nginx {
          waiting := waiting + [t];
          return Waiting;
        }
        choice := SelectOutboundNow(conf.outs, conf.mode.Lazy?, t, system, true);
        expires := now / 1000 + DEFAULT_TTL;
      }
      r := Remember(t, choice, expires, now);
    }

    /** A hit answers at once, unless it expired and cannot be refreshed. */
    method OnHit(i: nat, t: Target, starts: bool, now: nat) returns (r: Option<Reply>)
      requires Ready() && i < |Stored().slots|
      modifies this`pending, Parts()
      ensures Ready()
      ensures var e := old(Stored()).slots[i];
              && Held() == (if Expired(e, now) then RouteWorld.StartRefresh(conf, old(Held()), i, t, starts)
                 else old(Held()))
              && r == if Expired(e, now) && !conf.nginx then None else Some(Routed(e.outbound, Some(i)))
    {
      hide Cache.Valid;
      if cache == null {
        return None;
      }
      var e := cache.Peek(i);
      r := Some(Routed(e.outbound, Some(i)));
      if e.ttl && e.expires <= now / 1000 {
        StartRefresh(i, t, starts);
        if !conf.nginx {
          r := None;
        }
      }
    }

    method Select(raw: Target, system: seq<IpRules.Sock>, starts: bool, now: nat) returns (r: Reply)
      requires Ready()
      modifies this`waiting, this`pending, Parts()
      ensures Ready() && (Held(), r) == Serve(conf, old(Held()), raw, system, starts, now)
    {
      hide Cache.Valid;
      StoredIsSound();
      if conf.outs == [] {
        return Unrouted;
      }
      if !conf.enabled {
        return Routed(0, None);
      }
      var t := Normalized(conf, raw);
      var hit := Find(t);
      StoredIsSound();
      if hit.Some? {
        var answer := OnHit(hit.value, t, starts, now);
        if answer.Some? {
          return answer.value;
        }
      }
      r := OnMiss(t, system, now);
    }

    /** Routing one request keeps every invariant and answers as the step does. */
    method SelectOutbound(raw: Target, system: seq<IpRules.Sock>, starts: bool, now: nat) returns (r: Reply)
      requires Valid()
      modifies this`waiting, this`pending, Parts()
      ensures Valid() && (Held(), Some(r)) == Next(conf, old(Held()), Request(raw, system, starts, now))
    {
      hide Cache.Valid;
      NextKeeps(conf, Held(), Request(raw, system, starts, now));
      r := Select(raw, system, starts, now);
    }

    /** The resolver answered a waiting request. */
    method RouteResolved(j: nat, addrs: seq<IpRules.Sock>, valid: int, now: nat) returns (r: Reply)
      requires Valid() && j < |waiting|
      modifies this`waiting, Parts()
      ensures Valid() && (Held(), Some(r)) == Next(conf, old(Held()), Resolved(j, addrs, valid, now))
    {
      hide Cache.Valid;
      StoredIsSound();
      NextKeeps(conf, Held(), Resolved(j, addrs, valid, now));
      var t := waiting[j];
      waiting := Removed(waiting, j);
      var choice := SelectOutboundNow(conf.outs, conf.mode.Lazy?, t, addrs, true);
      r := Remember(t, choice, ValidTime(valid, now), now);
    }

    method Settle(p: Refresh, addrs: seq<IpRules.Sock>, valid: int, now: nat)
      requires Ready() && p.slot < |Stored().slots|
      modifies Parts()
      ensures Ready()
      ensures var s := old(Stored());
              var choice := Choose(conf, p.target, addrs, true);
              Stored() == if !Current(s, p) then s
                          else if addrs != [] && choice.Chosen?
                          then Update(SetRefreshing(s, p.slot, false), p.slot, choice.index, choice.ttl,
                            ValidTime(valid, now), now)
                          else SetRefreshing(s, p.slot, false)
    {
      hide Cache.Valid;
      var e := cache.Peek(p.slot);
      if e.generation != p.generation {
        return;
      }
      cache.MarkRefreshing(p.slot, false);
      if addrs != [] {
        var choice := SelectOutboundNow(conf.outs, conf.mode.Lazy?, p.target, addrs, true);
        if choice.Chosen? {
          cache.UpdateEntry(p.slot, choice.index, choice.ttl, ValidTime(valid, now), now);
        }
      }
    }

    method Finish(j: nat, addrs: seq<IpRules.Sock>, valid: int, now: nat)
      requires Ready() && j < |pending| && pending[j].slot < |Stored().slots|
      modifies this`pending, Parts()
      ensures Ready() && Held() == Complete(conf, old(Held()), j, addrs, valid, now)
    {
      hide Cache.Valid;
      var p := pending[j];
      pending := Removed(pending, j);
      Settle(p, addrs, valid, now);
    }

    /** A refresh completes: it writes its entry only if the generation is still the one it saw. */
    method RefreshDone(j: nat, addrs: seq<IpRules.Sock>, valid: int, now: nat)
      requires Valid() && j < |pending|
      modifies this`pending, Parts()
      ensures Valid() && (Held(), None) == Next(conf, old(Held()), Completed(j, addrs, valid, now))
    {
      hide Cache.Valid;
      NextKeeps(conf, Held(), Completed(j, addrs, valid, now));
      Finish(j, addrs, valid, now);
    }
  }
}
