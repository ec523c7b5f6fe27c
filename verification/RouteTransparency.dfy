/** When the cache cannot be seen: with matchers blind to case, cached answers are the uncached ones. */
module RouteTransparency {
  import opened Address
  import opened Bytes
  import opened Routing
  import opened RouteState
  import opened RouteLru
  import opened RouteWorld
  import opened RouteRun
  import DomainRules
  import IpRules

  /** No bound domain matcher tells upper from lower case. */
  ghost predicate CaseBlind(outs: seq<Outbound>) {
    forall i, a, b :: 0 <= i < |outs| && outs[i].matcher.Some? && Fold(a) == Fold(b) ==>
      outs[i].matcher.value.domain(a) == outs[i].matcher.value.domain(b)
  }

  /** The matcher answers by plain rules: no regex, no NUL. */
  ghost predicate Plain(m: Matcher, rx: DomainRules.RegexOracle, rules: seq<DomainRules.Rule>, compiled: bool) {
    && DomainRules.AllParsed(rules) && DomainRules.NulFreeRules(rules)
    && (forall k :: 0 <= k < |rules| ==> rules[k].kind != DomainRules.Regex)
    && forall host :: m.domain(host) <==> DomainRules.Answer(rx, rules, compiled, host)
  }

  lemma PlainRulesAreCaseBlind(outs: seq<Outbound>, rx: DomainRules.RegexOracle, rules: seq<seq<DomainRules.Rule>>,
                               compiled: seq<bool>)
    requires |rules| == |compiled| == |outs|
    requires forall i :: 0 <= i < |outs| && outs[i].matcher.Some? ==>
             Plain(outs[i].matcher.value, rx, rules[i], compiled[i])
    ensures CaseBlind(outs)
  {
    forall i, a, b | 0 <= i < |outs| && outs[i].matcher.Some? && Fold(a) == Fold(b)
      ensures outs[i].matcher.value.domain(a) == outs[i].matcher.value.domain(b)
    {
      DomainRules.PlainRulesIgnoreCase(rx, rules[i], compiled[i], a, b);
    }
  }

  predicate SameDestination(a: Target, b: Target) {
    a.kind == b.kind && if a.kind == DOMAIN then Fold(a.host) == Fold(b.host) else a.host == b.host
  }

  /** Selection ignores the port and the case of domain names. Off the lazy mode it ignores addresses too. */
  lemma {:induction false} SelectIgnoresCaseAndPort(outs: seq<Outbound>, lazy: bool, a: Target, b: Target,
                                                    x: seq<IpRules.Sock>, y: seq<IpRules.Sock>, u: bool, v: bool,
                                                    i: nat)
    requires CaseBlind(outs) && SameDestination(a, b) && i <= |outs| && (lazy ==> x == y)
    ensures Index(SelectFrom(outs, lazy, a, x, u, i)) == Index(SelectFrom(outs, lazy, b, y, v, i))
    ensures SelectFrom(outs, lazy, a, x, u, i).NeedsResolve? == SelectFrom(outs, lazy, b, y, v, i).NeedsResolve?
    ensures !lazy ==> !SelectFrom(outs, lazy, a, x, u, i).NeedsResolve?
    decreases |outs| - i
  {
    if i < |outs| {
      assert MatchesDomain(outs[i], a) == MatchesDomain(outs[i], b);
      assert a.kind != DOMAIN ==> MatchesLiteral(outs[i], a) == MatchesLiteral(outs[i], b);
      SelectIgnoresCaseAndPort(outs, lazy, a, b, x, y, u, v, i + 1);
    }
  }

  lemma SameKeySameDestination(a: Target, b: Target)
    requires KeyOf(a) == KeyOf(b)
    ensures SameDestination(a, b)
  {
  }

  /** What routing without any cache answers, in the modes that resolve nothing. */
  function Uncached(conf: Conf, raw: Target): Option<nat> {
    if conf.outs == [] then None
    else if !conf.enabled then Some(0)
    else Index(Choose(conf, Normalized(conf, raw), [], false))
  }

  function OutboundOf(r: Reply): Option<nat> {
    if r.Routed? then Some(r.outbound) else None
  }

  /** Requests with the same cacheable key are answered alike: routing cannot tell their spellings apart. */
  ghost predicate SpellingBlind(conf: Conf) {
    forall a, b :: SameKeyRequests(conf, a, b) ==> Uncached(conf, a) == Uncached(conf, b)
  }

  predicate SameKeyRequests(conf: Conf, a: Target, b: Target) {
    KeyOf(Normalized(conf, a)) == KeyOf(Normalized(conf, b)) && KeyOk(KeyOf(Normalized(conf, a)))
  }

  lemma CaseBlindIsSpellingBlind(conf: Conf)
    requires CaseBlind(conf.outs) && !conf.mode.Lazy?
    ensures SpellingBlind(conf)
  {
    forall a, b | SameKeyRequests(conf, a, b) ensures Uncached(conf, a) == Uncached(conf, b) {
      SameKeySameDestination(Normalized(conf, a), Normalized(conf, b));
      SelectIgnoresCaseAndPort(conf.outs, false, Normalized(conf, a), Normalized(conf, b), [], [], false, false, 0);
    }
  }

  /** Off the lazy mode addresses change nothing. */
  lemma {:induction false} AddressesIgnored(outs: seq<Outbound>, t: Target, addrs: seq<IpRules.Sock>, u: bool,
                                            v: bool, i: nat)
    requires i <= |outs|
    ensures Index(SelectFrom(outs, false, t, addrs, u, i)) == Index(SelectFrom(outs, false, t, [], v, i))
    ensures !SelectFrom(outs, false, t, [], v, i).NeedsResolve?
    decreases |outs| - i
  {
    if i < |outs| { AddressesIgnored(outs, t, addrs, u, v, i + 1); }
  }

  /** A justified item answers like the selection for every request of its key. */
  lemma JustifiedAgrees(conf: Conf, e: Item, raw: Target)
    requires Justified(conf, e) && SpellingBlind(conf) && !conf.mode.Lazy? && conf.enabled && conf.outs != []
    requires KeyOf(Normalized(conf, raw)) == e.key && KeyOk(e.key)
    ensures Uncached(conf, raw) == Some(e.outbound)
  {
    var s, addrs, lazyUsed :| Image(conf, s) && KeyOf(s) == e.key
      && Choose(conf, s, addrs, lazyUsed) == Chosen(e.outbound, e.ttl);
    var other :| Normalized(conf, other) == s;
    assert SameKeyRequests(conf, other, raw);
    AddressesIgnored(conf.outs, s, addrs, lazyUsed, false, 0);
  }

  lemma ServeIsUncached(conf: Conf, w: World, raw: Target, system: seq<IpRules.Sock>, starts: bool, now: nat)
    requires Consistent(w) && Faithful(conf, w) && SpellingBlind(conf) && !conf.mode.Lazy?
    ensures Answered(conf, w, raw, system, starts, now) == Uncached(conf, raw)
    ensures !Serve(conf, w, raw, system, starts, now).1.Waiting?
  {
    var t := Normalized(conf, raw);
    var (c, hit) := Lookup(w.cache, KeyOf(t));
    LookupSound(w.cache, KeyOf(t));
    if conf.outs != [] && conf.enabled {
      if hit.Some? {
        JustifiedAgrees(conf, ItemOf(w.cache.slots[hit.value]), raw);
      }
      AddressesIgnored(conf.outs, t, [], false, false, 0);
    }
  }

  function Answered(conf: Conf, w: World, raw: Target, system: seq<IpRules.Sock>, starts: bool, now: nat): Option<nat>
    requires Sound(w.cache)
  {
    OutboundOf(Serve(conf, w, raw, system, starts, now).1)
  }

  /** No run over a cache of this size ever shows the cache: every request is answered as if it were routed afresh. */
  ghost predicate Transparent(conf: Conf, size: nat) {
    forall ops, raw, system, starts, now ::
      Answered(conf, Run(conf, size, ops), raw, system, starts, now) == Uncached(conf, raw)
  }

  lemma BlindIsTransparent(conf: Conf, size: nat)
    requires SpellingBlind(conf) && !conf.mode.Lazy?
    ensures Transparent(conf, size)
  {
    forall ops, raw, system, starts, now
      ensures Answered(conf, Run(conf, size, ops), raw, system, starts, now) == Uncached(conf, raw)
    {
      EmptyIsConsistent(size);
      CachedAnswersAreSelections(conf, Empty(size), ops);
      ServeIsUncached(conf, Run(conf, size, ops), raw, system, starts, now);
    }
  }

  /** Two requests in a row: the second is answered with what the first one got. */
  lemma SecondGetsFirst(conf: Conf, size: nat, a: Target, b: Target)
    requires size > 0 && !conf.mode.Lazy? && conf.enabled && conf.outs != []
    requires SameKeyRequests(conf, a, b) && Uncached(conf, a).Some?
    ensures Answered(conf, Run(conf, size, [Request(a, [], false, 0)]), b, [], false, 0) == Uncached(conf, a)
  {
    var op, w := Request(a, [], false, 0), Empty(size);
    EmptyIsConsistent(size);
    var t := Normalized(conf, a);
    var choice := Choose(conf, t, [], false);
    InsertsNew(w.cache, KeyOf(t), choice.index, choice.ttl, 0, 0);
    NextKeeps(conf, w, op);
    var v := Next(conf, w, op).0;
    FirstEntry(conf, size, a);
    assert [op][1..] == [];
    assert Reached(conf, v, []) == v;
    assert Run(conf, size, [op]) == v;
    assert SlotOf(v.cache, KeyOf(t)) == Some(0);
  }

  lemma FirstEntry(conf: Conf, size: nat, a: Target)
    requires size > 0 && !conf.mode.Lazy? && conf.enabled && conf.outs != []
    requires KeyOk(KeyOf(Normalized(conf, a))) && Uncached(conf, a).Some?
    ensures var t := Normalized(conf, a);
            Next(conf, Empty(size), Request(a, [], false, 0)).0.cache.slots ==
              [Entry(KeyOf(t), Uncached(conf, a).value, false, 0, false, 1, [])]
  {
    var t := Normalized(conf, a);
    NoTtlWithoutAddresses(conf.outs, t, 0);
    var choice := Choose(conf, t, [], false);
    InsertsNew(Start(size), KeyOf(t), choice.index, choice.ttl, 0, 0);
  }

  lemma {:induction false} NoTtlWithoutAddresses(outs: seq<Outbound>, t: Target, i: nat)
    requires i <= |outs|
    ensures SelectFrom(outs, false, t, [], false, i).Chosen? ==> !SelectFrom(outs, false, t, [], false, i).ttl
    decreases |outs| - i
  {
    if i < |outs| { NoTtlWithoutAddresses(outs, t, i + 1); }
  }

  /** With resolution off or literal, a cache (of any one size) is invisible over all runs exactly when
      routing cannot tell apart the spellings of a key. */
  lemma TransparentIffSpellingBlind(conf: Conf, size: nat)
    requires !conf.mode.Lazy? && conf.enabled && conf.outs != [] && size > 0
    ensures Transparent(conf, size) <==> SpellingBlind(conf)
  {
    if SpellingBlind(conf) { BlindIsTransparent(conf, size); }
    if Transparent(conf, size) {
      forall a, b | SameKeyRequests(conf, a, b) ensures Uncached(conf, a) == Uncached(conf, b) {
        if Uncached(conf, a).Some? {
          SecondGetsFirst(conf, size, a, b);
        } else if Uncached(conf, b).Some? {
          SecondGetsFirst(conf, size, b, a);
        }
      }
    }
  }

  /** Case-blind matchers make a cache of any size, none included, invisible. */
  lemma CacheIsTransparent(conf: Conf, size: nat)
    requires CaseBlind(conf.outs) && !conf.mode.Lazy?
    ensures Transparent(conf, size)
  {
    CaseBlindIsSpellingBlind(conf);
    BlindIsTransparent(conf, size);
  }

  ghost predicate SomeSelection(conf: Conf, t: Target, outbound: nat) {
    exists addrs, lazyUsed :: Index(Choose(conf, t, addrs, lazyUsed)) == Some(outbound)
  }

  lemma JustifiedIsSomeSelection(conf: Conf, e: Item, t: Target)
    requires Justified(conf, e) && CaseBlind(conf.outs) && KeyOf(t) == e.key
    ensures SomeSelection(conf, t, e.outbound)
  {
    var s, addrs, lazyUsed :| Image(conf, s) && KeyOf(s) == e.key
      && Choose(conf, s, addrs, lazyUsed) == Chosen(e.outbound, e.ttl);
    SameKeySameDestination(s, t);
    SelectIgnoresCaseAndPort(conf.outs, conf.mode.Lazy?, s, t, addrs, addrs, lazyUsed, lazyUsed, 0);
    assert Index(Choose(conf, t, addrs, lazyUsed)) == Some(e.outbound);
  }

  /** In every mode, lazy included, a routed reply is what the selection yields for that very request
      on some address list. */
  lemma RepliesAreSelections(conf: Conf, size: nat, ops: seq<Op>, raw: Target, system: seq<IpRules.Sock>,
                             starts: bool, now: nat)
    requires CaseBlind(conf.outs) && conf.enabled
    requires Serve(conf, Run(conf, size, ops), raw, system, starts, now).1.Routed?
    ensures SomeSelection(conf, Normalized(conf, raw),
            Serve(conf, Run(conf, size, ops), raw, system, starts, now).1.outbound)
  {
    EmptyIsConsistent(size);
    CachedAnswersAreSelections(conf, Empty(size), ops);
    ServedSelection(conf, Run(conf, size, ops), raw, system, starts, now);
  }

  lemma ServedSelection(conf: Conf, w: World, raw: Target, system: seq<IpRules.Sock>, starts: bool, now: nat)
    requires Consistent(w) && Faithful(conf, w) && CaseBlind(conf.outs) && conf.enabled
    requires Serve(conf, w, raw, system, starts, now).1.Routed?
    ensures SomeSelection(conf, Normalized(conf, raw), Serve(conf, w, raw, system, starts, now).1.outbound)
  {
    var t := Normalized(conf, raw);
    var (c, hit) := Lookup(w.cache, KeyOf(t));
    LookupSound(w.cache, KeyOf(t));
    if hit.Some? && (!Expired(c.slots[hit.value], now) || conf.nginx) {
      JustifiedIsSomeSelection(conf, ItemOf(w.cache.slots[hit.value]), t);
    } else {
      assert Index(Choose(conf, t, [], false)).None? || SomeSelection(conf, t, Choose(conf, t, [], false).index);
      assert Index(Choose(conf, t, system, true)).None? || SomeSelection(conf, t, Choose(conf, t, system, true).index);
    }
  }

  /** A regex rule that tells the case of a name, ahead of a catch-all, makes the cache visible. */
  lemma RegexShowsTheCache(rx: bytes -> bool, upper: bytes, lower: bytes, size: nat)
    requires rx(upper) && !rx(lower) && Fold(upper) == Fold(lower) && 1 <= |upper| <= 255 && size > 0
    ensures var m := Matcher(rx, (a: IpRules.Sock) => false, false);
            var conf := Conf([Outbound([], false, true, Some(m)), Outbound([], true, false, None)], Off, true, false,
              false, t => t);
            !Transparent(conf, size)
  {
    var m := Matcher(rx, (a: IpRules.Sock) => false, false);
    var conf := Conf([Outbound([], false, true, Some(m)), Outbound([], true, false, None)], Off, true, false, false,
      t => t);
    var up, low := Target(DOMAIN, upper, 80), Target(DOMAIN, lower, 80);
    assert SelectFrom(conf.outs, false, low, [], false, 1) == Chosen(1, false);
    assert Uncached(conf, up) == Some(0) && Uncached(conf, low) == Some(1);
    assert |upper| == |Fold(upper)|;
    assert SameKeyRequests(conf, up, low);
    TransparentIffSpellingBlind(conf, size);
  }
}
