/** Choosing an outbound: one ordered pass, with and without resolved addresses. */
module Routing {
  import opened Address
  import opened Bytes
  import opened IpPrefix
  import IpRules

  /** A bound rules group: what its two matchers answer, and whether it has IP rules at all. */
  datatype Matcher = Matcher(domain: bytes -> bool, ip: IpRules.Sock -> bool, hasIps: bool)

  datatype Outbound = Outbound(tag: bytes, matchAll: bool, hasRules: bool, matcher: Option<Matcher>)

  datatype Choice = Chosen(index: nat, ttl: bool) | NoMatch | NeedsResolve

  function Word(b: bytes): nat
    requires |b| == 4
  {
    U32(b)
  }

  function SockOf(target: Target): Option<IpRules.Sock> {
    if target.kind == IPV4 && |target.host| == 4 then Some(IpRules.Inet(Word(target.host)))
    else if target.kind == IPV6 && |target.host| == 16 then Some(IpRules.Inet6(target.host))
    else None
  }

  predicate CatchAll(o: Outbound) { o.matchAll || !o.hasRules }

  predicate MatchesDomain(o: Outbound, target: Target) {
    CatchAll(o) || (o.matcher.Some? && target.kind == DOMAIN && o.matcher.value.domain(target.host))
  }

  predicate HasIpRules(o: Outbound) { o.matcher.Some? && o.matcher.value.hasIps }

  predicate MatchesResolved(o: Outbound, addrs: seq<IpRules.Sock>) {
    o.matcher.Some? && exists i :: 0 <= i < |addrs| && o.matcher.value.hasIps && o.matcher.value.ip(addrs[i])
  }

  /** A literal address against the IP rules. */
  predicate MatchesLiteral(o: Outbound, target: Target) {
    CatchAll(o) ||
    (o.matcher.Some? && SockOf(target).Some? && o.matcher.value.hasIps && o.matcher.value.ip(SockOf(target).value))
  }

  /** Resolved addresses can decide this outbound. */
  predicate NeedsAddress(o: Outbound, lazy: bool, target: Target) {
    target.kind == DOMAIN && lazy && HasIpRules(o)
  }

  method AnyResolved(o: Outbound, addrs: seq<IpRules.Sock>) returns (r: bool)
    ensures r <==> MatchesResolved(o, addrs)
  {
    if o.matcher.None? {
      return false;
    }
    for i := 0 to |addrs|
      invariant forall j :: 0 <= j < i ==> !(o.matcher.value.hasIps && o.matcher.value.ip(addrs[j]))
    {
      if o.matcher.value.hasIps && o.matcher.value.ip(addrs[i]) {
        return true;
      }
    }
    r := false;
  }

  /** The pass from outbound i on. `lazyUsed` is set once addresses were asked for. */
  function SelectFrom(outs: seq<Outbound>, lazy: bool, target: Target, addrs: seq<IpRules.Sock>, lazyUsed: bool,
                      i: nat): Choice
    requires i <= |outs|
    decreases |outs| - i
  {
    if i == |outs| then NoMatch
    else if MatchesDomain(outs[i], target) then
      Chosen(i, lazyUsed && target.kind == DOMAIN && CatchAll(outs[i]))
    else if NeedsAddress(outs[i], lazy, target) && addrs == [] then NeedsResolve
    else if NeedsAddress(outs[i], lazy, target) && MatchesResolved(outs[i], addrs) then Chosen(i, true)
    else if target.kind != DOMAIN && MatchesLiteral(outs[i], target) then Chosen(i, false)
    else SelectFrom(outs, lazy, target, addrs, lazyUsed, i + 1)
  }

  function Select(outs: seq<Outbound>, lazy: bool, target: Target, addrs: seq<IpRules.Sock>, lazyUsed: bool): Choice {
    SelectFrom(outs, lazy, target, addrs, lazyUsed, 0)
  }

  method SelectOutboundNow(outs: seq<Outbound>, lazy: bool, target: Target, addrs: seq<IpRules.Sock>, lazyUsed: bool)
    returns (r: Choice)
    ensures r == Select(outs, lazy, target, addrs, lazyUsed)
  {
    for i := 0 to |outs|
      invariant SelectFrom(outs, lazy, target, addrs, lazyUsed, i) == Select(outs, lazy, target, addrs, lazyUsed)
    {
      var o := outs[i];
      if MatchesDomain(o, target) {
        return Chosen(i, lazyUsed && target.kind == DOMAIN && (o.matchAll || !o.hasRules));
      }
      if target.kind == DOMAIN && lazy && HasIpRules(o) {
        if |addrs| == 0 {
          return NeedsResolve;
        }
        var hit := AnyResolved(o, addrs);
        if hit {
          return Chosen(i, true);
        }
      }
      if target.kind != DOMAIN && MatchesLiteral(o, target) {
        return Chosen(i, false);
      }
    }
    r := NoMatch;
  }

  // ----- first-match semantics

  /** Outbound o takes the target, given these addresses: domain rule, catch-all, resolved or literal IP. */
  predicate Hits(o: Outbound, lazy: bool, target: Target, addrs: seq<IpRules.Sock>) {
    || MatchesDomain(o, target)
    || (NeedsAddress(o, lazy, target) && MatchesResolved(o, addrs))
    || (target.kind != DOMAIN && MatchesLiteral(o, target))
  }

  ghost predicate FirstHit(outs: seq<Outbound>, lazy: bool, target: Target, addrs: seq<IpRules.Sock>, i: nat) {
    && i < |outs| && Hits(outs[i], lazy, target, addrs)
    && forall j :: 0 <= j < i ==> !Hits(outs[j], lazy, target, addrs)
  }

  /** With addresses at hand the pass is exactly first match in configuration order. */
  lemma SelectIsFirstMatch(outs: seq<Outbound>, lazy: bool, target: Target, addrs: seq<IpRules.Sock>, lazyUsed: bool)
    requires addrs != []
    ensures match Select(outs, lazy, target, addrs, lazyUsed)
            case Chosen(i, _) => FirstHit(outs, lazy, target, addrs, i)
            case NoMatch => forall j :: 0 <= j < |outs| ==> !Hits(outs[j], lazy, target, addrs)
            case NeedsResolve => false
  {
    FirstMatchFrom(outs, lazy, target, addrs, lazyUsed, 0);
  }

  lemma {:induction false} FirstMatchFrom(outs: seq<Outbound>, lazy: bool, target: Target, addrs: seq<IpRules.Sock>,
                                          lazyUsed: bool, i: nat)
    requires addrs != [] && i <= |outs|
    requires forall j :: 0 <= j < i ==> !Hits(outs[j], lazy, target, addrs)
    ensures match SelectFrom(outs, lazy, target, addrs, lazyUsed, i)
            case Chosen(k, _) => FirstHit(outs, lazy, target, addrs, k)
            case NoMatch => forall j :: 0 <= j < |outs| ==> !Hits(outs[j], lazy, target, addrs)
            case NeedsResolve => false
    decreases |outs| - i
  {
    if i < |outs| && !Hits(outs[i], lazy, target, addrs) {
      FirstMatchFrom(outs, lazy, target, addrs, lazyUsed, i + 1);
    }
  }

  function Index(c: Choice): Option<nat> {
    if c.Chosen? then Some(c.index) else None
  }

  /** What is settled without addresses is not changed by any addresses. */
  lemma {:induction false} LazyIsEager(outs: seq<Outbound>, lazy: bool, target: Target, addrs: seq<IpRules.Sock>,
                                       lazyUsed: bool, lazyUsed': bool, i: nat)
    requires i <= |outs|
    requires SelectFrom(outs, lazy, target, [], lazyUsed, i) != NeedsResolve
    ensures Index(SelectFrom(outs, lazy, target, addrs, lazyUsed', i)) ==
            Index(SelectFrom(outs, lazy, target, [], lazyUsed, i))
    ensures !SelectFrom(outs, lazy, target, addrs, lazyUsed', i).NeedsResolve?
    decreases |outs| - i
  {
    if i < |outs|
       && SelectFrom(outs, lazy, target, [], lazyUsed, i) == SelectFrom(outs, lazy, target, [], lazyUsed, i + 1) {
      if !MatchesDomain(outs[i], target) && !(target.kind != DOMAIN && MatchesLiteral(outs[i], target)) {
        LazyIsEager(outs, lazy, target, addrs, lazyUsed, lazyUsed', i + 1);
      }
    }
  }

  /** Addresses are asked for exactly when an undecided IP-rule outbound comes before any other hit. */
  lemma {:induction false} ResolveExactlyWhenNeeded(outs: seq<Outbound>, lazy: bool, target: Target, lazyUsed: bool,
                                                    i: nat)
    requires i <= |outs|
    ensures SelectFrom(outs, lazy, target, [], lazyUsed, i) == NeedsResolve <==>
              exists k :: i <= k < |outs| && NeedsAddress(outs[k], lazy, target)
                          && forall j :: i <= j <= k ==> !Hits(outs[j], lazy, target, [])
    decreases |outs| - i
  {
    if i < |outs| {
      ResolveExactlyWhenNeeded(outs, lazy, target, lazyUsed, i + 1);
      assert !MatchesResolved(outs[i], []);
      if !Hits(outs[i], lazy, target, []) {
        if NeedsAddress(outs[i], lazy, target) {
          assert forall j :: i <= j <= i ==> !Hits(outs[j], lazy, target, []);
        } else if k :| i + 1 <= k < |outs| && NeedsAddress(outs[k], lazy, target)
                       && forall j :: i + 1 <= j <= k ==> !Hits(outs[j], lazy, target, []) {
          assert forall j :: i <= j <= k ==> !Hits(outs[j], lazy, target, []);
        }
      }
    }
  }

  /** Both passes together: the outbound of the first match, whatever the resolver answers. */
  lemma TwoPassesAreFirstMatch(outs: seq<Outbound>, lazy: bool, target: Target, addrs: seq<IpRules.Sock>)
    requires addrs != []
    ensures var first := Select(outs, lazy, target, [], false);
            var last := if first == NeedsResolve then Select(outs, lazy, target, addrs, true) else first;
            && (last.Chosen? ==> FirstHit(outs, lazy, target, addrs, last.index))
            && (!last.Chosen? ==> forall j :: 0 <= j < |outs| ==> !Hits(outs[j], lazy, target, addrs))
  {
    SelectIsFirstMatch(outs, lazy, target, addrs, true);
    if Select(outs, lazy, target, [], false) != NeedsResolve {
      LazyIsEager(outs, lazy, target, addrs, false, true, 0);
    }
  }

  // ----- literal targets, in octets

  /** The CIDR contains the address of this type (1 for IPv4, 4 for IPv6), given as octets in network order. */
  predicate Contains(c: IpRules.Cidr, kind: byte, host: bytes) {
    || (kind == 1 && |host| == 4 && c.V4?
        && var word := (host[0] as nat) * 0x100_0000 + (host[1] as nat) * 0x1_0000 + (host[2] as nat) * 0x100 + host[3];
           BitAnd(word, c.mask) == c.addr)
    || (kind == 4 && |host| == 16 && c.V6? && |c.mask6| == 16 && AndBytes(host, c.mask6) == c.addr6)
  }

  /** The IP half of an outbound's matcher is the scan of a CIDR list. */
  ghost predicate ByCidrs(o: Outbound, cidrs: seq<IpRules.Cidr>) {
    o.matcher.Some? ==>
      && IpRules.AllTyped(cidrs) && (o.matcher.value.hasIps <==> cidrs != [])
      && forall a :: IpRules.WellTypedSock(a) ==> (o.matcher.value.ip(a) <==> IpRules.LinearMatches(cidrs, a))
  }

  /** What an outbound does with a target that is an address: it takes everything, or one of its CIDRs contains it. */
  ghost predicate TakesLiteral(o: Outbound, cidrs: seq<IpRules.Cidr>, target: Target) {
    || o.matchAll || !o.hasRules
    || (o.matcher.Some? && exists i :: 0 <= i < |cidrs| && Contains(cidrs[i], target.kind, target.host))
  }

  lemma LiteralHits(o: Outbound, cidrs: seq<IpRules.Cidr>, lazy: bool, target: Target, addrs: seq<IpRules.Sock>)
    requires ByCidrs(o, cidrs) && target.kind != 3
    ensures Hits(o, lazy, target, addrs) <==> TakesLiteral(o, cidrs, target)
  {
    if o.matcher.Some? {
      match SockOf(target) {
        case Some(s) =>
          assert IpRules.WellTypedSock(s);
          assert forall i :: 0 <= i < |cidrs| ==>
                   (IpRules.RuleMatches(cidrs[i], s) <==> Contains(cidrs[i], target.kind, target.host));
        case None =>
      }
    }
  }

  /** A target that is an address goes to the first outbound in order that takes it, and its answer never expires. */
  lemma LiteralSelection(outs: seq<Outbound>, lists: seq<seq<IpRules.Cidr>>, lazy: bool, target: Target,
                         addrs: seq<IpRules.Sock>, lazyUsed: bool)
    requires |lists| == |outs| && target.kind != 3 && forall i :: 0 <= i < |outs| ==> ByCidrs(outs[i], lists[i])
    ensures match Select(outs, lazy, target, addrs, lazyUsed)
            case Chosen(k, ttl) =>
              && !ttl && k < |outs| && TakesLiteral(outs[k], lists[k], target)
              && forall j :: 0 <= j < k ==> !TakesLiteral(outs[j], lists[j], target)
            case NoMatch => forall j :: 0 <= j < |outs| ==> !TakesLiteral(outs[j], lists[j], target)
            case NeedsResolve => false
  {
    forall j | 0 <= j < |outs| ensures Hits(outs[j], lazy, target, addrs) <==> TakesLiteral(outs[j], lists[j], target) {
      LiteralHits(outs[j], lists[j], lazy, target, addrs);
    }
    hide TakesLiteral, ByCidrs;
    LiteralFirst(outs, lazy, target, addrs, lazyUsed, 0);
  }

  lemma {:induction false} LiteralFirst(outs: seq<Outbound>, lazy: bool, target: Target, addrs: seq<IpRules.Sock>,
                                        lazyUsed: bool, i: nat)
    requires target.kind != 3 && i <= |outs| && forall j :: 0 <= j < i ==> !Hits(outs[j], lazy, target, addrs)
    ensures match SelectFrom(outs, lazy, target, addrs, lazyUsed, i)
            case Chosen(k, ttl) => !ttl && FirstHit(outs, lazy, target, addrs, k)
            case NoMatch => forall j :: 0 <= j < |outs| ==> !Hits(outs[j], lazy, target, addrs)
            case NeedsResolve => false
    decreases |outs| - i
  {
    if i < |outs| && !Hits(outs[i], lazy, target, addrs) {
      LiteralFirst(outs, lazy, target, addrs, lazyUsed, i + 1);
    }
  }

  // ----- binding the matchers

  function UpToCatchAll(outs: seq<Outbound>): (n: nat)
    ensures n <= |outs|
    ensures forall j :: 0 <= j < n ==> !CatchAll(outs[j])
    ensures n < |outs| ==> CatchAll(outs[n])
  {
    if outs == [] || CatchAll(outs[0]) then 0 else 1 + UpToCatchAll(outs[1..])
  }

  /** The server's groups come before the main ones. */
  function Found(server: bytes -> Option<Matcher>, main: bytes -> Option<Matcher>, tag: bytes): Option<Matcher> {
    if server(tag).Some? then server(tag) else main(tag)
  }

  /** Every matcher bound, wanted or not. */
  function BindAll(outs: seq<Outbound>, server: bytes -> Option<Matcher>,
                   main: bytes -> Option<Matcher>): (r: seq<Outbound>)
    ensures |r| == |outs| && forall i :: 0 <= i < |outs| ==>
            r[i] == outs[i].(matcher := Found(server, main, outs[i].tag))
  {
    seq(|outs|, i requires 0 <= i < |outs| => outs[i].(matcher := Found(server, main, outs[i].tag)))
  }

  /** The binding loop, which stops at the first catch-all. */
  method BindMatchers(outs: seq<Outbound>, server: bytes -> Option<Matcher>, main: bytes -> Option<Matcher>)
    returns (bound: seq<Outbound>, routeEnabled: bool)
    ensures |bound| == |outs|
    ensures forall i :: 0 <= i < UpToCatchAll(outs) ==> bound[i] == BindAll(outs, server, main)[i]
    ensures forall i :: 0 <= i < UpToCatchAll(outs) ==>
              bound[i].matcher == match server(outs[i].tag) case Some(m) => Some(m) case None => main(outs[i].tag)
    ensures forall i :: UpToCatchAll(outs) <= i < |outs| ==> CatchAll(bound[i]) == CatchAll(outs[i])
    ensures routeEnabled <==> UpToCatchAll(outs) > 0
  {
    var out := new Outbound[|outs|](i requires 0 <= i < |outs| => outs[i]);
    routeEnabled := false;
    var n := UpToCatchAll(outs);
    for i := 0 to |outs|
      invariant i <= n
      invariant routeEnabled <==> i > 0
      invariant forall j :: 0 <= j < i ==> out[j] == BindAll(outs, server, main)[j]
      invariant forall j :: i <= j < |outs| ==> out[j] == outs[j]
    {
      out[i] := out[i].(matcher := None);
      if out[i].matchAll || !out[i].hasRules {
        break;
      }
      routeEnabled := true;
      var matcher := server(out[i].tag);
      if matcher.None? {
        matcher := main(out[i].tag);
      }
      out[i] := out[i].(matcher := matcher);
    }
    bound := out[..];
  }

  lemma {:induction false} AgreeUpToCatchAll(a: seq<Outbound>, b: seq<Outbound>, n: nat, lazy: bool, target: Target,
                                             addrs: seq<IpRules.Sock>, lazyUsed: bool, i: nat)
    requires |a| == |b| && i <= n <= |a|
    requires forall j :: 0 <= j < n ==> a[j] == b[j]
    requires n < |a| ==> CatchAll(a[n]) && CatchAll(b[n])
    ensures SelectFrom(a, lazy, target, addrs, lazyUsed, i) == SelectFrom(b, lazy, target, addrs, lazyUsed, i)
    decreases n - i
  {
    if i < n { AgreeUpToCatchAll(a, b, n, lazy, target, addrs, lazyUsed, i + 1); }
  }

  /** Matchers left unbound from the first catch-all on are never consulted. */
  lemma UnboundNeverConsulted(outs: seq<Outbound>, bound: seq<Outbound>, server: bytes -> Option<Matcher>,
                              main: bytes -> Option<Matcher>, lazy: bool, target: Target,
                              addrs: seq<IpRules.Sock>, lazyUsed: bool)
    requires |bound| == |outs|
    requires forall i :: 0 <= i < UpToCatchAll(outs) ==> bound[i] == BindAll(outs, server, main)[i]
    requires forall i :: UpToCatchAll(outs) <= i < |outs| ==> CatchAll(bound[i]) == CatchAll(outs[i])
    ensures Select(bound, lazy, target, addrs, lazyUsed) ==
            Select(BindAll(outs, server, main), lazy, target, addrs, lazyUsed)
  {
    AgreeUpToCatchAll(bound, BindAll(outs, server, main), UpToCatchAll(outs), lazy, target, addrs, lazyUsed, 0);
  }

  /** When routing is off the first outbound is what the pass would choose anyway. */
  lemma RoutingOffIsFirst(outs: seq<Outbound>, lazy: bool, target: Target, addrs: seq<IpRules.Sock>, lazyUsed: bool)
    requires outs != [] && UpToCatchAll(outs) == 0
    ensures Index(Select(outs, lazy, target, addrs, lazyUsed)) == Some(0)
  {
  }

  // ----- what the ttl mark says

  /** A choice made with addresses is marked for expiry unless a domain or literal rule made it. */
  lemma {:induction false} TtlMarks(outs: seq<Outbound>, lazy: bool, target: Target, addrs: seq<IpRules.Sock>, i: nat)
    requires i <= |outs| && addrs != []
    ensures match SelectFrom(outs, lazy, target, addrs, true, i)
            case Chosen(k, ttl) =>
              && k < |outs|
              && (!ttl <==> target.kind != DOMAIN || (MatchesDomain(outs[k], target) && !CatchAll(outs[k])))
            case _ => true
    decreases |outs| - i
  {
    if i < |outs| { TtlMarks(outs, lazy, target, addrs, i + 1); }
  }

  /** No address list can make an IP rule before outbound k match. */
  ghost predicate NeverMatchBefore(outs: seq<Outbound>, lazy: bool, target: Target, k: nat) {
    forall j, a :: 0 <= j < k && j < |outs| && NeedsAddress(outs[j], lazy, target) ==> !outs[j].matcher.value.ip(a)
  }

  /** Every address list leads to outbound k. */
  ghost predicate AlwaysChooses(outs: seq<Outbound>, lazy: bool, target: Target, k: nat) {
    forall other :: other != [] ==> Index(Select(outs, lazy, target, other, true)) == Some(k)
  }

  /** A choice without expiry is independent of the addresses exactly when no IP rule that was asked before it
      can match any address at all. */
  lemma UnmarkedIsIndependentIff(outs: seq<Outbound>, lazy: bool, target: Target, addrs: seq<IpRules.Sock>, k: nat)
    requires addrs != [] && Select(outs, lazy, target, addrs, true) == Chosen(k, false)
    ensures AlwaysChooses(outs, lazy, target, k) <==> NeverMatchBefore(outs, lazy, target, k)
  {
    SelectIsFirstMatch(outs, lazy, target, addrs, true);
    TtlMarks(outs, lazy, target, addrs, 0);
    if AlwaysChooses(outs, lazy, target, k) {
      forall j, a | 0 <= j < k && j < |outs| && NeedsAddress(outs[j], lazy, target)
        ensures !outs[j].matcher.value.ip(a)
      {
        SelectIsFirstMatch(outs, lazy, target, [a], true);
        assert Index(Select(outs, lazy, target, [a], true)) == Some(k);
        assert !MatchesResolved(outs[j], [a]);
        assert [a][0] == a;
      }
    }
    if NeverMatchBefore(outs, lazy, target, k) {
      forall other | other != [] ensures Index(Select(outs, lazy, target, other, true)) == Some(k) {
        SelectIsFirstMatch(outs, lazy, target, other, true);
        StillFirst(outs, lazy, target, addrs, other, k);
      }
    }
  }

  /** What misses before k with one address list misses with any other, and k is hit whatever the addresses. */
  lemma StillFirst(outs: seq<Outbound>, lazy: bool, target: Target, addrs: seq<IpRules.Sock>,
                   other: seq<IpRules.Sock>, k: nat)
    requires FirstHit(outs, lazy, target, addrs, k) && NeverMatchBefore(outs, lazy, target, k)
    requires target.kind != DOMAIN || MatchesDomain(outs[k], target)
    ensures FirstHit(outs, lazy, target, other, k)
  {
    forall j | 0 <= j < k ensures !Hits(outs[j], lazy, target, other) {
      assert !Hits(outs[j], lazy, target, addrs);
    }
  }

  /** On the configuration: outbound k is chosen without asking for addresses exactly when nothing before it needs
      any; then no address list changes the choice. */
  lemma SettledWithoutAddressesIff(outs: seq<Outbound>, lazy: bool, target: Target, addrs: seq<IpRules.Sock>, k: nat)
    requires addrs != [] && Select(outs, lazy, target, addrs, true) == Chosen(k, false)
    ensures Index(Select(outs, lazy, target, [], false)) == Some(k) <==>
              forall j :: 0 <= j < k && j < |outs| ==> !NeedsAddress(outs[j], lazy, target)
    ensures Index(Select(outs, lazy, target, [], false)) == Some(k) ==> AlwaysChooses(outs, lazy, target, k)
  {
    SelectIsFirstMatch(outs, lazy, target, addrs, true);
    TtlMarks(outs, lazy, target, addrs, 0);
    SettledFrom(outs, lazy, target, addrs, k, 0);
    if Index(Select(outs, lazy, target, [], false)) == Some(k) {
      forall other | other != [] ensures Index(Select(outs, lazy, target, other, true)) == Some(k) {
        LazyIsEager(outs, lazy, target, other, false, true, 0);
      }
    }
  }

  lemma {:induction false} SettledFrom(outs: seq<Outbound>, lazy: bool, target: Target, addrs: seq<IpRules.Sock>,
                                       k: nat, i: nat)
    requires FirstHit(outs, lazy, target, addrs, k) && i <= k
    requires target.kind != DOMAIN || MatchesDomain(outs[k], target)
    ensures Index(SelectFrom(outs, lazy, target, [], false, i)) == Some(k) <==>
              forall j :: i <= j < k ==> !NeedsAddress(outs[j], lazy, target)
    decreases k - i
  {
    if i < k {
      assert !Hits(outs[i], lazy, target, addrs);
      SettledFrom(outs, lazy, target, addrs, k, i + 1);
    }
  }

  /** An unmarked choice can still have depended on the addresses: an earlier IP rule missed. */
  lemma UnmarkedMayDependOnAddresses(ips: Matcher, names: Matcher, host: bytes, near: IpRules.Sock, far: IpRules.Sock)
    requires ips.hasIps && !ips.domain(host) && ips.ip(near) && !ips.ip(far) && names.domain(host)
    ensures var outs := [Outbound([], false, true, Some(ips)), Outbound([], false, true, Some(names))];
            var t := Target(DOMAIN, host, 0);
            && Select(outs, true, t, [near], true) == Chosen(0, true)
            && Select(outs, true, t, [far], true) == Chosen(1, false)
  {
    var outs := [Outbound([], false, true, Some(ips)), Outbound([], false, true, Some(names))];
    var t := Target(DOMAIN, host, 0);
    assert MatchesResolved(outs[0], [near]) by { assert ips.ip([near][0]); }
    assert !MatchesResolved(outs[0], [far]);
    assert SelectFrom(outs, true, t, [far], true, 1) == Chosen(1, false);
  }
}
