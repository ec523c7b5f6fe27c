/** The per-session table of UDP route mappings: 64 buckets of linked mappings, pruned while they are walked. */
module UdpMappings {
  import opened Address
  import opened Bytes
  import opened Routing
  import opened RouteState
  import opened RouteChains

  const BUCKETS := 64
  const DRAIN_TIMEOUT := 1000

  /** `linked` while the mapping sits in the active queue of a cache entry. */
  datatype Mapping = Mapping(key: Key, hash: nat, lastSeen: nat, outbound: nat, linked: bool, stale: bool)

  predicate TimedOut(m: Mapping, now: nat, timeout: nat) {
    (m.stale && m.lastSeen + DRAIN_TIMEOUT < now) || m.lastSeen + timeout < now
  }

  /** The comparison of two addresses, both sides lower-cased. */
  predicate AddrEqual(k: Key, t: Target) {
    && k.kind == t.kind && |k.host| == |t.host| && k.port == t.port
    && if t.kind == DOMAIN then forall i :: 0 <= i < |t.host| ==> ToLower(k.host[i]) == ToLower(t.host[i])
       else k.host == t.host
  }

  /** A stored key is in the lower case its insertion put it in. */
  predicate Folded(k: Key) { k.kind == DOMAIN ==> Fold(k.host) == k.host }

  lemma AddrEqualIsKey(k: Key, t: Target)
    requires Folded(k)
    ensures AddrEqual(k, t) <==> k == KeyOf(t)
  {
    if k.kind == DOMAIN {
      assert forall i :: 0 <= i < |k.host| ==> k.host[i] == Fold(k.host)[i];
      FoldTwice(t.host);
      if AddrEqual(k, t) { assert k.host == Fold(t.host); }
      if k == KeyOf(t) {
        assert forall i :: 0 <= i < |t.host| ==> ToLower(k.host[i]) == Fold(Fold(t.host))[i];
      }
    }
  }

  // ----- one bucket, as a value

  /** A walk for a key: timed-out mappings go until the key is found alive; the one found is touched. */
  function Walked(c: seq<Mapping>, key: Key, now: nat, timeout: nat): seq<Mapping> {
    if c == [] then []
    else if TimedOut(c[0], now, timeout) then Walked(c[1..], key, now, timeout)
    else if c[0].key == key then [c[0].(lastSeen := now)] + c[1..]
    else [c[0]] + Walked(c[1..], key, now, timeout)
  }

  /** Where the found mapping ends up in the walked bucket. */
  function FoundAt(c: seq<Mapping>, key: Key, now: nat, timeout: nat): (r: Option<nat>)
    ensures r.Some? ==> r.value < |Walked(c, key, now, timeout)|
  {
    if c == [] then None
    else if TimedOut(c[0], now, timeout) then FoundAt(c[1..], key, now, timeout)
    else if c[0].key == key then Some(0)
    else
      var r := FoundAt(c[1..], key, now, timeout);
      if r.Some? then Some(r.value + 1) else None
  }

  function Rewritten(m: Mapping, outbound: nat, tracks: bool, now: nat): Mapping {
    Mapping(m.key, m.hash, now, outbound, tracks, m.stale && !m.linked && !tracks)
  }

  function Inserted(c: seq<Mapping>, key: Key, hash: nat, outbound: nat, tracks: bool, now: nat,
                    timeout: nat): seq<Mapping> {
    var w := Walked(c, key, now, timeout);
    match FoundAt(c, key, now, timeout)
    case Some(k) => w[k := Rewritten(w[k], outbound, tracks, now)]
    case None => [Mapping(key, hash, now, outbound, tracks, false)] + w
  }

  /** The walk with k mappings behind it. */
  function WalkFrom(c: seq<Mapping>, k: nat, key: Key, now: nat, timeout: nat): seq<Mapping>
    requires k <= |c|
  {
    c[..k] + Walked(c[k..], key, now, timeout)
  }

  function FoundFrom(c: seq<Mapping>, k: nat, key: Key, now: nat, timeout: nat): Option<nat>
    requires k <= |c|
  {
    var r := FoundAt(c[k..], key, now, timeout);
    if r.Some? then Some(r.value + k) else None
  }

  lemma WalkStart(c: seq<Mapping>, key: Key, now: nat, timeout: nat)
    ensures WalkFrom(c, 0, key, now, timeout) == Walked(c, key, now, timeout)
    ensures FoundFrom(c, 0, key, now, timeout) == FoundAt(c, key, now, timeout)
    ensures WalkFrom(c, |c|, key, now, timeout) == c && FoundFrom(c, |c|, key, now, timeout) == None
  {
    assert c[0..] == c && c[..0] == [] && c[|c|..] == [] && c[..|c|] == c;
  }

  lemma WalkDrops(c: seq<Mapping>, k: nat, key: Key, now: nat, timeout: nat)
    requires k < |c| && TimedOut(c[k], now, timeout)
    ensures WalkFrom(Removed(c, k), k, key, now, timeout) == WalkFrom(c, k, key, now, timeout)
    ensures FoundFrom(Removed(c, k), k, key, now, timeout) == FoundFrom(c, k, key, now, timeout)
  {
    assert c[k..][1..] == Removed(c, k)[k..];
    assert Removed(c, k)[..k] == c[..k];
  }

  lemma WalkFinds(c: seq<Mapping>, k: nat, key: Key, now: nat, timeout: nat)
    requires k < |c| && !TimedOut(c[k], now, timeout) && c[k].key == key
    ensures WalkFrom(c, k, key, now, timeout) == c[k := c[k].(lastSeen := now)]
    ensures FoundFrom(c, k, key, now, timeout) == Some(k)
  {
    assert c[k := c[k].(lastSeen := now)] == c[..k] + ([c[k].(lastSeen := now)] + c[k..][1..]);
  }

  lemma WalkPasses(c: seq<Mapping>, k: nat, key: Key, now: nat, timeout: nat)
    requires k < |c| && !TimedOut(c[k], now, timeout) && c[k].key != key
    ensures WalkFrom(c, k + 1, key, now, timeout) == WalkFrom(c, k, key, now, timeout)
    ensures FoundFrom(c, k + 1, key, now, timeout) == FoundFrom(c, k, key, now, timeout)
  {
    assert c[k..][1..] == c[k + 1..];
    assert c[..k + 1] == c[..k] + [c[k]];
  }

  // ----- what a walk means

  function Alive(c: seq<Mapping>, now: nat, timeout: nat): seq<Mapping> {
    if c == [] then [] else (if TimedOut(c[0], now, timeout) then [] else [c[0]]) + Alive(c[1..], now, timeout)
  }

  /** The first mapping of the key that has not timed out. */
  ghost predicate FirstAlive(c: seq<Mapping>, i: nat, key: Key, now: nat, timeout: nat) {
    && i < |c| && c[i].key == key && !TimedOut(c[i], now, timeout)
    && forall j :: 0 <= j < i ==> c[j].key != key || TimedOut(c[j], now, timeout)
  }

  function AliveIndex(c: seq<Mapping>, key: Key, now: nat, timeout: nat): (r: Option<nat>)
    ensures r.Some? ==> FirstAlive(c, r.value, key, now, timeout)
    ensures r.None? ==> forall i :: 0 <= i < |c| && c[i].key == key ==> TimedOut(c[i], now, timeout)
  {
    if c == [] then None
    else if !TimedOut(c[0], now, timeout) && c[0].key == key then Some(0)
    else
      var r := AliveIndex(c[1..], key, now, timeout);
      if r.Some? then Some(r.value + 1) else None
  }

  /** Timed-out mappings are gone, up to the one found; every other mapping keeps its place. */
  ghost predicate PrunesTimedOut(c: seq<Mapping>, key: Key, now: nat, timeout: nat) {
    match AliveIndex(c, key, now, timeout)
    case None => Walked(c, key, now, timeout) == Alive(c, now, timeout) && FoundAt(c, key, now, timeout) == None
    case Some(i) =>
      && Walked(c, key, now, timeout) == Alive(c[..i], now, timeout) + [c[i].(lastSeen := now)] + c[i + 1..]
      && FoundAt(c, key, now, timeout) == Some(|Alive(c[..i], now, timeout)|)
  }

  lemma AliveFront(m: Mapping, c: seq<Mapping>, now: nat, timeout: nat)
    ensures Alive([m] + c, now, timeout) == (if TimedOut(m, now, timeout) then [] else [m]) + Alive(c, now, timeout)
  {
    assert ([m] + c)[1..] == c;
  }

  lemma WalkFront(m: Mapping, c: seq<Mapping>, key: Key, now: nat, timeout: nat)
    requires TimedOut(m, now, timeout) || m.key != key
    ensures var w := if TimedOut(m, now, timeout) then [] else [m];
            && Walked([m] + c, key, now, timeout) == w + Walked(c, key, now, timeout)
            && FoundAt([m] + c, key, now, timeout) ==
               match FoundAt(c, key, now, timeout) case None => None case Some(k) => Some(|w| + k)
  {
    assert ([m] + c)[1..] == c;
  }

  lemma {:induction false} WalkPrunesTimedOut(c: seq<Mapping>, key: Key, now: nat, timeout: nat)
    ensures PrunesTimedOut(c, key, now, timeout)
  {
    if c != [] {
      var m, rest := c[0], c[1..];
      assert c == [m] + rest;
      if AliveIndex(c, key, now, timeout) == Some(0) {
        assert c[..0] == [];
      } else {
        WalkPrunesTimedOut(rest, key, now, timeout);
        WalkLater(m, rest, key, now, timeout);
      }
    }
  }

  lemma WalkLater(m: Mapping, rest: seq<Mapping>, key: Key, now: nat, timeout: nat)
    requires TimedOut(m, now, timeout) || m.key != key
    requires PrunesTimedOut(rest, key, now, timeout)
    ensures PrunesTimedOut([m] + rest, key, now, timeout)
  {
    hide Walked, FoundAt, Alive, TimedOut;
    var c := [m] + rest;
    assert c[1..] == rest;
    AliveFront(m, rest, now, timeout);
    WalkFront(m, rest, key, now, timeout);
    if AliveIndex(rest, key, now, timeout).Some? {
      var i := AliveIndex(rest, key, now, timeout).value;
      assert c[..i + 1] == [m] + rest[..i] && c[i + 2..] == rest[i + 1..];
      AliveFront(m, rest[..i], now, timeout);
    }
  }

  // ----- one bucket, as linked mappings

  class Link {
    var next: Link?
    var info: Mapping
    /** The bucket the mapping was put in. */
    ghost const home: object

    constructor (next: Link?, info: Mapping, ghost home: object)
      ensures this.next == next && this.info == info && this.home == home
    {
      this.next := next;
      this.info := info;
      this.home := home;
    }
  }

  function Infos(links: seq<Link>): (r: seq<Mapping>)
    reads links
    ensures |r| == |links| && forall k :: 0 <= k < |links| ==> r[k] == links[k].info
  {
    seq(|links|, k requires 0 <= k < |links| reads links => links[k].info)
  }

  ghost function From(links: seq<Link>, k: nat): Link? { if k < |links| then links[k] else null }

  /** The links hang together in this order, each once. */
  ghost predicate Chained(head: Link?, links: seq<Link>)
    reads links
  {
    && head == From(links, 0)
    && (forall k {:trigger links[k].next} :: 0 <= k < |links| ==> links[k].next == From(links, k + 1))
    && (forall j, k :: 0 <= j < k < |links| ==> links[j] != links[k])
  }

  lemma RemovedDistinct(s: seq<Link>, k: nat)
    requires k < |s| && forall i, j :: 0 <= i < j < |s| ==> s[i] != s[j]
    ensures forall i, j :: 0 <= i < j < |Removed(s, k)| ==> Removed(s, k)[i] != Removed(s, k)[j]
  {
  }

  lemma RemovedAt(s: seq<Link>, k: nat, i: nat)
    requires k < |s| && i < |s| - 1
    ensures Removed(s, k)[i] == if i < k then s[i] else s[i + 1]
    ensures From(Removed(s, k), 0) == From(s, if k == 0 then 1 else 0)
    ensures From(Removed(s, k), i + 1) == From(s, if i + 1 < k then i + 1 else i + 2)
  {
  }

  class Bucket {
    var head: Link?
    ghost var links: seq<Link>

    ghost predicate Valid()
      reads this, links
    {
      Chained(head, links) && AtHome()
    }

    ghost predicate AtHome()
      reads this
    {
      forall k :: 0 <= k < |links| ==> links[k].home == this
    }

    ghost function Contents(): seq<Mapping>
      reads this, links
    {
      Infos(links)
    }

    constructor ()
      ensures Valid() && links == []
    {
      head, links := null, [];
    }

    lemma NextLink(k: nat)
      requires Valid() && k <= |links|
      ensures k == 0 ==> head == From(links, k)
      ensures k < |links| ==> links[k].next == From(links, k + 1)
    {
    }

    /** A bucket none of whose links changed is what it was. */
    twostate lemma Kept()
      requires old(Valid()) && unchanged(this) && forall k :: 0 <= k < |old(links)| ==> unchanged(old(links)[k])
      ensures links == old(links) && Valid() && Contents() == old(Contents())
    {
      assert forall k :: 0 <= k < |links| ==>
             links[k].next == old(links[k].next) && links[k].info == old(links[k].info);
    }

    /** Takes out the link after the first k: the pointer to it, in the bucket or in its predecessor, skips it. */
    method Unlink(prev: Link?, cur: Link, ghost k: nat)
      requires Valid() && k < |links| && cur == links[k]
      requires prev == if k == 0 then null else links[k - 1]
      modifies this, if prev == null then {} else {prev}
      ensures Valid() && links == Removed(old(links), k)
      ensures prev != null ==> prev.info == old(prev.info)
    {
      ghost var was := links;
      if prev == null {
        head := cur.next;
      } else {
        prev.next := cur.next;
      }
      links := Removed(links, k);
      hide Removed;
      RemovedDistinct(was, k);
      forall i | 0 <= i < |links| ensures links[i].next == From(links, i + 1) && links[i].home == this {
        RemovedAt(was, k, i);
      }
    }

    lemma InfoAt(k: nat)
      requires k < |links|
      ensures |Contents()| == |links| && Contents()[k] == links[k].info
    {
    }

    /** Every mapping is stored under its lower-cased key, with the hash of that key. */
    ghost predicate KeysFolded(t: Target, hash: nat)
      reads this, links
    {
      forall k :: 0 <= k < |links| ==>
        Folded(links[k].info.key) && (links[k].info.key == KeyOf(t) ==> links[k].info.hash == hash)
    }

    /** The walk's comparison of one link. */
    method Matches(m: Link, t: Target, hash: nat, ghost k: nat) returns (r: bool)
      requires KeysFolded(t, hash) && k < |links| && m == links[k]
      ensures r <==> m.info.key == KeyOf(t)
    {
      AddrEqualIsKey(m.info.key, t);
      r := m.info.hash == hash && AddrEqual(m.info.key, t);
    }

    lemma StillKeyed(was: seq<Mapping>, k: nat, t: Target, hash: nat)
      requires k < |was| && Contents() == Removed(was, k)
      requires forall i :: 0 <= i < |was| ==> Folded(was[i].key) && (was[i].key == KeyOf(t) ==> was[i].hash == hash)
      ensures KeysFolded(t, hash)
    {
      forall i | 0 <= i < |links| ensures links[i].info == was[if i < k then i else i + 1] {
        assert links[i].info == Contents()[i];
      }
    }

    lemma AllFolded(t: Target, hash: nat)
      requires KeysFolded(t, hash)
      ensures forall i :: 0 <= i < |Contents()| ==>
                Folded(Contents()[i].key) && (Contents()[i].key == KeyOf(t) ==> Contents()[i].hash == hash)
    {
      forall i | 0 <= i < |Contents()| ensures Contents()[i] == links[i].info {}
    }

    lemma ContentsAfter(was: seq<Mapping>, k: nat)
      requires k < |was| == |links| + 1 && forall i :: 0 <= i < |links| ==>
               links[i].info == was[if i < k then i else i + 1]
      ensures Contents() == Removed(was, k)
    {
    }

    /** The pruning walk. */
    method Walk(t: Target, hash: nat, now: nat, timeout: nat) returns (m: Link?)
      requires Valid() && KeysFolded(t, hash)
      modifies this, links
      ensures Valid() && forall k :: 0 <= k < |links| ==> links[k] in old(links)
      ensures Contents() == Walked(old(Contents()), KeyOf(t), now, timeout)
      ensures match FoundAt(old(Contents()), KeyOf(t), now, timeout)
              case Some(k) => k < |links| && m == links[k]
              case None => m == null
    {
      hide Walked, FoundAt, WalkFrom, FoundFrom, KeyOf, Chained, KeysFolded, Contents;
      ghost var k, key, was := 0, KeyOf(t), Contents();
      ghost var c := was;
      WalkStart(was, key, now, timeout);
      NextLink(0);
      SameLength();
      var prev: Link? := null;
      m := head;
      while m != null
        invariant Valid() && KeysFolded(t, hash) && 0 <= k <= |links| && m == From(links, k)
        invariant prev == if k == 0 then null else links[k - 1]
        invariant forall i :: 0 <= i < |links| ==> links[i] in old(links)
        invariant c == Contents() && |c| == |links|
        invariant WalkFrom(c, k, key, now, timeout) == WalkFrom(was, 0, key, now, timeout)
        invariant FoundFrom(c, k, key, now, timeout) == FoundFrom(was, 0, key, now, timeout)
        decreases |links| - k
      {
        NextLink(k);
        InfoAt(k);
        var matches := Matches(m, t, hash, k);
        if (m.info.stale && m.info.lastSeen + DRAIN_TIMEOUT < now) || m.info.lastSeen + timeout < now {
          WalkDrops(c, k, key, now, timeout);
          c := Removed(c, k);
          m := Prune(prev, m, k, t, hash);
        } else if matches {
          WalkFinds(c, k, key, now, timeout);
          Touch(m, k, now);
          return;
        } else {
          WalkPasses(c, k, key, now, timeout);
          prev := m;
          m := m.next;
          k := k + 1;
        }
      }
      WalkStart(c, key, now, timeout);
    }

    lemma SameLength()
      ensures |Contents()| == |links|
    {
    }

    method Prune(prev: Link?, cur: Link, ghost k: nat, ghost t: Target, ghost hash: nat) returns (next: Link?)
      requires Valid() && KeysFolded(t, hash) && k < |links| && cur == links[k]
      requires prev == if k == 0 then null else links[k - 1]
      modifies this, if prev == null then {} else {prev}
      ensures Valid() && KeysFolded(t, hash) && links == Removed(old(links), k) && next == From(links, k)
      ensures Contents() == Removed(old(Contents()), k)
    {
      hide Chained, KeyOf, Folded, KeysFolded;
      ghost var was := Contents();
      NextLink(k);
      AllFolded(t, hash);
      next := cur.next;
      Unlink(prev, cur, k);
      forall i | 0 <= i < |links| ensures links[i].info == was[if i < k then i else i + 1] {}
      ContentsAfter(was, k);
      StillKeyed(was, k, t, hash);
    }

    method Touch(m: Link, ghost k: nat, now: nat)
      requires Valid() && k < |links| && m == links[k]
      modifies m`info
      ensures Valid() && Contents() == old(Contents())[k := old(m.info).(lastSeen := now)]
    {
      m.info := m.info.(lastSeen := now);
    }

    /** A new answer for a mapping: off its queue, rewritten, and tracked anew if its entry is. */
    method Renew(m: Link, ghost k: nat, outbound: nat, tracks: bool, now: nat)
      requires Valid() && k < |links| && m == links[k]
      modifies m`info
      ensures Valid() && Contents() == old(Contents())[k := Rewritten(old(m.info), outbound, tracks, now)]
    {
      if m.info.linked {
        m.info := m.info.(linked := false, stale := false);
      }
      m.info := m.info.(outbound := outbound, lastSeen := now);
      if tracks {
        m.info := m.info.(linked := true, stale := false);
      }
    }

    method Prepend(info: Mapping)
      requires Valid()
      modifies this
      ensures Valid() && Contents() == [info] + old(Contents())
      ensures |links| == |old(links)| + 1 && fresh(links[0]) && links[1..] == old(links)
    {
      var m := new Link(head, info, this);
      head := m;
      links := [m] + links;
      assert forall k :: 0 < k < |links| ==> links[k] == old(links)[k - 1];
      assert forall k :: 0 < k < |links| ==> links[k].info == old(Contents())[k - 1];
    }

    method Insert(t: Target, hash: nat, outbound: nat, tracks: bool, now: nat, timeout: nat)
      requires Valid() && KeysFolded(t, hash)
      modifies this, links
      ensures Valid() && forall k :: 0 <= k < |links| ==> links[k] in old(links) || fresh(links[k])
      ensures Contents() == Inserted(old(Contents()), KeyOf(t), hash, outbound, tracks, now, timeout)
    {
      hide Chained, KeysFolded, Walked, FoundAt, Rewritten, KeyOf, Inserted, Contents;
      InsertedIs(Contents(), KeyOf(t), hash, outbound, tracks, now, timeout);
      var m := Walk(t, hash, now, timeout);
      if m != null {
        ghost var k := FoundAt(old(Contents()), KeyOf(t), now, timeout).value;
        InfoAt(k);
        Renew(m, k, outbound, tracks, now);
      } else {
        ghost var walked := links;
        Prepend(Mapping(KeyOf(t), hash, now, outbound, tracks, false));
        assert forall k :: 0 < k < |links| ==> links[k] == walked[k - 1];
      }
    }
  }

  lemma InsertedIs(c: seq<Mapping>, key: Key, hash: nat, outbound: nat, tracks: bool, now: nat, timeout: nat)
    ensures var w := Walked(c, key, now, timeout);
            var new_ := Inserted(c, key, hash, outbound, tracks, now, timeout);
            match FoundAt(c, key, now, timeout)
            case Some(k) => k < |w| && new_ == w[k := Rewritten(w[k], outbound, tracks, now)]
            case None => new_ == [Mapping(key, hash, now, outbound, tracks, false)] + w
  {
  }

  // ----- the table

  /** A bucket holds folded keys of its own hash class, each once. */
  ghost predicate BucketOk(c: seq<Mapping>, b: nat, keyHash: Key -> nat) {
    && (forall k :: 0 <= k < |c| ==>
       Folded(c[k].key) && c[k].hash == keyHash(c[k].key) && LowBits(c[k].hash, BUCKETS) == b)
    && (forall j, k :: 0 <= j < k < |c| ==> c[j].key != c[k].key)
  }

  ghost predicate TableOk(table: seq<seq<Mapping>>, keyHash: Key -> nat) {
    |table| == BUCKETS && forall b :: 0 <= b < BUCKETS ==> BucketOk(table[b], b, keyHash)
  }

  function BucketOf(key: Key, keyHash: Key -> nat): (b: nat)
    ensures b < BUCKETS
  {
    LowBits(keyHash(key), BUCKETS)
  }

  /** The low six bits of the hash. */
  lemma BucketIsRemainder(key: Key, keyHash: Key -> nat)
    ensures BucketOf(key, keyHash) == keyHash(key) % 64
  {
    assert Pow2(6) == 64;
    LowBitsIsRemainder(keyHash(key), 6);
  }

  /** What a lookup answers: the outbound of the mapping it finds. */
  function Answer(table: seq<seq<Mapping>>, keyHash: Key -> nat, timeout: nat, t: Target, now: nat): Option<nat>
    requires |table| == BUCKETS
  {
    var c := table[BucketOf(KeyOf(t), keyHash)];
    var k := FoundAt(c, KeyOf(t), now, timeout);
    if KeyOk(KeyOf(t)) && k.Some? then Some(Walked(c, KeyOf(t), now, timeout)[k.value].outbound) else None
  }

  datatype Event =
    | Ask(target: Target, now: nat)
    | Put(target: Target, outbound: nat, tracks: bool, now: nat)
    | Stale(b: nat, k: nat, now: nat)
    | Detach(b: nat, k: nat)

  /** Stale: the tracked entry changed its outbound. Detach: the tracked entry was recycled. */
  function Step(table: seq<seq<Mapping>>, keyHash: Key -> nat, timeout: nat, e: Event): seq<seq<Mapping>>
    requires |table| == BUCKETS
  {
    match e
    case Ask(t, now) =>
      var b := BucketOf(KeyOf(t), keyHash);
      if KeyOk(KeyOf(t)) then table[b := Walked(table[b], KeyOf(t), now, timeout)] else table
    case Put(t, outbound, tracks, now) =>
      var b := BucketOf(KeyOf(t), keyHash);
      if KeyOk(KeyOf(t))
      then table[b := Inserted(table[b], KeyOf(t), keyHash(KeyOf(t)), outbound, tracks, now, timeout)] else table
    case Stale(b, k, now) =>
      if b < BUCKETS && k < |table[b]| && table[b][k].linked
      then table[b := table[b][k := table[b][k].(stale := true, lastSeen := now)]] else table
    case Detach(b, k) =>
      if b < BUCKETS && k < |table[b]| then table[b := table[b][k := table[b][k].(linked := false)]] else table
  }

  lemma {:induction false} WalkedKeys(c: seq<Mapping>, key: Key, now: nat, timeout: nat)
    ensures forall m :: m in Walked(c, key, now, timeout) ==> exists o :: o in c && o.key == m.key && o.hash == m.hash
  {
    if c != [] {
      assert c == [c[0]] + c[1..];
      WalkedKeys(c[1..], key, now, timeout);
    }
  }

  lemma WalkedAvoids(c: seq<Mapping>, key: Key, now: nat, timeout: nat, other: Key)
    requires forall m :: m in c ==> m.key != other
    ensures forall m :: m in Walked(c, key, now, timeout) ==> m.key != other
  {
    WalkedKeys(c, key, now, timeout);
  }

  lemma FrontOk(m: Mapping, c: seq<Mapping>, b: nat, keyHash: Key -> nat)
    requires BucketOk([m] + c, b, keyHash)
    ensures BucketOk(c, b, keyHash) && BucketOk([m], b, keyHash) && forall o :: o in c ==> o.key != m.key
  {
    var all := [m] + c;
    assert forall k :: 0 <= k < |c| ==> c[k] == all[k + 1];
    assert all[0] == m;
  }

  lemma ConsOk(m: Mapping, c: seq<Mapping>, b: nat, keyHash: Key -> nat)
    requires BucketOk(c, b, keyHash) && BucketOk([m], b, keyHash) && forall o :: o in c ==> o.key != m.key
    ensures BucketOk([m] + c, b, keyHash)
  {
    assert [m][0] == m;
  }

  lemma {:induction false} WalkedOk(c: seq<Mapping>, key: Key, now: nat, timeout: nat, b: nat, keyHash: Key -> nat)
    requires BucketOk(c, b, keyHash)
    ensures BucketOk(Walked(c, key, now, timeout), b, keyHash)
  {
    hide BucketOk, TimedOut;
    if c != [] {
      var m, rest := c[0], c[1..];
      assert c == [m] + rest;
      FrontOk(m, rest, b, keyHash);
      WalkedOk(rest, key, now, timeout, b, keyHash);
      WalkedAvoids(rest, key, now, timeout, m.key);
      ConsOk(m, Walked(rest, key, now, timeout), b, keyHash);
      TouchedOk(m, now, b, keyHash);
      ConsOk(m.(lastSeen := now), rest, b, keyHash);
    }
  }

  lemma TouchedOk(m: Mapping, now: nat, b: nat, keyHash: Key -> nat)
    requires BucketOk([m], b, keyHash)
    ensures BucketOk([m.(lastSeen := now)], b, keyHash)
  {
    assert [m][0] == m;
  }

  lemma {:induction false} FoundIsKey(c: seq<Mapping>, key: Key, now: nat, timeout: nat)
    ensures match FoundAt(c, key, now, timeout)
            case Some(k) => Walked(c, key, now, timeout)[k].key == key
              && Walked(c, key, now, timeout)[k].lastSeen == now
            case None => forall m :: m in Walked(c, key, now, timeout) ==> m.key != key
  {
    if c != [] { FoundIsKey(c[1..], key, now, timeout); }
  }

  lemma InsertedOk(c: seq<Mapping>, key: Key, outbound: nat, tracks: bool, now: nat, timeout: nat, b: nat,
                   keyHash: Key -> nat)
    requires BucketOk(c, b, keyHash) && Folded(key) && BucketOf(key, keyHash) == b
    ensures BucketOk(Inserted(c, key, keyHash(key), outbound, tracks, now, timeout), b, keyHash)
  {
    WalkedOk(c, key, now, timeout, b, keyHash);
    FoundIsKey(c, key, now, timeout);
    var w := Walked(c, key, now, timeout);
    assert forall k :: 0 <= k < |w| ==> w[k] in w;
  }

  lemma StepKeeps(table: seq<seq<Mapping>>, keyHash: Key -> nat, timeout: nat, e: Event)
    requires TableOk(table, keyHash)
    ensures TableOk(Step(table, keyHash, timeout, e), keyHash)
  {
    hide Walked, FoundAt;
    match e
    case Ask(t, now) => WalkedOk(table[BucketOf(KeyOf(t), keyHash)], KeyOf(t), now, timeout,
      BucketOf(KeyOf(t), keyHash), keyHash);
    case Put(t, outbound, tracks, now) =>
      FoldTwice(t.host);
      InsertedOk(table[BucketOf(KeyOf(t), keyHash)], KeyOf(t), outbound, tracks, now, timeout,
        BucketOf(KeyOf(t), keyHash), keyHash);
    case Stale(_, _, _) =>
    case Detach(_, _) =>
  }

  ghost function Run(keyHash: Key -> nat, timeout: nat, events: seq<Event>): (table: seq<seq<Mapping>>)
    ensures TableOk(table, keyHash)
  {
    if events == [] then seq(BUCKETS, _ => [])
    else
      var table := Run(keyHash, timeout, events[..|events| - 1]);
      StepKeeps(table, keyHash, timeout, events[|events| - 1]);
      Step(table, keyHash, timeout, events[|events| - 1])
  }

  /** After any run a lower-cased target has at most one mapping in the whole table. */
  lemma OneMappingPerTarget(keyHash: Key -> nat, timeout: nat, events: seq<Event>, b: nat, j: nat, c: nat, k: nat)
    requires var table := Run(keyHash, timeout, events);
             b < BUCKETS && j < |table[b]| && c < BUCKETS && k < |table[c]| && table[b][j].key == table[c][k].key
    ensures b == c && j == k
  {
    var table := Run(keyHash, timeout, events);
    assert BucketOk(table[b], b, keyHash) && BucketOk(table[c], c, keyHash);
  }

  /** After any run a lookup finds a mapping exactly when the table has one of the lower-cased target that has not
      timed out; it then returns that very mapping, touched. */
  lemma LookupFindsTheLiveMapping(keyHash: Key -> nat, timeout: nat, events: seq<Event>, t: Target, now: nat)
    ensures var table, b := Run(keyHash, timeout, events), BucketOf(KeyOf(t), keyHash);
            match FoundAt(table[b], KeyOf(t), now, timeout)
            case None => forall c, k :: 0 <= c < BUCKETS && 0 <= k < |table[c]| && table[c][k].key == KeyOf(t) ==>
                                   TimedOut(table[c][k], now, timeout)
            case Some(k) => exists i :: 0 <= i < |table[b]|
                                   && table[b][i].key == KeyOf(t) && !TimedOut(table[b][i], now, timeout)
                                   && Walked(table[b], KeyOf(t), now, timeout)[k] == table[b][i].(lastSeen := now)
  {
    var table, b := Run(keyHash, timeout, events), BucketOf(KeyOf(t), keyHash);
    WalkPrunesTimedOut(table[b], KeyOf(t), now, timeout);
    forall c, k | 0 <= c < BUCKETS && 0 <= k < |table[c]| && table[c][k].key == KeyOf(t) ensures c == b {
      assert BucketOk(table[c], c, keyHash);
    }
  }

  // ----- the table object

  class Mappings {
    const buckets: seq<Bucket>
    const keyHash: Key -> nat
    const timeout: nat
    ghost var repr: set<object>

    ghost predicate Owned()
      reads this, repr
    {
      && this !in repr && |buckets| == BUCKETS
      && forall b :: 0 <= b < BUCKETS ==> buckets[b] in repr && forall l :: l in buckets[b].links ==> l in repr
    }

    ghost predicate Apart()
      requires |buckets| == BUCKETS
    {
      forall a, b :: 0 <= a < b < BUCKETS ==> buckets[a] != buckets[b]
    }

    ghost function Table(): (r: seq<seq<Mapping>>)
      requires Owned()
      reads this, repr
      ensures |r| == BUCKETS && forall b :: 0 <= b < BUCKETS ==> r[b] == buckets[b].Contents()
    {
      seq(BUCKETS, b requires 0 <= b < BUCKETS && Owned() reads this, repr => buckets[b].Contents())
    }

    ghost predicate Valid()
      reads this, repr
    {
      Hanging() && TableOk(Table(), keyHash)
    }

    ghost predicate Hanging()
      reads this, repr
    {
      Owned() && Apart() && forall b :: 0 <= b < BUCKETS ==> buckets[b].Valid()
    }

    constructor (keyHash: Key -> nat, timeout: nat)
      ensures Valid() && fresh(repr) && this.keyHash == keyHash && this.timeout == timeout
      ensures Table() == Run(keyHash, timeout, [])
    {
      var all: seq<Bucket> := [];
      for b := 0 to BUCKETS
        invariant |all| == b
        invariant forall c :: 0 <= c < b ==> fresh(all[c]) && all[c].Valid() && all[c].links == []
        invariant forall c, d :: 0 <= c < d < b ==> all[c] != all[d]
      {
        var bucket := new Bucket();
        all := all + [bucket];
      }
      buckets := all;
      this.keyHash := keyHash;
      this.timeout := timeout;
      repr := set c | 0 <= c < BUCKETS :: all[c];
      new;
      assert Table() == Run(keyHash, timeout, []);
    }

    lemma BucketIsKeyed(t: Target)
      requires Valid()
      ensures buckets[BucketOf(KeyOf(t), keyHash)].KeysFolded(t, keyHash(KeyOf(t)))
    {
      var b := BucketOf(KeyOf(t), keyHash);
      assert BucketOk(Table()[b], b, keyHash);
      forall k | 0 <= k < |buckets[b].links| ensures buckets[b].links[k].info == Table()[b][k] {
      }
    }

    /** The other buckets do not notice what happens to one. */
    twostate lemma OthersKept(b: nat)
      requires b < BUCKETS && old(Hanging())
      requires forall o :: o in old(repr) && o != buckets[b] && o !in old(buckets[b].links) ==> unchanged(o)
      ensures forall a :: 0 <= a < BUCKETS && a != b ==>
                buckets[a].links == old(buckets[a].links) && buckets[a].Valid()
                  && buckets[a].Contents() == old(buckets[a].Contents())
    {
      hide Bucket.Contents, Chained;
      forall a | 0 <= a < BUCKETS && a != b
        ensures buckets[a].links == old(buckets[a].links) && buckets[a].Valid()
                && buckets[a].Contents() == old(buckets[a].Contents())
      {
        assert old(buckets[a].AtHome()) && old(buckets[b].AtHome());
        forall k | 0 <= k < |old(buckets[a].links)| ensures unchanged(old(buckets[a].links)[k]) {
          var l := old(buckets[a].links)[k];
          assert l in old(buckets[a].links) && l.home == buckets[a];
        }
        buckets[a].Kept();
      }
    }

    /** The outbound this session's datagrams to the target went to last, if it is not too long ago. */
    method Lookup(t: Target, now: nat) returns (r: Option<nat>)
      requires Valid()
      modifies repr
      ensures Valid() && repr == old(repr)
      ensures Table() == Step(old(Table()), keyHash, timeout, Ask(t, now))
      ensures r == Answer(old(Table()), keyHash, timeout, t, now)
    {
      if |t.host| == 0 || |t.host| > 255 {
        return None;
      }
      hide Walked, FoundAt, TableOk, Bucket.Valid, Bucket.Contents;
      StepKeeps(Table(), keyHash, timeout, Ask(t, now));
      BucketIsKeyed(t);
      var hash := keyHash(KeyOf(t));
      var b := LowBits(hash, BUCKETS);
      var m := buckets[b].Walk(t, hash, now, timeout);
      OthersKept(b);
      assert Table() == old(Table())[b := buckets[b].Contents()];
      r := if m == null then None else Some(m.info.outbound);
    }

    method InsertAt(b: nat, t: Target, hash: nat, outbound: nat, tracks: bool, now: nat)
      requires Hanging() && b < BUCKETS && buckets[b].KeysFolded(t, hash)
      modifies this`repr, buckets[b], buckets[b].links
      ensures Hanging() && fresh(repr - old(repr))
      ensures Table() == old(Table())[b := Inserted(old(Table())[b], KeyOf(t), hash, outbound, tracks, now, timeout)]
    {
      hide Inserted, Bucket.Valid, Bucket.Contents, Bucket.KeysFolded, KeyOf;
      buckets[b].Insert(t, hash, outbound, tracks, now, timeout);
      OthersKept(b);
      Adopt(b);
      assert Table() == old(Table())[b := buckets[b].Contents()];
    }

    /** The new mapping joins what the table owns. */
    ghost method Adopt(b: nat)
      requires |buckets| == BUCKETS && b < BUCKETS && this !in repr
      requires forall a :: 0 <= a < BUCKETS ==> buckets[a] in repr
      requires forall a :: 0 <= a < BUCKETS && a != b ==> forall l :: l in buckets[a].links ==> l in repr
      modifies this`repr
      ensures Owned() && repr == old(repr) + (set l | l in buckets[b].links)
    {
      repr := repr + (set l | l in buckets[b].links);
    }

    /** Remembers the outbound of a target. */
    method Insert(t: Target, outbound: nat, tracks: bool, now: nat)
      requires Valid()
      modifies this, repr
      ensures Valid() && fresh(repr - old(repr))
      ensures Table() == Step(old(Table()), keyHash, timeout, Put(t, outbound, tracks, now))
    {
      if |t.host| == 0 || |t.host| > 255 {
        return;
      }
      hide Inserted, TableOk, Bucket.Valid, Bucket.Contents;
      StepKeeps(Table(), keyHash, timeout, Put(t, outbound, tracks, now));
      BucketIsKeyed(t);
      var hash := keyHash(KeyOf(t));
      InsertAt(LowBits(hash, BUCKETS), t, hash, outbound, tracks, now);
    }
  }
}
