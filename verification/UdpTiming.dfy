/** How long a UDP mapping lasts, over whole runs of the table: from its last use for the session timeout, and once its
    cache entry changed the outbound, for at most 1000 milliseconds. */
module UdpTiming {
  import opened Address
  import opened Bytes
  import opened RouteState
  import opened UdpMappings

  /** How long a mapping answers after its last use. */
  function Bound(stale: bool, timeout: nat): nat { if stale && 1000 < timeout then 1000 else timeout }

  /** The last moment at which a mapping still answers. */
  function LastMoment(m: Mapping, timeout: nat): nat {
    m.lastSeen + Bound(m.stale, timeout)
  }

  ghost predicate In(table: seq<seq<Mapping>>, keyHash: Key -> nat, m: Mapping)
    requires |table| == BUCKETS
  {
    m in table[BucketOf(m.key, keyHash)]
  }

  ghost predicate Absent(table: seq<seq<Mapping>>, keyHash: Key -> nat, key: Key)
    requires |table| == BUCKETS
  {
    forall m :: m in table[BucketOf(key, keyHash)] ==> m.key != key
  }

  /** The same answer for the same time; it may have left its queue. */
  predicate Like(m: Mapping, n: Mapping) {
    n.key == m.key && n.outbound == m.outbound && n.lastSeen == m.lastSeen && n.stale == m.stale
  }

  ghost predicate HasLike(table: seq<seq<Mapping>>, keyHash: Key -> nat, m: Mapping)
    requires |table| == BUCKETS
  {
    exists n :: n in table[BucketOf(m.key, keyHash)] && Like(m, n)
  }

  // ----- one lookup

  lemma {:induction false} FoundIffAlive(c: seq<Mapping>, m: Mapping, now: nat, timeout: nat)
    requires m in c && forall j, k :: 0 <= j < k < |c| ==> c[j].key != c[k].key
    ensures var k, w := FoundAt(c, m.key, now, timeout), Walked(c, m.key, now, timeout);
            if now <= LastMoment(m, timeout) then k.Some? && w[k.value] == m.(lastSeen := now) else k.None?
  {
    if c[0] != m {
      assert c == [c[0]] + c[1..] && m in c[1..] && c[0].key != m.key;
      FoundIffAlive(c[1..], m, now, timeout);
    } else {
      forall n | n in c[1..] ensures n.key != m.key {}
      NotFound(c[1..], m.key, now, timeout);
    }
  }

  lemma {:induction false} NotFound(c: seq<Mapping>, key: Key, now: nat, timeout: nat)
    requires forall m :: m in c ==> m.key != key
    ensures FoundAt(c, key, now, timeout).None?
  {
    if c != [] {
      assert c[0] in c && forall n :: n in c[1..] ==> n in c;
      NotFound(c[1..], key, now, timeout);
    }
  }

  /** A lookup answers with a target's mapping up to its last moment, and with nothing after it or without one. */
  lemma AnswersToTheLast(table: seq<seq<Mapping>>, keyHash: Key -> nat, timeout: nat, t: Target, m: Mapping, now: nat)
    requires TableOk(table, keyHash) && 1 <= |t.host| <= 255
    ensures In(table, keyHash, m) && m.key == KeyOf(t) ==>
              Answer(table, keyHash, timeout, t, now) ==
                if now <= LastMoment(m, timeout) then Some(m.outbound) else None
    ensures Absent(table, keyHash, KeyOf(t)) ==> Answer(table, keyHash, timeout, t, now) == None
  {
    var b := BucketOf(KeyOf(t), keyHash);
    assert BucketOk(table[b], b, keyHash);
    if In(table, keyHash, m) && m.key == KeyOf(t) { FoundIffAlive(table[b], m, now, timeout); }
    if Absent(table, keyHash, KeyOf(t)) { NotFound(table[b], KeyOf(t), now, timeout); }
  }

  // ----- what other events do to a mapping

  /** The event is not about this key: it asks for and writes other keys, and makes stale no mapping of this one. */
  predicate Elsewhere(table: seq<seq<Mapping>>, key: Key, e: Event) {
    match e
    case Ask(t, _) => KeyOf(t) != key
    case Put(t, _, _, _) => KeyOf(t) != key
    case Stale(b, k, _) => b < |table| && k < |table[b]| ==> table[b][k].key != key
    case Detach(_, _) => true
  }

  predicate By(e: Event, now: nat) {
    match e
    case Ask(_, at) => at <= now
    case Put(_, _, _, at) => at <= now
    case Stale(_, _, at) => at <= now
    case Detach(_, _) => true
  }

  /** A walk for another key drops a mapping only after its last moment. */
  lemma {:induction false} WalkSpares(c: seq<Mapping>, key: Key, now: nat, timeout: nat, m: Mapping)
    requires m in c && m.key != key
    ensures m in Walked(c, key, now, timeout) || LastMoment(m, timeout) < now
  {
    if c[0] != m {
      assert c == [c[0]] + c[1..] && m in c[1..];
      WalkSpares(c[1..], key, now, timeout, m);
    }
  }

  /** What a walk for another key left, an insertion under that key leaves. */
  lemma InsertLeaves(c: seq<Mapping>, key: Key, hash: nat, outbound: nat, tracks: bool, now: nat, timeout: nat,
                     m: Mapping)
    requires m in Walked(c, key, now, timeout) && m.key != key
    ensures m in Inserted(c, key, hash, outbound, tracks, now, timeout)
  {
    hide Walked, FoundAt, Rewritten;
    FoundIsKey(c, key, now, timeout);
    var w := Walked(c, key, now, timeout);
    var i :| 0 <= i < |w| && w[i] == m;
    match FoundAt(c, key, now, timeout)
    case Some(k) => assert Inserted(c, key, hash, outbound, tracks, now, timeout)[i] == m;
    case None => assert Inserted(c, key, hash, outbound, tracks, now, timeout)[i + 1] == m;
  }

  lemma InsertAvoids(c: seq<Mapping>, key: Key, hash: nat, outbound: nat, tracks: bool, now: nat, timeout: nat,
                     other: Key)
    requires (forall m :: m in c ==> m.key != other) && key != other
    ensures forall m :: m in Inserted(c, key, hash, outbound, tracks, now, timeout) ==> m.key != other
  {
    WalkedAvoids(c, key, now, timeout, other);
    AvoidsAfter(c, key, hash, outbound, tracks, now, timeout, other);
  }

  lemma AvoidsAfter(c: seq<Mapping>, key: Key, hash: nat, outbound: nat, tracks: bool, now: nat, timeout: nat,
                    other: Key)
    requires (forall m :: m in Walked(c, key, now, timeout) ==> m.key != other) && key != other
    ensures forall m :: m in Inserted(c, key, hash, outbound, tracks, now, timeout) ==> m.key != other
  {
    hide Walked, FoundAt;
    var w := Walked(c, key, now, timeout);
    assert forall k :: 0 <= k < |w| ==> w[k] in w;
  }

  lemma StepAbsent(table: seq<seq<Mapping>>, keyHash: Key -> nat, timeout: nat, e: Event, key: Key)
    requires TableOk(table, keyHash) && Absent(table, keyHash, key) && Elsewhere(table, key, e)
    ensures Absent(Step(table, keyHash, timeout, e), keyHash, key)
  {
    var b := BucketOf(key, keyHash);
    match e
    case Ask(t, now) => WalkedAvoids(table[b], KeyOf(t), now, timeout, key);
    case Put(t, outbound, tracks, now) =>
      InsertAvoids(table[b], KeyOf(t), keyHash(KeyOf(t)), outbound, tracks, now, timeout, key);
    case Stale(_, k, _) => if k < |table[b]| { assert table[b][k] in table[b]; }
    case Detach(_, k) => if k < |table[b]| { assert table[b][k] in table[b]; }
  }

  /** What a walk for another key dropped leaves no mapping of its key behind. */
  lemma {:induction false} Gone(c: seq<Mapping>, n: Mapping, key: Key, at: nat, timeout: nat)
    requires n in c && n.key != key && forall j, k :: 0 <= j < k < |c| ==> c[j].key != c[k].key
    ensures n in Walked(c, key, at, timeout) || forall o :: o in Walked(c, key, at, timeout) ==> o.key != n.key
  {
    if c[0] == n {
      assert forall o :: o in c[1..] ==> o.key != n.key;
      WalkedAvoids(c[1..], key, at, timeout, n.key);
    } else {
      assert c == [c[0]] + c[1..] && n in c[1..] && c[0].key != n.key;
      Gone(c[1..], n, key, at, timeout);
    }
  }

  lemma WalkSparesOrLoses(c: seq<Mapping>, b: nat, keyHash: Key -> nat, key: Key, at: nat, timeout: nat, n: Mapping)
    requires BucketOk(c, b, keyHash) && n in c && n.key != key
    ensures n in Walked(c, key, at, timeout)
            || (LastMoment(n, timeout) < at && forall o :: o in Walked(c, key, at, timeout) ==> o.key != n.key)
  {
    WalkSpares(c, key, at, timeout, n);
    Gone(c, n, key, at, timeout);
  }

  lemma InsertSparesOrLoses(c: seq<Mapping>, b: nat, keyHash: Key -> nat, key: Key, hash: nat, outbound: nat,
                            tracks: bool, at: nat, timeout: nat, n: Mapping)
    requires BucketOk(c, b, keyHash) && n in c && n.key != key
    ensures var d := Inserted(c, key, hash, outbound, tracks, at, timeout);
            n in d || (LastMoment(n, timeout) < at && forall o :: o in d ==> o.key != n.key)
  {
    hide Inserted, Walked, BucketOk, LastMoment;
    WalkSparesOrLoses(c, b, keyHash, key, at, timeout, n);
    if n in Walked(c, key, at, timeout) {
      InsertLeaves(c, key, hash, outbound, tracks, at, timeout, n);
    } else {
      AvoidsAfter(c, key, hash, outbound, tracks, at, timeout, n.key);
    }
  }

  /** A mapping outlives an event about something else, unless its last moment is past. */
  lemma StepSpares(table: seq<seq<Mapping>>, keyHash: Key -> nat, timeout: nat, e: Event, m: Mapping, now: nat)
    requires TableOk(table, keyHash) && HasLike(table, keyHash, m) && Elsewhere(table, m.key, e) && By(e, now)
    ensures |Step(table, keyHash, timeout, e)| == BUCKETS
    ensures HasLike(Step(table, keyHash, timeout, e), keyHash, m)
            || (Absent(Step(table, keyHash, timeout, e), keyHash, m.key) && LastMoment(m, timeout) < now)
  {
    hide Inserted, Walked, BucketOk, KeyOf, BucketOf;
    var b := BucketOf(m.key, keyHash);
    var n :| n in table[b] && Like(m, n);
    match e
    case Ask(t, at) =>
      if KeyOk(KeyOf(t)) && BucketOf(KeyOf(t), keyHash) == b {
        WalkSparesOrLoses(table[b], b, keyHash, KeyOf(t), at, timeout, n);
      }
    case Put(t, outbound, tracks, at) =>
      if KeyOk(KeyOf(t)) && BucketOf(KeyOf(t), keyHash) == b {
        InsertSparesOrLoses(table[b], b, keyHash, KeyOf(t), keyHash(KeyOf(t)), outbound, tracks, at, timeout, n);
      }
    case Stale(_, _, _) => MarkSpares(table, keyHash, timeout, e, m, n);
    case Detach(_, _) => MarkSpares(table, keyHash, timeout, e, m, n);
  }

  lemma MarkSpares(table: seq<seq<Mapping>>, keyHash: Key -> nat, timeout: nat, e: Event, m: Mapping, n: Mapping)
    requires |table| == BUCKETS && (e.Stale? || e.Detach?) && Elsewhere(table, m.key, e)
    requires n in table[BucketOf(m.key, keyHash)] && Like(m, n)
    ensures HasLike(Step(table, keyHash, timeout, e), keyHash, m)
  {
    hide BucketOf;
    var b := BucketOf(m.key, keyHash);
    var u := Step(table, keyHash, timeout, e);
    var i :| 0 <= i < |table[b]| && table[b][i] == n;
    assert u[b][i] in u[b];
  }

  // ----- runs of events

  ghost function Play(table: seq<seq<Mapping>>, keyHash: Key -> nat, timeout: nat, events: seq<Event>)
    : (r: seq<seq<Mapping>>)
    requires TableOk(table, keyHash)
    ensures TableOk(r, keyHash)
    decreases |events|
  {
    if events == [] then table
    else
      StepKeeps(table, keyHash, timeout, events[0]);
      Play(Step(table, keyHash, timeout, events[0]), keyHash, timeout, events[1..])
  }

  lemma {:induction false} RunPlays(keyHash: Key -> nat, timeout: nat, past: seq<Event>, events: seq<Event>)
    ensures Play(Run(keyHash, timeout, past), keyHash, timeout, events) == Run(keyHash, timeout, past + events)
    decreases |events|
  {
    if events == [] {
      assert past + events == past;
    } else {
      var more := past + [events[0]];
      assert more[..|past|] == past && past + events == more + events[1..];
      RunPlays(keyHash, timeout, more, events[1..]);
    }
  }

  /** None of the events is about the key, and none is later than now. */
  ghost predicate AllElsewhere(table: seq<seq<Mapping>>, keyHash: Key -> nat, timeout: nat, events: seq<Event>,
                               key: Key, now: nat)
    requires TableOk(table, keyHash)
    decreases |events|
  {
    events != [] ==>
      && Elsewhere(table, key, events[0]) && By(events[0], now)
      && TableOk(Step(table, keyHash, timeout, events[0]), keyHash)
      && AllElsewhere(Step(table, keyHash, timeout, events[0]), keyHash, timeout, events[1..], key, now)
  }

  lemma {:induction false} PlayAbsent(table: seq<seq<Mapping>>, keyHash: Key -> nat, timeout: nat, events: seq<Event>,
                                      key: Key, now: nat)
    requires TableOk(table, keyHash) && Absent(table, keyHash, key)
    requires AllElsewhere(table, keyHash, timeout, events, key, now)
    ensures Absent(Play(table, keyHash, timeout, events), keyHash, key)
    decreases |events|
  {
    if events != [] {
      StepAbsent(table, keyHash, timeout, events[0], key);
      PlayAbsent(Step(table, keyHash, timeout, events[0]), keyHash, timeout, events[1..], key, now);
    }
  }

  lemma {:induction false} PlaySpares(table: seq<seq<Mapping>>, keyHash: Key -> nat, timeout: nat, events: seq<Event>,
                                      m: Mapping, now: nat)
    requires TableOk(table, keyHash) && HasLike(table, keyHash, m)
    requires AllElsewhere(table, keyHash, timeout, events, m.key, now)
    ensures HasLike(Play(table, keyHash, timeout, events), keyHash, m)
            || (Absent(Play(table, keyHash, timeout, events), keyHash, m.key) && LastMoment(m, timeout) < now)
    decreases |events|
  {
    if events != [] {
      var u := Step(table, keyHash, timeout, events[0]);
      StepSpares(table, keyHash, timeout, events[0], m, now);
      if HasLike(u, keyHash, m) {
        PlaySpares(u, keyHash, timeout, events[1..], m, now);
      } else {
        PlayAbsent(u, keyHash, timeout, events[1..], m.key, now);
      }
    }
  }

  /** A mapping that nothing touches answers up to its last moment and never after it, whatever happens elsewhere. */
  lemma UntouchedAnswersToTheLast(keyHash: Key -> nat, timeout: nat, past: seq<Event>, since: seq<Event>, t: Target,
                                  m: Mapping, now: nat)
    requires 1 <= |t.host| <= 255 && m.key == KeyOf(t)
    requires var table := Run(keyHash, timeout, past);
             In(table, keyHash, m) && AllElsewhere(table, keyHash, timeout, since, m.key, now)
    ensures Answer(Run(keyHash, timeout, past + since), keyHash, timeout, t, now) ==
              if now <= LastMoment(m, timeout) then Some(m.outbound) else None
  {
    var table := Run(keyHash, timeout, past);
    assert Like(m, m);
    PlaySpares(table, keyHash, timeout, since, m, now);
    RunPlays(keyHash, timeout, past, since);
    var u := Play(table, keyHash, timeout, since);
    if HasLike(u, keyHash, m) {
      var n :| n in u[BucketOf(m.key, keyHash)] && Like(m, n);
      AnswersToTheLast(u, keyHash, timeout, t, n, now);
    } else {
      AnswersToTheLast(u, keyHash, timeout, t, m, now);
    }
  }

  // ----- from a put, a lookup or a change of the outbound on

  /** A put leaves the mark of being stale on a mapping still alive that is in no queue, unless it tracks it. */
  ghost predicate LeavesStale(table: seq<seq<Mapping>>, keyHash: Key -> nat, timeout: nat, t: Target, tracks: bool,
                              at: nat)
    requires |table| == BUCKETS
  {
    !tracks && exists n :: In(table, keyHash, n) && n.key == KeyOf(t) && n.stale && !n.linked
                           && at <= LastMoment(n, timeout)
  }

  lemma PutIsIn(table: seq<seq<Mapping>>, keyHash: Key -> nat, timeout: nat, t: Target, outbound: nat, tracks: bool,
                at: nat)
    returns (m: Mapping)
    requires TableOk(table, keyHash) && 1 <= |t.host| <= 255
    ensures |Step(table, keyHash, timeout, Put(t, outbound, tracks, at))| == BUCKETS
    ensures In(Step(table, keyHash, timeout, Put(t, outbound, tracks, at)), keyHash, m) && m.key == KeyOf(t)
    ensures m.outbound == outbound && m.lastSeen == at
    ensures m.stale <==> LeavesStale(table, keyHash, timeout, t, tracks, at)
  {
    var key, b := KeyOf(t), BucketOf(KeyOf(t), keyHash);
    var c := table[b];
    assert BucketOk(c, b, keyHash);
    var d := Inserted(c, key, keyHash(key), outbound, tracks, at, timeout);
    if n :| n in c && n.key == key {
      OnlyOne(c, b, keyHash, n);
      FoundIffAlive(c, n, at, timeout);
      m := d[match FoundAt(c, key, at, timeout) case Some(k) => k case None => 0];
    } else {
      NotFound(c, key, at, timeout);
      m := d[0];
    }
    assert m in d;
  }

  lemma OnlyOne(c: seq<Mapping>, b: nat, keyHash: Key -> nat, n: Mapping)
    requires BucketOk(c, b, keyHash) && n in c
    ensures forall o :: o in c && o.key == n.key ==> o == n
  {
  }

  lemma RunOnce(keyHash: Key -> nat, timeout: nat, past: seq<Event>, e: Event)
    ensures Run(keyHash, timeout, past + [e]) == Step(Run(keyHash, timeout, past), keyHash, timeout, e)
  {
    assert (past + [e])[..|past|] == past;
  }

  /** From a put on: while nothing touches it, the target keeps its outbound for exactly the session timeout, or for
      at most 1000 milliseconds if the put left it stale. */
  lemma AfterPut(keyHash: Key -> nat, timeout: nat, past: seq<Event>, t: Target, outbound: nat, tracks: bool, at: nat,
                 since: seq<Event>, now: nat)
    requires 1 <= |t.host| <= 255
    requires AllElsewhere(Run(keyHash, timeout, past + [Put(t, outbound, tracks, at)]), keyHash, timeout, since,
                          KeyOf(t), now)
    ensures var left := LeavesStale(Run(keyHash, timeout, past), keyHash, timeout, t, tracks, at);
            Answer(Run(keyHash, timeout, past + [Put(t, outbound, tracks, at)] + since), keyHash, timeout, t, now) ==
              if now <= at + Bound(left, timeout) then Some(outbound) else None
  {
    var e := Put(t, outbound, tracks, at);
    RunOnce(keyHash, timeout, past, e);
    var m := PutIsIn(Run(keyHash, timeout, past), keyHash, timeout, t, outbound, tracks, at);
    UntouchedAnswersToTheLast(keyHash, timeout, past + [e], since, t, m, now);
  }

  lemma AskIsIn(table: seq<seq<Mapping>>, keyHash: Key -> nat, timeout: nat, t: Target, m: Mapping, at: nat)
    requires TableOk(table, keyHash) && 1 <= |t.host| <= 255
    requires In(table, keyHash, m) && m.key == KeyOf(t) && at <= LastMoment(m, timeout)
    ensures |Step(table, keyHash, timeout, Ask(t, at))| == BUCKETS
    ensures In(Step(table, keyHash, timeout, Ask(t, at)), keyHash, m.(lastSeen := at))
  {
    var b := BucketOf(KeyOf(t), keyHash);
    assert BucketOk(table[b], b, keyHash);
    FoundIffAlive(table[b], m, at, timeout);
  }

  /** A lookup that finds the target's mapping renews it; one that comes after its last moment ends it. */
  lemma AfterAsk(keyHash: Key -> nat, timeout: nat, past: seq<Event>, t: Target, m: Mapping, at: nat,
                 since: seq<Event>, now: nat)
    requires 1 <= |t.host| <= 255 && m.key == KeyOf(t) && In(Run(keyHash, timeout, past), keyHash, m)
    requires AllElsewhere(Run(keyHash, timeout, past + [Ask(t, at)]), keyHash, timeout, since, KeyOf(t), now)
    ensures Answer(Run(keyHash, timeout, past + [Ask(t, at)] + since), keyHash, timeout, t, now) ==
              if at <= m.lastSeen + Bound(m.stale, timeout) && now <= at + Bound(m.stale, timeout)
              then Some(m.outbound) else None
  {
    var table, e := Run(keyHash, timeout, past), Ask(t, at);
    RunOnce(keyHash, timeout, past, e);
    if at <= LastMoment(m, timeout) {
      AskIsIn(table, keyHash, timeout, t, m, at);
      UntouchedAnswersToTheLast(keyHash, timeout, past + [e], since, t, m.(lastSeen := at), now);
    } else {
      AskDrops(table, keyHash, timeout, t, m, at);
      var u := Run(keyHash, timeout, past + [e]);
      PlayAbsent(u, keyHash, timeout, since, KeyOf(t), now);
      RunPlays(keyHash, timeout, past + [e], since);
      AnswersToTheLast(Play(u, keyHash, timeout, since), keyHash, timeout, t, m, now);
    }
  }

  lemma AskDrops(table: seq<seq<Mapping>>, keyHash: Key -> nat, timeout: nat, t: Target, m: Mapping, at: nat)
    requires TableOk(table, keyHash) && 1 <= |t.host| <= 255
    requires In(table, keyHash, m) && m.key == KeyOf(t) && LastMoment(m, timeout) < at
    ensures |Step(table, keyHash, timeout, Ask(t, at))| == BUCKETS
    ensures Absent(Step(table, keyHash, timeout, Ask(t, at)), keyHash, KeyOf(t))
  {
    var b := BucketOf(KeyOf(t), keyHash);
    assert BucketOk(table[b], b, keyHash);
    FoundIffAlive(table[b], m, at, timeout);
    FoundIsKey(table[b], KeyOf(t), at, timeout);
  }

  /** Once its tracked entry changed the outbound, at s, a mapping answers, untouched, for the session timeout but at
      most 1000 milliseconds more. */
  lemma AfterStale(keyHash: Key -> nat, timeout: nat, past: seq<Event>, b: nat, k: nat, s: nat, t: Target,
                   since: seq<Event>, now: nat)
    requires 1 <= |t.host| <= 255 && b < BUCKETS
    requires var table := Run(keyHash, timeout, past);
             k < |table[b]| && table[b][k].linked && table[b][k].key == KeyOf(t)
    requires AllElsewhere(Run(keyHash, timeout, past + [Stale(b, k, s)]), keyHash, timeout, since, KeyOf(t), now)
    ensures Answer(Run(keyHash, timeout, past + [Stale(b, k, s)] + since), keyHash, timeout, t, now) ==
              if now <= s + Bound(true, timeout) then Some(Run(keyHash, timeout, past)[b][k].outbound) else None
  {
    var table, e := Run(keyHash, timeout, past), Stale(b, k, s);
    RunOnce(keyHash, timeout, past, e);
    assert BucketOk(table[b], b, keyHash);
    var m := table[b][k].(stale := true, lastSeen := s);
    assert Run(keyHash, timeout, past + [e])[b][k] == m;
    UntouchedAnswersToTheLast(keyHash, timeout, past + [e], since, t, m, now);
  }

  /** The mark that a put leaves, as it happens: a tracked mapping goes stale, its entry is recycled, and the mapping
      put anew without an entry is forgotten after 1000 milliseconds of a timeout of 60000. */
  lemma PutKeepsStale(keyHash: Key -> nat, t: Target)
    requires 1 <= |t.host| <= 255
    ensures var b := BucketOf(KeyOf(t), keyHash);
            var past := [Put(t, 0, true, 0), Stale(b, 0, 0), Detach(b, 0)];
            && LeavesStale(Run(keyHash, 60000, past), keyHash, 60000, t, false, 0)
            && Answer(Run(keyHash, 60000, past + [Put(t, 1, false, 0)]), keyHash, 60000, t, 1000) == Some(1)
            && Answer(Run(keyHash, 60000, past + [Put(t, 1, false, 0)]), keyHash, 60000, t, 1001) == None
  {
    var key, b := KeyOf(t), BucketOf(KeyOf(t), keyHash);
    var p, s, d := Put(t, 0, true, 0), Stale(b, 0, 0), Detach(b, 0);
    var none: seq<Event> := [];
    RunOnce(keyHash, 60000, none, p);
    RunOnce(keyHash, 60000, [p], s);
    RunOnce(keyHash, 60000, [p, s], d);
    assert none + [p] == [p] && [p] + [s] == [p, s] && [p, s] + [d] == [p, s, d];
    var m := Mapping(key, keyHash(key), 0, 0, true, false);
    assert Run(keyHash, 60000, [p])[b] == [m];
    assert Run(keyHash, 60000, [p, s])[b] == [m.(stale := true)];
    var table := Run(keyHash, 60000, [p, s, d]);
    assert table[b] == [m.(stale := true, linked := false)];
    assert In(table, keyHash, table[b][0]);
    assert [p, s, d] + [Put(t, 1, false, 0)] + none == [p, s, d] + [Put(t, 1, false, 0)];
    AfterPut(keyHash, 60000, [p, s, d], t, 1, false, 0, none, 1000);
    AfterPut(keyHash, 60000, [p, s, d], t, 1, false, 0, none, 1001);
  }
}
