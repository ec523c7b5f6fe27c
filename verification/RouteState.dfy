/** The route cache as a value: slots, recency list, generations, and the sessions tracked on its slots. */
module RouteState {
  import opened Address
  import opened Bytes
  import opened Sorting
  import opened Routing

  datatype Key = Key(kind: byte, port: nat, host: bytes)

  /** Domain keys are lower-cased; literal addresses are kept. */
  function KeyOf(t: Target): Key {
    Key(t.kind, t.port, if t.kind == DOMAIN then Fold(t.host) else t.host)
  }

  /** Two targets share a cache key exactly when type and port agree and the hosts are the same octets, or, for names
      (type 3), differ in the case of letters only. */
  lemma SameKeyIff(a: Target, b: Target)
    ensures KeyOf(a) == KeyOf(b) <==>
              a.kind == b.kind && a.port == b.port && if a.kind == 3 then SameText(a.host, b.host) else a.host == b.host
  {
    FoldIsSameText(a.host, b.host);
  }

  predicate KeyOk(k: Key) { 1 <= |k.host| <= 255 }

  datatype Entry = Entry(key: Key, outbound: nat, ttl: bool, expires: int, refreshing: bool, generation: nat,
    active: seq<nat>)

  datatype Session = Session(linked: bool, stale: bool, entry: Option<nat>, tracked: Option<nat>, lastActive: nat)

  datatype State = State(size: nat, slots: seq<Entry>, lru: seq<nat>, generation: nat, sessions: map<nat, Session>)

  function Start(size: nat): State {
    State(size, [], [], 0, map[])
  }

  // ----- recency list

  function Without(s: seq<nat>, x: nat): (r: seq<nat>)
    ensures |r| <= |s|
  {
    if s == [] then [] else if s[0] == x then s[1..] else [s[0]] + Without(s[1..], x)
  }

  function Touch(lru: seq<nat>, i: nat): seq<nat> { [i] + Without(lru, i) }

  function SlotFrom(slots: seq<Entry>, key: Key, i: nat): (r: Option<nat>)
    requires i <= |slots|
    ensures r.Some? ==> i <= r.value < |slots| && slots[r.value].key == key
    ensures r.None? ==> forall j :: i <= j < |slots| ==> slots[j].key != key
    decreases |slots| - i
  {
    if i == |slots| then None else if slots[i].key == key then Some(i) else SlotFrom(slots, key, i + 1)
  }

  function SlotOf(s: State, key: Key): Option<nat> {
    if KeyOk(key) then SlotFrom(s.slots, key, 0) else None
  }

  // ----- sessions

  function Stale(session: Session, old_: nat, now: nat): Session {
    if session.tracked == Some(old_) then session.(stale := true, lastActive := now) else session
  }

  /** Every session of the queue that was tracked on the old outbound goes stale. */
  function MarkStale(sessions: map<nat, Session>, active: seq<nat>, old_: nat, now: nat): (r: map<nat, Session>)
    ensures r.Keys == sessions.Keys
  {
    map sid | sid in sessions :: if sid in active then Stale(sessions[sid], old_, now) else sessions[sid]
  }

  function Unlink(session: Session): Session {
    session.(linked := false, stale := false, entry := None, tracked := None)
  }

  function UnlinkAll(sessions: map<nat, Session>, active: seq<nat>): (r: map<nat, Session>)
    ensures r.Keys == sessions.Keys
  {
    map sid | sid in sessions :: if sid in active then Unlink(sessions[sid]) else sessions[sid]
  }

  // ----- operations

  function Lookup(s: State, key: Key): (State, Option<nat>) {
    match SlotOf(s, key)
    case Some(i) => (s.(lru := Touch(s.lru, i)), Some(i))
    case None => (s, None)
  }

  function Renewed(e: Entry, outbound: nat, ttl: bool, expires: int, generation: nat): Entry {
    e.(outbound := outbound, ttl := ttl, expires := if ttl then expires else 0,
       refreshing := false, generation := generation)
  }

  function SessionsAfter(sessions: map<nat, Session>, e: Entry, outbound: nat, now: nat): map<nat, Session> {
    if e.outbound != outbound then MarkStale(sessions, e.active, e.outbound, now) else sessions
  }

  function Update(s: State, i: nat, outbound: nat, ttl: bool, expires: int, now: nat): State
    requires i < |s.slots|
  {
    State(s.size, s.slots[i := Renewed(s.slots[i], outbound, ttl, expires, s.generation + 1)], s.lru, s.generation + 1,
          SessionsAfter(s.sessions, s.slots[i], outbound, now))
  }

  function Fresh(s: State, key: Key, outbound: nat, ttl: bool, expires: int): Entry {
    Entry(key, outbound, ttl, if ttl then expires else 0, false, s.generation + 1, [])
  }

  /** A recycled slot lets go of every session tracked on it and becomes the most recent one. */
  function Evict(s: State, i: nat, e: Entry): State
    requires i < |s.slots| && s.lru != []
  {
    State(s.size, s.slots[i := e], [i] + s.lru[..|s.lru| - 1], s.generation + 1,
      UnlinkAll(s.sessions, s.slots[i].active))
  }

  function Append(s: State, e: Entry): State {
    State(s.size, s.slots + [e], [|s.slots|] + s.lru, s.generation + 1, s.sessions)
  }

  function Insert(s: State, key: Key, outbound: nat, ttl: bool, expires: int, now: nat): (State, Option<nat>)
    requires forall k :: 0 <= k < |s.lru| ==> s.lru[k] < |s.slots|
  {
    if s.size == 0 || !KeyOk(key) then (s, None)
    else
      match SlotOf(s, key)
      case Some(i) =>
        var u := Update(s, i, outbound, ttl, expires, now);
        (u.(lru := Touch(u.lru, i)), Some(i))
      case None =>
        if |s.slots| < s.size || s.lru == [] then
          (Append(s, Fresh(s, key, outbound, ttl, expires)), Some(|s.slots|))
        else
          var i := s.lru[|s.lru| - 1];
          (Evict(s, i, Fresh(s, key, outbound, ttl, expires)), Some(i))
  }

  lemma InsertsNew(s: State, key: Key, outbound: nat, ttl: bool, expires: int, now: nat)
    requires forall k :: 0 <= k < |s.lru| ==> s.lru[k] < |s.slots|
    requires KeyOk(key) && SlotOf(s, key).None? && |s.slots| < s.size
    ensures Insert(s, key, outbound, ttl, expires, now) ==
            (Append(s, Fresh(s, key, outbound, ttl, expires)), Some(|s.slots|))
  {
  }

  lemma InsertsOver(s: State, key: Key, outbound: nat, ttl: bool, expires: int, now: nat)
    requires forall k :: 0 <= k < |s.lru| ==> s.lru[k] < |s.slots|
    requires KeyOk(key) && SlotOf(s, key).None? && 0 < s.size <= |s.slots| && s.lru != []
    ensures var i := s.lru[|s.lru| - 1];
            Insert(s, key, outbound, ttl, expires, now) == (Evict(s, i, Fresh(s, key, outbound, ttl, expires)), Some(i))
  {
  }

  lemma InsertsFound(s: State, key: Key, i: nat, outbound: nat, ttl: bool, expires: int, now: nat)
    requires forall k :: 0 <= k < |s.lru| ==> s.lru[k] < |s.slots|
    requires KeyOk(key) && SlotOf(s, key) == Some(i) && 0 < s.size
    ensures Insert(s, key, outbound, ttl, expires, now) ==
              (State(s.size, s.slots[i := Renewed(s.slots[i], outbound, ttl, expires, s.generation + 1)],
                Touch(s.lru, i),
                     s.generation + 1, SessionsAfter(s.sessions, s.slots[i], outbound, now)), Some(i))
  {
  }

  function Unqueued(e: Entry, sid: nat): Entry { e.(active := Without(e.active, sid)) }

  function Queued(e: Entry, sid: nat): Entry { e.(active := e.active + [sid]) }

  function Untrack(s: State, sid: nat): State {
    if sid !in s.sessions || !s.sessions[sid].linked || s.sessions[sid].entry.None?
       || s.sessions[sid].entry.value >= |s.slots| then s
    else
      var i := s.sessions[sid].entry.value;
      s.(slots := s.slots[i := Unqueued(s.slots[i], sid)],
         sessions := s.sessions[sid := Unlink(s.sessions[sid])])
  }

  /** Only entries with a ttl are tracked, on the outbound the session already uses. */
  function Track(s: State, sid: nat, i: nat, outbound: nat, now: nat): State
    requires i < |s.slots|
  {
    if !s.slots[i].ttl then s
    else
      var u := Untrack(s, sid);
      u.(slots := u.slots[i := Queued(u.slots[i], sid)],
         sessions := u.sessions[sid := Session(true, false, Some(i), Some(outbound), now)])
  }

  lemma UntrackIs(s: State, sid: nat, i: nat)
    requires sid in s.sessions && s.sessions[sid].linked && s.sessions[sid].entry == Some(i) && i < |s.slots|
    ensures Untrack(s, sid) ==
              State(s.size, s.slots[i := Unqueued(s.slots[i], sid)], s.lru, s.generation,
                s.sessions[sid := Unlink(s.sessions[sid])])
  {
  }

  lemma TrackIs(s: State, sid: nat, i: nat, outbound: nat, now: nat)
    requires i < |s.slots| && s.slots[i].ttl
    ensures var u := Untrack(s, sid);
            && |u.slots| == |s.slots|
            && Track(s, sid, i, outbound, now) ==
               State(u.size, u.slots[i := Queued(u.slots[i], sid)], u.lru, u.generation,
                     u.sessions[sid := Session(true, false, Some(i), Some(outbound), now)])
  {
  }

  function SetRefreshing(s: State, i: nat, flag: bool): State
    requires i < |s.slots|
  {
    s.(slots := s.slots[i := s.slots[i].(refreshing := flag)])
  }

  // ----- the invariant

  ghost predicate Recency(s: State) {
    && Distinct(s.lru) && |s.lru| == |s.slots| <= s.size
    && (forall k :: 0 <= k < |s.lru| ==> s.lru[k] < |s.slots|)
    && (forall i :: 0 <= i < |s.slots| ==> i in s.lru)
  }

  ghost predicate Keyed(s: State) {
    && (forall i :: 0 <= i < |s.slots| ==> KeyOk(s.slots[i].key))
    && (forall i, j :: 0 <= i < j < |s.slots| ==> s.slots[i].key != s.slots[j].key)
  }

  ghost predicate Generations(s: State) {
    && (forall i :: 0 <= i < |s.slots| ==> s.slots[i].generation <= s.generation)
    && (forall i, j :: 0 <= i < j < |s.slots| ==> s.slots[i].generation != s.slots[j].generation)
  }

  predicate LinkedTo(s: State, sid: nat, i: nat) {
    && sid in s.sessions && s.sessions[sid].linked
    && s.sessions[sid].entry == Some(i) && s.sessions[sid].tracked.Some?
  }

  predicate InItsQueue(s: State, sid: nat)
    requires sid in s.sessions
  {
    && s.sessions[sid].entry.Some? && s.sessions[sid].entry.value < |s.slots|
    && sid in s.slots[s.sessions[sid].entry.value].active
  }

  /** A session is linked exactly when it sits, once, in the active queue of its entry and in no other. */
  ghost predicate Tracking(s: State) {
    && (forall i :: 0 <= i < |s.slots| ==> Distinct(s.slots[i].active))
    && (forall i, sid :: 0 <= i < |s.slots| && sid in s.slots[i].active ==> LinkedTo(s, sid, i))
    && (forall sid :: sid in s.sessions && s.sessions[sid].linked ==> InItsQueue(s, sid))
  }

  ghost predicate Valid(s: State) {
    Recency(s) && Keyed(s) && Generations(s) && Tracking(s)
  }

  // ----- every operation keeps the invariant

  lemma {:induction false} WithoutIs(s: seq<nat>, x: nat)
    requires Distinct(s)
    ensures Distinct(Without(s, x))
    ensures forall y :: y in Without(s, x) <==> y in s && y != x
    ensures |Without(s, x)| == if x in s then |s| - 1 else |s|
  {
    if s != [] {
      assert s == [s[0]] + s[1..];
      WithoutIs(s[1..], x);
      if s[0] != x { DistinctFront(s[0], Without(s[1..], x)); }
    }
  }

  lemma DistinctFront(x: nat, t: seq<nat>)
    requires Distinct(t) && x !in t
    ensures Distinct([x] + t)
  {
  }

  lemma TouchKeeps(s: State, i: nat)
    requires Recency(s) && i < |s.slots|
    ensures Recency(s.(lru := Touch(s.lru, i)))
  {
    WithoutIs(s.lru, i);
    var lru := Touch(s.lru, i);
    DistinctFront(i, Without(s.lru, i));
    forall k | 0 <= k < |lru| ensures lru[k] < |s.slots| {
      assert lru[k] == i || lru[k] in Without(s.lru, i);
    }
  }

  /** Linking is untouched when no queue, link or entry pointer changes. */
  lemma SameLinks(s: State, u: State)
    requires Tracking(s) && |u.slots| == |s.slots| && u.sessions.Keys == s.sessions.Keys
    requires forall j :: 0 <= j < |s.slots| ==> u.slots[j].active == s.slots[j].active
    requires forall sid :: sid in s.sessions ==>
               && u.sessions[sid].linked == s.sessions[sid].linked
               && u.sessions[sid].entry == s.sessions[sid].entry
               && u.sessions[sid].tracked == s.sessions[sid].tracked
    ensures Tracking(u)
  {
  }

  lemma UpdateKeeps(s: State, i: nat, outbound: nat, ttl: bool, expires: int, now: nat)
    requires Valid(s) && i < |s.slots|
    ensures Valid(Update(s, i, outbound, ttl, expires, now))
  {
    var u := Update(s, i, outbound, ttl, expires, now);
    SameLinks(s, u);
    assert forall j :: 0 <= j < |s.slots| ==> u.slots[j].key == s.slots[j].key;
  }

  lemma LookupKeeps(s: State, key: Key)
    requires Valid(s)
    ensures Valid(Lookup(s, key).0)
  {
    if SlotOf(s, key).Some? { TouchKeeps(s, SlotOf(s, key).value); }
  }

  lemma AppendLru(s: State, e: Entry)
    requires Recency(s) && |s.slots| < s.size
    ensures Recency(Append(s, e))
  {
    DistinctFront(|s.slots|, s.lru);
    var u := Append(s, e);
    forall j | 0 <= j < |u.slots| ensures j in u.lru {
      if j < |s.slots| { assert j in s.lru; }
    }
  }

  lemma AppendLinks(s: State, e: Entry)
    requires Tracking(s) && e.active == []
    ensures Tracking(Append(s, e))
  {
    assert forall j :: 0 <= j < |s.slots| ==> Append(s, e).slots[j] == s.slots[j];
  }

  lemma AppendKeeps(s: State, e: Entry)
    requires Valid(s) && KeyOk(e.key) && SlotOf(s, e.key).None? && |s.slots| < s.size
    requires e.active == [] && e.generation == s.generation + 1
    ensures Valid(Append(s, e))
  {
    AppendLru(s, e);
    AppendLinks(s, e);
  }

  lemma EvictRecency(s: State, e: Entry)
    requires Recency(s) && s.lru != []
    ensures Recency(Evict(s, s.lru[|s.lru| - 1], e))
  {
    var i, t := s.lru[|s.lru| - 1], s.lru[..|s.lru| - 1];
    assert s.lru == t + [i];
    DistinctFront(i, t);
    forall j | 0 <= j < |s.slots| ensures j in [i] + t {
      assert j in s.lru;
    }
  }

  lemma EvictLinks(s: State, i: nat, e: Entry)
    requires Tracking(s) && i < |s.slots| && s.lru != [] && e.active == []
    ensures Tracking(Evict(s, i, e))
    ensures forall sid :: sid in s.sessions && Evict(s, i, e).sessions[sid].linked ==>
              Evict(s, i, e).sessions[sid].entry != Some(i)
  {
    var u := Evict(s, i, e);
    forall j, sid | 0 <= j < |u.slots| && sid in u.slots[j].active ensures LinkedTo(u, sid, j) {
      assert j != i && sid in s.slots[j].active && LinkedTo(s, sid, j);
      assert sid !in s.slots[i].active;
    }
    forall sid | sid in u.sessions && u.sessions[sid].linked
      ensures InItsQueue(u, sid) && u.sessions[sid].entry != Some(i)
    {
      assert sid !in s.slots[i].active && InItsQueue(s, sid);
    }
  }

  lemma EvictKeys(s: State, i: nat, e: Entry)
    requires Keyed(s) && Generations(s) && i < |s.slots| && s.lru != [] && KeyOk(e.key) && SlotOf(s, e.key).None?
    requires e.generation == s.generation + 1
    ensures Keyed(Evict(s, i, e)) && Generations(Evict(s, i, e))
  {
  }

  lemma EvictKeeps(s: State, key: Key, outbound: nat, ttl: bool, expires: int, now: nat)
    requires Valid(s) && KeyOk(key) && SlotOf(s, key).None? && 0 < s.size <= |s.slots|
    ensures Valid(Insert(s, key, outbound, ttl, expires, now).0)
  {
    var i, e := s.lru[|s.lru| - 1], Fresh(s, key, outbound, ttl, expires);
    EvictLinks(s, i, e);
    EvictKeys(s, i, e);
    EvictRecency(s, e);
  }

  lemma InsertKeeps(s: State, key: Key, outbound: nat, ttl: bool, expires: int, now: nat)
    requires Valid(s)
    ensures Valid(Insert(s, key, outbound, ttl, expires, now).0)
  {
    if s.size != 0 && KeyOk(key) {
      match SlotOf(s, key)
      case Some(i) =>
        UpdateKeeps(s, i, outbound, ttl, expires, now);
        TouchKeeps(Update(s, i, outbound, ttl, expires, now), i);
      case None =>
        if |s.slots| < s.size {
          AppendKeeps(s, Fresh(s, key, outbound, ttl, expires));
        } else {
          EvictKeeps(s, key, outbound, ttl, expires, now);
        }
    }
  }

  lemma UntrackLinks(s: State, sid: nat)
    requires Tracking(s) && sid in s.sessions && s.sessions[sid].linked
    ensures Tracking(Untrack(s, sid))
    ensures forall j :: 0 <= j < |s.slots| ==> sid !in Untrack(s, sid).slots[j].active
  {
    var i, u := s.sessions[sid].entry.value, Untrack(s, sid);
    WithoutIs(s.slots[i].active, sid);
    assert forall j :: 0 <= j < |s.slots| && j != i ==> u.slots[j] == s.slots[j];
    assert u.slots[i].active == Without(s.slots[i].active, sid);
  }

  lemma UntrackKeeps(s: State, sid: nat)
    requires Valid(s)
    ensures Valid(Untrack(s, sid))
    ensures sid in s.sessions ==> !Untrack(s, sid).sessions[sid].linked
    ensures forall j :: 0 <= j < |s.slots| ==> sid !in Untrack(s, sid).slots[j].active
  {
    if sid in s.sessions && s.sessions[sid].linked {
      UntrackLinks(s, sid);
      var u := Untrack(s, sid);
      assert forall j :: 0 <= j < |s.slots| ==>
             u.slots[j].key == s.slots[j].key && u.slots[j].generation == s.slots[j].generation;
    }
  }

  function Link(s: State, sid: nat, i: nat, session: Session): State
    requires i < |s.slots|
  {
    s.(slots := s.slots[i := Queued(s.slots[i], sid)], sessions := s.sessions[sid := session])
  }

  lemma LinkKeeps(s: State, sid: nat, i: nat, session: Session)
    requires Tracking(s) && i < |s.slots| && session.linked && session.entry == Some(i) && session.tracked.Some?
    requires forall j :: 0 <= j < |s.slots| ==> sid !in s.slots[j].active
    ensures Tracking(Link(s, sid, i, session))
  {
    var u := Link(s, sid, i, session);
    assert forall j :: 0 <= j < |s.slots| && j != i ==> u.slots[j] == s.slots[j];
    assert forall x :: x in u.slots[i].active <==> x in s.slots[i].active || x == sid;
  }

  lemma TrackKeeps(s: State, sid: nat, i: nat, outbound: nat, now: nat)
    requires Valid(s) && i < |s.slots|
    ensures Valid(Track(s, sid, i, outbound, now))
  {
    UntrackKeeps(s, sid);
    var u := Untrack(s, sid);
    var session := Session(true, false, Some(i), Some(outbound), now);
    LinkKeeps(u, sid, i, session);
    var l := Link(u, sid, i, session);
    assert forall j :: 0 <= j < |u.slots| ==>
           l.slots[j].key == u.slots[j].key && l.slots[j].generation == u.slots[j].generation;
  }

  lemma SetRefreshingKeeps(s: State, i: nat, flag: bool)
    requires Valid(s) && i < |s.slots|
    ensures Valid(SetRefreshing(s, i, flag))
  {
    var u := SetRefreshing(s, i, flag);
    SameLinks(s, u);
    assert forall j :: 0 <= j < |s.slots| ==>
           u.slots[j].key == s.slots[j].key && u.slots[j].generation == s.slots[j].generation;
  }
}
