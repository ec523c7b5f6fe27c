/** CIDR rules: the linear scan, the per-prefix sorted tables, and their equality. */
module IpRules {
  import opened Bytes
  import opened Sorting
  import opened IpPrefix

  /** A CIDR as ngx_ptocidr leaves it; IPv4 words are in host byte order. */
  datatype Cidr = V4(addr: nat, mask: nat) | V6(addr6: bytes, mask6: bytes)

  datatype Sock = Inet(word: nat) | Inet6(octets: bytes) | OtherFamily

  predicate WellTyped(c: Cidr) {
    match c
    case V4(a, m) => a < WORD && m < WORD
    case V6(a, m) => |a| == |m| == 16
  }

  predicate AllTyped(rules: seq<Cidr>) {
    forall i :: 0 <= i < |rules| ==> WellTyped(rules[i])
  }

  predicate WellTypedSock(s: Sock) {
    match s
    case Inet(w) => w < WORD
    case Inet6(o) => |o| == 16
    case OtherFamily => true
  }

  ghost predicate Contiguous(c: Cidr) {
    WellTyped(c) &&
    match c
    case V4(a, m) => exists p: nat :: p <= 32 && m == Mask4(p)
    case V6(a, m) => exists p: nat :: p <= 128 && m == MaskBytes(Ones(16), p)
  }

  ghost predicate AllContiguous(rules: seq<Cidr>)
    ensures AllContiguous(rules) ==> AllTyped(rules)
  {
    forall i :: 0 <= i < |rules| ==> WellTyped(rules[i]) && Contiguous(rules[i])
  }

  /** The rule with the address bits outside its mask cleared. */
  function Normal(c: Cidr): (r: Cidr)
    requires WellTyped(c)
    ensures WellTyped(r)
  {
    match c
    case V4(a, m) => V4(BitAnd(a, m), m)
    case V6(a, m) => V6(AndBytes(a, m), m)
  }

  function Normalized(rules: seq<Cidr>): (r: seq<Cidr>)
    requires AllTyped(rules)
    ensures |r| == |rules| && AllTyped(r) && forall i :: 0 <= i < |rules| ==> r[i] == Normal(rules[i])
  {
    seq(|rules|, i requires 0 <= i < |rules| => Normal(rules[i]))
  }

  // ----- the linear scan

  predicate RuleMatches(c: Cidr, s: Sock)
    requires WellTyped(c) && WellTypedSock(s)
  {
    match (c, s)
    case (V4(a, m), Inet(w)) => BitAnd(w, m) == a
    case (V6(a, m), Inet6(o)) => AndBytes(o, m) == a
    case _ => false
  }

  ghost predicate LinearMatches(rules: seq<Cidr>, s: Sock)
    requires WellTypedSock(s) && AllTyped(rules)
  {
    exists i :: 0 <= i < |rules| && RuleMatches(rules[i], s)
  }

  method LinearScan(rules: seq<Cidr>, s: Sock) returns (r: bool)
    requires WellTypedSock(s) && AllTyped(rules)
    ensures r <==> LinearMatches(rules, s)
  {
    for i := 0 to |rules|
      invariant forall j :: 0 <= j < i ==> !RuleMatches(rules[j], s)
    {
      if RuleMatches(rules[i], s) {
        return true;
      }
    }
    r := false;
  }

  // ----- one family's tables

  /** The prefix length and masked address a rule contributes to a family, if it is of it. */
  type Item<T> = Cidr -> Option<(nat, T)>

  function Values<T>(rules: seq<Cidr>, item: Item<T>, p: nat): (v: seq<T>)
    ensures |v| <= |rules|
  {
    if rules == [] then []
    else
      var v, it := Values(rules[..|rules| - 1], item, p), item(rules[|rules| - 1]);
      if it.Some? && it.value.0 == p then v + [it.value.1] else v
  }

  lemma {:induction false} ValuesAre<T>(rules: seq<Cidr>, item: Item<T>, p: nat, x: T)
    ensures x in Values(rules, item, p) <==> exists i :: 0 <= i < |rules| && item(rules[i]) == Some((p, x))
  {
    if rules != [] {
      var t := rules[..|rules| - 1];
      ValuesAre(t, item, p, x);
      assert rules == t + [rules[|rules| - 1]];
      if i :| 0 <= i < |t| && item(t[i]) == Some((p, x)) { assert item(rules[i]) == Some((p, x)); }
      if i :| 0 <= i < |rules| && item(rules[i]) == Some((p, x)) { assert i < |t| ==> item(t[i]) == Some((p, x)); }
    }
  }

  lemma ValuesNothing<T>(item: Item<T>, p: nat)
    ensures Values([], item, p) == []
  {
  }

  lemma ValuesNext<T>(rules: seq<Cidr>, item: Item<T>, i: nat, p: nat)
    requires i < |rules|
    ensures Values(rules[..i + 1], item, p) ==
              Values(rules[..i], item, p)
              + (if item(rules[i]).Some? && item(rules[i]).value.0 == p then [item(rules[i]).value.1] else [])
  {
    assert rules[..i + 1][..i] == rules[..i];
  }

  lemma {:induction false} ValuesPrefix<T>(rules: seq<Cidr>, item: Item<T>, i: nat, p: nat)
    requires i <= |rules|
    ensures |Values(rules[..i], item, p)| <= |Values(rules, item, p)|
    decreases |rules| - i
  {
    if i < |rules| {
      ValuesNext(rules, item, i, p);
      ValuesPrefix(rules, item, i + 1, p);
    } else {
      assert rules[..i] == rules;
    }
  }

  ghost predicate Bounded<T(!new)>(item: Item<T>, rules: seq<Cidr>, top: nat) {
    forall i :: 0 <= i < |rules| ==> item(rules[i]).Some? ==> item(rules[i]).value.0 <= top
  }

  method CountPrefixes<T(!new)>(rules: seq<Cidr>, item: Item<T>, top: nat) returns (counts: seq<nat>)
    requires Bounded(item, rules, top)
    ensures |counts| == top + 1 && forall p :: 0 <= p <= top ==> counts[p] == |Values(rules, item, p)|
  {
    hide Values;
    forall p ensures Values([], item, p) == [] { ValuesNothing(item, p); }
    var count := new nat[top + 1](_ => 0);
    for i := 0 to |rules|
      invariant forall p :: 0 <= p <= top ==> count[p] == |Values(rules[..i], item, p)|
    {
      forall p ensures |Values(rules[..i + 1], item, p)| == |Values(rules[..i], item, p)|
                         + if item(rules[i]).Some? && item(rules[i]).value.0 == p then 1 else 0
      {
        ValuesNext(rules, item, i, p);
      }
      var it := item(rules[i]);
      if it.Some? {
        count[it.value.0] := count[it.value.0] + 1;
      }
    }
    assert rules[..|rules|] == rules;
    counts := count[..];
  }

  /** The first k places of a bucket hold the family's values so far. */
  ghost predicate BucketHolds<T>(bucket: seq<T>, k: nat, v: seq<T>) {
    k == |v| <= |bucket| && bucket[..k] == v
  }

  method FillPrefixes<T(!new)>(rules: seq<Cidr>, item: Item<T>, counts: seq<nat>, zero: T) returns (table: seq<seq<T>>)
    requires counts != [] && Bounded(item, rules, |counts| - 1)
    requires forall p :: 0 <= p < |counts| ==> counts[p] == |Values(rules, item, p)|
    ensures |table| == |counts| && forall p :: 0 <= p < |table| ==> table[p] == Values(rules, item, p)
  {
    hide Values;
    forall p ensures Values([], item, p) == [] { ValuesNothing(item, p); }
    var bucket := new seq<T>[|counts|](p requires 0 <= p < |counts| => seq(counts[p], _ => zero));
    var cursor := new nat[|counts|](_ => 0);
    for i := 0 to |rules|
      invariant forall p :: 0 <= p < |counts| ==> |bucket[p]| == counts[p]
      invariant forall p :: 0 <= p < |counts| ==> BucketHolds(bucket[p], cursor[p], Values(rules[..i], item, p))
    {
      forall p | 0 <= p < |counts|
        ensures |Values(rules[..i + 1], item, p)| <= counts[p]
        ensures Values(rules[..i + 1], item, p) ==
                  Values(rules[..i], item, p)
                  + (if item(rules[i]).Some? && item(rules[i]).value.0 == p then [item(rules[i]).value.1] else [])
      {
        ValuesPrefix(rules, item, i + 1, p);
        ValuesNext(rules, item, i, p);
      }
      var it := item(rules[i]);
      if it.Some? {
        var p := it.value.0;
        assert BucketHolds(bucket[p], cursor[p], Values(rules[..i], item, p));
        bucket[p] := bucket[p][cursor[p] := it.value.1];
        cursor[p] := cursor[p] + 1;
      }
    }
    assert rules[..|rules|] == rules;
    table := bucket[..];
    forall p | 0 <= p < |table| ensures table[p] == Values(rules, item, p) {
      assert BucketHolds(bucket[p], cursor[p], Values(rules, item, p));
    }
  }

  // ----- sort, deduplicate in place, search

  function UniqueOne<T(==)>(u: seq<T>, x: T): seq<T> {
    if u != [] && u[|u| - 1] == x then u else u + [x]
  }

  function Unique<T(==)>(s: seq<T>): (u: seq<T>)
    ensures |u| <= |s|
  {
    if s == [] then [] else UniqueOne(Unique(s[..|s| - 1]), s[|s| - 1])
  }

  lemma UniqueSnoc<T>(t: seq<T>, x: T)
    ensures Unique(t + [x]) == UniqueOne(Unique(t), x)
  {
    assert (t + [x])[..|t|] == t;
  }

  lemma UniqueNothing<T>()
    ensures Unique<T>([]) == []
  {
  }

  lemma {:induction false} UniqueKeeps<T(!new)>(s: seq<T>, x: T)
    ensures x in Unique(s) <==> x in s
  {
    if s != [] {
      UniqueKeeps(s[..|s| - 1], x);
      assert s == s[..|s| - 1] + [s[|s| - 1]];
    }
  }

  lemma {:induction false} UniqueSorted<T(!new)>(s: seq<T>, le: (T, T) -> bool)
    requires Sorted(s, le)
    ensures Sorted(Unique(s), le)
  {
    if s != [] {
      var t, x := s[..|s| - 1], s[|s| - 1];
      UniqueSorted(t, le);
      forall y | y in Unique(t) ensures le(y, x) {
        UniqueKeeps(t, y);
        var i :| 0 <= i < |t| && t[i] == y;
        assert le(s[i], s[|s| - 1]);
      }
    }
  }

  method DedupInPlace<T(==)>(a: array<T>) returns (n: nat)
    modifies a
    ensures n <= a.Length && a[..n] == Unique(old(a[..]))
  {
    hide Unique;
    n := 0;
    ghost var was := a[..];
    UniqueNothing<T>();
    for i := 0 to a.Length
      invariant n <= i && a[..n] == Unique(was[..i])
      invariant a[i..] == was[i..]
    {
      assert was[..i + 1] == was[..i] + [was[i]];
      assert a[i] == was[i..][0] == was[i];
      UniqueSnoc(was[..i], was[i]);
      ghost var next := UniqueOne(a[..n], a[i]);
      if n == 0 || a[n - 1] != a[i] {
        a[n] := a[i];
        n := n + 1;
      }
      assert a[..n] == next;
      assert a[i + 1..] == was[i..][1..];
    }
    assert was[..a.Length] == was;
  }

  method SortBucket<T(==, !new)>(values: seq<T>, le: (T, T) -> bool) returns (r: seq<T>)
    requires TotalPreorder(le)
    ensures Sorted(r, le) && forall x :: x in r <==> x in values
  {
    var a := new T[|values|](i requires 0 <= i < |values| => values[i]);
    assert a[..] == values;
    Sort(a, le);
    ghost var sorted := a[..];
    var n := DedupInPlace(a);
    r := a[..n];
    UniqueSorted(sorted, le);
    forall x ensures x in r <==> x in values {
      UniqueKeeps(sorted, x);
      assert x in sorted <==> x in multiset(sorted);
      assert x in values <==> x in multiset(values);
    }
  }

  ghost predicate Antisymmetric<T(!new)>(le: (T, T) -> bool) {
    forall a, b :: le(a, b) && le(b, a) ==> a == b
  }

  method BinarySearch<T(==, !new)>(s: seq<T>, x: T, le: (T, T) -> bool) returns (found: bool)
    requires TotalPreorder(le) && Antisymmetric(le) && Sorted(s, le)
    ensures found <==> x in s
  {
    var left, right := 0, |s|;
    while left < right
      invariant 0 <= left <= right <= |s|
      invariant forall i :: 0 <= i < |s| && !(left <= i < right) ==> s[i] != x
    {
      var mid := (left + right) / 2;
      if s[mid] == x {
        return true;
      }
      if le(s[mid], x) {
        left := mid + 1;
      } else {
        right := mid;
      }
    }
    found := false;
  }

  // ----- both families

  datatype Tables = Tables(v4: seq<seq<nat>>, v6: seq<seq<bytes>>)

  predicate WordLe(a: nat, b: nat) { a <= b }

  function Item4(c: Cidr): Option<(nat, nat)> {
    if c.V4? && c.mask < WORD then
      LeadingBound(c.mask, 0, c.mask);
      Some((LeadingOnes(c.mask), BitAnd(c.addr, Mask4(LeadingOnes(c.mask)))))
    else None
  }

  function Item6(c: Cidr): Option<(nat, bytes)> {
    if c.V6? then Some((PrefixOf(c.mask6), MaskBytes(c.addr6, PrefixOf(c.mask6)))) else None
  }

  ghost predicate TableOf<T(!new)>(table: seq<seq<T>>, rules: seq<Cidr>, item: Item<T>, le: (T, T) -> bool) {
    && (forall p :: 0 <= p < |table| ==> Sorted(table[p], le))
    && (forall p, x :: 0 <= p < |table| ==> (x in table[p] <==> x in Values(rules, item, p)))
  }

  method CompileFamily<T(==, !new)>(rules: seq<Cidr>, item: Item<T>, top: nat, le: (T, T) -> bool, zero: T)
    returns (table: seq<seq<T>>)
    requires Bounded(item, rules, top) && TotalPreorder(le)
    ensures |table| == top + 1 && TableOf(table, rules, item, le)
  {
    var counts := CountPrefixes(rules, item, top);
    var filled := FillPrefixes(rules, item, counts, zero);
    table := [];
    for p := 0 to top + 1
      invariant |table| == p && TableOf(table, rules, item, le)
    {
      var bucket := SortBucket(filled[p], le);
      table := table + [bucket];
    }
  }

  /** Longest prefix first: is the masked address in that prefix length's table? */
  method SearchFamily<A, T(==, !new)>(table: seq<seq<T>>, addr: A, mask: (A, nat) -> T, le: (T, T) -> bool)
    returns (found: bool)
    requires TotalPreorder(le) && Antisymmetric(le) && forall p :: 0 <= p < |table| ==> Sorted(table[p], le)
    ensures found <==> exists p: nat :: p < |table| && mask(addr, p) in table[p]
  {
    var prefix := |table|;
    while prefix > 0
      invariant prefix <= |table|
      invariant forall p: nat :: prefix <= p < |table| ==> mask(addr, p) !in table[p]
    {
      prefix := prefix - 1;
      if |table[prefix]| == 0 {
        continue;
      }
      var masked := mask(addr, prefix);
      var hit := BinarySearch(table[prefix], masked, le);
      if hit {
        return true;
      }
    }
    found := false;
  }

  lemma Orders()
    ensures TotalPreorder(WordLe) && Antisymmetric(WordLe)
    ensures TotalPreorder(Lex) && Antisymmetric(Lex)
  {
    forall a: bytes, b: bytes ensures Lex(a, b) || Lex(b, a) { LexTotal(a, b); }
    forall a: bytes, b: bytes | Lex(a, b) && Lex(b, a) ensures a == b { LexTotal(a, b); }
    forall a: bytes, b: bytes, c: bytes | Lex(a, b) && Lex(b, c) ensures Lex(a, c) { LexTransitive(a, b, c); }
  }

  ghost predicate IsCompiled(t: Tables, rules: seq<Cidr>) {
    && |t.v4| == 33 && TableOf(t.v4, rules, Item4, WordLe)
    && |t.v6| == 129 && TableOf(t.v6, rules, Item6, Lex)
  }

  lemma {:induction false} PrefixBound(mask: bytes)
    ensures PrefixOf(mask) <= 8 * |mask|
  {
    if mask != [] {
      PrefixBound(mask[1..]);
      LeadingAtMost(mask[0], 7);
      SmallPowers();
    }
  }

  lemma {:induction false} LeadingAtMost(b: byte, k: nat)
    requires k < 8
    ensures Pow2(k) < 256 && LeadingFrom(b, Pow2(k)) <= k + 1
  {
    SmallPowers();
    if k > 0 { LeadingAtMost(b, k - 1); }
  }

  method CompileIps(rules: seq<Cidr>) returns (t: Tables)
    requires AllTyped(rules)
    ensures IsCompiled(t, rules)
  {
    Orders();
    forall i | 0 <= i < |rules| && Item4(rules[i]).Some? ensures Item4(rules[i]).value.0 <= 32 {
      LeadingBound(rules[i].mask, 0, rules[i].mask);
    }
    var v4 := CompileFamily(rules, Item4, 32, WordLe, 0);
    forall i | 0 <= i < |rules| && Item6(rules[i]).Some? ensures Item6(rules[i]).value.0 <= 128 {
      PrefixBound(rules[i].mask6);
    }
    var v6 := CompileFamily(rules, Item6, 128, Lex, []);
    t := Tables(v4, v6);
  }

  function MaskWord(w: nat, prefix: nat): nat {
    if prefix <= 32 then BitAnd(w, Mask4(prefix)) else 0
  }

  ghost predicate CompiledMatches(t: Tables, s: Sock) {
    match s
    case Inet(w) => exists p: nat :: p < |t.v4| && MaskWord(w, p) in t.v4[p]
    case Inet6(o) => exists p: nat :: p < |t.v6| && MaskBytes(o, p) in t.v6[p]
    case OtherFamily => false
  }

  /** A contiguous rule sits under its own prefix length, with its masked address. */
  lemma RuleInTable(c: Cidr)
    requires Contiguous(c)
    ensures c.V4? ==> Item4(c).Some? && Item4(c).value.0 <= 32 && Item4(c).value.1 == BitAnd(c.addr, c.mask)
                      && Mask4(Item4(c).value.0) == c.mask
    ensures c.V6? ==> Item6(c).value.0 <= 128 && Item6(c).value.1 == AndBytes(c.addr6, c.mask6)
                      && MaskBytes(Ones(16), Item6(c).value.0) == c.mask6
  {
    match c
    case V4(a, m) =>
      var p: nat :| p <= 32 && m == Mask4(p);
      PrefixOfMask4(p);
    case V6(a, m) =>
      var p: nat :| p <= 128 && m == MaskBytes(Ones(16), p);
      PrefixOfMaskBytes(16, p);
      AndIsMask(a, p);
  }

  lemma V4IsLinear(t: Tables, rules: seq<Cidr>, w: nat)
    requires IsCompiled(t, rules) && w < WORD && AllContiguous(rules)
    ensures CompiledMatches(t, Inet(w)) <==> LinearMatches(Normalized(rules), Inet(w))
  {
    hide Values, LeadingOnes, BitAnd, Mask4, Contiguous, TotalPreorder;
    var normal := Normalized(rules);
    if CompiledMatches(t, Inet(w)) {
      var p: nat :| p < |t.v4| && MaskWord(w, p) in t.v4[p];
      ValuesAre(rules, Item4, p, MaskWord(w, p));
      var i :| 0 <= i < |rules| && Item4(rules[i]) == Some((p, MaskWord(w, p)));
      RuleInTable(rules[i]);
      assert RuleMatches(normal[i], Inet(w));
    }
    if LinearMatches(normal, Inet(w)) {
      var i :| 0 <= i < |normal| && RuleMatches(normal[i], Inet(w));
      RuleInTable(rules[i]);
      var p := Item4(rules[i]).value.0;
      assert Item4(rules[i]) == Some((p, MaskWord(w, p)));
      ValuesAre(rules, Item4, p, MaskWord(w, p));
    }
  }

  lemma V6IsLinear(t: Tables, rules: seq<Cidr>, o: bytes)
    requires IsCompiled(t, rules) && |o| == 16 && AllContiguous(rules)
    ensures CompiledMatches(t, Inet6(o)) <==> LinearMatches(Normalized(rules), Inet6(o))
  {
    hide Values, MaskBytes, PrefixOf, AndBytes, Contiguous, TotalPreorder;
    var normal := Normalized(rules);
    if CompiledMatches(t, Inet6(o)) {
      var p: nat :| p < |t.v6| && MaskBytes(o, p) in t.v6[p];
      ValuesAre(rules, Item6, p, MaskBytes(o, p));
      var i :| 0 <= i < |rules| && Item6(rules[i]) == Some((p, MaskBytes(o, p)));
      RuleInTable(rules[i]);
      AndIsMask(o, p);
      assert RuleMatches(normal[i], Inet6(o));
    }
    if LinearMatches(normal, Inet6(o)) {
      var i :| 0 <= i < |normal| && RuleMatches(normal[i], Inet6(o));
      RuleInTable(rules[i]);
      var p := Item6(rules[i]).value.0;
      AndIsMask(o, p);
      assert Item6(rules[i]) == Some((p, MaskBytes(o, p)));
      ValuesAre(rules, Item6, p, MaskBytes(o, p));
    }
  }

  /** For contiguous masks the tables decide the linear scan over the normalized rules. */
  lemma CompiledIsLinear(t: Tables, rules: seq<Cidr>, s: Sock)
    requires IsCompiled(t, rules) && WellTypedSock(s) && AllContiguous(rules)
    ensures CompiledMatches(t, s) <==> LinearMatches(Normalized(rules), s)
  {
    match s
    case Inet(w) => V4IsLinear(t, rules, w);
    case Inet6(o) => V6IsLinear(t, rules, o);
    case OtherFamily =>
  }

  datatype Match = NoMatch | Matched | NotApplicable

  /** The entry point; `t` is None until the group is compiled. */
  method MatchIp(rules: seq<Cidr>, t: Option<Tables>, s: Sock) returns (r: Match)
    requires WellTypedSock(s) && AllContiguous(rules)
    requires t.Some? ==> IsCompiled(t.value, rules)
    ensures r == NotApplicable <==> rules == []
    ensures rules != [] && Normalized(rules) == rules ==> (r == Matched <==> LinearMatches(rules, s))
    ensures rules != [] ==> (r == Matched <==> LinearMatches(if t.Some? then Normalized(rules) else rules, s))
  {
    if rules == [] {
      return NotApplicable;
    }
    var hit := false;
    if t.Some? {
      Orders();
      CompiledIsLinear(t.value, rules, s);
      match s {
        case Inet(w) => hit := SearchFamily(t.value.v4, w, MaskWord, WordLe);
        case Inet6(o) => hit := SearchFamily(t.value.v6, o, MaskBytes, Lex);
        case OtherFamily =>
      }
    } else {
      hit := LinearScan(rules, s);
    }
    r := if hit then Matched else NoMatch;
  }
}
