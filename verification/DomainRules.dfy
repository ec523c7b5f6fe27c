/** Domain rules: the linear scan, the compiled matcher, and what relates them. */
module DomainRules {
  import opened Bytes
  import opened PerfectHash
  import opened PerfectHashTable

  const DOT: byte := 46
  const STAR: byte := 42
  const TILDE: byte := 126
  const INCLUDE_ROOT: bv8 := 1

  datatype Kind = Exact | Suffix | Wildcard | Regex

  datatype Rule = Rule(kind: Kind, value: bytes)

  /** Whether the compiled pattern of a rule matches a host: PCRE is not modelled. */
  type RegexOracle = (Rule, bytes) -> bool

  datatype Match = NoMatch | Matched | NotApplicable

  const INCLUDE: bytes := [105, 110, 99, 108, 117, 100, 101]

  /** The kind of a configured value, or None when the directive is refused. */
  function KindOf(value: bytes): Option<Kind> {
    if value == [] || value == INCLUDE then None
    else if value[0] == TILDE then (if |value| == 1 then None else Some(Regex))
    else if value[0] == DOT then (if |value| == 1 then None else Some(Suffix))
    else if |value| > 2 && value[0] == STAR && value[1] == DOT then Some(Wildcard)
    else Some(Exact)
  }

  predicate Parsed(rule: Rule) { KindOf(rule.value) == Some(rule.kind) }

  predicate AllParsed(rules: seq<Rule>) {
    forall i :: 0 <= i < |rules| ==> Parsed(rules[i])
  }

  // ----- the linear scan

  /** strncasecmp(a, b, n) == 0 for two readable stretches of n octets: it stops at a common NUL. */
  predicate SameNoCase(a: bytes, b: bytes)
    requires |a| == |b|
  {
    if a == [] then true
    else if ToLower(a[0]) != ToLower(b[0]) then false
    else if a[0] == 0 then true
    else SameNoCase(a[1..], b[1..])
  }

  predicate NulFree(s: bytes) {
    forall i :: 0 <= i < |s| ==> s[i] != 0
  }

  lemma {:induction false} SameNoCaseFolds(a: bytes, b: bytes)
    requires |a| == |b| && NulFree(b)
    ensures SameNoCase(a, b) <==> Fold(a) == Fold(b)
  {
    if a != [] {
      assert NulFree(b[1..]);
      SameNoCaseFolds(a[1..], b[1..]);
      FoldSlice(a, 1);
      FoldSlice(b, 1);
      assert Fold(a) == [ToLower(a[0])] + Fold(a)[1..];
      assert Fold(b) == [ToLower(b[0])] + Fold(b)[1..];
      assert Fold(a)[0] == ToLower(a[0]) && Fold(b)[0] == ToLower(b[0]);
    }
  }

  /** The tail of a host after its label dot, compared to a suffix. */
  predicate TailMatches(host: bytes, suffix: bytes) {
    && |host| > |suffix| + 1
    && host[|host| - |suffix| - 1] == DOT
    && SameNoCase(host[|host| - |suffix|..], suffix)
  }

  predicate RuleMatches(rx: RegexOracle, rule: Rule, host: bytes)
    requires Parsed(rule)
  {
    if host == [] then false
    else
      match rule.kind
      case Exact => |host| == |rule.value| && SameNoCase(host, rule.value)
      case Suffix =>
        var suffix := rule.value[1..];
        if |host| == |suffix| then SameNoCase(host, suffix) else TailMatches(host, suffix)
      case Wildcard => TailMatches(host, rule.value[2..])
      case Regex => rx(rule, host)
  }

  predicate LinearMatches(rx: RegexOracle, rules: seq<Rule>, host: bytes)
    requires AllParsed(rules)
  {
    exists i :: 0 <= i < |rules| && RuleMatches(rx, rules[i], host)
  }

  method LinearScan(rx: RegexOracle, rules: seq<Rule>, host: bytes) returns (r: bool)
    requires AllParsed(rules)
    ensures r <==> LinearMatches(rx, rules, host)
  {
    for i := 0 to |rules|
      invariant forall j :: 0 <= j < i ==> !RuleMatches(rx, rules[j], host)
    {
      if RuleMatches(rx, rules[i], host) {
        return true;
      }
    }
    r := false;
  }

  // ----- compilation

  /** The key a rule contributes to the exact or the suffix table. */
  function KeyOf(rule: Rule): bytes
    requires Parsed(rule)
  {
    match rule.kind
    case Suffix => Fold(rule.value[1..])
    case Wildcard => Fold(rule.value[2..])
    case _ => Fold(rule.value)
  }

  function FlagsOf(rule: Rule): bv8 {
    if rule.kind == Suffix then INCLUDE_ROOT else 0
  }

  function EntryOf(h: Hash, rule: Rule): Entry
    requires Parsed(rule)
  {
    var key := KeyOf(rule);
    Entry(key, FlagsOf(rule), h(key, 0))
  }

  /** The entries of one table, in rule order. */
  function Entries(h: Hash, rules: seq<Rule>, exact: bool): seq<Entry>
    requires AllParsed(rules)
  {
    if rules == [] then []
    else
      var t, rule := Entries(h, rules[..|rules| - 1], exact), rules[|rules| - 1];
      if rule.kind == Regex || (rule.kind == Exact) != exact then t else t + [EntryOf(h, rule)]
  }

  function RegexRules(rules: seq<Rule>): (r: seq<Rule>)
    requires AllParsed(rules)
    ensures AllParsed(r)
  {
    if rules == [] then []
    else
      var t, rule := RegexRules(rules[..|rules| - 1]), rules[|rules| - 1];
      if rule.kind == Regex then t + [rule] else t
  }

  datatype Compiled = Compiled(exact: Mph, suffix: Mph, regexes: seq<Rule>)

  /** A rule whose key is empty or longer than 255 octets stops the compilation. */
  predicate Compilable(rule: Rule)
    requires Parsed(rule)
  {
    rule.kind == Regex || 1 <= |KeyOf(rule)| <= 255
  }

  /** In octets: a key is at most 255 long, behind a dot, or an asterisk and a dot; '~' marks a pattern. */
  lemma CompilableInOctets(rule: Rule)
    requires Parsed(rule)
    ensures rule.value != []
    ensures var v := rule.value;
            var limit := if v[0] == 46 then 256 else if |v| > 2 && v[0] == 42 && v[1] == 46 then 257 else 255;
            Compilable(rule) <==> v[0] == 126 || |v| <= limit
  {
  }

  method AddEntry(h: Hash, entries: seq<Entry>, key: bytes, flags: bv8) returns (r: Option<seq<Entry>>)
    ensures r.Some? <==> 1 <= |key| <= 255
    ensures r.Some? ==> r.value == entries + [Entry(Fold(key), flags, h(Fold(key), 0))]
  {
    if |key| == 0 || |key| > 255 {
      return None;
    }
    var folded := new byte[|key|](_ => 0);
    for i := 0 to |key|
      invariant forall j :: 0 <= j < i ==> folded[j] == ToLower(key[j])
    {
      folded[i] := ToLower(key[i]);
    }
    assert folded[..] == Fold(key);
    r := Some(entries + [Entry(folded[..], flags, h(folded[..], 0))]);
  }

  ghost predicate IsCompiled(h: Hash, c: Compiled, rules: seq<Rule>)
    requires AllParsed(rules)
  {
    && Decides(h, c.exact, Entries(h, rules, true))
    && Decides(h, c.suffix, Entries(h, rules, false))
    && c.regexes == RegexRules(rules)
  }

  lemma {:induction false} EntriesKeyed(h: Hash, rules: seq<Rule>, exact: bool)
    requires AllParsed(rules) && forall i :: 0 <= i < |rules| ==> Compilable(rules[i])
    ensures Keyed(h, Entries(h, rules, exact))
  {
    if rules != [] { EntriesKeyed(h, rules[..|rules| - 1], exact); }
  }

  lemma EntriesNothing(h: Hash)
    ensures Entries(h, [], true) == [] && Entries(h, [], false) == [] && RegexRules([]) == []
  {
  }

  lemma EntriesNext(h: Hash, rules: seq<Rule>, i: nat, exact: bool)
    requires AllParsed(rules) && i < |rules|
    ensures Entries(h, rules[..i + 1], exact) ==
              if rules[i].kind == Regex || (rules[i].kind == Exact) != exact then Entries(h, rules[..i], exact)
              else Entries(h, rules[..i], exact) + [EntryOf(h, rules[i])]
    ensures RegexRules(rules[..i + 1]) ==
              if rules[i].kind == Regex then RegexRules(rules[..i]) + [rules[i]] else RegexRules(rules[..i])
  {
    assert rules[..i + 1][..i] == rules[..i];
  }

  method CompileDomains(h: Hash, rules: seq<Rule>) returns (r: Option<Compiled>)
    requires AllParsed(rules)
    ensures r.Some? ==> IsCompiled(h, r.value, rules)
    ensures r.Some? ==> forall i :: 0 <= i < |rules| ==> Compilable(rules[i])
    ensures r.Some? ==> CanBuild(h, Entries(h, rules, true)) && CanBuild(h, Entries(h, rules, false))
    ensures r.None? ==> (exists i :: 0 <= i < |rules| && !Compilable(rules[i]))
                        || CannotBuild(h, Entries(h, rules, true)) || CannotBuild(h, Entries(h, rules, false))
  {
    hide Entries, RegexRules, KindOf, Decides, Keyed, CanBuild, CannotBuild;
    var exact, suffix, regexes := [], [], [];
    EntriesNothing(h);
    for i := 0 to |rules|
      invariant exact == Entries(h, rules[..i], true) && suffix == Entries(h, rules[..i], false)
      invariant regexes == RegexRules(rules[..i])
      invariant forall j :: 0 <= j < i ==> Compilable(rules[j])
    {
      EntriesNext(h, rules, i, true);
      EntriesNext(h, rules, i, false);
      var rule, added := rules[i], None;
      match rule.kind {
        case Exact =>
          added := AddEntry(h, exact, rule.value, 0);
          if added.None? { return None; }
          exact := added.value;
        case Suffix =>
          KindHasValue(rule);
          added := AddEntry(h, suffix, rule.value[1..], INCLUDE_ROOT);
          if added.None? { return None; }
          suffix := added.value;
        case Wildcard =>
          KindHasValue(rule);
          added := AddEntry(h, suffix, rule.value[2..], 0);
          if added.None? { return None; }
          suffix := added.value;
        case Regex =>
          regexes := regexes + [rule];
      }
    }
    assert rules[..|rules|] == rules;
    EntriesKeyed(h, rules, true);
    EntriesKeyed(h, rules, false);
    var exactTable := BuildTable(h, exact);
    if exactTable.None? { return None; }
    var suffixTable := BuildTable(h, suffix);
    if suffixTable.None? { return None; }
    r := Some(Compiled(exactTable.value, suffixTable.value, regexes));
  }

  lemma KindHasValue(rule: Rule)
    requires Parsed(rule)
    ensures rule.kind == Suffix ==> |rule.value| > 1
    ensures rule.kind == Wildcard ==> |rule.value| > 2
  {
  }

  method BuildTable(h: Hash, entries: seq<Entry>) returns (r: Option<Mph>)
    requires Keyed(h, entries)
    ensures r.Some? ==> Decides(h, r.value, entries)
    ensures if r.Some? then CanBuild(h, entries) else CannotBuild(h, entries)
  {
    var a := new Entry[|entries|](i requires 0 <= i < |entries| => entries[i]);
    assert a[..] == entries;
    ghost var plan;
    r, plan := Build(h, a);
  }

  // ----- the compiled matcher

  /** Some dot of the name has a suffix key behind it. */
  predicate DottedKey(h: Hash, suffix: Mph, name: bytes, n: nat)
    requires WellFormed(suffix) && n <= |name|
  {
    exists i :: 0 <= i < n && name[i] == DOT && Find(h, suffix, name[i + 1..]).Some?
  }

  predicate RootKey(h: Hash, suffix: Mph, name: bytes)
    requires WellFormed(suffix)
  {
    var slot := Find(h, suffix, name);
    slot.Some? && slot.value.flags & INCLUDE_ROOT != 0
  }

  predicate CompiledMatches(h: Hash, rx: RegexOracle, c: Compiled, host: bytes)
    requires WellFormed(c.exact) && WellFormed(c.suffix) && AllParsed(c.regexes)
  {
    || Find(h, c.exact, Fold(host)).Some?
    || RootKey(h, c.suffix, Fold(host))
    || DottedKey(h, c.suffix, Fold(host), |host|)
    || LinearMatches(rx, c.regexes, host)
  }

  method CompiledScan(h: Hash, rx: RegexOracle, c: Compiled, host: bytes) returns (r: bool)
    requires WellFormed(c.exact) && WellFormed(c.suffix) && AllParsed(c.regexes)
    ensures r <==> CompiledMatches(h, rx, c, host)
  {
    var name := Fold(host);
    if Find(h, c.exact, name).Some? {
      return true;
    }
    var slot := Find(h, c.suffix, name);
    if slot.Some? && slot.value.flags & INCLUDE_ROOT != 0 {
      return true;
    }
    for i := 0 to |host|
      invariant !DottedKey(h, c.suffix, name, i)
    {
      if name[i] != DOT {
        continue;
      }
      slot := Find(h, c.suffix, name[i + 1..]);
      if slot.Some? {
        return true;
      }
    }
    r := LinearScan(rx, c.regexes, host);
  }

  // ----- the compiled matcher refines the linear scan

  ghost predicate KeyRule(rule: Rule, exact: bool, key: bytes)
    requires Parsed(rule)
  {
    rule.kind != Regex && (rule.kind == Exact) == exact && KeyOf(rule) == key
  }

  ghost predicate SomeKeyRule(rules: seq<Rule>, exact: bool, key: bytes)
    requires AllParsed(rules)
  {
    exists i :: 0 <= i < |rules| && KeyRule(rules[i], exact, key)
  }

  lemma SomeKeySnoc(t: seq<Rule>, rule: Rule, exact: bool, key: bytes)
    requires AllParsed(t) && Parsed(rule)
    ensures AllParsed(t + [rule])
    ensures SomeKeyRule(t + [rule], exact, key) <==> SomeKeyRule(t, exact, key) || KeyRule(rule, exact, key)
  {
    var rules := t + [rule];
    if SomeKeyRule(t, exact, key) {
      var i :| 0 <= i < |t| && KeyRule(t[i], exact, key);
      assert KeyRule(rules[i], exact, key);
    }
    assert rules[|t|] == rule;
  }

  lemma {:induction false} EntriesHaveKeys(h: Hash, rules: seq<Rule>, exact: bool, key: bytes)
    requires AllParsed(rules)
    ensures HasKey(Entries(h, rules, exact), key) <==> SomeKeyRule(rules, exact, key)
  {
    if rules != [] {
      var t, rule := rules[..|rules| - 1], rules[|rules| - 1];
      EntriesHaveKeys(h, t, exact, key);
      KeyOfSnoc(Entries(h, t, exact), EntryOf(h, rule), key);
      assert rules == t + [rule];
      SomeKeySnoc(t, rule, exact, key);
    }
  }

  /** Some suffix rule (not just a wildcard) has this key. */
  ghost predicate RootRule(rules: seq<Rule>, key: bytes)
    requires AllParsed(rules)
  {
    exists i :: 0 <= i < |rules| && rules[i].kind == Suffix && KeyOf(rules[i]) == key
  }

  lemma {:induction false} RootFlag(h: Hash, rules: seq<Rule>, key: bytes)
    requires AllParsed(rules)
    ensures OrOf(Entries(h, rules, false), key) & INCLUDE_ROOT != 0 <==> RootRule(rules, key)
  {
    hide OrOf;
    if rules == [] {
      OrOfAbsent(Entries(h, rules, false), key);
    } else {
      var t, rule := rules[..|rules| - 1], rules[|rules| - 1];
      RootFlag(h, t, key);
      OrOfSnoc(Entries(h, t, false), EntryOf(h, rule), key);
      FlagBits(OrOf(Entries(h, t, false), key));
      assert RootRule(rules, key) <==> RootRule(t, key) || (rule.kind == Suffix && KeyOf(rule) == key) by {
        if RootRule(t, key) {
          var i :| 0 <= i < |t| && t[i].kind == Suffix && KeyOf(t[i]) == key;
          assert rules[i].kind == Suffix && KeyOf(rules[i]) == key;
        }
        assert rules[|rules| - 1] == rule;
      }
    }
  }

  lemma FlagBits(f: bv8)
    ensures (f | INCLUDE_ROOT) & INCLUDE_ROOT != 0
    ensures f | 0 == f
  {
  }

  /** A domain that starts with a dot and whose rest is a suffix or wildcard key. */
  ghost predicate LeadingDot(rules: seq<Rule>, host: bytes)
    requires AllParsed(rules)
  {
    host != [] && host[0] == DOT && SomeKeyRule(rules, false, Fold(host[1..]))
  }

  predicate NulFreeRules(rules: seq<Rule>) {
    forall i :: 0 <= i < |rules| ==> NulFree(rules[i].value)
  }

  lemma TailIsKey(host: bytes, suffix: bytes, i: nat)
    requires NulFree(suffix) && i < |host| && host[i] == DOT
    requires Fold(suffix) == Fold(host)[i + 1..]
    ensures i > 0 ==> TailMatches(host, suffix)
  {
    assert |suffix| == |host| - i - 1;
    FoldSlice(host, i + 1);
    SameNoCaseFolds(host[i + 1..], suffix);
  }

  lemma TailHasDot(host: bytes, suffix: bytes)
    requires NulFree(suffix) && TailMatches(host, suffix)
    ensures var i := |host| - |suffix| - 1; i > 0 && Fold(host)[i] == DOT && Fold(suffix) == Fold(host)[i + 1..]
  {
    var i := |host| - |suffix| - 1;
    FoldSlice(host, i + 1);
    SameNoCaseFolds(host[i + 1..], suffix);
  }

  predicate KeyAfterDot(host: bytes, key: bytes) {
    exists i :: 0 < i < |host| && host[i] == DOT && key == Fold(host)[i + 1..]
  }

  lemma TailByKey(host: bytes, suffix: bytes)
    requires NulFree(suffix)
    ensures TailMatches(host, suffix) <==> KeyAfterDot(host, Fold(suffix))
  {
    if TailMatches(host, suffix) {
      TailHasDot(host, suffix);
      assert host[|host| - |suffix| - 1] == DOT;
    }
    if i :| 0 < i < |host| && host[i] == DOT && Fold(suffix) == Fold(host)[i + 1..] {
      TailIsKey(host, suffix, i);
    }
  }

  /** What a single non-regex rule matches, said with the keys of the tables. */
  lemma RuleByKeys(rx: RegexOracle, rule: Rule, host: bytes)
    requires Parsed(rule) && NulFree(rule.value) && rule.kind != Regex
    ensures RuleMatches(rx, rule, host) <==>
              || (rule.kind != Wildcard && KeyOf(rule) == Fold(host))
              || (rule.kind != Exact && KeyAfterDot(host, KeyOf(rule)))
  {
    if rule.kind == Exact {
      if |host| == |rule.value| { SameNoCaseFolds(host, rule.value); }
    } else {
      var suffix := if rule.kind == Suffix then rule.value[1..] else rule.value[2..];
      assert NulFree(suffix);
      if |host| == |suffix| { SameNoCaseFolds(host, suffix); }
      TailByKey(host, suffix);
    }
  }

  lemma Hit(rx: RegexOracle, rules: seq<Rule>, i: nat, host: bytes)
    requires AllParsed(rules) && i < |rules| && RuleMatches(rx, rules[i], host)
    ensures LinearMatches(rx, rules, host)
  {
  }

  lemma ExactHit(h: Hash, rx: RegexOracle, rules: seq<Rule>, c: Compiled, host: bytes)
    requires AllParsed(rules) && IsCompiled(h, c, rules) && NulFreeRules(rules)
    requires Find(h, c.exact, Fold(host)).Some?
    ensures LinearMatches(rx, rules, host)
  {
    hide RuleMatches;
    EntriesHaveKeys(h, rules, true, Fold(host));
    var i :| 0 <= i < |rules| && KeyRule(rules[i], true, Fold(host));
    RuleByKeys(rx, rules[i], host);
    Hit(rx, rules, i, host);
  }

  lemma RootHit(h: Hash, rx: RegexOracle, rules: seq<Rule>, c: Compiled, host: bytes)
    requires AllParsed(rules) && IsCompiled(h, c, rules) && NulFreeRules(rules)
    requires RootKey(h, c.suffix, Fold(host))
    ensures LinearMatches(rx, rules, host)
  {
    hide RuleMatches, OrOf;
    RootFlag(h, rules, Fold(host));
    var i :| 0 <= i < |rules| && rules[i].kind == Suffix && KeyOf(rules[i]) == Fold(host);
    RuleByKeys(rx, rules[i], host);
    Hit(rx, rules, i, host);
  }

  lemma DottedHit(h: Hash, rx: RegexOracle, rules: seq<Rule>, c: Compiled, host: bytes)
    requires AllParsed(rules) && IsCompiled(h, c, rules) && NulFreeRules(rules)
    requires DottedKey(h, c.suffix, Fold(host), |host|)
    ensures LinearMatches(rx, rules, host) || LeadingDot(rules, host)
  {
    hide RuleMatches, OrOf, Find, HasKey;
    var name := Fold(host);
    var k :| 0 <= k < |host| && name[k] == DOT && Find(h, c.suffix, name[k + 1..]).Some?;
    EntriesHaveKeys(h, rules, false, name[k + 1..]);
    AfterDot(host, k);
    if k > 0 {
      var i :| 0 <= i < |rules| && KeyRule(rules[i], false, name[k + 1..]);
      hide KeyAfterDot;
      RuleByKeys(rx, rules[i], host);
      Hit(rx, rules, i, host);
    }
  }

  lemma AfterDot(host: bytes, k: nat)
    requires k < |host| && Fold(host)[k] == DOT
    ensures host[k] == DOT && Fold(host)[k + 1..] == Fold(host[k + 1..])
    ensures k > 0 ==> KeyAfterDot(host, Fold(host)[k + 1..])
  {
    FoldSlice(host, k + 1);
    assert host[k] == DOT;
  }

  lemma CompiledImpliesLinear(h: Hash, rx: RegexOracle, rules: seq<Rule>, c: Compiled, host: bytes)
    requires AllParsed(rules) && IsCompiled(h, c, rules) && NulFreeRules(rules)
    requires CompiledMatches(h, rx, c, host)
    ensures LinearMatches(rx, rules, host) || LeadingDot(rules, host)
  {
    hide RuleMatches, Find, DottedKey, RootKey;
    if Find(h, c.exact, Fold(host)).Some? {
      ExactHit(h, rx, rules, c, host);
    } else if RootKey(h, c.suffix, Fold(host)) {
      RootHit(h, rx, rules, c, host);
    } else if DottedKey(h, c.suffix, Fold(host), |host|) {
      DottedHit(h, rx, rules, c, host);
    } else {
      RegexRulesAre(rx, rules, host);
    }
  }

  lemma KeyFound(h: Hash, rules: seq<Rule>, c: Compiled, i: nat, name: bytes)
    requires AllParsed(rules) && IsCompiled(h, c, rules) && i < |rules| && rules[i].kind != Regex
             && KeyOf(rules[i]) == name
    ensures rules[i].kind == Exact ==> Find(h, c.exact, name).Some?
    ensures rules[i].kind != Exact ==> Find(h, c.suffix, name).Some?
    ensures rules[i].kind == Suffix ==> RootKey(h, c.suffix, name)
  {
    hide Find, OrOf;
    assert KeyRule(rules[i], rules[i].kind == Exact, name);
    EntriesHaveKeys(h, rules, rules[i].kind == Exact, name);
    if rules[i].kind == Suffix {
      assert RootRule(rules, name);
      RootFlag(h, rules, name);
    }
  }

  lemma LinearImpliesCompiled(h: Hash, rx: RegexOracle, rules: seq<Rule>, c: Compiled, host: bytes)
    requires AllParsed(rules) && IsCompiled(h, c, rules) && NulFreeRules(rules)
    requires LinearMatches(rx, rules, host)
    ensures CompiledMatches(h, rx, c, host)
  {
    hide Find, RootKey, RegexRules;
    var name := Fold(host);
    var i :| 0 <= i < |rules| && RuleMatches(rx, rules[i], host);
    hide RuleMatches;
    if rules[i].kind == Regex {
      RegexRulesAre(rx, rules, host);
    } else {
      RuleByKeys(rx, rules[i], host);
      if rules[i].kind != Wildcard && KeyOf(rules[i]) == name {
        KeyFound(h, rules, c, i, name);
      } else {
        var k :| 0 < k < |host| && host[k] == DOT && KeyOf(rules[i]) == name[k + 1..];
        KeyFound(h, rules, c, i, name[k + 1..]);
        assert name[k] == DOT && Find(h, c.suffix, name[k + 1..]).Some?;
      }
    }
  }

  lemma {:induction false} RegexRulesAre(rx: RegexOracle, rules: seq<Rule>, host: bytes)
    requires AllParsed(rules)
    ensures LinearMatches(rx, RegexRules(rules), host) <==>
              exists i :: 0 <= i < |rules| && rules[i].kind == Regex && RuleMatches(rx, rules[i], host)
  {
    if rules != [] {
      var t, rule := rules[..|rules| - 1], rules[|rules| - 1];
      RegexRulesAre(rx, t, host);
      var rt, r := RegexRules(t), RegexRules(rules);
      if rule.kind == Regex {
        assert r == rt + [rule];
        if LinearMatches(rx, r, host) {
          var i :| 0 <= i < |r| && RuleMatches(rx, r[i], host);
          if i < |rt| {
            assert RuleMatches(rx, rt[i], host);
            var k :| 0 <= k < |t| && t[k].kind == Regex && RuleMatches(rx, t[k], host);
            assert rules[k] == t[k];
          } else {
            assert rules[|rules| - 1] == rule;
          }
        }
        if LinearMatches(rx, rt, host) {
          var i :| 0 <= i < |rt| && RuleMatches(rx, rt[i], host);
          assert RuleMatches(rx, r[i], host);
        }
        assert r[|rt|] == rule;
      } else if LinearMatches(rx, r, host) {
        var k :| 0 <= k < |t| && t[k].kind == Regex && RuleMatches(rx, t[k], host);
        assert rules[k] == t[k];
      }
      if i :| 0 <= i < |rules| && rules[i].kind == Regex && RuleMatches(rx, rules[i], host) {
        if i < |t| { assert t[i] == rules[i]; }
      }
    }
  }

  /** The compiled answer is the linear one, or the dot at position 0 hit a suffix key. */
  lemma CompiledIsLinear(h: Hash, rx: RegexOracle, rules: seq<Rule>, c: Compiled, host: bytes)
    requires AllParsed(rules) && IsCompiled(h, c, rules) && NulFreeRules(rules)
    ensures CompiledMatches(h, rx, c, host) <==> LinearMatches(rx, rules, host) || LeadingDot(rules, host)
  {
    if LinearMatches(rx, rules, host) { LinearImpliesCompiled(h, rx, rules, c, host); }
    if CompiledMatches(h, rx, c, host) { CompiledImpliesLinear(h, rx, rules, c, host); }
    if LeadingDot(rules, host) {
      var name := Fold(host);
      FoldSlice(host, 1);
      EntriesHaveKeys(h, rules, false, name[1..]);
      assert name[0] == DOT && Find(h, c.suffix, name[0 + 1..]).Some?;
    }
  }

  /** The two matchers differ on ".a" under the rule ".a". */
  lemma LeadingDotWitness(rx: RegexOracle)
    ensures var rules, host := [Rule(Suffix, [DOT, 97])], [DOT, 97];
            AllParsed(rules) && NulFreeRules(rules) && !LinearMatches(rx, rules, host) && LeadingDot(rules, host)
  {
    var rules, host := [Rule(Suffix, [DOT, 97])], [DOT, 97];
    assert rules[0].value[1..] == [97];
    assert KeyRule(rules[0], false, Fold(host[1..]));
  }

  lemma {:induction false} SameToNul(a: bytes, b: bytes, k: nat)
    requires |a| == |b| && k < |a| && a[k] == b[k] == 0
    requires forall i :: 0 <= i < k ==> ToLower(a[i]) == ToLower(b[i])
    ensures SameNoCase(a, b)
  {
    if k > 0 { SameToNul(a[1..], b[1..], k - 1); }
  }

  lemma NoKeyNoMatch(h: Hash, rx: RegexOracle, rules: seq<Rule>, c: Compiled, host: bytes)
    requires AllParsed(rules) && IsCompiled(h, c, rules) && DOT !in host
    requires forall i :: 0 <= i < |rules| ==> rules[i].kind == Exact && KeyOf(rules[i]) != Fold(host)
    ensures !CompiledMatches(h, rx, c, host)
  {
    hide RuleMatches, OrOf, Find;
    var name := Fold(host);
    EntriesHaveKeys(h, rules, true, name);
    NoSuffixKeys(h, rules);
    forall key: bytes ensures Find(h, c.suffix, key).None? {
      assert !HasKey([], key);
    }
    RegexRulesAre(rx, rules, host);
    assert Find(h, c.exact, name).None?;
    assert !DottedKey(h, c.suffix, name, |host|);
  }

  lemma {:induction false} NoSuffixKeys(h: Hash, rules: seq<Rule>)
    requires AllParsed(rules) && forall i :: 0 <= i < |rules| ==> rules[i].kind == Exact
    ensures Entries(h, rules, false) == []
  {
    if rules != [] { NoSuffixKeys(h, rules[..|rules| - 1]); }
  }

  /** A NUL inside an exact rule cuts the linear comparison short, but not the key. */
  lemma NulRuleDiffers(h: Hash, rx: RegexOracle, c: Compiled, rule: Rule, host: bytes, k: nat)
    requires Parsed(rule) && rule.kind == Exact && IsCompiled(h, c, [rule])
    requires |host| == |rule.value| && k < |host| && host[k] == rule.value[k] == 0
    requires forall i :: 0 <= i < k ==> ToLower(host[i]) == ToLower(rule.value[i])
    requires Fold(host) != Fold(rule.value) && DOT !in host
    ensures LinearMatches(rx, [rule], host) && !CompiledMatches(h, rx, c, host)
  {
    hide SameNoCase, CompiledMatches, IsCompiled;
    var rules := [rule];
    SameToNul(host, rule.value, k);
    assert RuleMatches(rx, rules[0], host);
    NoKeyNoMatch(h, rx, rules, c, host);
  }

  /** What the entry point answers for a non-empty rule list, compiled or not. */
  ghost predicate Answer(rx: RegexOracle, rules: seq<Rule>, compiled: bool, host: bytes)
    requires AllParsed(rules)
  {
    LinearMatches(rx, rules, host) || (compiled && |host| <= 255 && LeadingDot(rules, host))
  }

  /** Without regex rules, and without NULs in the rules, the case of the host does not matter. */
  lemma PlainRulesIgnoreCase(rx: RegexOracle, rules: seq<Rule>, compiled: bool, a: bytes, b: bytes)
    requires AllParsed(rules) && NulFreeRules(rules) && forall i :: 0 <= i < |rules| ==> rules[i].kind != Regex
    requires Fold(a) == Fold(b)
    ensures Answer(rx, rules, compiled, a) <==> Answer(rx, rules, compiled, b)
  {
    assert |a| == |Fold(a)| == |b|;
    forall i | 0 <= i < |a| ensures a[i] == DOT <==> b[i] == DOT {
      assert Fold(a)[i] == Fold(b)[i];
    }
    forall i | 0 <= i < |rules| ensures RuleMatches(rx, rules[i], a) <==> RuleMatches(rx, rules[i], b) {
      RuleByKeys(rx, rules[i], a);
      RuleByKeys(rx, rules[i], b);
    }
    if a != [] {
      FoldSlice(a, 1);
      FoldSlice(b, 1);
    }
  }

  // ----- what the rules say, in octets

  predicate EndsIn(host: bytes, tail: bytes) {
    |host| > |tail| && SameText(host[|host| - |tail|..], tail)
  }

  /** The values that are no rule: nothing, "~", "." and "include". */
  lemma RefusedValues(value: bytes)
    ensures KindOf(value).None? <==>
              value == [] || value == [126] || value == [46] || value == [105, 110, 99, 108, 117, 100, 101]
  {
    if |value| == 1 { assert value == [value[0]]; }
  }

  /** A rule read off its value: '~' (126) begins a pattern, '.' (46) a suffix that also stands for the name behind it,
      "*." (42, 46) a wildcard that does not, and anything else is the name itself. */
  predicate SaysYes(rx: RegexOracle, rule: Rule, host: bytes)
    requires rule.value != []
  {
    var v := rule.value;
    && host != []
    && if v[0] == 126 then rx(rule, host)
       else if v[0] == 46 then SameText(host, v[1..]) || EndsIn(host, v)
       else if |v| > 2 && v[0] == 42 && v[1] == 46 then EndsIn(host, v[1..])
       else SameText(host, v)
  }

  /** The name behind the dot of a suffix or a wildcard. */
  function BehindDot(v: bytes): Option<bytes> {
    if |v| > 1 && v[0] == 46 then Some(v[1..]) else if |v| > 2 && v[0] == 42 && v[1] == 46 then Some(v[2..]) else None
  }

  /** Some rule matches; or, with tables and a host of at most 255 octets, the host is a dot and such a name. */
  ghost predicate SomeSaysYes(rx: RegexOracle, rules: seq<Rule>, compiled: bool, host: bytes)
    requires AllParsed(rules)
  {
    || (exists i :: 0 <= i < |rules| && SaysYes(rx, rules[i], host))
    || (compiled && 1 <= |host| <= 255 && host[0] == 46
        && exists i :: 0 <= i < |rules| && BehindDot(rules[i].value).Some?
                       && SameText(host[1..], BehindDot(rules[i].value).value))
  }

  lemma SameNoCaseIsText(a: bytes, b: bytes)
    requires |a| == |b| && NulFree(b)
    ensures SameNoCase(a, b) <==> SameText(a, b)
  {
    SameNoCaseFolds(a, b);
    FoldIsSameText(a, b);
  }

  lemma SameTextFront(x: byte, a: bytes, y: byte, b: bytes)
    ensures SameText([x] + a, [y] + b) <==> SameLetter(x, y) && SameText(a, b)
  {
    var c, d := [x] + a, [y] + b;
    assert forall i :: 0 <= i < |a| ==> c[i + 1] == a[i];
    assert forall i :: 0 <= i < |b| ==> d[i + 1] == b[i];
    assert c[0] == x && d[0] == y && |c| == |a| + 1 && |d| == |b| + 1;
    if SameText(c, d) {
      assert SameLetter(c[0], d[0]);
      forall i | 0 <= i < |a| ensures SameLetter(a[i], b[i]) { assert SameLetter(c[i + 1], d[i + 1]); }
    }
  }

  lemma TailIsText(host: bytes, suffix: bytes, v: bytes)
    requires NulFree(suffix) && v == [DOT] + suffix
    ensures TailMatches(host, suffix) <==> EndsIn(host, v)
  {
    if |host| > |v| {
      var tail, rest := host[|host| - |v|..], host[|host| - |suffix|..];
      hide SameText, SameNoCase;
      assert tail == [tail[0]] + rest;
      SameNoCaseIsText(rest, suffix);
      SameTextFront(tail[0], rest, DOT, suffix);
    }
  }

  lemma RuleSaysYes(rx: RegexOracle, rule: Rule, host: bytes)
    requires Parsed(rule) && NulFree(rule.value)
    ensures RuleMatches(rx, rule, host) <==> SaysYes(rx, rule, host)
  {
    hide SameText, SameNoCase, NulFree, TailMatches, EndsIn;
    var v := rule.value;
    match rule.kind
    case Exact => if |host| == |v| { SameNoCaseIsText(host, v); } else { DifferentLengths(host, v); }
    case Suffix =>
      NulFreeTail(v, 1);
      assert v == [DOT] + v[1..];
      TailIsText(host, v[1..], v);
      if |host| == |v[1..]| {
        SameNoCaseIsText(host, v[1..]);
        NotLonger(host, v);
      } else {
        DifferentLengths(host, v[1..]);
      }
    case Wildcard =>
      NulFreeTail(v, 2);
      assert v[1..] == [DOT] + v[2..];
      TailIsText(host, v[2..], v[1..]);
    case Regex =>
  }

  lemma NulFreeTail(v: bytes, i: nat)
    requires NulFree(v) && i <= |v|
    ensures NulFree(v[i..])
  {
  }

  lemma DifferentLengths(a: bytes, b: bytes)
    requires |a| != |b|
    ensures !SameText(a, b)
  {
  }

  lemma NotLonger(host: bytes, v: bytes)
    requires |host| <= |v|
    ensures !EndsIn(host, v)
  {
  }

  lemma LeadingDotInOctets(rules: seq<Rule>, host: bytes)
    requires AllParsed(rules)
    ensures LeadingDot(rules, host) <==>
              && host != [] && host[0] == 46
              && exists i :: 0 <= i < |rules| && BehindDot(rules[i].value).Some?
                             && SameText(host[1..], BehindDot(rules[i].value).value)
  {
    if host != [] && host[0] == 46 {
      var name := host[1..];
      forall i | 0 <= i < |rules|
        ensures KeyRule(rules[i], false, Fold(name)) <==>
                  BehindDot(rules[i].value).Some? && SameText(name, BehindDot(rules[i].value).value)
      {
        KeyInOctets(rules[i], name);
      }
    }
  }

  lemma KeyInOctets(rule: Rule, name: bytes)
    requires Parsed(rule)
    ensures KeyRule(rule, false, Fold(name)) <==>
              BehindDot(rule.value).Some? && SameText(name, BehindDot(rule.value).value)
  {
    hide SameText;
    if BehindDot(rule.value).Some? { FoldIsSameText(name, BehindDot(rule.value).value); }
  }

  /** What the entry point answers, said with the octets of rules and host alone. */
  lemma AnswerInOctets(rx: RegexOracle, rules: seq<Rule>, compiled: bool, host: bytes)
    requires AllParsed(rules) && NulFreeRules(rules)
    ensures Answer(rx, rules, compiled, host) <==> SomeSaysYes(rx, rules, compiled, host)
  {
    forall i | 0 <= i < |rules| ensures RuleMatches(rx, rules[i], host) <==> SaysYes(rx, rules[i], host) {
      RuleSaysYes(rx, rules[i], host);
    }
    LeadingDotInOctets(rules, host);
    hide RuleMatches, SaysYes, LeadingDot, BehindDot, SameText;
  }

  /** The entry point: tables for hosts that fit the name buffer, the linear scan beyond. */
  method MatchDomain(h: Hash, rx: RegexOracle, rules: seq<Rule>, c: Option<Compiled>, host: bytes) returns (r: Match)
    requires AllParsed(rules)
    requires c.Some? ==> IsCompiled(h, c.value, rules)
    ensures r == NotApplicable <==> rules == []
    ensures rules != [] && NulFreeRules(rules) ==> (r == Matched <==> Answer(rx, rules, c.Some?, host))
    ensures rules != [] && NulFreeRules(rules) ==> (r == Matched <==> SomeSaysYes(rx, rules, c.Some?, host))
    ensures rules != [] ==>
              (r == Matched <==>
                 if c.Some? && |host| <= 255 then CompiledMatches(h, rx, c.value, host)
                 else LinearMatches(rx, rules, host))
  {
    if rules == [] {
      return NotApplicable;
    }
    var hit: bool;
    if c.Some? && |host| <= 255 {
      if NulFreeRules(rules) { CompiledIsLinear(h, rx, rules, c.value, host); }
      hit := CompiledScan(h, rx, c.value, host);
    } else {
      hit := LinearScan(rx, rules, host);
    }
    if NulFreeRules(rules) { AnswerInOctets(rx, rules, c.Some?, host); }
    r := if hit then Matched else NoMatch;
  }
}
