/** Aggregating parsed lists, and what the aggregate means for a DNS query. */
module FilterList {
  import opened Text
  import opened Domains
  import opened Policy
  import opened FilterListParser
  import opened FilterListSyntax

  // ---------------------------------------------------------------- sorted lists without duplicates

  /** Byte-wise lexicographic order. */
  predicate Less(a: Bytes, b: Bytes) {
    if b == [] then false
    else if a == [] then true
    else a[0] < b[0] || (a[0] == b[0] && Less(a[1..], b[1..]))
  }

  lemma {:induction false} LessTotal(a: Bytes, b: Bytes)
    ensures Less(a, b) || a == b || Less(b, a)
    ensures !(Less(a, b) && Less(b, a)) && !Less(a, a)
    decreases |a|
  {
    if a != [] {
      LessTotal(a[1..], a[1..]);
      if b != [] {
        LessTotal(a[1..], b[1..]);
        if a[0] == b[0] && a[1..] == b[1..] {
          assert a == [a[0]] + a[1..] == [b[0]] + b[1..] == b;
        }
      }
    }
  }

  lemma {:induction false} LessTransitive(a: Bytes, b: Bytes, c: Bytes)
    requires Less(a, b) && Less(b, c)
    ensures Less(a, c)
  {
    if a != [] && a[0] == b[0] && b[0] == c[0] {
      LessTransitive(a[1..], b[1..], c[1..]);
    }
  }

  predicate StrictlySorted(s: seq<Bytes>) {
    forall i, j | 0 <= i < j < |s| :: Less(s[i], s[j])
  }

  function Insert(x: Bytes, s: seq<Bytes>): (r: seq<Bytes>)
    ensures forall y :: y in r <==> y == x || y in s
  {
    if s == [] then [x]
    else if x == s[0] then s
    else if Less(x, s[0]) then [x] + s
    else [s[0]] + Insert(x, s[1..])
  }

  /** `sort()` followed by `dedup()`. */
  function SortDedup(xs: seq<Bytes>): (r: seq<Bytes>)
    ensures forall y :: y in r <==> y in xs
  {
    if xs == [] then [] else Insert(xs[0], SortDedup(xs[1..]))
  }

  lemma {:induction false} InsertSorted(x: Bytes, s: seq<Bytes>)
    requires StrictlySorted(s)
    ensures StrictlySorted(Insert(x, s))
  {
    hide Less;
    if s != [] && x != s[0] {
      LessTotal(x, s[0]);
      if Less(x, s[0]) {
        forall j | 0 <= j < |s| ensures Less(x, s[j]) {
          if j > 0 { LessTransitive(x, s[0], s[j]); }
        }
      } else {
        InsertSorted(x, s[1..]);
        var rest := Insert(x, s[1..]);
        forall j | 0 <= j < |rest| ensures Less(s[0], rest[j]) {
          assert rest[j] in rest;
          if rest[j] != x {
            var i :| 0 <= i < |s[1..]| && s[1..][i] == rest[j];
            assert Less(s[0], s[i + 1]);
          }
        }
      }
    }
  }

  lemma {:induction false} SortDedupSorted(xs: seq<Bytes>)
    ensures StrictlySorted(SortDedup(xs))
  {
    if xs != [] {
      SortDedupSorted(xs[1..]);
      InsertSorted(xs[0], SortDedup(xs[1..]));
    }
  }

  /** A strictly sorted list is determined by its elements. */
  lemma {:induction false} SortedUnique(a: seq<Bytes>, b: seq<Bytes>)
    requires StrictlySorted(a) && StrictlySorted(b)
    requires forall x :: x in a <==> x in b
    ensures a == b
  {
    hide Less;
    HasElement(b);
    if a != [] {
      assert a[0] in a && a[0] in b;
      var j :| 0 <= j < |b| && b[j] == a[0];
      assert b[0] in b && b[0] in a;
      var i :| 0 <= i < |a| && a[i] == b[0];
      LessTotal(a[0], b[0]);
      assert a[0] == b[0];
      forall x ensures x in a[1..] <==> x in b[1..] {
        TailMembers(a, x);
        TailMembers(b, x);
      }
      SortedUnique(a[1..], b[1..]);
      assert a == [a[0]] + a[1..];
    }
  }

  lemma HasElement(s: seq<Bytes>)
    ensures s != [] ==> exists x :: x in s
  {
    if s != [] { assert s[0] in s; }
  }

  lemma TailMembers(s: seq<Bytes>, x: Bytes)
    requires s != [] && StrictlySorted(s)
    ensures x in s[1..] <==> x in s && x != s[0]
  {
    hide Less;
    LessTotal(s[0], s[0]);
    if x in s[1..] {
      var i :| 0 <= i < |s[1..]| && s[1..][i] == x;
      assert Less(s[0], s[i + 1]);
    }
    if x in s && x != s[0] {
      var i :| 0 <= i < |s| && s[i] == x;
      assert s[1..][i - 1] == x;
    }
  }

  lemma SortDedupCanonical(xs: seq<Bytes>, ys: seq<Bytes>)
    requires forall x :: x in xs <==> x in ys
    ensures SortDedup(xs) == SortDedup(ys)
  {
    hide SortDedup, StrictlySorted;
    SortDedupSorted(xs);
    SortDedupSorted(ys);
    SortedUnique(SortDedup(xs), SortDedup(ys));
  }

  // ---------------------------------------------------------------- aggregation

  datatype Parsed = Parsed(rules: seq<ParsedRule>, stats: ParseStats)
  datatype Aggregate = Aggregate(rules: FilterRules, sources: nat, stats: ParseStats)

  function AllRules(results: seq<Parsed>): (rs: seq<ParsedRule>)
    ensures forall r :: r in rs <==> exists p | p in results :: r in p.rules
  {
    if results == [] then []
    else
      var front, last := results[..|results| - 1], results[|results| - 1];
      assert results == front + [last];
      AllRules(front) + last.rules
  }

  function SumStats(results: seq<Parsed>): ParseStats {
    if results == [] then NO_STATS
    else AddStats(SumStats(results[..|results| - 1]), results[|results| - 1].stats)
  }

  function BlockSet(rs: seq<ParsedRule>): set<Bytes> {
    set r | r in rs && r.DomainBlock? :: r.domain
  }

  function ExceptionSet(rs: seq<ParsedRule>): set<Bytes> {
    set r | r in rs && r.Exception? :: r.domain
  }

  function PatternList(rs: seq<ParsedRule>): (ps: seq<Bytes>)
    ensures forall x :: x in ps <==> exists r | r in rs :: r.UrlPattern? && x == r.domain + r.path
  {
    if rs == [] then []
    else
      var front, last := rs[..|rs| - 1], rs[|rs| - 1];
      assert rs == front + [last];
      PatternList(front) + (if last.UrlPattern? then [last.domain + last.path] else [])
  }

  function SelectorList(rs: seq<ParsedRule>): (ss: seq<Bytes>)
    ensures forall x :: x in ss <==> CosmeticGlobal(x) in rs
  {
    if rs == [] then []
    else
      var front, last := rs[..|rs| - 1], rs[|rs| - 1];
      assert rs == front + [last];
      SelectorList(front) + (if last.CosmeticGlobal? then [last.selector] else [])
  }

  function ScopedMap(rs: seq<ParsedRule>): (m: map<Bytes, seq<Bytes>>)
    ensures forall d :: d in m ==> m[d] != []
    ensures forall d, x :: d in m && x in m[d] <==> CosmeticDomainScoped(d, x) in rs
  {
    if rs == [] then map[]
    else
      var front, last := rs[..|rs| - 1], rs[|rs| - 1];
      assert rs == front + [last];
      var m := ScopedMap(front);
      if last.CosmeticDomainScoped? then PushSelector(m, last.domain, last.selector) else m
  }

  /** `entry(domain).or_default().push(selector)`. */
  function PushSelector(m: map<Bytes, seq<Bytes>>, domain: Bytes, selector: Bytes): map<Bytes, seq<Bytes>> {
    m[domain := (if domain in m then m[domain] else []) + [selector]]
  }

  function Finish(m: map<Bytes, seq<Bytes>>): map<Bytes, seq<Bytes>> {
    map d | d in m :: SortDedup(m[d])
  }

  function RulesFrom(rs: seq<ParsedRule>): FilterRules {
    FilterRules(BlockSet(rs), ExceptionSet(rs), SortDedup(PatternList(rs)), SortDedup(SelectorList(rs)),
                Finish(ScopedMap(rs)))
  }

  function AggregateSpec(results: seq<Parsed>): Aggregate {
    Aggregate(RulesFrom(AllRules(results)), |results|, SumStats(results))
  }

  lemma RuleStep(rs: seq<ParsedRule>, r: ParsedRule)
    ensures BlockSet(rs + [r]) == BlockSet(rs) + (if r.DomainBlock? then {r.domain} else {})
    ensures ExceptionSet(rs + [r]) == ExceptionSet(rs) + (if r.Exception? then {r.domain} else {})
    ensures PatternList(rs + [r]) == PatternList(rs) + (if r.UrlPattern? then [r.domain + r.path] else [])
    ensures SelectorList(rs + [r]) == SelectorList(rs) + (if r.CosmeticGlobal? then [r.selector] else [])
    ensures ScopedMap(rs + [r]) ==
            if r.CosmeticDomainScoped? then PushSelector(ScopedMap(rs), r.domain, r.selector) else ScopedMap(rs)
  {
    assert (rs + [r])[..|rs|] == rs;
  }

  /** `aggregate_rules`. */
  method AggregateRules(results: seq<Parsed>) returns (a: Aggregate)
    ensures a == AggregateSpec(results)
  {
    hide BlockSet, ExceptionSet, PatternList, SelectorList, ScopedMap, PushSelector, SortDedup, AllRules, SumStats;
    var block: set<Bytes>, exceptions: set<Bytes> := {}, {};
    var patterns: seq<Bytes>, selectors: seq<Bytes> := [], [];
    var scoped: map<Bytes, seq<Bytes>> := map[];
    var stats := NO_STATS;
    ghost var seen: seq<ParsedRule> := [];
    NothingSeen();
    for i := 0 to |results|
      invariant seen == AllRules(results[..i]) && stats == SumStats(results[..i])
      invariant block == BlockSet(seen) && exceptions == ExceptionSet(seen)
      invariant patterns == PatternList(seen) && selectors == SelectorList(seen) && scoped == ScopedMap(seen)
    {
      SourceStep(results, i);
      stats := AddStats(stats, results[i].stats);
      var rules := results[i].rules;
      ghost var start := seen;
      for j := 0 to |rules|
        invariant seen == start + rules[..j]
        invariant block == BlockSet(seen) && exceptions == ExceptionSet(seen)
        invariant patterns == PatternList(seen) && selectors == SelectorList(seen) && scoped == ScopedMap(seen)
      {
        var rule := rules[j];
        RuleStep(seen, rule);
        seen := seen + [rule];
        assert rules[..j + 1] == rules[..j] + [rule];
        match rule {
          case DomainBlock(domain) => block := block + {domain};
          case UrlPattern(domain, path) => patterns := patterns + [domain + path];
          case CosmeticGlobal(selector) => selectors := selectors + [selector];
          case CosmeticDomainScoped(domain, selector) => scoped := PushSelector(scoped, domain, selector);
          case Exception(domain) => exceptions := exceptions + {domain};
        }
      }
      assert rules[..|rules|] == rules;
    }
    assert results[..|results|] == results;
    a := Aggregate(
      FilterRules(block, exceptions, SortDedup(patterns), SortDedup(selectors), Finish(scoped)), |results|, stats);
  }

  lemma NothingSeen()
    ensures AllRules([]) == [] && SumStats([]) == NO_STATS && BlockSet([]) == {} && ExceptionSet([]) == {}
    ensures PatternList([]) == [] && SelectorList([]) == [] && ScopedMap([]) == map[]
  {
  }

  lemma SourceStep(results: seq<Parsed>, i: nat)
    requires i < |results|
    ensures AllRules(results[..i + 1]) == AllRules(results[..i]) + results[i].rules
    ensures SumStats(results[..i + 1]) == AddStats(SumStats(results[..i]), results[i].stats)
  {
    assert results[..i + 1][..i] == results[..i];
  }

  // ---------------------------------------------------------------- order does not matter

  /** The rules of the aggregate depend only on which rules occur. */
  lemma RulesFromCanonical(rs: seq<ParsedRule>, qs: seq<ParsedRule>)
    requires forall r :: r in rs <==> r in qs
    ensures RulesFrom(rs) == RulesFrom(qs)
  {
    hide PatternList, SelectorList, ScopedMap, SortDedup;
    assert BlockSet(rs) == BlockSet(qs);
    assert ExceptionSet(rs) == ExceptionSet(qs);
    SortDedupCanonical(PatternList(rs), PatternList(qs));
    SortDedupCanonical(SelectorList(rs), SelectorList(qs));
    ScopedCanonical(rs, qs);
  }

  lemma ScopedCanonical(rs: seq<ParsedRule>, qs: seq<ParsedRule>)
    requires forall r :: r in rs <==> r in qs
    ensures Finish(ScopedMap(rs)) == Finish(ScopedMap(qs))
  {
    hide ScopedMap, SortDedup;
    var m, n := ScopedMap(rs), ScopedMap(qs);
    forall d | d in m ensures d in n && SortDedup(m[d]) == SortDedup(n[d]) {
      ScopedKey(rs, qs, d);
      SortDedupCanonical(m[d], n[d]);
    }
    forall d | d in n ensures d in m { ScopedKey(qs, rs, d); }
  }

  lemma ScopedKey(rs: seq<ParsedRule>, qs: seq<ParsedRule>, d: Bytes)
    requires forall r :: r in rs <==> r in qs
    requires d in ScopedMap(rs)
    ensures d in ScopedMap(qs) && forall x :: x in ScopedMap(rs)[d] <==> x in ScopedMap(qs)[d]
  {
    hide ScopedMap;
    var x := ScopedMap(rs)[d][0];
    assert x in ScopedMap(rs)[d];
    assert CosmeticDomainScoped(d, x) in qs;
  }

  lemma AddStatsSwap(a: ParseStats, b: ParseStats, c: ParseStats)
    ensures AddStats(AddStats(a, b), c) == AddStats(AddStats(a, c), b)
  {
  }

  lemma {:induction false} SumMoves(results: seq<Parsed>, k: nat)
    requires k < |results|
    ensures SumStats(results) == AddStats(SumStats(results[..k] + results[k + 1..]), results[k].stats)
  {
    hide AddStats;
    var n := |results|;
    var without := results[..k] + results[k + 1..];
    if k == n - 1 {
      assert without == results[..n - 1];
    } else {
      SumMoves(results[..n - 1], k);
      AddStatsSwap(SumStats(without[..|without| - 1]), results[k].stats, results[n - 1].stats);
      assert results[..n - 1][..k] + results[..n - 1][k + 1..] == without[..|without| - 1];
      assert without[|without| - 1] == results[n - 1];
    }
  }

  lemma RemoveAt(b: seq<Parsed>, k: nat)
    requires k < |b|
    ensures multiset(b) == multiset(b[..k] + b[k + 1..]) + multiset{b[k]}
  {
    assert b == b[..k] + [b[k]] + b[k + 1..];
  }

  lemma RemoveSame(a: seq<Parsed>, n: nat, b: seq<Parsed>, k: nat)
    requires multiset(a) == multiset(b) && n == |a| - 1 && k < |b| && b[k] == a[n]
    ensures multiset(a[..n]) == multiset(b[..k] + b[k + 1..])
  {
    RemoveAt(a, n);
    RemoveAt(b, k);
    assert a[..n] + a[n + 1..] == a[..n];
    assert multiset(a[..n]) == multiset(a) - multiset{a[n]} == multiset(b[..k] + b[k + 1..]);
  }

  lemma {:induction false} SumPermuted(a: seq<Parsed>, b: seq<Parsed>)
    requires multiset(a) == multiset(b)
    ensures |a| == |b| && SumStats(a) == SumStats(b)
    decreases |a|
  {
    hide AddStats;
    assert |a| == |multiset(a)| == |multiset(b)| == |b|;
    if a != [] {
      var n := |a| - 1;
      assert a[n] in multiset(a) && a[n] in multiset(b);
      var k :| 0 <= k < |b| && b[k] == a[n];
      RemoveSame(a, n, b, k);
      SumPermuted(a[..n], b[..k] + b[k + 1..]);
      SumMoves(b, k);
    }
  }

  /** The aggregate is the same for every order of the sources. */
  lemma AggregateCanonical(a: seq<Parsed>, b: seq<Parsed>)
    requires multiset(a) == multiset(b)
    ensures AggregateSpec(a) == AggregateSpec(b)
  {
    hide AllRules, SumStats, RulesFrom;
    SumPermuted(a, b);
    assert forall p :: p in a <==> p in multiset(a);
    assert forall p :: p in b <==> p in multiset(b);
    RulesFromCanonical(AllRules(a), AllRules(b));
  }

  function AllLines(texts: seq<Bytes>): seq<Bytes> {
    if texts == [] then [] else AllLines(texts[..|texts| - 1]) + Lines(texts[|texts| - 1])
  }

  /** Its statistics count the lines and rules of all sources together. */
  lemma {:induction false} AggregateStats(texts: seq<Bytes>, results: seq<Parsed>)
    requires |texts| == |results|
    requires forall i | 0 <= i < |texts| :: StatsMatch(Lines(texts[i]), results[i].rules, results[i].stats)
    ensures StatsMatch(AllLines(texts), AllRules(results), AggregateSpec(results).stats)
    decreases |texts|
  {
    hide StatsMatch, Lines, AddStats;
    if texts == [] {
      StatsMatchNone();
    } else {
      var n := |texts| - 1;
      AggregateStats(texts[..n], results[..n]);
      StatsAddUp(AllLines(texts[..n]), Lines(texts[n]), AllRules(results[..n]), results[n].rules, SumStats(results[..n]),
                 results[n].stats);
    }
  }

  /** Its lists are strictly sorted: no duplicates, one order. */
  lemma AggregateSorted(results: seq<Parsed>)
    ensures var r := AggregateSpec(results).rules;
            && StrictlySorted(r.scriptPatterns) && StrictlySorted(r.cosmeticSelectors)
            && forall d | d in r.domainCosmetic :: StrictlySorted(r.domainCosmetic[d])
  {
    hide AllRules, PatternList, SelectorList, ScopedMap, SortDedup, StrictlySorted, SumStats;
    var rs := AllRules(results);
    SortDedupSorted(PatternList(rs));
    SortDedupSorted(SelectorList(rs));
    forall d | d in ScopedMap(rs) ensures StrictlySorted(SortDedup(ScopedMap(rs)[d])) {
      SortDedupSorted(ScopedMap(rs)[d]);
    }
  }

  // ---------------------------------------------------------------- what a list means for a query

  /** Some line of some source is a rule `r`. */
  ghost predicate SomeLineStates(valid: Bytes -> bool, texts: seq<Bytes>, r: ParsedRule) {
    exists t, l | t in texts && l in Lines(t) :: States(valid, l, r)
  }

  /** Every source parsed; the statistics play no part in decisions. */
  predicate ParsedFrom(valid: Bytes -> bool, texts: seq<Bytes>, results: seq<Parsed>) {
    |results| == |texts| && forall i | 0 <= i < |texts| :: results[i].rules == RulesOf(valid, Lines(texts[i]))
  }

  lemma RulesComeFromLines(valid: Bytes -> bool, texts: seq<Bytes>, results: seq<Parsed>, r: ParsedRule)
    requires ParsedFrom(valid, texts, results)
    ensures r in AllRules(results) <==> SomeLineStates(valid, texts, r)
  {
    hide RulesOf, Lines, AllRules, ParseLine, States;
    forall l ensures ParseLine(valid, l) == Some(r) <==> States(valid, l, r) { StatesIff(valid, l, r); }
    if r in AllRules(results) {
      var p :| p in results && r in p.rules;
      var i :| 0 <= i < |results| && results[i] == p;
      assert texts[i] in texts && r in RulesOf(valid, Lines(texts[i]));
    }
    if SomeLineStates(valid, texts, r) {
      var t, l :| t in texts && l in Lines(t) && States(valid, l, r);
      assert r in RulesOf(valid, Lines(t));
      var i :| 0 <= i < |texts| && texts[i] == t;
      assert results[i] in results;
    }
  }

  /** Some line of some source blocks `h` or a parent domain, and no line of any source excepts it or a parent domain. */
  ghost predicate BlockedByLists(valid: Bytes -> bool, texts: seq<Bytes>, h: Bytes) {
    && (exists d :: SomeLineStates(valid, texts, DomainBlock(d)) && SuffixMatch(h, d))
    && !(exists d :: SomeLineStates(valid, texts, Exception(d)) && SuffixMatch(h, d))
  }

  lemma FilterListedMeaning(valid: Bytes -> bool, texts: seq<Bytes>, results: seq<Parsed>, h: Bytes)
    requires ParsedFrom(valid, texts, results)
    ensures FilterListed(h, AggregateSpec(results).rules) <==> h != [] && BlockedByLists(valid, texts, h)
  {
    hide AllRules, SomeLineStates, PatternList, SelectorList, ScopedMap, SortDedup, SumStats, SuffixMatch, ParsedFrom;
    var rs := AllRules(results);
    forall d ensures d in BlockSet(rs) <==> SomeLineStates(valid, texts, DomainBlock(d)) {
      RulesComeFromLines(valid, texts, results, DomainBlock(d));
      BlockMember(rs, d);
    }
    forall d ensures d in ExceptionSet(rs) <==> SomeLineStates(valid, texts, Exception(d)) {
      RulesComeFromLines(valid, texts, results, Exception(d));
      ExceptionMember(rs, d);
    }
  }

  /** `h` or a parent domain is in a configured set that is switched on. */
  ghost predicate ManuallyListed(rule: DomainRule, h: Bytes) {
    rule.enabled && exists d :: d in rule.domains && SuffixMatch(h, d)
  }

  /** End to end, for every configuration and every list: a name is blocked exactly when the policy is on and it is
      listed by hand, which no exception overrides, or blocked by the filter lists. */
  lemma ListMeaning(valid: Bytes -> bool, texts: seq<Bytes>, results: seq<Parsed>, cfg: Config, host: Bytes)
    requires ParsedFrom(valid, texts, results)
    ensures var h := NormalizeHost(host);
            PlanForDns(Engine(cfg, AggregateSpec(results).rules), host) <==>
            && cfg.mode != Disabled && h != []
            && (ManuallyListed(cfg.dnsBlock, h) || BlockedByLists(valid, texts, h))
  {
    hide AggregateSpec, NormalizeHost, SuffixMatch, ParsedFrom, BlockedByLists, FilterListed;
    FilterListedMeaning(valid, texts, results, NormalizeHost(host));
  }

  /** The same for connections: which hosts are trackers, and in which category. */
  lemma TrackerMeaning(valid: Bytes -> bool, texts: seq<Bytes>, results: seq<Parsed>, cfg: Config, host: Bytes, ip: Option<Bytes>)
    requires ParsedFrom(valid, texts, results)
    ensures var h := NormalizeHost(host);
            var plan := PlanForHost(Engine(cfg, AggregateSpec(results).rules), host, ip);
            var advertising := ManuallyListed(cfg.trackerSetCookie, h) || BlockedByLists(valid, texts, h);
            var analytics := ManuallyListed(DomainRule(cfg.consent.enabled, cfg.consent.analyticsDomains), h);
            && (plan.trackerMatch <==> cfg.mode != Disabled && h != [] && (advertising || analytics))
            && (plan.category == Some(Analytics) <==> cfg.mode != Disabled && h != [] && analytics)
            && (plan.category == Some(Advertising) <==>
                  cfg.mode != Disabled && h != [] && cfg.consent.enabled && advertising && !analytics)
  {
    hide AggregateSpec, NormalizeHost, SuffixMatch, ParsedFrom, BlockedByLists, FilterListed, LongestMatch, FilterDecision;
    FilterListedMeaning(valid, texts, results, NormalizeHost(host));
  }

  /** Which selectors and script patterns of the lists reach the body plan of a host. */
  lemma SelectorMeaning(valid: Bytes -> bool, texts: seq<Bytes>, results: seq<Parsed>, cfg: Config, host: Bytes, x: Bytes)
    requires ParsedFrom(valid, texts, results)
    ensures var h := NormalizeHost(host);
            var plan := PlanForBody(Engine(cfg, AggregateSpec(results).rules), host);
            && (x in plan.filterSelectors <==> cfg.mode != Disabled && SomeLineStates(valid, texts, CosmeticGlobal(x)))
            && (x in plan.filterScripts <==>
                  cfg.mode != Disabled
                  && exists d, p :: SomeLineStates(valid, texts, UrlPattern(d, p)) && x == d + p)
            && ((exists sels :: sels in plan.domainSelectors && x in sels) <==>
                  cfg.mode != Disabled
                  && exists d :: SomeLineStates(valid, texts, CosmeticDomainScoped(d, x)) && SuffixMatch(h, d))
  {
    hide AllRules, SomeLineStates, PatternList, SelectorList, ScopedMap, SortDedup, SumStats, SuffixMatch, ParsedFrom,
      NormalizeHost, BlockSet, ExceptionSet, AllMatches, Listed;
    var rs := AllRules(results);
    var m := Finish(ScopedMap(rs));
    RulesComeFromLines(valid, texts, results, CosmeticGlobal(x));
    forall d, p ensures UrlPattern(d, p) in rs <==> SomeLineStates(valid, texts, UrlPattern(d, p)) {
      RulesComeFromLines(valid, texts, results, UrlPattern(d, p));
    }
    PatternMember(rs, x);
    forall d ensures d in m && x in m[d] <==> SomeLineStates(valid, texts, CosmeticDomainScoped(d, x)) {
      RulesComeFromLines(valid, texts, results, CosmeticDomainScoped(d, x));
      ScopedMember(rs, d, x);
    }
    MatchMember(NormalizeHost(host), m, x);
  }

  lemma PatternMember(rs: seq<ParsedRule>, x: Bytes)
    ensures x in SortDedup(PatternList(rs)) <==> exists d, p :: UrlPattern(d, p) in rs && x == d + p
  {
    hide PatternList, SortDedup;
    if x in PatternList(rs) {
      var r :| r in rs && r.UrlPattern? && x == r.domain + r.path;
      assert r == UrlPattern(r.domain, r.path);
    }
  }

  lemma ScopedMember(rs: seq<ParsedRule>, d: Bytes, x: Bytes)
    ensures d in Finish(ScopedMap(rs)) && x in Finish(ScopedMap(rs))[d] <==> CosmeticDomainScoped(d, x) in rs
  {
    hide ScopedMap, SortDedup;
  }

  /** The lists a walk collects hold `x` exactly when the list of some matching domain does. */
  lemma MatchMember(h: Bytes, m: map<Bytes, seq<Bytes>>, x: Bytes)
    ensures (exists sels :: sels in AllMatches(h, m) && x in sels) <==>
            exists d :: d in m && x in m[d] && SuffixMatch(h, d)
  {
    hide AllMatches, SuffixMatch;
    var keys := AllMatchesSpec(h, m);
    if exists sels :: sels in AllMatches(h, m) && x in sels {
      var sels :| sels in AllMatches(h, m) && x in sels;
      var i :| 0 <= i < |keys| && AllMatches(h, m)[i] == sels;
      assert keys[i] in keys;
    }
    if exists d :: d in m && x in m[d] && SuffixMatch(h, d) {
      var d :| d in m && x in m[d] && SuffixMatch(h, d);
      assert d in keys;
      var i :| 0 <= i < |keys| && keys[i] == d;
      assert AllMatches(h, m)[i] in AllMatches(h, m);
    }
  }

  lemma BlockMember(rs: seq<ParsedRule>, d: Bytes)
    ensures d in BlockSet(rs) <==> DomainBlock(d) in rs
  {
  }

  lemma ExceptionMember(rs: seq<ParsedRule>, d: Bytes)
    ensures d in ExceptionSet(rs) <==> Exception(d) in rs
  {
  }
}
