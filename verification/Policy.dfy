/** The policy engine: what it plans for a host, and what it does to a response header block. */
module Policy {
  import opened Text
  import opened Headers
  import opened Domains

  datatype PolicyMode = Disabled | ReportOnly | Enforce
  datatype ConsentLevel = EssentialOnly | AnalyticsOk | All
  datatype DomainCategory = Advertising | Analytics

  datatype DomainRule = DomainRule(enabled: bool, domains: set<Bytes>)

  datatype BodyRule = BodyRule(
    enabled: bool,
    scriptPatterns: seq<Bytes>,
    removeSelectors: seq<Bytes>,
    cssInjectSelectors: seq<Bytes>,
    stripTrackingPixels: bool,
    maxBodyBytes: nat,
    refererSpoofDomains: set<Bytes>,
    queryParamStrip: bool)

  datatype UserProfile = UserProfile(name: Bytes, consent: ConsentLevel)

  datatype ConsentRule = ConsentRule(
    enabled: bool,
    defaultConsent: ConsentLevel,
    analyticsDomains: set<Bytes>,
    siteOverrides: map<Bytes, ConsentLevel>,
    userProfiles: map<Bytes, UserProfile>)

  datatype Config = Config(
    mode: PolicyMode,
    trackerSetCookie: DomainRule,
    dnsBlock: DomainRule,
    bodyRewrite: BodyRule,
    consent: ConsentRule,
    websocketBlocking: bool)

  /** The aggregated filter lists. */
  datatype FilterRules = FilterRules(
    blockDomains: set<Bytes>,
    exceptionDomains: set<Bytes>,
    scriptPatterns: seq<Bytes>,
    cosmeticSelectors: seq<Bytes>,
    domainCosmetic: map<Bytes, seq<Bytes>>)

  /** What both read locks see at one moment. */
  datatype Engine = Engine(cfg: Config, rules: FilterRules)

  // ---------------------------------------------------------------- planning

  datatype SessionPlan = SessionPlan(
    mode: PolicyMode,
    trackerMatch: bool,
    filterSetCookie: bool,
    consentActive: bool,
    consentLevel: Option<ConsentLevel>,
    category: Option<DomainCategory>,
    userProfile: Option<Bytes>,
    websocketBlocking: bool)

  predicate FilterListed(host: Bytes, rules: FilterRules) {
    Listed(host, rules.blockDomains) && !Listed(host, rules.exceptionDomains)
  }

  function FilterDecision(category: Option<DomainCategory>, level: Option<ConsentLevel>): bool {
    match (category, level)
    case (Some(Advertising), Some(All)) => false
    case (Some(Advertising), _) => true
    case (Some(Analytics), Some(EssentialOnly)) => true
    case (Some(Analytics), _) => false
    case (None, _) => false
  }

  /** `plan_for_host_with_source_ip`. */
  function PlanForHost(engine: Engine, host: Bytes, sourceIp: Option<Bytes>): SessionPlan {
    var h := NormalizeHost(host);
    var cfg := engine.cfg;
    var consent := cfg.consent;
    var consentActive := consent.enabled && cfg.mode != Disabled;
    var isAdvertising :=
      cfg.mode != Disabled
      && ((cfg.trackerSetCookie.enabled && Listed(h, cfg.trackerSetCookie.domains)) || FilterListed(h, engine.rules));
    var isAnalytics := consentActive && Listed(h, consent.analyticsDomains);
    var category :=
      if !consentActive then None
      else if isAnalytics then Some(Analytics)
      else if isAdvertising then Some(Advertising)
      else None;
    var trackerMatch := isAdvertising || isAnalytics;
    var profile :=
      if consentActive && sourceIp.Some? && sourceIp.value in consent.userProfiles
      then Some(consent.userProfiles[sourceIp.value]) else None;
    var level :=
      if !consentActive then None
      else if profile.Some? then Some(profile.value.consent)
      else Some(match LongestMatch(h, consent.siteOverrides) case Some(l) => l case None => consent.defaultConsent);
    var filter := if consentActive then FilterDecision(category, level) else trackerMatch && cfg.mode != Disabled;
    SessionPlan(cfg.mode, trackerMatch, filter, consentActive, level, category,
                if profile.Some? then Some(profile.value.name) else None, cfg.websocketBlocking)
  }

  /** `plan_for_dns_query`: whether the name is blocked. */
  function PlanForDns(engine: Engine, host: Bytes): bool {
    var h := NormalizeHost(host);
    engine.cfg.mode != Disabled
    && ((engine.cfg.dnsBlock.enabled && Listed(h, engine.cfg.dnsBlock.domains)) || FilterListed(h, engine.rules))
  }

  datatype BodyPlan = BodyPlan(
    mode: PolicyMode,
    shouldRewrite: bool,
    manualScripts: seq<Bytes>,
    filterScripts: seq<Bytes>,
    manualSelectors: seq<Bytes>,
    filterSelectors: seq<Bytes>,
    domainSelectors: seq<seq<Bytes>>,
    cssInject: seq<Bytes>,
    stripPixels: bool,
    maxBodyBytes: nat,
    spoofReferer: bool,
    stripQuery: bool)

  /** `plan_for_body_rewrite`. */
  function PlanForBody(engine: Engine, host: Bytes): BodyPlan {
    var h := NormalizeHost(host);
    var mode, body, rules := engine.cfg.mode, engine.cfg.bodyRewrite, engine.rules;
    var manualScripts := if body.enabled then body.scriptPatterns else [];
    var manualSelectors := if body.enabled then body.removeSelectors else [];
    var stripPixels := body.enabled && body.stripTrackingPixels;
    var filterScripts := if mode != Disabled then rules.scriptPatterns else [];
    var filterSelectors := if mode != Disabled then rules.cosmeticSelectors else [];
    var domainSelectors := if mode != Disabled then AllMatches(h, rules.domainCosmetic) else [];
    var cssInject := if body.enabled then body.cssInjectSelectors else [];
    BodyPlan(
      mode,
      mode != Disabled
      && (stripPixels || manualScripts != [] || filterScripts != [] || manualSelectors != []
          || filterSelectors != [] || domainSelectors != [] || cssInject != []),
      manualScripts, filterScripts, manualSelectors, filterSelectors, domainSelectors, cssInject, stripPixels,
      body.maxBodyBytes,
      mode != Disabled && body.enabled && body.refererSpoofDomains != {} && Listed(h, body.refererSpoofDomains),
      mode != Disabled && body.enabled && body.queryParamStrip)
  }

  /** How far a visitor has consented, and how far a category needs them to. */
  function Rank(level: ConsentLevel): nat {
    match level case EssentialOnly => 0 case AnalyticsOk => 1 case All => 2
  }

  function Needed(category: DomainCategory): nat {
    match category case Analytics => 1 case Advertising => 2
  }

  /** Cookies are filtered exactly when the host has a category that needs more consent than was given;
      without consent enforcement, exactly on tracker hosts. */
  lemma CookieFilterMeaning(engine: Engine, host: Bytes, sourceIp: Option<Bytes>)
    ensures var p := PlanForHost(engine, host, sourceIp);
            && p.consentActive == (engine.cfg.consent.enabled && engine.cfg.mode != Disabled)
            && (p.consentActive ==>
                  && p.consentLevel.Some?
                  && (p.category.Some? <==> p.trackerMatch)
                  && (p.filterSetCookie <==>
                      p.category.Some? && Rank(p.consentLevel.value) < Needed(p.category.value)))
            && (!p.consentActive ==> (p.filterSetCookie <==> p.trackerMatch))
            && (p.filterSetCookie ==> p.trackerMatch && p.mode != Disabled)
  {
    hide Listed, NormalizeHost, LongestMatch, FilterListed;
    var p := PlanForHost(engine, host, sourceIp);
    if p.consentActive && p.category.Some? {
      match p.category.value { case Advertising => case Analytics => }
      match p.consentLevel.value { case EssentialOnly => case AnalyticsOk => case All => }
    }
  }

  /** Which consent level applies: the visitor's profile, else the longest matching site override, else the default. */
  lemma ConsentLevelMeaning(engine: Engine, host: Bytes, sourceIp: Option<Bytes>)
    requires engine.cfg.consent.enabled && engine.cfg.mode != Disabled
    ensures var c := engine.cfg.consent;
            var level := PlanForHost(engine, host, sourceIp).consentLevel;
            var h := NormalizeHost(host);
            if sourceIp.Some? && sourceIp.value in c.userProfiles
            then level == Some(c.userProfiles[sourceIp.value].consent)
            else
              && ((forall k | k in c.siteOverrides :: !SuffixMatch(h, k)) ==> level == Some(c.defaultConsent))
              && (forall k | k in c.siteOverrides && SuffixMatch(h, k)
                             && (forall k' | k' in c.siteOverrides && SuffixMatch(h, k') :: |k'| <= |k|) ::
                    level == Some(c.siteOverrides[k]))
  {
    hide Listed, NormalizeHost, LongestMatch, FilterListed, SuffixMatch, FilterDecision;
    LongestMatchSpec(NormalizeHost(host), engine.cfg.consent.siteOverrides);
  }

  /** The parts of the session plan taken over from the configuration. */
  lemma PlanFields(engine: Engine, host: Bytes, sourceIp: Option<Bytes>)
    ensures var p := PlanForHost(engine, host, sourceIp);
            && p.mode == engine.cfg.mode
            && (p.websocketBlocking <==> engine.cfg.websocketBlocking)
            && forall name ::
                 p.userProfile == Some(name) <==>
                 && engine.cfg.consent.enabled && engine.cfg.mode != Disabled
                 && sourceIp.Some? && sourceIp.value in engine.cfg.consent.userProfiles
                 && engine.cfg.consent.userProfiles[sourceIp.value].name == name
  {
    hide Listed, NormalizeHost, LongestMatch, FilterListed, FilterDecision;
  }

  /** The body plan in terms of the configuration: what is configured by hand counts only if the rule is enabled, and
      nothing is rewritten in Disabled mode. */
  lemma BodyPlanMeaning(engine: Engine, host: Bytes)
    ensures var p, h := PlanForBody(engine, host), NormalizeHost(host);
            var b, rules, on := engine.cfg.bodyRewrite, engine.rules, engine.cfg.mode != Disabled;
            && p.mode == engine.cfg.mode && p.maxBodyBytes == b.maxBodyBytes
            && (b.enabled ==> p.manualScripts == b.scriptPatterns && p.manualSelectors == b.removeSelectors
                              && p.cssInject == b.cssInjectSelectors)
            && (!b.enabled ==> p.manualScripts == [] && p.manualSelectors == [] && p.cssInject == [])
            && (p.stripPixels <==> b.enabled && b.stripTrackingPixels)
            && (p.spoofReferer <==> on && b.enabled && h != [] && exists d | d in b.refererSpoofDomains :: SuffixMatch(h, d))
            && (p.stripQuery <==> on && b.enabled && b.queryParamStrip)
            && (p.shouldRewrite <==>
                on && (|| (b.enabled && (b.stripTrackingPixels || b.scriptPatterns != [] || b.removeSelectors != []
                                         || b.cssInjectSelectors != []))
                       || rules.scriptPatterns != [] || rules.cosmeticSelectors != []
                       || exists d | d in rules.domainCosmetic :: SuffixMatch(h, d)))
  {
    hide NormalizeHost, SuffixMatch, AllMatches;
    SomeMatch(NormalizeHost(host), engine.rules.domainCosmetic);
  }

  lemma SomeMatch(h: Bytes, m: map<Bytes, seq<Bytes>>)
    ensures AllMatches(h, m) != [] <==> exists d | d in m :: SuffixMatch(h, d)
  {
    hide AllMatches, SuffixMatch;
    var keys := AllMatchesSpec(h, m);
    if AllMatches(h, m) != [] { assert keys[0] in keys; }
    if exists d | d in m :: SuffixMatch(h, d) {
      var d :| d in m && SuffixMatch(h, d);
      assert d in keys;
    }
  }

  /** In Disabled mode no plan asks for any change. */
  lemma DisabledPlans(engine: Engine, host: Bytes, sourceIp: Option<Bytes>)
    requires engine.cfg.mode == Disabled
    ensures !PlanForHost(engine, host, sourceIp).trackerMatch
    ensures !PlanForHost(engine, host, sourceIp).filterSetCookie
    ensures !PlanForDns(engine, host)
    ensures var b := PlanForBody(engine, host); !b.shouldRewrite && !b.spoofReferer && !b.stripQuery
  {
    hide Listed, NormalizeHost, LongestMatch, FilterListed, AllMatches, FilterDecision;
  }

  // ---------------------------------------------------------------- the response header policy

  /** `strip_trailing_cr`. */
  function StripCr(line: Bytes): Bytes {
    if line != [] && line[|line| - 1] == '\r' then line[..|line| - 1] else line
  }

  function StripCrs(lines: seq<Bytes>): (r: seq<Bytes>)
    ensures |r| == |lines| && forall i | 0 <= i < |lines| :: r[i] == StripCr(lines[i])
  {
    seq(|lines|, i requires 0 <= i < |lines| => StripCr(lines[i]))
  }

  /** The lines of a header section as this pass sees them: split at LF, one trailing CR removed. */
  function LfLines(s: Bytes): (lines: seq<Bytes>)
    ensures |lines| >= 1
  {
    StripCrs(SplitChar(s, '\n'))
  }

  predicate IsSetCookie(line: Bytes) { HasPrefixCI(line, "set-cookie:") }
  predicate NotSetCookie(line: Bytes) { !IsSetCookie(line) }

  /** A Set-Cookie line is one by its field name in any letter case. */
  lemma CookieField(line: Bytes)
    ensures IsSetCookie(line) <==> HasField(line, "set-cookie")
  {
    hide HasPrefixCI, HasField, Lower;
    LowerStays("set-cookie");
    PrefixIsField(line, "set-cookie", "set-cookie:");
  }

  /** Each line followed by CRLF. */
  function Unlines(lines: seq<Bytes>): Bytes {
    if lines == [] then [] else lines[0] + CRLF + Unlines(lines[1..])
  }

  datatype HeaderOutcome = HeaderOutcome(output: Bytes, setCookies: nat)

  /** The effect of `apply_http1_response_header_policy` on the bytes, given the plan's two decisions. */
  function FilterHeaders(filter: bool, mode: PolicyMode, block: Bytes): HeaderOutcome {
    if !filter then HeaderOutcome(block, 0)
    else
      match FindBlank(block, 0)
      case None => HeaderOutcome(block, 0)
      case Some(e) =>
        var lines := LfLines(block[..e + 2]);
        var kept := Retain(lines[1..], NotSetCookie);
        HeaderOutcome(
          if mode == Enforce then Unlines([lines[0]] + kept) + CRLF + block[e + 4..] else block,
          |lines| - 1 - |kept|)
  }

  /** `apply_http1_response_header_policy`. */
  function HeaderPolicy(engine: Engine, host: Bytes, sourceIp: Option<Bytes>, block: Bytes): HeaderOutcome {
    var plan := PlanForHost(engine, host, sourceIp);
    FilterHeaders(plan.filterSetCookie, plan.mode, block)
  }

  /** The loop of `apply_http1_response_header_policy`. */
  method RebuildHeaders(mode: PolicyMode, block: Bytes) returns (r: HeaderOutcome)
    ensures r == FilterHeaders(true, mode, block)
  {
    hide LfLines, FindBlank, IsSetCookie, Retain, Unlines;
    var end := FindBlank(block, 0);
    if end.None? { return HeaderOutcome(block, 0); }
    var lines := LfLines(block[..end.value + 2]);
    UnlinesOne(lines[0]);
    var rebuilt := lines[0] + CRLF;
    var count := 0;
    ghost var kept: seq<Bytes> := [];
    assert [lines[0]] + kept == [lines[0]];
    var rest := lines[1..];
    for i := 0 to |rest|
      invariant kept == Retain(rest[..i], NotSetCookie)
      invariant count == i - |kept|
      invariant mode == Enforce ==> rebuilt == Unlines([lines[0]] + kept)
    {
      var line := rest[i];
      RetainSnoc(rest, i, NotSetCookie);
      if IsSetCookie(line) {
        count := count + 1;
        if mode == Enforce { continue; }
      } else {
        UnlinesSnoc([lines[0]] + kept, line);
        assert [lines[0]] + kept + [line] == [lines[0]] + (kept + [line]);
        kept := kept + [line];
      }
      rebuilt := rebuilt + line + CRLF;
    }
    assert rest[..|rest|] == rest;
    rebuilt := rebuilt + CRLF + block[end.value + 4..];
    return HeaderOutcome(if mode == Enforce then rebuilt else block, count);
  }

  lemma UnlinesOne(line: Bytes)
    ensures Unlines([line]) == line + CRLF
  {
    assert Unlines([line]) == line + CRLF + Unlines([]);
  }

  lemma {:induction false} UnlinesSnoc(lines: seq<Bytes>, line: Bytes)
    ensures Unlines(lines + [line]) == Unlines(lines) + line + CRLF
  {
    if lines == [] {
      assert Unlines([line]) == line + CRLF + Unlines([]);
    } else {
      UnlinesSnoc(lines[1..], line);
      assert (lines + [line])[1..] == lines[1..] + [line];
    }
  }

  // ---------------------------------------------------------------- reading the output back

  predicate LfFree(lines: seq<Bytes>) {
    forall l | l in lines :: '\n' !in l
  }

  lemma LfLinesAreLfFree(s: Bytes)
    ensures LfFree(LfLines(s))
  {
    var raw := SplitChar(s, '\n');
    forall l | l in LfLines(s) ensures '\n' !in l {
      var i :| 0 <= i < |raw| && LfLines(s)[i] == l;
      assert raw[i] in raw;
    }
  }

  lemma {:induction false} LfLinesOfUnlines(lines: seq<Bytes>)
    requires LfFree(lines)
    ensures LfLines(Unlines(lines)) == lines + [[]]
  {
    if lines == [] {
      assert SplitChar([], '\n') == [[]];
    } else {
      var l := lines[0];
      assert l in lines && forall k | k in lines[1..] :: k in lines;
      hide LfLines;
      LfLinesOfUnlines(lines[1..]);
      LfLinesCons(l, Unlines(lines[1..]));
      assert lines == [l] + lines[1..];
    }
  }

  lemma LfLinesCons(line: Bytes, rest: Bytes)
    requires '\n' !in line
    ensures LfLines(line + CRLF + rest) == [line] + LfLines(rest)
  {
    hide SplitChar;
    var raw := line + ['\r'];
    assert line + CRLF + rest == raw + ['\n'] + rest;
    SplitCharCons(raw, '\n', rest);
    assert StripCr(raw) == line;
  }

  lemma LfFreeIsCrlfFree(line: Bytes)
    requires '\n' !in line
    ensures NoCrlf(line)
  {
    forall j | 0 <= j < |line| ensures !CrlfAt(line, j) {
      if j + 1 < |line| { assert line[j + 1] in line; }
    }
  }

  /** A prefix of `Unlines(lines)` that ends with LF holds whole lines. */
  lemma {:induction false} PrefixIsWholeLines(lines: seq<Bytes>, n: nat) returns (k: nat)
    requires LfFree(lines) && 0 < n <= |Unlines(lines)| && Unlines(lines)[n - 1] == '\n'
    ensures k <= |lines| && Unlines(lines)[..n] == Unlines(lines[..k])
  {
    var u := Unlines(lines);
    var l, rest := lines[0], Unlines(lines[1..]);
    assert l in lines && forall x | x in lines[1..] :: x in lines;
    assert u == l + CRLF + rest;
    forall j | 0 <= j < |l| ensures u[j] != '\n' { assert l[j] in l; }
    assert n >= |l| + 2;
    var m := n - (|l| + 2);
    assert u[..n] == l + CRLF + rest[..m];
    if m == 0 {
      k := 1;
      assert lines[..1] == [l] && lines[..1][1..] == [];
      assert Unlines(lines[..1]) == l + CRLF + [];
    } else {
      assert rest[m - 1] == u[n - 1];
      var j := PrefixIsWholeLines(lines[1..], m);
      k := j + 1;
      assert lines[..k][1..] == lines[1..][..j];
    }
  }

  /** The lines of a header section end with an empty one: the section itself ends with LF. */
  lemma SectionLines(s: Bytes)
    requires s != [] && s[|s| - 1] == '\n'
    ensures |LfLines(s)| >= 2 && LfLines(s)[|LfLines(s)| - 1] == []
  {
    SplitEndsEmpty(s);
  }

  lemma {:induction false} SplitEndsEmpty(s: Bytes)
    requires s != [] && s[|s| - 1] == '\n'
    ensures |SplitChar(s, '\n')| >= 2 && SplitChar(s, '\n')[|SplitChar(s, '\n')| - 1] == []
    decreases |s|
  {
    assert '\n' in s;
    var i := FindChar(s, '\n').value;
    var rest := s[i + 1..];
    if rest == [] {
      assert SplitChar(rest, '\n') == [[]];
    } else {
      SplitEndsEmpty(rest);
    }
  }

  /** The kept lines: the first line, then every line that is not Set-Cookie, ending with the empty one. */
  function KeptLines(block: Bytes): seq<Bytes>
    requires FindBlank(block, 0).Some?
  {
    var lines := LfLines(block[..FindBlank(block, 0).value + 2]);
    [lines[0]] + Retain(lines[1..], NotSetCookie)
  }

  lemma KeptLinesShape(block: Bytes)
    requires FindBlank(block, 0).Some?
    ensures var kept := KeptLines(block);
            && |kept| >= 2 && kept[|kept| - 1] == [] && LfFree(kept)
            && forall l | l in kept[1..] :: NotSetCookie(l)
  {
    hide LfLines, FindBlank, IsSetCookie;
    var s := block[..FindBlank(block, 0).value + 2];
    var lines := LfLines(s);
    assert s[|s| - 1] == '\n';
    SectionLines(s);
    LfLinesAreLfFree(s);
    var rest := lines[1..];
    RetainLastEmpty(rest);
    forall l | l in KeptLines(block) ensures '\n' !in l { assert l in lines; }
  }

  lemma {:induction false} RetainLastEmpty(lines: seq<Bytes>)
    requires lines != [] && lines[|lines| - 1] == []
    ensures var kept := Retain(lines, NotSetCookie); kept != [] && kept[|kept| - 1] == []
  {
    var front := lines[..|lines| - 1];
    assert lines == front + [[]];
    RetainConcat(front, [[]], NotSetCookie);
    var one: seq<Bytes> := [[]];
    RetainAll(one, NotSetCookie);
  }

  /** The output in Enforce mode: exactly the kept lines, in order, and the untouched tail. */
  lemma EnforcedLines(block: Bytes)
    requires FindBlank(block, 0).Some?
    ensures var e := FindBlank(block, 0).value;
            var out := FilterHeaders(true, Enforce, block);
            && out.output == Unlines(KeptLines(block)) + CRLF + block[e + 4..]
            && LfLines(Unlines(KeptLines(block))) == KeptLines(block) + [[]]
            && out.setCookies == |Retain(LfLines(block[..e + 2])[1..], IsSetCookie)|
            && |KeptLines(block)| + out.setCookies == |LfLines(block[..e + 2])|
  {
    hide LfLines, FindBlank, IsSetCookie, Unlines, LfFree, Retain;
    KeptLinesShape(block);
    LfLinesOfUnlines(KeptLines(block));
    RetainSplits(LfLines(block[..FindBlank(block, 0).value + 2])[1..]);
  }

  lemma {:induction false} RetainSplits(lines: seq<Bytes>)
    ensures |Retain(lines, IsSetCookie)| + |Retain(lines, NotSetCookie)| == |lines|
  {
    if lines != [] { RetainSplits(lines[1..]); }
  }

  /** Where the first empty line of an enforced block falls: at a line boundary inside the kept lines. */
  lemma EnforcedBlank(block: Bytes) returns (k: nat)
    requires FindBlank(block, 0).Some?
    ensures var kept := KeptLines(block);
            var out := FilterHeaders(true, Enforce, block).output;
            && FindBlank(out, 0).Some?
            && k <= |kept|
            && FindBlank(out, 0).value + 4 <= |Unlines(kept)|
            && out[..FindBlank(out, 0).value + 2] == Unlines(kept[..k])
  {
    hide LfLines, FindBlank, IsSetCookie, LfFree, Unlines, KeptLines;
    var e := FindBlank(block, 0).value;
    var kept := KeptLines(block);
    var u := Unlines(kept);
    EnforcedLines(block);
    KeptLinesShape(block);
    var out := u + CRLF + block[e + 4..];
    UnlinesEndBlank(kept);
    assert BlankAt(out, |u| - 4);
    var b := FindBlank(out, 0).value;
    assert b <= |u| - 4;
    assert u[b + 1] == out[b + 1] == '\n';
    k := PrefixIsWholeLines(kept, b + 2);
    assert out[..b + 2] == u[..b + 2];
  }

  lemma UnlinesEndBlank(lines: seq<Bytes>)
    requires |lines| >= 2 && lines[|lines| - 1] == []
    ensures |Unlines(lines)| >= 4 && BlankAt(Unlines(lines), |Unlines(lines)| - 4)
  {
    hide Unlines;
    var n := |lines|;
    UnlinesSnoc(lines[..n - 1], []);
    assert lines == lines[..n - 1] + [[]];
    UnlinesSnoc(lines[..n - 2], lines[n - 2]);
    assert lines[..n - 1] == lines[..n - 2] + [lines[n - 2]];
  }

  /** A second pass over an enforced block finds no Set-Cookie line. */
  lemma SecondPassCountsZero(block: Bytes, mode: PolicyMode)
    ensures FilterHeaders(true, mode, FilterHeaders(true, Enforce, block).output).setCookies == 0
  {
    if FindBlank(block, 0).Some? {
      SecondPass(block, mode);
    }
  }

  lemma SecondPass(block: Bytes, mode: PolicyMode)
    requires FindBlank(block, 0).Some?
    ensures FilterHeaders(true, mode, FilterHeaders(true, Enforce, block).output).setCookies == 0
  {
    hide LfLines, FindBlank, NotSetCookie, LfFree, Unlines, KeptLines, FilterHeaders;
    var out := FilterHeaders(true, Enforce, block).output;
    var kept := KeptLines(block);
    var k := EnforcedBlank(block);
    KeptLinesShape(block);
    LfFreePrefix(kept, k);
    LfLinesOfUnlines(kept[..k]);
    PrefixHasNoCookies(kept, k);
    NothingCounted(mode, out, kept[..k] + [[]]);
  }

  lemma NothingCounted(mode: PolicyMode, block: Bytes, lines: seq<Bytes>)
    requires FindBlank(block, 0).Some? && LfLines(block[..FindBlank(block, 0).value + 2]) == lines
    requires forall l | l in lines[1..] :: NotSetCookie(l)
    ensures FilterHeaders(true, mode, block).setCookies == 0
  {
    hide LfLines, FindBlank, NotSetCookie, Unlines;
    RetainAll(lines[1..], NotSetCookie);
  }

  lemma PrefixHasNoCookies(kept: seq<Bytes>, k: nat)
    requires 0 < |kept| && k <= |kept| && forall l | l in kept[1..] :: NotSetCookie(l)
    ensures forall l | l in (kept[..k] + [[]])[1..] :: NotSetCookie(l)
  {
    hide NotSetCookie;
    var lines := kept[..k] + [[]];
    forall l | l in lines[1..] ensures NotSetCookie(l) {
      var i :| 0 <= i < |lines| - 1 && lines[1..][i] == l;
      if i + 1 < k { assert l == kept[1..][i]; } else { EmptyNotSetCookie(); }
    }
  }

  lemma LfFreePrefix(lines: seq<Bytes>, k: nat)
    requires LfFree(lines) && k <= |lines|
    ensures LfFree(lines[..k])
  {
  }

  lemma EmptyNotSetCookie()
    ensures NotSetCookie([])
  {
  }

  /** Report-only leaves the bytes alone and counts what Enforce would have dropped. */
  lemma ReportOnlyAgrees(block: Bytes)
    ensures FilterHeaders(true, ReportOnly, block).output == block
    ensures FilterHeaders(true, ReportOnly, block).setCookies == FilterHeaders(true, Enforce, block).setCookies
  {
    hide LfLines, FindBlank, IsSetCookie;
  }

  /** A complete block stays complete exactly when the Set-Cookie filter is not being enforced: enforcement
      leaves an extra CRLF between the headers and the body, whether or not any line was dropped. */
  lemma CompleteIffNotEnforced(filter: bool, mode: PolicyMode, block: Bytes)
    requires Complete(block)
    ensures Complete(FilterHeaders(filter, mode, block).output) <==> !(filter && mode == Enforce)
  {
    hide LfLines, FindBlank, IsSetCookie, Unlines, KeptLines;
    if filter && mode == Enforce {
      EnforcedLines(block);
      var k := EnforcedBlank(block);
    }
  }

  /** The shortest case: nothing is stripped, and still a CRLF is added. */
  lemma EnforcedExample()
    ensures FilterHeaders(true, Enforce, "A\r\n\r\n") == HeaderOutcome("A\r\n\r\n\r\n", 0)
  {
    hide FindBlank, Unlines, LfLines;
    var block: Bytes := "A\r\n\r\n";
    FindBlankIs(block, 0, 1);
    assert block[..3] == "A" + CRLF + [];
    LfLinesCons("A", []);
    LfLinesNone();
    var rest: seq<Bytes> := [[]];
    EmptyNotSetCookie();
    RetainAll(rest, NotSetCookie);
    UnlinesSnoc(["A"], []);
    UnlinesOne("A");
    assert block[5..] == [];
  }

  lemma LfLinesNone()
    ensures LfLines([]) == [[]]
  {
    assert SplitChar([], '\n') == [[]];
  }

  /** On an ordinary block, whose lines are not empty, exactly one CRLF is left over. */
  lemma EnforcedLeavesOneCrlf(block: Bytes)
    requires Complete(block)
    requires forall i | 1 <= i < |KeptLines(block)| - 1 :: KeptLines(block)[i] != []
    ensures HeadersEnd(FilterHeaders(true, Enforce, block).output) ==
            Some(|FilterHeaders(true, Enforce, block).output| - 2)
  {
    hide LfLines, FindBlank, IsSetCookie, Unlines, KeptLines, JoinCrlf;
    EnforcedLines(block);
    KeptLinesShape(block);
    var kept := KeptLines(block);
    var solid := kept[..|kept| - 1];
    assert kept == solid + [[]];
    UnlinesSnoc(solid, []);
    UnlinesIsJoin(solid);
    var out := FilterHeaders(true, Enforce, block).output;
    assert Unlines(kept) == JoinCrlf(solid) + CRLF + [] + CRLF;
    assert block[|block|..] == [];
    assert out == JoinCrlf(solid) + BLANK + CRLF;
    forall l | l in solid ensures NoCrlf(l) {
      assert l in kept;
      LfFreeIsCrlfFree(l);
    }
    BlankAfterJoin(solid, CRLF);
  }

  lemma {:induction false} UnlinesIsJoin(lines: seq<Bytes>)
    requires lines != []
    ensures Unlines(lines) == JoinCrlf(lines) + CRLF
  {
    if |lines| > 1 {
      UnlinesIsJoin(lines[1..]);
      assert lines[0] + CRLF + (JoinCrlf(lines[1..]) + CRLF) == JoinCrlf(lines) + CRLF;
    } else {
      assert Unlines(lines[1..]) == [];
    }
  }

  // ---------------------------------------------------------------- the block the relay sends

  /** The header block after the Set-Cookie pass and, on tracker hosts, the cache-header pass. */
  function OutputHeaders(engine: Engine, host: Bytes, sourceIp: Option<Bytes>, block: Bytes): Bytes {
    var filtered := HeaderPolicy(engine, host, sourceIp, block).output;
    if PlanForHost(engine, host, sourceIp).trackerMatch && StripCacheTracking(filtered).Some?
    then StripCacheTracking(filtered).value
    else filtered
  }

  /** An enforced block is the block of its kept lines. */
  lemma EnforcedIsBlock(block: Bytes)
    requires Complete(block)
    ensures FilterHeaders(true, Enforce, block).output == Block(KeptLines(block))
    ensures CrlfFree(KeptLines(block)) && KeptLines(block) != []
  {
    hide LfLines, FindBlank, Unlines, JoinCrlf, KeptLines, FilterHeaders;
    EnforcedLines(block);
    KeptLinesShape(block);
    var kept := KeptLines(block);
    UnlinesIsJoin(kept);
    assert block[|block|..] == [];
    assert JoinCrlf(kept) + CRLF + CRLF + [] == JoinCrlf(kept) + BLANK;
    forall l | l in kept ensures NoCrlf(l) { LfFreeIsCrlfFree(l); }
  }

  /** The lines a client finds in an enforced block: the kept lines that are not empty. */
  lemma EnforcedHeaderLines(block: Bytes)
    requires Complete(block)
    ensures HeaderLines(FilterHeaders(true, Enforce, block).output) == Retain(KeptLines(block), NonEmpty)
  {
    hide KeptLines, FilterHeaders, FindBlank, Block, CrlfFree, Retain, HeaderLines;
    EnforcedIsBlock(block);
    BlockNonEmptyLines(KeptLines(block));
  }

  /** Exactly when the client receives a complete header block: unless a filtered block is enforced
      and the cache pass, which drops empty lines, finds nothing to drop in the kept lines. */
  lemma OutputCompleteIff(engine: Engine, host: Bytes, sourceIp: Option<Bytes>, block: Bytes)
    requires Complete(block)
    ensures var plan := PlanForHost(engine, host, sourceIp);
            Complete(OutputHeaders(engine, host, sourceIp, block)) <==>
            !(plan.filterSetCookie && plan.mode == Enforce
              && forall l | l in KeptLines(block) && l != [] :: NotCacheTracking(l))
  {
    hide PlanForHost, FilterHeaders, HeaderLines, Complete, StripCacheTracking, NotCacheTracking, KeptLines;
    var plan := PlanForHost(engine, host, sourceIp);
    CompleteIffNotEnforced(plan.filterSetCookie, plan.mode, block);
    StripCacheTrackingSpec(HeaderPolicy(engine, host, sourceIp, block).output);
    CookieFilterMeaning(engine, host, sourceIp);
    EnforcedHeaderLines(block);
  }

  /** On a host that matches no tracker list the block is passed on as it is, in every mode. */
  lemma OutputUnchanged(engine: Engine, host: Bytes, sourceIp: Option<Bytes>, block: Bytes)
    requires !PlanForHost(engine, host, sourceIp).trackerMatch
    ensures OutputHeaders(engine, host, sourceIp, block) == block
  {
    hide PlanForHost, StripCacheTracking;
    CookieFilterMeaning(engine, host, sourceIp);
  }

  /** When the Set-Cookie filter is not enforced, the block is sent as received exactly when the host is no tracker or no
      line is a cache header. In report-only mode cache headers are stripped all the same. */
  lemma UnenforcedUnchangedIff(engine: Engine, host: Bytes, sourceIp: Option<Bytes>, block: Bytes)
    requires var plan := PlanForHost(engine, host, sourceIp); !(plan.filterSetCookie && plan.mode == Enforce)
    ensures OutputHeaders(engine, host, sourceIp, block) == block <==>
            !(PlanForHost(engine, host, sourceIp).trackerMatch && exists l | l in HeaderLines(block) :: !NotCacheTracking(l))
  {
    hide PlanForHost, HeaderLines, StripCacheTracking, NotCacheTracking, FindBlank, LfLines, Unlines, Retain;
    StripCacheTrackingSpec(block);
  }

  lemma ModeOfPlan(engine: Engine, host: Bytes, sourceIp: Option<Bytes>)
    ensures PlanForHost(engine, host, sourceIp).mode == engine.cfg.mode
  {
    hide Listed, NormalizeHost, LongestMatch, FilterListed, FilterDecision;
  }

  /** The kept lines of a block built from solid lines are among those lines, and all of them if none sets a cookie. */
  lemma KeptOfBlock(lines: seq<Bytes>)
    requires LfFree(lines) && CrlfFree(lines) && forall l | l in lines :: l != []
    ensures Complete(Block(lines))
    ensures forall l | l in KeptLines(Block(lines)) && l != [] :: l in lines
    ensures lines != [] && (forall i | 1 <= i < |lines| :: NotSetCookie(lines[i])) ==>
              KeptLines(Block(lines)) == lines + [[]]
  {
    hide LfLines, FindBlank, JoinCrlf, Unlines, LfFree, CrlfFree, NotSetCookie;
    var b, e := Block(lines), |JoinCrlf(lines)|;
    forall i | 1 <= i < |lines| ensures lines[i] != [] { assert lines[i] in lines; }
    BlankAfterJoin(lines, []);
    assert b + [] == b;
    assert b[..e + 2] == JoinCrlf(lines) + CRLF;
    var section := LfLines(b[..e + 2]);
    JoinLfLines(lines);
    forall l | l in KeptLines(b) && l != [] ensures l in lines { assert l in section; }
    if lines != [] && forall i | 1 <= i < |lines| :: NotSetCookie(lines[i]) {
      RetainBehind(lines);
    }
  }

  lemma RetainBehind(lines: seq<Bytes>)
    requires lines != [] && forall i | 1 <= i < |lines| :: NotSetCookie(lines[i])
    ensures [lines[0]] + Retain((lines + [[]])[1..], NotSetCookie) == lines + [[]]
  {
    hide NotSetCookie, Retain;
    var rest: seq<Bytes> := (lines + [[]])[1..];
    EmptyNotSetCookie();
    forall l | l in rest ensures NotSetCookie(l) {
      var i :| 0 <= i < |rest| && rest[i] == l;
      if i + 1 < |lines| { assert l == lines[i + 1]; }
    }
    RetainAll(rest, NotSetCookie);
  }

  lemma JoinLfLines(lines: seq<Bytes>)
    requires LfFree(lines)
    ensures forall l | l in LfLines(JoinCrlf(lines) + CRLF) && l != [] :: l in lines
    ensures lines != [] ==> LfLines(JoinCrlf(lines) + CRLF) == lines + [[]]
  {
    hide LfLines, LfFree, JoinCrlf, Unlines;
    if lines == [] {
      EmptyJoin();
      LfLinesCons([], []);
      LfLinesNone();
    } else {
      UnlinesIsJoin(lines);
      LfLinesOfUnlines(lines);
    }
  }

  lemma EmptyJoin()
    ensures JoinCrlf([]) + CRLF == [] + CRLF + []
  {
  }

  /** Enforcing the filter changes every complete block: a CRLF is added, or the cache pass has dropped a line. */
  lemma EnforcedChanges(engine: Engine, host: Bytes, sourceIp: Option<Bytes>, block: Bytes)
    requires Complete(block)
    requires var plan := PlanForHost(engine, host, sourceIp); plan.filterSetCookie && plan.mode == Enforce
    ensures OutputHeaders(engine, host, sourceIp, block) != block
  {
    hide PlanForHost, FilterHeaders, HeaderLines, FindBlank, NotCacheTracking, KeptLines, CrlfFree, LfFree, Retain, Block;
    OutputCompleteIff(engine, host, sourceIp, block);
    CookieFilterMeaning(engine, host, sourceIp);
    EnforcedHeaderLines(block);
    if OutputHeaders(engine, host, sourceIp, block) == block {
      var kept := KeptLines(block);
      var lines := Retain(HeaderLines(FilterHeaders(true, Enforce, block).output), NotCacheTracking);
      assert exists l | l in kept && l != [] :: !NotCacheTracking(l);
      StripCacheTrackingSpec(FilterHeaders(true, Enforce, block).output);
      assert block == Block(lines);
      RetainKeeps(block, kept, lines);
      KeptOfBlock(lines);
    }
  }

  lemma RetainKeeps(block: Bytes, kept: seq<Bytes>, lines: seq<Bytes>)
    requires Complete(block) && kept == KeptLines(block)
    requires lines == Retain(Retain(kept, NonEmpty), NotCacheTracking)
    ensures LfFree(lines) && CrlfFree(lines) && forall l | l in lines :: l != [] && NotCacheTracking(l)
  {
    hide FindBlank, NotCacheTracking, KeptLines, NoCrlf;
    KeptLinesShape(block);
    forall l | l in lines ensures NoCrlf(l) {
      assert l in kept;
      LfFreeIsCrlfFree(l);
    }
  }

  /** Exactly when a complete block reaches the client as received. */
  lemma OutputUnchangedIff(engine: Engine, host: Bytes, sourceIp: Option<Bytes>, block: Bytes)
    requires Complete(block)
    ensures var plan := PlanForHost(engine, host, sourceIp);
            OutputHeaders(engine, host, sourceIp, block) == block <==>
            && !(plan.filterSetCookie && plan.mode == Enforce)
            && !(plan.trackerMatch && exists l | l in HeaderLines(block) :: !NotCacheTracking(l))
  {
    hide PlanForHost, OutputHeaders, HeaderLines, NotCacheTracking, Complete;
    var plan := PlanForHost(engine, host, sourceIp);
    if plan.filterSetCookie && plan.mode == Enforce {
      EnforcedChanges(engine, host, sourceIp, block);
    } else {
      UnenforcedUnchangedIff(engine, host, sourceIp, block);
    }
  }

  // ---------------------------------------------------------------- the lines the relay sends

  /** The lines of the block received, as the passes take it apart: at LF, without Set-Cookie, where the filter is
      enforced, and at CRLF otherwise. */
  function LinesReceived(engine: Engine, host: Bytes, sourceIp: Option<Bytes>, block: Bytes): seq<Bytes>
    requires Complete(block)
  {
    var plan := PlanForHost(engine, host, sourceIp);
    if plan.filterSetCookie && plan.mode == Enforce then KeptLines(block) else HeaderLines(block)
  }

  /** Those of them that are sent. */
  function LinesSent(engine: Engine, host: Bytes, sourceIp: Option<Bytes>, block: Bytes): seq<Bytes>
    requires Complete(block)
  {
    var lines := Retain(LinesReceived(engine, host, sourceIp, block), NonEmpty);
    if PlanForHost(engine, host, sourceIp).trackerMatch then Retain(lines, NotCacheTracking) else lines
  }

  /** The lines a client finds in the block the relay sends. */
  lemma OutputLines(engine: Engine, host: Bytes, sourceIp: Option<Bytes>, block: Bytes)
    requires Complete(block)
    ensures HeaderLines(OutputHeaders(engine, host, sourceIp, block)) == LinesSent(engine, host, sourceIp, block)
  {
    hide PlanForHost, FilterHeaders, HeaderLines, FindBlank, StripCacheTracking, NotCacheTracking, KeptLines, Retain;
    var filtered := HeaderPolicy(engine, host, sourceIp, block).output;
    FilteredLines(engine, host, sourceIp, block);
    StripCacheTrackingSpec(filtered);
    if StripCacheTracking(filtered).None? { RetainAll(HeaderLines(filtered), NotCacheTracking); }
  }

  lemma FilteredLines(engine: Engine, host: Bytes, sourceIp: Option<Bytes>, block: Bytes)
    requires Complete(block)
    ensures HeaderLines(HeaderPolicy(engine, host, sourceIp, block).output) ==
            Retain(LinesReceived(engine, host, sourceIp, block), NonEmpty)
  {
    hide PlanForHost, HeaderLines, FindBlank, KeptLines, Retain, LfLines, Unlines;
    EnforcedHeaderLines(block);
    HeaderLinesSolid(block);
  }

  lemma HeaderLinesSolid(block: Bytes)
    ensures Retain(HeaderLines(block), NonEmpty) == HeaderLines(block)
  {
    hide Retain, SplitCrlf;
    RetainAll(HeaderLines(block), NonEmpty);
  }

  /** Lines followed by anything are split off one by one. */
  lemma {:induction false} SplitUnlines(lines: seq<Bytes>, rest: Bytes)
    requires CrlfFree(lines)
    ensures SplitCrlf(Unlines(lines) + rest) == lines + SplitCrlf(rest)
  {
    hide SplitCrlf, NoCrlf;
    if lines == [] {
      assert Unlines(lines) + rest == rest;
    } else {
      var line, more := lines[0], Unlines(lines[1..]) + rest;
      assert line in lines;
      SplitUnlines(lines[1..], rest);
      SplitCons(line, more);
      assert Unlines(lines) + rest == line + CRLF + more;
      assert [line] + (lines[1..] + SplitCrlf(rest)) == lines + SplitCrlf(rest);
    }
  }

}
