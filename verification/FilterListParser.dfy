/** The ABP/EasyList line parser. Whether a CSS selector is valid is decided by a foreign library, passed in as `valid`. */
module FilterListParser {
  import opened Text
  import opened Policy
  import opened Domains

  datatype ParsedRule =
    | DomainBlock(domain: Bytes)
    | UrlPattern(domain: Bytes, path: Bytes)
    | CosmeticGlobal(selector: Bytes)
    | CosmeticDomainScoped(domain: Bytes, selector: Bytes)
    | Exception(domain: Bytes)

  datatype ParseStats = ParseStats(
    totalLines: nat,
    domainBlocks: nat,
    urlPatterns: nat,
    cosmeticGlobal: nat,
    cosmeticDomainScoped: nat,
    exceptions: nat,
    skippedComments: nat,
    skippedUnsupported: nat)

  const NO_STATS := ParseStats(0, 0, 0, 0, 0, 0, 0, 0)

  function FindText(s: Bytes, needle: Bytes, from: nat): (r: Option<nat>)
    requires from <= |s|
    ensures r.Some? ==> OccursAt(s, needle, r.value) && forall j | from <= j < r.value :: !OccursAt(s, needle, j)
    ensures r.None? ==> forall j | from <= j :: !OccursAt(s, needle, j)
    decreases |s| - from
  {
    if OccursAt(s, needle, from) then Some(from)
    else if from == |s| then None
    else FindText(s, needle, from + 1)
  }

  /** `normalize_filter_domain`. */
  function NormalizeFilterDomain(raw: Bytes): Option<Bytes> {
    var trimmed := NormalizeHost(raw);
    if trimmed == [] || '*' in trimmed || '?' in trimmed || '{' in trimmed || ' ' in trimmed then None
    else Some(trimmed)
  }

  function ParseException(rest: Bytes): Option<ParsedRule> {
    var part := Before(rest, '$');
    var bare := if part != [] && part[|part| - 1] == '^' then part[..|part| - 1] else part;
    match NormalizeFilterDomain(bare)
    case None => None
    case Some(domain) => if '/' in domain then None else Some(Exception(domain))
  }

  const EXTENDED_CSS: seq<Bytes> :=
    [":has(", ":has-text(", ":matches-css(", ":-abp-has(", ":-abp-contains(", ":contains(", ":xpath(",
     ":nth-ancestor(", ":upward(", ":remove(", ":style(", ":matches-path("]

  predicate ContainsExtendedCss(selector: Bytes) {
    exists ext | ext in EXTENDED_CSS :: Contains(Lower(selector), ext)
  }

  function ParseCosmetic(valid: Bytes -> bool, line: Bytes, separator: nat): Option<ParsedRule>
    requires separator + 2 <= |line|
  {
    var domainPart, selector := line[..separator], line[separator + 2..];
    if selector == [] || ContainsExtendedCss(selector) || !valid(selector) then None
    else if domainPart == [] then Some(CosmeticGlobal(selector))
    else
      match NormalizeFilterDomain(Before(domainPart, ','))
      case None => None
      case Some(domain) => Some(CosmeticDomainScoped(domain, selector))
  }

  function ParseDomainOrUrl(rest: Bytes): Option<ParsedRule> {
    var bare := Before(rest, '$');
    match FindChar(bare, '/')
    case Some(slash) =>
      var path := TrimEndChar(bare[slash..], '^');
      (match NormalizeFilterDomain(bare[..slash])
       case None => None
       case Some(domain) =>
         if path == [] || path == "/" then Some(DomainBlock(domain)) else Some(UrlPattern(domain, path)))
    case None =>
      match NormalizeFilterDomain(TrimEndChar(bare, '^'))
      case None => None
      case Some(domain) => Some(DomainBlock(domain))
  }

  predicate IsComment(trimmed: Bytes) {
    trimmed != [] && (trimmed[0] == '!' || trimmed[0] == '[')
  }

  /** `parse_line`. */
  function ParseLine(valid: Bytes -> bool, line: Bytes): Option<ParsedRule> {
    var l := Trim(line);
    if l == [] || IsComment(l) then None
    else if "@@||" <= l then ParseException(l[4..])
    else
      match FindText(l, "##", 0)
      case Some(i) => ParseCosmetic(valid, l, i)
      case None => if "||" <= l then ParseDomainOrUrl(l[2..]) else None
  }

  /** `str::lines`: LF or CRLF ends a line, and a final terminator does not open another line. */
  function Lines(text: Bytes): seq<Bytes> {
    var parts := SplitChar(text, '\n');
    var last := parts[|parts| - 1];
    StripCrs(parts[..|parts| - 1]) + (if last == [] then [] else [last])
  }

  /** The rules of the lines that parse, in order. */
  function RulesOf(valid: Bytes -> bool, lines: seq<Bytes>): (rules: seq<ParsedRule>)
    ensures forall r :: r in rules <==> exists l | l in lines :: ParseLine(valid, l) == Some(r)
  {
    if lines == [] then []
    else
      var front, last := lines[..|lines| - 1], lines[|lines| - 1];
      assert lines == front + [last];
      RulesOf(valid, front) + (match ParseLine(valid, last) case None => [] case Some(r) => [r])
  }

  predicate IsDomainBlock(r: ParsedRule) { r.DomainBlock? }
  predicate IsUrlPattern(r: ParsedRule) { r.UrlPattern? }
  predicate IsCosmeticGlobal(r: ParsedRule) { r.CosmeticGlobal? }
  predicate IsCosmeticScoped(r: ParsedRule) { r.CosmeticDomainScoped? }
  predicate IsException(r: ParsedRule) { r.Exception? }
  predicate IsBlankLine(line: Bytes) { Trim(line) == [] }
  predicate IsCommentLine(line: Bytes) { IsComment(Trim(line)) }

  function Count(r: ParsedRule): ParseStats {
    match r
    case DomainBlock(_) => NO_STATS.(domainBlocks := 1)
    case UrlPattern(_, _) => NO_STATS.(urlPatterns := 1)
    case CosmeticGlobal(_) => NO_STATS.(cosmeticGlobal := 1)
    case CosmeticDomainScoped(_, _) => NO_STATS.(cosmeticDomainScoped := 1)
    case Exception(_) => NO_STATS.(exceptions := 1)
  }

  function AddStats(a: ParseStats, b: ParseStats): ParseStats {
    ParseStats(a.totalLines + b.totalLines, a.domainBlocks + b.domainBlocks, a.urlPatterns + b.urlPatterns,
               a.cosmeticGlobal + b.cosmeticGlobal, a.cosmeticDomainScoped + b.cosmeticDomainScoped,
               a.exceptions + b.exceptions, a.skippedComments + b.skippedComments,
               a.skippedUnsupported + b.skippedUnsupported)
  }

  /** The statistics agree with the rules: every kind is counted, and every line is accounted for once. */
  predicate StatsMatch(lines: seq<Bytes>, rules: seq<ParsedRule>, stats: ParseStats) {
    && stats.totalLines == |lines|
    && stats.domainBlocks == |Retain(rules, IsDomainBlock)|
    && stats.urlPatterns == |Retain(rules, IsUrlPattern)|
    && stats.cosmeticGlobal == |Retain(rules, IsCosmeticGlobal)|
    && stats.cosmeticDomainScoped == |Retain(rules, IsCosmeticScoped)|
    && stats.exceptions == |Retain(rules, IsException)|
    && stats.skippedComments == |Retain(lines, IsCommentLine)|
    && stats.totalLines ==
       |rules| + |Retain(lines, IsBlankLine)| + stats.skippedComments + stats.skippedUnsupported
  }

  lemma RetainOne<T>(xs: seq<T>, x: T, p: T -> bool)
    ensures |Retain(xs + [x], p)| == |Retain(xs, p)| + (if p(x) then 1 else 0)
  {
    RetainConcat(xs, [x], p);
    assert [x][1..] == [];
  }

  lemma StatsMatchRule(lines: seq<Bytes>, line: Bytes, rules: seq<ParsedRule>, rule: ParsedRule, stats: ParseStats)
    requires StatsMatch(lines, rules, stats) && !IsBlankLine(line) && !IsCommentLine(line)
    ensures StatsMatch(lines + [line], rules + [rule], AddStats(stats, Count(rule)).(totalLines := stats.totalLines + 1))
  {
    hide Retain, IsBlankLine, IsCommentLine;
    RetainOne(rules, rule, IsDomainBlock);
    RetainOne(rules, rule, IsUrlPattern);
    RetainOne(rules, rule, IsCosmeticGlobal);
    RetainOne(rules, rule, IsCosmeticScoped);
    RetainOne(rules, rule, IsException);
    RetainOne(lines, line, IsBlankLine);
    RetainOne(lines, line, IsCommentLine);
  }

  lemma StatsMatchSkip(lines: seq<Bytes>, line: Bytes, rules: seq<ParsedRule>, stats: ParseStats)
    requires StatsMatch(lines, rules, stats)
    ensures var next := stats.(totalLines := stats.totalLines + 1);
            StatsMatch(lines + [line], rules,
              if IsBlankLine(line) then next
              else if IsCommentLine(line) then next.(skippedComments := next.skippedComments + 1)
              else next.(skippedUnsupported := next.skippedUnsupported + 1))
  {
    hide Retain;
    RetainOne(lines, line, IsBlankLine);
    RetainOne(lines, line, IsCommentLine);
  }

  lemma ParseTrimmed(valid: Bytes -> bool, line: Bytes)
    ensures ParseLine(valid, Trim(line)) == ParseLine(valid, line)
    ensures IsBlankLine(line) || IsCommentLine(line) ==> ParseLine(valid, line).None?
  {
    hide Trim;
    TrimIsTrimmed(line);
  }

  lemma RulesOfSnoc(valid: Bytes -> bool, lines: seq<Bytes>, i: nat)
    requires i < |lines|
    ensures RulesOf(valid, lines[..i + 1]) ==
            RulesOf(valid, lines[..i]) + match ParseLine(valid, lines[i]) case None => [] case Some(r) => [r]
  {
    hide ParseLine;
    assert lines[..i + 1][..i] == lines[..i];
  }

  /** `parse_filter_list`. */
  method ParseFilterList(valid: Bytes -> bool, text: Bytes) returns (rules: seq<ParsedRule>, stats: ParseStats)
    ensures rules == RulesOf(valid, Lines(text))
    ensures StatsMatch(Lines(text), rules, stats)
  {
    hide ParseLine, RulesOf, Lines, StatsMatch, Trim;
    var lines := Lines(text);
    rules, stats := [], NO_STATS;
    StatsMatchNone();
    assert RulesOf(valid, lines[..0]) == [] by { RulesOfNone(valid); }
    for i := 0 to |lines|
      invariant rules == RulesOf(valid, lines[..i])
      invariant StatsMatch(lines[..i], rules, stats)
    {
      var line := lines[i];
      RulesOfSnoc(valid, lines, i);
      assert lines[..i + 1] == lines[..i] + [line];
      ParseTrimmed(valid, line);
      StatsMatchSkip(lines[..i], line, rules, stats);
      ghost var before := stats;
      stats := stats.(totalLines := stats.totalLines + 1);
      var trimmed := Trim(line);
      if trimmed == [] {
        continue;
      }
      if IsComment(trimmed) {
        stats := stats.(skippedComments := stats.skippedComments + 1);
        continue;
      }
      match ParseLine(valid, trimmed) {
        case Some(rule) =>
          StatsMatchRule(lines[..i], line, rules, rule, before);
          match rule {
            case DomainBlock(_) => stats := stats.(domainBlocks := stats.domainBlocks + 1);
            case UrlPattern(_, _) => stats := stats.(urlPatterns := stats.urlPatterns + 1);
            case CosmeticGlobal(_) => stats := stats.(cosmeticGlobal := stats.cosmeticGlobal + 1);
            case CosmeticDomainScoped(_, _) => stats := stats.(cosmeticDomainScoped := stats.cosmeticDomainScoped + 1);
            case Exception(_) => stats := stats.(exceptions := stats.exceptions + 1);
          }
          rules := rules + [rule];
        case None =>
          stats := stats.(skippedUnsupported := stats.skippedUnsupported + 1);
      }
    }
    assert lines[..|lines|] == lines;
  }

  lemma StatsMatchNone()
    ensures StatsMatch([], [], NO_STATS)
  {
  }

  /** Statistics of two texts add up to those of both. */
  lemma StatsAddUp(a: seq<Bytes>, b: seq<Bytes>, rs: seq<ParsedRule>, ts: seq<ParsedRule>, x: ParseStats, y: ParseStats)
    requires StatsMatch(a, rs, x) && StatsMatch(b, ts, y)
    ensures StatsMatch(a + b, rs + ts, AddStats(x, y))
  {
    hide IsBlankLine, IsCommentLine, Retain;
    RetainConcat(rs, ts, IsDomainBlock);
    RetainConcat(rs, ts, IsUrlPattern);
    RetainConcat(rs, ts, IsCosmeticGlobal);
    RetainConcat(rs, ts, IsCosmeticScoped);
    RetainConcat(rs, ts, IsException);
    RetainConcat(a, b, IsCommentLine);
    RetainConcat(a, b, IsBlankLine);
  }

  lemma RulesOfNone(valid: Bytes -> bool)
    ensures RulesOf(valid, []) == []
  {
  }

  // ---------------------------------------------------------------- the syntax, written out

  /** A domain as lists write it. */
  predicate CleanDomain(d: Bytes) {
    && d != [] && d[|d| - 1] != '.'
    && forall c | c in d :: 'a' <= c <= 'z' || '0' <= c <= '9' || c == '-' || c == '.' || c == '_'
  }

  predicate CleanPath(p: Bytes) {
    && |p| > 1 && p[0] == '/' && '$' !in p && '#' !in p
    && !IsSpace(p[|p| - 1]) && p[|p| - 1] != '^'
  }

  predicate CleanSelector(valid: Bytes -> bool, s: Bytes) {
    s != [] && !IsSpace(s[|s| - 1]) && !ContainsExtendedCss(s) && valid(s)
  }

  predicate Printable(valid: Bytes -> bool, r: ParsedRule) {
    match r
    case DomainBlock(d) => CleanDomain(d)
    case UrlPattern(d, p) => CleanDomain(d) && CleanPath(p)
    case CosmeticGlobal(s) => CleanSelector(valid, s)
    case CosmeticDomainScoped(d, s) => CleanDomain(d) && CleanSelector(valid, s)
    case Exception(d) => CleanDomain(d)
  }

  /** The line that states a rule. */
  function Print(r: ParsedRule): Bytes {
    match r
    case DomainBlock(d) => "||" + d + "^"
    case UrlPattern(d, p) => "||" + d + p
    case CosmeticGlobal(s) => "##" + s
    case CosmeticDomainScoped(d, s) => d + "##" + s
    case Exception(d) => "@@||" + d + "^"
  }

  lemma CleanDomainNormalizes(d: Bytes)
    requires CleanDomain(d)
    ensures NormalizeFilterDomain(d) == Some(d)
  {
    hide Trim, Lower;
    assert d[0] in d && d[|d| - 1] in d;
    TrimSolid(d);
    assert TrimEndChar(d, '.') == d;
    assert Lower(d) == d by {
      forall i | 0 <= i < |d| ensures LowerChar(d[i]) == d[i] { assert d[i] in d; }
    }
  }

  lemma NoSeparator(s: Bytes)
    requires '#' !in s
    ensures FindText(s, "##", 0).None?
  {
    forall j | 0 <= j ensures !OccursAt(s, "##", j) {
      if j + 2 <= |s| {
        assert s[j] in s;
        assert s[j..j + 2][0] == s[j];
      }
    }
  }

  lemma BeforeNothing(s: Bytes, c: char)
    requires c !in s
    ensures Before(s, c) == s
  {
  }

  lemma {:induction false} NotFound(s: Bytes, c: char)
    requires c !in s
    ensures FindChar(s, c).None?
  {
    if s != [] {
      assert s[0] in s;
      NotFound(s[1..], c);
    }
  }

  lemma PrintedBlock(valid: Bytes -> bool, d: Bytes)
    requires CleanDomain(d)
    ensures ParseLine(valid, "||" + d + "^") == Some(DomainBlock(d))
  {
    hide Trim, FindText, NormalizeFilterDomain, ParseCosmetic, Before;
    var l := "||" + d + "^";
    TrimSolid(l);
    NoSeparator(l);
    var rest := d + "^";
    assert l[2..] == rest;
    BeforeNothing(rest, '$');
    assert '/' !in rest;
    NotFound(rest, '/');
    assert rest[..|rest| - 1] == d && d[|d| - 1] in d;
    assert TrimEndChar(rest, '^') == TrimEndChar(d, '^') == d;
    CleanDomainNormalizes(d);
  }

  lemma PrintedException(valid: Bytes -> bool, d: Bytes)
    requires CleanDomain(d)
    ensures ParseLine(valid, "@@||" + d + "^") == Some(Exception(d))
  {
    hide Trim, FindText, NormalizeFilterDomain, ParseCosmetic, Before;
    var l := "@@||" + d + "^";
    TrimSolid(l);
    var rest := d + "^";
    assert l[4..] == rest && l[..4] == "@@||";
    BeforeNothing(rest, '$');
    assert rest[..|rest| - 1] == d;
    CleanDomainNormalizes(d);
  }

  lemma PrintedUrl(valid: Bytes -> bool, d: Bytes, p: Bytes)
    requires CleanDomain(d) && CleanPath(p)
    ensures ParseLine(valid, "||" + d + p) == Some(UrlPattern(d, p))
  {
    hide Trim, FindText, NormalizeFilterDomain, ParseCosmetic, Before;
    var l := "||" + d + p;
    TrimSolid(l);
    NoSeparator(l);
    var rest := d + p;
    assert l[2..] == rest;
    BeforeNothing(rest, '$');
    forall j | 0 <= j < |d| ensures rest[j] != '/' { assert d[j] in d; }
    FindCharIs(rest, '/', |d|);
    assert rest[..|d|] == d && rest[|d|..] == p;
    assert TrimEndChar(p, '^') == p;
    CleanDomainNormalizes(d);
  }

  lemma FindTextIs(s: Bytes, needle: Bytes, from: nat, i: nat)
    requires from <= i && OccursAt(s, needle, i) && forall j | from <= j < i :: !OccursAt(s, needle, j)
    ensures from <= |s| && FindText(s, needle, from) == Some(i)
    decreases i - from
  {
    if from < i { FindTextIs(s, needle, from + 1, i); }
  }

  lemma SeparatorAfter(d: Bytes, s: Bytes)
    requires '#' !in d
    ensures FindText(d + "##" + s, "##", 0) == Some(|d|)
  {
    var l := d + "##" + s;
    assert l[|d|..|d| + 2] == "##";
    forall j | 0 <= j < |d| ensures !OccursAt(l, "##", j) {
      assert l[j] == d[j] && d[j] in d;
      assert j + 2 <= |l| ==> l[j..j + 2][0] == l[j];
    }
    FindTextIs(l, "##", 0, |d|);
  }

  lemma PrintedCosmetic(valid: Bytes -> bool, d: Bytes, s: Bytes)
    requires (d == [] || CleanDomain(d)) && CleanSelector(valid, s)
    ensures ParseLine(valid, d + "##" + s) == Some(if d == [] then CosmeticGlobal(s) else CosmeticDomainScoped(d, s))
  {
    hide Trim, FindText, NormalizeFilterDomain, ParseException, Before, ContainsExtendedCss;
    var l := d + "##" + s;
    if d != [] { assert d[0] in d; }
    assert l[0] == if d == [] then '#' else d[0];
    TrimSolid(l);
    SeparatorAfter(d, s);
    assert l[..|d|] == d && l[|d| + 2..] == s;
    if d != [] {
      BeforeNothing(d, ',');
      CleanDomainNormalizes(d);
    }
  }

  /** Round trip: the parser reads back every rule written in its syntax. */
  lemma ParseOfPrint(valid: Bytes -> bool, r: ParsedRule)
    requires Printable(valid, r)
    ensures ParseLine(valid, Print(r)) == Some(r)
  {
    hide ParseLine, CleanDomain, CleanPath, CleanSelector;
    match r
    case DomainBlock(d) => PrintedBlock(valid, d);
    case UrlPattern(d, p) => PrintedUrl(valid, d, p);
    case CosmeticGlobal(s) =>
      PrintedCosmetic(valid, [], s);
      assert [] + "##" + s == "##" + s;
    case CosmeticDomainScoped(d, s) =>
      DomainNotEmpty(d);
      PrintedCosmetic(valid, d, s);
    case Exception(d) => PrintedException(valid, d);
  }

  lemma DomainNotEmpty(d: Bytes)
    requires CleanDomain(d)
    ensures d != []
  {
  }

  /** Whatever the line, a domain that reaches the block or exception list is in lower case, ends with no dot, starts
      with no white space and holds no pattern character. */
  lemma ParsedDomainIsNormal(valid: Bytes -> bool, line: Bytes)
    ensures match ParseLine(valid, line)
            case Some(DomainBlock(d)) => NormalDomain(d)
            case Some(Exception(d)) => NormalDomain(d) && '/' !in d
            case _ => true
  {
    hide Trim, FindText, Before, TrimEndChar, ContainsExtendedCss, Lower;
    forall raw ensures NormalizeFilterDomain(raw).Some? ==> NormalDomain(NormalizeFilterDomain(raw).value) {
      NormalizedIsNormal(raw);
    }
  }

  predicate NormalDomain(d: Bytes) {
    && d != [] && d[|d| - 1] != '.' && !IsSpace(d[0])
    && Lower(d) == d
    && '*' !in d && '?' !in d && '{' !in d && ' ' !in d
  }

  lemma NormalizedIsNormal(raw: Bytes)
    ensures NormalizeFilterDomain(raw).Some? ==> NormalDomain(NormalizeFilterDomain(raw).value)
  {
    var trimmed := Trim(raw);
    var bare := TrimEndChar(trimmed, '.');
    TrimIsTrimmed(raw);
    TrimEndCharShape(trimmed, '.');
    var d := Lower(bare);
    assert Lower(d) == d;
    if bare != [] {
      assert bare[0] == trimmed[0];
      assert d[0] == LowerChar(bare[0]) && d[|d| - 1] == LowerChar(bare[|bare| - 1]);
    }
  }

  /** Such a domain is a fixed point of host normalization exactly when it does not end in white space, which a tab in
      front of trailing dots leaves behind. */
  lemma NormalDomainFixedIff(d: Bytes)
    requires NormalDomain(d)
    ensures NormalizeHost(d) == d <==> !IsSpace(d[|d| - 1])
  {
    TrimEndCharShape(d, '.');
    if IsSpace(d[|d| - 1]) {
      assert TrimStart(d) == d;
      TrimShrinks(d[..|d| - 1]);
      TrimEndCharShape(Trim(d), '.');
      assert |Trim(d)| < |d|;
    }
  }

  /** A list line whose domain is not a fixed point. */
  lemma TabDomain(valid: Bytes -> bool)
    ensures ParseLine(valid, "||x\t.^") == Some(DomainBlock("x\t")) && NormalizeHost("x\t") == "x"
  {
    hide Trim, FindText, NormalizeFilterDomain, ParseCosmetic, Before, NormalizeHost;
    var l: Bytes, rest: Bytes, raw: Bytes := "||x\t.^", "x\t.^", "x\t.";
    TrimSolid(l);
    NoSeparator(l);
    assert l[2..] == rest;
    BeforeNothing(rest, '$');
    NotFound(rest, '/');
    assert rest[..3] == raw;
    assert TrimEndChar(rest, '^') == TrimEndChar(raw, '^') == raw;
    TabNormalizes();
  }

  lemma TabNormalizes()
    ensures NormalizeFilterDomain("x\t.") == Some("x\t") && NormalizeHost("x\t") == "x"
  {
    var s: Bytes := "x\t.";
    assert Trim(s) == s;
    assert s[..2] == "x\t" && "x\t"[..1] == "x";
    assert TrimEndChar(s, '.') == TrimEndChar("x\t", '.') == "x\t";
    assert Lower("x\t") == "x\t";
    assert TrimEnd("x\t") == TrimEnd("x") == "x";
    assert TrimEndChar("x", '.') == "x" && Lower("x") == "x";
  }
}
