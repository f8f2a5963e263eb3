/** The lines of a filter list as a grammar, and that the parser accepts exactly that grammar. */
module FilterListSyntax {
  import opened Text
  import opened Domains
  import opened Policy
  import opened FilterListParser

  predicate AllCarets(s: Bytes) {
    forall c | c in s :: c == '^'
  }

  /** Rule options: nothing, or `$` and anything. */
  predicate IsOptions(s: Bytes) {
    s == [] || s[0] == '$'
  }

  predicate HasNoSeparator(s: Bytes) {
    forall j | 0 <= j <= |s| :: !OccursAt(s, "##", j)
  }

  /** A selector uses extended CSS exactly when one of its parts, in any letter case, is on the list. */
  lemma ExtendedCssMeaning(s: Bytes)
    ensures ContainsExtendedCss(s) <==> exists i, j | 0 <= i <= j <= |s| :: Lower(s[i..j]) in EXTENDED_CSS
  {
    hide Lower, EXTENDED_CSS;
    var low := Lower(s);
    forall i, j | 0 <= i <= j <= |s| ensures Lower(s[i..j]) == low[i..j] { LowerSlice(s, i, j); }
    if ContainsExtendedCss(s) {
      var ext :| ext in EXTENDED_CSS && Contains(low, ext);
      var i :| 0 <= i <= |low| - |ext| && OccursAt(low, ext, i);
      assert Lower(s[i..i + |ext|]) in EXTENDED_CSS;
    }
    if exists i, j | 0 <= i <= j <= |s| :: Lower(s[i..j]) in EXTENDED_CSS {
      var i, j :| 0 <= i <= j <= |s| && Lower(s[i..j]) in EXTENDED_CSS;
      assert OccursAt(low, low[i..j], i);
      assert Contains(low, low[i..j]);
    }
  }

  lemma LowerSlice(s: Bytes, i: nat, j: nat)
    requires i <= j <= |s|
    ensures Lower(s[i..j]) == Lower(s)[i..j]
  {
  }

  predicate SelectorOk(valid: Bytes -> bool, s: Bytes) {
    s != [] && !ContainsExtendedCss(s) && valid(s)
  }

  /** The domain a text names, if it names one. */
  function DomainOf(text: Bytes): Bytes {
    match NormalizeFilterDomain(text) case Some(d) => d case None => []
  }

  /** How a rule is written. Only the first of several domains of a scoped rule counts. */
  datatype RuleText =
    | BlockText(name: Bytes, slash: bool, carets: Bytes, options: Bytes)
    | UrlText(name: Bytes, path: Bytes, carets: Bytes, options: Bytes)
    | GlobalText(selector: Bytes)
    | ScopedText(domains: Bytes, selector: Bytes)
    | ExceptionText(name: Bytes, caret: bool, options: Bytes)
  {
    function Text(): Bytes {
      match this
      case BlockText(name, slash, carets, options) => "||" + (name + (if slash then "/" else []) + carets + options)
      case UrlText(name, path, carets, options) => "||" + (name + path + carets + options)
      case GlobalText(selector) => "##" + selector
      case ScopedText(domains, selector) => domains + "##" + selector
      case ExceptionText(name, caret, options) => "@@||" + (name + (if caret then "^" else []) + options)
    }

    /** The text that names the domain. */
    function DomainText(): Bytes {
      match this
      case BlockText(name, _, _, _) => name
      case UrlText(name, _, _, _) => name
      case GlobalText(_) => []
      case ScopedText(domains, _) => Before(domains, ',')
      case ExceptionText(name, _, _) => name
    }

    predicate WellFormed(valid: Bytes -> bool) {
      && (!GlobalText? ==> NormalizeFilterDomain(DomainText()).Some?)
      && match this
         case BlockText(name, slash, carets, options) =>
           && '$' !in name && '/' !in name && (!slash && name != [] ==> name[|name| - 1] != '^')
           && AllCarets(carets) && IsOptions(options) && HasNoSeparator(Text())
         case UrlText(name, path, carets, options) =>
           && '$' !in name && '/' !in name
           && |path| > 1 && path[0] == '/' && '$' !in path && path[|path| - 1] != '^'
           && AllCarets(carets) && IsOptions(options) && HasNoSeparator(Text())
         case GlobalText(selector) => SelectorOk(valid, selector)
         case ScopedText(domains, selector) =>
           && domains != [] && domains[0] != '!' && domains[0] != '[' && !("@@||" <= Text())
           && (forall j | 0 <= j < |domains| :: !OccursAt(Text(), "##", j))
           && SelectorOk(valid, selector)
         case ExceptionText(name, caret, options) =>
           && '$' !in name && (!caret && name != [] ==> name[|name| - 1] != '^')
           && IsOptions(options) && '/' !in DomainOf(name)
    }

    function Rule(): ParsedRule {
      var domain := DomainOf(DomainText());
      match this
      case BlockText(_, _, _, _) => DomainBlock(domain)
      case UrlText(_, path, _, _) => UrlPattern(domain, path)
      case GlobalText(selector) => CosmeticGlobal(selector)
      case ScopedText(_, selector) => CosmeticDomainScoped(domain, selector)
      case ExceptionText(_, _, _) => Exception(domain)
    }
  }

  /** The line, without the white space around it, is a way of writing `r`. */
  ghost predicate States(valid: Bytes -> bool, line: Bytes, r: ParsedRule) {
    exists t: RuleText :: t.WellFormed(valid) && t.Rule() == r && t.Text() == Trim(line)
  }

  // ---------------------------------------------------------------- what is written is read

  /** A name without a slash, */
  lemma ReadPlain(name: Bytes, carets: Bytes, options: Bytes)
    requires '$' !in name && '/' !in name && (name != [] ==> name[|name| - 1] != '^')
    requires AllCarets(carets) && IsOptions(options) && NormalizeFilterDomain(name).Some?
    ensures ParseDomainOrUrl(name + carets + options) == Some(DomainBlock(DomainOf(name)))
  {
    hide NormalizeFilterDomain, TrimEndChar, Before, FindChar;
    var bare := name + carets;
    assert '$' !in carets && '/' !in carets;
    BeforeIs(bare, '$', options);
    NotFound(bare, '/');
    TrimEndCharSkips(name, carets, '^');
  }

  /** and one followed by a path. */
  lemma ReadPath(name: Bytes, path: Bytes, carets: Bytes, options: Bytes)
    requires '$' !in name && '/' !in name && NormalizeFilterDomain(name).Some?
    requires path != [] && path[0] == '/' && '$' !in path && path[|path| - 1] != '^'
    requires AllCarets(carets) && IsOptions(options)
    ensures ParseDomainOrUrl(name + path + carets + options) ==
            Some(if path == "/" then DomainBlock(DomainOf(name)) else UrlPattern(DomainOf(name), path))
  {
    hide NormalizeFilterDomain, TrimEndChar, Before, FindChar;
    var bare := name + path + carets;
    assert '$' !in carets;
    BeforeIs(bare, '$', options);
    SlashFound(name, path, carets);
    TrimEndCharSkips(path, carets, '^');
  }

  lemma SlashFound(name: Bytes, path: Bytes, carets: Bytes)
    requires '/' !in name && path != [] && path[0] == '/'
    ensures var bare := name + path + carets;
            FindChar(bare, '/') == Some(|name|) && bare[..|name|] == name && bare[|name|..] == path + carets
  {
    hide FindChar;
    var bare := name + path + carets;
    forall j | 0 <= j < |name| ensures bare[j] != '/' { assert name[j] in name; }
    FindCharIs(bare, '/', |name|);
  }

  lemma ReadBlock(t: RuleText, valid: Bytes -> bool)
    requires t.BlockText? && t.WellFormed(valid)
    ensures ParseDomainOrUrl(t.Text()[2..]) == Some(t.Rule())
  {
    hide NormalizeFilterDomain, ParseDomainOrUrl, HasNoSeparator, AllCarets, IsOptions, DomainOf, RuleText.Text;
    BlockRest(t);
    if t.slash {
      ReadPath(t.name, "/", t.carets, t.options);
    } else {
      ReadPlain(t.name, t.carets, t.options);
    }
  }

  lemma BlockRest(t: RuleText)
    requires t.BlockText?
    ensures |t.Text()| >= 2
    ensures t.Text()[2..] == if t.slash then t.name + "/" + t.carets + t.options else t.name + t.carets + t.options
  {
    var rest := t.name + (if t.slash then "/" else []) + t.carets + t.options;
    assert t.Text()[2..] == rest;
    if !t.slash { assert t.name + [] == t.name; }
  }

  lemma ReadUrl(t: RuleText, valid: Bytes -> bool)
    requires t.UrlText? && t.WellFormed(valid)
    ensures ParseDomainOrUrl(t.Text()[2..]) == Some(t.Rule())
  {
    hide NormalizeFilterDomain, ParseDomainOrUrl, HasNoSeparator;
    var UrlText(name, path, carets, options) := t;
    assert t.Text()[2..] == name + path + carets + options;
    ReadPath(name, path, carets, options);
  }

  lemma ReadException(t: RuleText, valid: Bytes -> bool)
    requires t.ExceptionText? && t.WellFormed(valid)
    ensures ParseException(t.Text()[4..]) == Some(t.Rule())
  {
    hide NormalizeFilterDomain, Before;
    var ExceptionText(name, caret, options) := t;
    var part := name + if caret then "^" else [];
    assert t.Text()[4..] == part + options;
    BeforeIs(part, '$', options);
    if caret { assert part[..|part| - 1] == name; } else { assert part == name; }
  }

  lemma ReadCosmetic(t: RuleText, valid: Bytes -> bool)
    requires (t.GlobalText? || t.ScopedText?) && t.WellFormed(valid)
    ensures var i := if t.GlobalText? then 0 else |t.domains|;
            FindText(t.Text(), "##", 0) == Some(i) && i + 2 <= |t.Text()| && ParseCosmetic(valid, t.Text(), i) == Some(t.Rule())
  {
    hide NormalizeFilterDomain, Before, FindText, ContainsExtendedCss;
    var i, l := if t.GlobalText? then 0 else |t.domains|, t.Text();
    assert l[i..i + 2] == "##";
    FindTextIs(l, "##", 0, i);
    assert l[i + 2..] == t.selector && l[..i] == if t.GlobalText? then [] else t.domains;
  }

  lemma WrittenIsRead(t: RuleText, valid: Bytes -> bool, line: Bytes)
    requires t.WellFormed(valid) && t.Text() == Trim(line)
    ensures ParseLine(valid, line) == Some(t.Rule())
  {
    hide NormalizeFilterDomain, Before, FindText, Trim, ParseDomainOrUrl, ParseException, ParseCosmetic, ContainsExtendedCss;
    var l := t.Text();
    match t
    case BlockText(_, _, _, _) => ReadBlock(t, valid); NotSeparated(l);
    case UrlText(_, _, _, _) => ReadUrl(t, valid); NotSeparated(l);
    case GlobalText(_) => ReadCosmetic(t, valid);
    case ScopedText(_, _) => ReadCosmetic(t, valid);
    case ExceptionText(_, _, _) => ReadException(t, valid);
  }

  lemma NotSeparated(s: Bytes)
    requires HasNoSeparator(s)
    ensures FindText(s, "##", 0).None?
  {
  }

  // ---------------------------------------------------------------- what is read was written

  lemma WroteException(rest: Bytes, r: ParsedRule, valid: Bytes -> bool) returns (t: RuleText)
    requires ParseException(rest) == Some(r)
    ensures t.WellFormed(valid) && t.Rule() == r && t.Text() == "@@||" + rest
  {
    hide NormalizeFilterDomain, Before;
    var part := Before(rest, '$');
    var caret := part != [] && part[|part| - 1] == '^';
    var name := if caret then part[..|part| - 1] else part;
    t := ExceptionText(name, caret, rest[|part|..]);
    assert rest == part + rest[|part|..];
    assert part == name + if caret then "^" else [];
  }

  lemma WroteCosmetic(valid: Bytes -> bool, l: Bytes, i: nat, r: ParsedRule) returns (t: RuleText)
    requires FindText(l, "##", 0) == Some(i) && i + 2 <= |l| && ParseCosmetic(valid, l, i) == Some(r)
    requires !IsComment(l) && !("@@||" <= l)
    ensures t.WellFormed(valid) && t.Rule() == r && t.Text() == l
  {
    hide NormalizeFilterDomain, Before, FindText, ContainsExtendedCss;
    var domains, selector := l[..i], l[i + 2..];
    assert l[i..i + 2] == "##";
    assert l == domains + "##" + selector;
    t := if domains == [] then GlobalText(selector) else ScopedText(domains, selector);
  }

  lemma WroteDomainOrUrl(rest: Bytes, r: ParsedRule, valid: Bytes -> bool) returns (t: RuleText)
    requires ParseDomainOrUrl(rest) == Some(r) && HasNoSeparator("||" + rest)
    ensures t.WellFormed(valid) && t.Rule() == r && t.Text() == "||" + rest
  {
    hide NormalizeFilterDomain, Before, FindChar, HasNoSeparator, ParseDomainOrUrl, RuleText.WellFormed, RuleText.Text, RuleText.Rule;
    var bare := Before(rest, '$');
    var options := rest[|bare|..];
    assert rest == bare + options;
    match FindChar(bare, '/')
    case None => t := WrotePlain(bare, options, r, valid);
    case Some(k) => t := WrotePath(bare, k, options, r, valid);
  }

  lemma WrotePlain(bare: Bytes, options: Bytes, r: ParsedRule, valid: Bytes -> bool) returns (t: RuleText)
    requires ParseDomainOrUrl(bare + options) == Some(r) && HasNoSeparator("||" + (bare + options))
    requires Before(bare + options, '$') == bare && '$' !in bare && IsOptions(options) && FindChar(bare, '/').None?
    ensures t.WellFormed(valid) && t.Rule() == r && t.Text() == "||" + (bare + options)
  {
    hide NormalizeFilterDomain, Before, TrimEndChar, FindChar, HasNoSeparator;
    var name := TrimEndChar(bare, '^');
    var carets := TrimEndCharParts(bare, '^');
    TrimEndCharShape(bare, '^');
    t := BlockText(name, false, carets, options);
    assert name + [] + carets + options == bare + options;
  }

  lemma WrotePath(bare: Bytes, k: nat, options: Bytes, r: ParsedRule, valid: Bytes -> bool) returns (t: RuleText)
    requires ParseDomainOrUrl(bare + options) == Some(r) && HasNoSeparator("||" + (bare + options))
    requires Before(bare + options, '$') == bare && '$' !in bare && IsOptions(options) && FindChar(bare, '/') == Some(k)
    ensures t.WellFormed(valid) && t.Rule() == r && t.Text() == "||" + (bare + options)
  {
    hide NormalizeFilterDomain, Before, TrimEndChar, FindChar, HasNoSeparator;
    var name, tail := bare[..k], bare[k..];
    var path := TrimEndChar(tail, '^');
    var carets := TrimEndCharParts(tail, '^');
    TrimEndCharShape(tail, '^');
    SlashStays(tail, carets);
    assert bare == name + tail;
    t := if path == "/" then BlockText(name, true, carets, options) else UrlText(name, path, carets, options);
    assert name + path + carets + options == bare + options;
  }

  lemma SlashStays(tail: Bytes, carets: Bytes)
    requires tail != [] && tail[0] == '/' && AllCarets(carets) && tail == TrimEndChar(tail, '^') + carets
    ensures TrimEndChar(tail, '^') != [] && TrimEndChar(tail, '^')[0] == '/'
  {
    hide TrimEndChar;
    assert '/' !in carets;
  }

  lemma ReadWasWritten(valid: Bytes -> bool, line: Bytes, r: ParsedRule) returns (t: RuleText)
    requires ParseLine(valid, line) == Some(r)
    ensures t.WellFormed(valid) && t.Rule() == r && t.Text() == Trim(line)
  {
    hide NormalizeFilterDomain, Before, FindText, Trim, ParseDomainOrUrl, ParseException, ParseCosmetic, RuleText.WellFormed,
      RuleText.Text, RuleText.Rule, OccursAt;
    var l := Trim(line);
    if "@@||" <= l {
      assert l == "@@||" + l[4..];
      t := WroteException(l[4..], r, valid);
    } else if FindText(l, "##", 0).Some? {
      SeparatorFits(l);
      t := WroteCosmetic(valid, l, FindText(l, "##", 0).value, r);
    } else {
      assert l == "||" + l[2..];
      t := WroteDomainOrUrl(l[2..], r, valid);
    }
  }

  lemma SeparatorFits(s: Bytes)
    ensures FindText(s, "##", 0).Some? ==> FindText(s, "##", 0).value + 2 <= |s|
  {
  }

  /** The parser reads a rule off a line exactly when the line is a way of writing it. */
  lemma StatesIff(valid: Bytes -> bool, line: Bytes, r: ParsedRule)
    ensures ParseLine(valid, line) == Some(r) <==> States(valid, line, r)
  {
    hide ParseLine, Trim, RuleText.WellFormed, RuleText.Text, RuleText.Rule;
    if ParseLine(valid, line) == Some(r) {
      var t := ReadWasWritten(valid, line, r);
    }
    if exists t: RuleText :: t.WellFormed(valid) && t.Rule() == r && t.Text() == Trim(line) {
      var t: RuleText :| t.WellFormed(valid) && t.Rule() == r && t.Text() == Trim(line);
      WrittenIsRead(t, valid, line);
    }
  }

  // ---------------------------------------------------------------- ordinary lines

  lemma CleanFacts(d: Bytes)
    requires CleanDomain(d)
    ensures d != [] && NormalizeFilterDomain(d) == Some(d)
    ensures '$' !in d && '/' !in d && '#' !in d && ',' !in d && '^' !in d && '@' !in d && '!' !in d && '[' !in d
    ensures !IsSpace(d[0])
  {
    hide NormalizeFilterDomain;
    assert d[0] in d;
    CleanDomainNormalizes(d);
  }

  lemma LastOf(s: Bytes)
    requires s != []
    ensures s[|s| - 1] in s
  {
  }

  lemma NoHashNoSeparator(s: Bytes)
    requires '#' !in s
    ensures HasNoSeparator(s)
  {
    hide FindText;
    NoSeparator(s);
  }

  /** A tail of carets and options that does not end in white space. */
  predicate Ending(carets: Bytes, options: Bytes) {
    AllCarets(carets) && IsOptions(options) && (options != [] ==> !IsSpace(options[|options| - 1]))
  }

  /** A block rule, with or without a slash, carets and options: `||d`, `||d^`, `||d/`, `||d/^`, `||d^$options`. */
  lemma BlockLine(valid: Bytes -> bool, d: Bytes, slash: bool, carets: Bytes, options: Bytes)
    requires CleanDomain(d) && Ending(carets, options) && '#' !in options
    ensures ParseLine(valid, BlockText(d, slash, carets, options).Text()) == Some(DomainBlock(d))
  {
    hide ParseLine, Trim, NormalizeFilterDomain, HasNoSeparator, CleanDomain;
    var t := BlockText(d, slash, carets, options);
    CleanFacts(d);
    LastOf(d);
    LastIsSolid(d);
    if carets != [] { LastOf(carets); }
    assert '#' !in t.Text();
    NoHashNoSeparator(t.Text());
    TrimSolid(t.Text());
    WrittenIsRead(t, valid, t.Text());
  }

  /** A URL rule. */
  lemma UrlLine(valid: Bytes -> bool, d: Bytes, p: Bytes, carets: Bytes, options: Bytes)
    requires CleanDomain(d) && CleanPath(p) && Ending(carets, options) && '#' !in options
    ensures ParseLine(valid, UrlText(d, p, carets, options).Text()) == Some(UrlPattern(d, p))
  {
    hide ParseLine, Trim, NormalizeFilterDomain, HasNoSeparator, CleanDomain;
    var t := UrlText(d, p, carets, options);
    CleanFacts(d);
    if carets != [] { LastOf(carets); }
    assert '#' !in t.Text();
    NoHashNoSeparator(t.Text());
    TrimSolid(t.Text());
    WrittenIsRead(t, valid, t.Text());
  }

  /** An exception rule. */
  lemma ExceptionLine(valid: Bytes -> bool, d: Bytes, caret: bool, options: Bytes)
    requires CleanDomain(d) && Ending([], options)
    ensures ParseLine(valid, ExceptionText(d, caret, options).Text()) == Some(Exception(d))
  {
    hide ParseLine, Trim, NormalizeFilterDomain, CleanDomain;
    var t := ExceptionText(d, caret, options);
    CleanFacts(d);
    LastIsSolid(d);
    LastOf(d);
    TrimSolid(t.Text());
    WrittenIsRead(t, valid, t.Text());
  }

  lemma LastIsSolid(d: Bytes)
    requires CleanDomain(d)
    ensures !IsSpace(d[|d| - 1])
  {
    LastOf(d);
  }

  /** A scoped rule for several domains is one for the first. */
  lemma ScopedLine(valid: Bytes -> bool, d: Bytes, others: Bytes, selector: Bytes)
    requires CleanDomain(d) && CleanSelector(valid, selector) && '#' !in others && (others == [] || others[0] == ',')
    ensures ParseLine(valid, ScopedText(d + others, selector).Text()) == Some(CosmeticDomainScoped(d, selector))
  {
    hide ParseLine, Trim, NormalizeFilterDomain, CleanDomain, ContainsExtendedCss, Before;
    var t := ScopedText(d + others, selector);
    CleanFacts(d);
    BeforeIs(d, ',', others);
    SeparatorAfter(d + others, selector);
    SeparatorFirst(d + others, selector);
    TrimSolid(t.Text());
    WrittenIsRead(t, valid, t.Text());
  }

  lemma SeparatorFirst(d: Bytes, s: Bytes)
    requires '#' !in d
    ensures forall j | 0 <= j < |d| :: !OccursAt(d + "##" + s, "##", j)
  {
    hide FindText;
    SeparatorAfter(d, s);
  }

  /** Options do not change what a block, URL or exception rule says. */
  lemma OptionsIgnored(valid: Bytes -> bool, r: ParsedRule, options: Bytes)
    requires Printable(valid, r) && (r.DomainBlock? || r.UrlPattern? || r.Exception?)
    requires (options != [] ==> !IsSpace(options[|options| - 1])) && (!r.Exception? ==> '#' !in options)
    ensures ParseLine(valid, Print(r) + ['$'] + options) == Some(r)
  {
    hide ParseLine, CleanDomain, CleanPath, RuleText.Text, Print;
    var o := ['$'] + options;
    if r.DomainBlock? {
      BlockLine(valid, r.domain, false, "^", o);
      BlockPrinted(r.domain, options);
    } else if r.UrlPattern? {
      UrlLine(valid, r.domain, r.path, [], o);
      UrlPrinted(r.domain, r.path, options);
    } else {
      ExceptionLine(valid, r.domain, true, o);
      ExceptionPrinted(r.domain, options);
    }
  }

  lemma BlockPrinted(d: Bytes, options: Bytes)
    ensures BlockText(d, false, "^", ['$'] + options).Text() == Print(DomainBlock(d)) + ['$'] + options
  {
    var o, caret: Bytes := ['$'] + options, "^";
    assert d + [] == d;
    assert "||" + (d + caret + o) == "||" + d + caret + ['$'] + options;
  }

  lemma UrlPrinted(d: Bytes, p: Bytes, options: Bytes)
    ensures UrlText(d, p, [], ['$'] + options).Text() == Print(UrlPattern(d, p)) + ['$'] + options
  {
    var o := ['$'] + options;
    assert d + p + [] == d + p;
    assert "||" + (d + p + o) == "||" + d + p + ['$'] + options;
  }

  lemma ExceptionPrinted(d: Bytes, options: Bytes)
    ensures ExceptionText(d, true, ['$'] + options).Text() == Print(Exception(d)) + ['$'] + options
  {
    var o, caret: Bytes := ['$'] + options, "^";
    assert "@@||" + (d + caret + o) == "@@||" + d + caret + ['$'] + options;
  }

  /** Comments and blank lines state nothing, and neither does a line without any of the markers. */
  lemma StatesNothing(valid: Bytes -> bool, line: Bytes)
    requires var l := Trim(line);
             || l == [] || l[0] == '!' || l[0] == '['
             || (!("||" <= l) && !("@@||" <= l) && HasNoSeparator(l))
    ensures ParseLine(valid, line).None?
  {
    hide Trim, FindText, ParseException, ParseCosmetic, ParseDomainOrUrl;
    if HasNoSeparator(Trim(line)) { NotSeparated(Trim(line)); }
  }

  // ---------------------------------------------------------------- lines of a text

  /** Lines, each followed by LF or CRLF. */
  function Terminated(lines: seq<Bytes>, ends: seq<Bytes>): Bytes
    requires |lines| == |ends|
  {
    if lines == [] then [] else lines[0] + ends[0] + Terminated(lines[1..], ends[1..])
  }

  /** A line and what ends it: without LF, and without a final CR if LF alone ends it. */
  predicate Ended(line: Bytes, end: Bytes) {
    '\n' !in line && (end == CRLF || (end == "\n" && (line != [] ==> line[|line| - 1] != '\r')))
  }

  lemma LineCut(line: Bytes, end: Bytes, rest: Bytes)
    requires Ended(line, end)
    ensures Lines(line + end + rest) == [line] + Lines(rest)
  {
    hide SplitChar;
    var raw := if end == CRLF then line + ['\r'] else line;
    assert line + end + rest == raw + ['\n'] + rest;
    SplitCharCons(raw, '\n', rest);
    assert StripCr(raw) == line;
    var parts := SplitChar(rest, '\n');
    assert ([raw] + parts)[..|parts|] == [raw] + parts[..|parts| - 1];
    assert StripCrs([raw] + parts[..|parts| - 1]) == [line] + StripCrs(parts[..|parts| - 1]);
  }

  /** The lines of a text are what was put in, whichever way each was ended; the last may go without an end. */
  lemma {:induction false} LinesMeaning(lines: seq<Bytes>, ends: seq<Bytes>, last: Bytes)
    requires |lines| == |ends| && (forall i | 0 <= i < |lines| :: Ended(lines[i], ends[i])) && '\n' !in last
    ensures Lines(Terminated(lines, ends) + last) == lines + if last == [] then [] else [last]
    decreases |lines|
  {
    if lines == [] {
      assert [] + last == last;
      assert FindChar(last, '\n').None?;
    } else {
      hide Lines, Ended;
      LinesMeaning(lines[1..], ends[1..], last);
      var more := Terminated(lines[1..], ends[1..]) + last;
      LineCut(lines[0], ends[0], more);
      assert Terminated(lines, ends) + last == lines[0] + ends[0] + more;
    }
  }
}
