/** The rewrites applied to the first request of a connection, before it goes upstream. */
module Requests {
  import opened Text
  import opened Utf8
  import opened Headers

  /** Everything from the first empty line on: the end of the head, and the body. */
  function Tail(buf: Bytes): Option<Bytes> {
    match FindBlank(buf, 0) case None => None case Some(e) => Some(buf[e..])
  }

  /** The request line and header lines in front of the first empty line. */
  function HeadLines(buf: Bytes): seq<Bytes> {
    match FindBlank(buf, 0) case None => [] case Some(e) => SplitCrlf(buf[..e])
  }

  const REFERER_LINE: Bytes := "Referer: https://www.google.com/"

  predicate IsReferer(line: Bytes) { NamesField(line, "referer") }
  predicate NotReferer(line: Bytes) { !IsReferer(line) }
  predicate NotConditional(line: Bytes) {
    !NamesField(line, "if-none-match") && !NamesField(line, "if-modified-since")
  }

  /** `inject_google_referer`. */
  function InjectReferer(buf: Bytes): Option<Bytes> {
    if !ValidUtf8(buf) then None
    else
      match FindBlank(buf, 0)
      case None => None
      case Some(e) => Some(JoinCrlf(Retain(SplitCrlf(buf[..e]), NotReferer) + [REFERER_LINE]) + buf[e..])
  }

  /** `strip_cache_request_headers`. */
  function StripConditional(buf: Bytes): Option<Bytes> {
    if !ValidUtf8(buf) then None
    else
      match FindBlank(buf, 0)
      case None => None
      case Some(e) =>
        var lines := SplitCrlf(buf[..e]);
        var kept := Retain(lines, NotConditional);
        if |kept| == |lines| then None else Some(JoinCrlf(kept) + buf[e..])
  }

  // ---------------------------------------------------------------- replacing the head lines

  /** Lines that can stand as a head taken from `buf`. */
  predicate HeadFor(lines: seq<Bytes>) {
    CrlfFree(lines) && SolidAfterFirst(lines) && forall l | l in lines :: ValidUtf8(l)
  }

  lemma HeadLinesAreHead(buf: Bytes)
    requires ValidUtf8(buf) && FindBlank(buf, 0).Some?
    ensures HeadFor(HeadLines(buf))
  {
    hide ValidUtf8, FindBlank, SplitCrlf;
    var e := FindBlank(buf, 0).value;
    SolidBeforeBlank(buf, e);
    Utf8Cut(buf, e);
    Utf8Lines(buf[..e]);
  }

  lemma RetainHead(lines: seq<Bytes>, p: Bytes -> bool)
    requires HeadFor(lines)
    ensures HeadFor(Retain(lines, p))
  {
    RetainSolid(lines, p);
  }

  /** New head lines in front of an old tail are read back as those lines and that tail. */
  lemma Rehead(buf: Bytes, lines: seq<Bytes>)
    requires ValidUtf8(buf) && FindBlank(buf, 0).Some? && HeadFor(lines)
    ensures var r := JoinCrlf(lines) + buf[FindBlank(buf, 0).value..];
            && ValidUtf8(r)
            && FindBlank(r, 0) == Some(|JoinCrlf(lines)|)
            && Tail(r) == Tail(buf)
            && HeadLines(r) == if lines == [] then [[]] else lines
  {
    hide ValidUtf8, FindBlank, SplitCrlf, JoinCrlf, SolidAfterFirst, CrlfFree;
    var e := FindBlank(buf, 0).value;
    var head := JoinCrlf(lines);
    var r := head + buf[e..];
    assert BlankAt(buf, e) && buf[e..e + 4] == BLANK;
    assert buf[e..] == BLANK + buf[e + 4..];
    assert r == head + BLANK + buf[e + 4..];
    BlankAfterJoin(lines, buf[e + 4..]);
    assert r[..|head|] == head && r[|head|..] == buf[e..];
    Utf8Cut(buf, e);
    Utf8Join(lines);
    Utf8Concat(head, buf[e..]);
    SplitHead(lines);
  }

  lemma SplitHead(lines: seq<Bytes>)
    requires CrlfFree(lines)
    ensures SplitCrlf(JoinCrlf(lines)) == if lines == [] then [[]] else lines
  {
    if lines != [] { SplitOfJoin(lines); }
  }

  lemma RefererLineText()
    ensures NoCrlf(REFERER_LINE)
  {
  }

  lemma RefererLineAscii()
    ensures Ascii(REFERER_LINE)
  {
    var line := REFERER_LINE;
    assert forall i | 0 <= i < |line| :: line[i] as int < 0x80;
  }

  lemma RefererLineName()
    ensures FieldName(REFERER_LINE) == Some("Referer")
  {
    hide FindChar, Trim;
    FindCharIs(REFERER_LINE, ':', 7);
    assert REFERER_LINE[..7] == "Referer";
    TrimSolid("Referer");
  }

  lemma RefererLineIsReferer()
    ensures IsReferer(REFERER_LINE) && NoCrlf(REFERER_LINE) && ValidUtf8(REFERER_LINE) && REFERER_LINE != []
  {
    hide ValidUtf8, NoCrlf, FieldName;
    RefererLineText();
    RefererLineAscii();
    RefererLineName();
    AsciiIsValid(REFERER_LINE);
    assert LowerChar('R') == 'r';
    assert Lower("Referer") == Lower("referer");
  }

  /** Referer injection: the other lines in order, exactly one Referer line, the tail untouched, and idempotent. */
  lemma InjectRefererSpec(buf: Bytes)
    ensures InjectReferer(buf).Some? <==> ValidUtf8(buf) && Tail(buf).Some?
    ensures InjectReferer(buf).Some? ==>
              var r := InjectReferer(buf).value;
              && HeadLines(r) == Retain(HeadLines(buf), NotReferer) + [REFERER_LINE]
              && Retain(HeadLines(r), IsReferer) == [REFERER_LINE]
              && Tail(r) == Tail(buf)
              && InjectReferer(r) == Some(r)
  {
    hide ValidUtf8, FindBlank, SplitCrlf, JoinCrlf, IsReferer, HeadFor;
    if ValidUtf8(buf) && FindBlank(buf, 0).Some? {
      var r := InjectReferer(buf).value;
      var kept := Retain(HeadLines(buf), NotReferer);
      HeadLinesAreHead(buf);
      RetainHead(HeadLines(buf), NotReferer);
      WithReferer(kept);
      Rehead(buf, kept + [REFERER_LINE]);
      RefererLineIsReferer();
      RetainConcat(kept, [REFERER_LINE], IsReferer);
      RetainEmpty(kept, IsReferer);
      RetainConcat(kept, [REFERER_LINE], NotReferer);
      RetainAll(kept, NotReferer);
      assert Retain([REFERER_LINE], NotReferer) == [];
      assert kept + [] == kept;
    }
  }

  lemma WithReferer(kept: seq<Bytes>)
    requires HeadFor(kept)
    ensures HeadFor(kept + [REFERER_LINE])
  {
    hide *;
    RefererLineIsReferer();
    HeadForSnoc(kept, REFERER_LINE);
  }

  lemma HeadForSnoc(lines: seq<Bytes>, line: Bytes)
    requires HeadFor(lines) && NoCrlf(line) && ValidUtf8(line) && line != []
    ensures HeadFor(lines + [line])
  {
    hide ValidUtf8, NoCrlf;
  }

  /** Conditional-header stripping: the other lines in order, the tail untouched, and nothing left to strip. */
  lemma StripConditionalSpec(buf: Bytes)
    ensures StripConditional(buf).Some? <==>
            ValidUtf8(buf) && Tail(buf).Some? && exists l | l in HeadLines(buf) :: !NotConditional(l)
    ensures StripConditional(buf).Some? ==>
              var r := StripConditional(buf).value;
              var kept := Retain(HeadLines(buf), NotConditional);
              && HeadLines(r) == (if kept == [] then [[]] else kept)
              && Tail(r) == Tail(buf)
              && StripConditional(r).None?
  {
    hide ValidUtf8, FindBlank, SplitCrlf, JoinCrlf, NotConditional, HeadFor;
    if ValidUtf8(buf) && FindBlank(buf, 0).Some? {
      var lines := HeadLines(buf);
      var kept := Retain(lines, NotConditional);
      if |kept| == |lines| {
        RetainNone(lines, NotConditional);
      } else {
        if forall l | l in lines :: NotConditional(l) { RetainAll(lines, NotConditional); }
        HeadLinesAreHead(buf);
        RetainHead(lines, NotConditional);
        Rehead(buf, kept);
        EmptyLineKept();
        RetainAll(if kept == [] then [[]] else kept, NotConditional);
      }
    }
  }

  lemma EmptyLineKept()
    ensures NotConditional([])
  {
  }

  // ---------------------------------------------------------------- tracking parameters

  const TRACKING_PARAMS: seq<Bytes> :=
    ["fbclid", "gclid", "gbraid", "wbraid", "dclid", "utm_source", "utm_medium", "utm_campaign",
     "utm_term", "utm_content", "_ga", "_gl", "msclkid", "twclid", "li_fat_id", "mc_eid"]

  /** A parameter whose key is on the (lower-case) list, in any letter case. */
  predicate IsTracking(param: Bytes) { Lower(Before(param, '=')) in TRACKING_PARAMS }
  predicate NotTracking(param: Bytes) { !IsTracking(param) }

  /** `find(c)` and the text on both sides of the hit. */
  function SplitOnce(s: Bytes, c: char): Option<(Bytes, Bytes)> {
    match FindChar(s, c) case None => None case Some(i) => Some((s[..i], s[i + 1..]))
  }

  /** Text that stays on one line and is valid UTF-8. */
  predicate Clean(s: Bytes) {
    NoCrlf(s) && ValidUtf8(s)
  }

  /** A request whose target has a query, cut into its pieces. */
  datatype Target = Target(verb: Bytes, path: Bytes, query: Bytes, version: Bytes, rest: Bytes) {
    function Uri(): Bytes {
      path + ['?'] + query
    }

    function FirstLine(): Bytes {
      verb + [' '] + (Uri() + [' '] + version)
    }

    predicate WellFormed() {
      && ' ' !in verb && ' ' !in path && ' ' !in query && '?' !in path
      && Clean(verb) && Clean(path) && Clean(query) && Clean(version)
      && CrlfAt(rest, 0) && ValidUtf8(rest)
    }
  }

  /** The part of `strip_tracking_query_params` that takes the request apart. */
  function ParseTarget(buf: Bytes): Option<Target> {
    if !ValidUtf8(buf) then None
    else
      match FindCrlf(buf, 0)
      case None => None
      case Some(i) => ParseFirstLine(buf[..i], buf[i..])
  }

  function ParseFirstLine(line: Bytes, rest: Bytes): Option<Target> {
    match SplitOnce(line, ' ')
    case None => None
    case Some((verb, after)) =>
      match SplitOnce(after, ' ')
      case None => None
      case Some((uri, version)) =>
        match SplitOnce(uri, '?')
        case None => None
        case Some((path, query)) => Some(Target(verb, path, query, version, rest))
  }

  /** The request line without its tracking parameters, or `None` if it has none. */
  function StrippedLine(t: Target): Option<Bytes> {
    var params := SplitChar(t.query, '&');
    var kept := Retain(params, NotTracking);
    if |kept| == |params| then None
    else if kept == [] then Some(t.verb + [' '] + (t.path + [' '] + t.version))
    else Some(t.(query := JoinChar(kept, '&')).FirstLine())
  }

  /** `strip_tracking_query_params`. */
  function StripQuery(buf: Bytes): Option<Bytes> {
    match ParseTarget(buf)
    case None => None
    case Some(t) =>
      match StrippedLine(t)
      case None => None
      case Some(line) => Some(line + t.rest)
  }

  /** The parameter loop: keep what is not tracking and note whether anything was dropped. */
  method FilterParams(params: seq<Bytes>) returns (kept: seq<Bytes>, strippedAny: bool)
    ensures kept == Retain(params, NotTracking)
    ensures strippedAny <==> |kept| != |params|
    ensures strippedAny <==> exists p | p in params :: IsTracking(p)
  {
    hide IsTracking, Retain;
    kept, strippedAny := [], false;
    for i := 0 to |params|
      invariant kept == Retain(params[..i], NotTracking)
      invariant strippedAny <==> |kept| != i
      invariant strippedAny <==> exists p | p in params[..i] :: IsTracking(p)
    {
      assert params[..i + 1] == params[..i] + [params[i]];
      RetainSnoc(params, i, NotTracking);
      if IsTracking(params[i]) {
        strippedAny := true;
        assert params[i] in params[..i + 1];
      } else {
        kept := kept + [params[i]];
      }
    }
    assert params[..|params|] == params;
  }

  /** `strip_tracking_query_params`, with its loop. */
  method StripTrackingQueryParams(buf: Bytes) returns (r: Option<Bytes>)
    ensures r == StripQuery(buf)
  {
    hide ParseTarget, Retain, SplitChar, JoinChar, NotTracking;
    var target := ParseTarget(buf);
    if target.None? { return None; }
    var t := target.value;
    var kept, strippedAny := FilterParams(SplitChar(t.query, '&'));
    if !strippedAny { return None; }
    if kept == [] { return Some(t.verb + [' '] + (t.path + [' '] + t.version) + t.rest); }
    return Some(t.(query := JoinChar(kept, '&')).FirstLine() + t.rest);
  }

  lemma NoCrlfCut(s: Bytes, i: nat)
    requires NoCrlf(s) && i <= |s|
    ensures NoCrlf(s[..i]) && NoCrlf(s[i..])
  {
    forall k | 0 <= k < i ensures !CrlfAt(s[..i], k) { assert !CrlfAt(s, k); }
    forall k | 0 <= k < |s| - i ensures !CrlfAt(s[i..], k) { assert !CrlfAt(s, i + k); }
  }

  lemma NoCrlfJoin(a: Bytes, c: char, b: Bytes)
    requires NoCrlf(a) && NoCrlf(b) && c != '\r' && c != '\n'
    ensures NoCrlf(a + [c] + b)
  {
    var s := a + [c] + b;
    forall k | 0 <= k < |s| ensures !CrlfAt(s, k) {
      if k < |a| { assert !CrlfAt(a, k); }
      if k > |a| { assert !CrlfAt(b, k - |a| - 1); }
    }
  }

  lemma SplitOnceParts(s: Bytes, c: char)
    requires SplitOnce(s, c).Some?
    ensures var (a, b) := SplitOnce(s, c).value;
            && s == a + [c] + b && c !in a
            && (Clean(s) && c as int < 0x80 ==> Clean(a) && Clean(b))
  {
    hide ValidUtf8, NoCrlf;
    var i := FindChar(s, c).value;
    assert s == s[..i] + [c] + s[i + 1..];
    if Clean(s) && c as int < 0x80 {
      NoCrlfCut(s, i);
      NoCrlfCut(s, i + 1);
      Utf8Cut(s, i);
      Utf8CutAfter(s, i);
    }
  }

  lemma SplitOnceJoined(a: Bytes, c: char, b: Bytes)
    requires c !in a
    ensures SplitOnce(a + [c] + b, c) == Some((a, b))
  {
    var s := a + [c] + b;
    forall j | 0 <= j < |a| ensures s[j] != c { assert a[j] in a; }
    FindCharIs(s, c, |a|);
    assert s[..|a|] == a && s[|a| + 1..] == b;
  }

  lemma CleanJoined(a: Bytes, c: char, b: Bytes)
    requires Clean(a) && Clean(b) && c as int < 0x80 && c != '\r' && c != '\n'
    ensures Clean(a + [c] + b)
  {
    hide ValidUtf8, NoCrlf;
    NoCrlfJoin(a, c, b);
    AsciiIsValid([c]);
    Utf8Concat(a, [c]);
    Utf8Concat(a + [c], b);
  }

  /** The pieces are clean and put together they are the first line. */
  lemma ParsedFirstLine(line: Bytes, rest: Bytes)
    requires ParseFirstLine(line, rest).Some?
    requires Clean(line) && CrlfAt(rest, 0) && ValidUtf8(rest)
    ensures ParseFirstLine(line, rest).value.WellFormed()
    ensures ParseFirstLine(line, rest).value.FirstLine() == line
    ensures ParseFirstLine(line, rest).value.rest == rest
  {
    hide SplitOnce, Clean, ValidUtf8, CrlfAt;
    var (verb, after) := SplitOnce(line, ' ').value;
    var (uri, version) := SplitOnce(after, ' ').value;
    SplitOnceParts(line, ' ');
    SplitOnceParts(after, ' ');
    SplitOnceParts(uri, '?');
  }

  lemma ParsedTarget(buf: Bytes)
    requires ParseTarget(buf).Some?
    ensures ParseTarget(buf).value.WellFormed()
    ensures ParseTarget(buf).value.FirstLine() + ParseTarget(buf).value.rest == buf
  {
    hide ValidUtf8, FindCrlf, ParseFirstLine;
    var i := FindCrlf(buf, 0).value;
    forall j | 0 <= j < i ensures !CrlfAt(buf[..i], j) { assert !CrlfAt(buf, j); }
    Utf8Cut(buf, i);
    ParsedFirstLine(buf[..i], buf[i..]);
    assert buf[..i] + buf[i..] == buf;
  }

  /** The target of a request is exactly what a request line with a query is made of. */
  lemma TargetIff(buf: Bytes, t: Target)
    ensures ParseTarget(buf) == Some(t) <==> t.WellFormed() && t.FirstLine() + t.rest == buf
  {
    hide ParseTarget, Clean, ValidUtf8;
    if ParseTarget(buf) == Some(t) { ParsedTarget(buf); }
    if t.WellFormed() && t.FirstLine() + t.rest == buf {
      FirstLineIsClean(t);
      FirstLineParses(t);
      RequestSplits(t.FirstLine(), t.rest);
    }
  }

  /** A parameter is tracking by its key, with or without a value. */
  lemma TrackingKey(key: Bytes, value: Bytes)
    requires '=' !in key && (value == [] || value[0] == '=')
    ensures IsTracking(key + value) <==> Lower(key) in TRACKING_PARAMS
  {
    hide Before;
    BeforeIs(key, '=', value);
  }

  lemma FirstLineIsClean(t: Target)
    requires t.WellFormed()
    ensures Clean(t.FirstLine())
  {
    hide Clean;
    CleanJoined(t.path, '?', t.query);
    CleanJoined(t.Uri(), ' ', t.version);
    CleanJoined(t.verb, ' ', t.Uri() + [' '] + t.version);
  }

  lemma FirstLineParses(t: Target)
    requires t.WellFormed()
    ensures ParseFirstLine(t.FirstLine(), t.rest) == Some(t)
  {
    hide Clean, SplitOnce;
    SplitOnceJoined(t.verb, ' ', t.Uri() + [' '] + t.version);
    assert ' ' !in t.Uri();
    SplitOnceJoined(t.Uri(), ' ', t.version);
    SplitOnceJoined(t.path, '?', t.query);
  }

  /** A clean first line is where the request splits, whatever follows it. */
  lemma RequestSplits(line: Bytes, rest: Bytes)
    requires Clean(line) && CrlfAt(rest, 0) && ValidUtf8(rest)
    ensures ParseTarget(line + rest) == ParseFirstLine(line, rest)
    ensures Tail(line + rest) == Tail(rest)
  {
    hide ValidUtf8, ParseFirstLine, FindBlank;
    var s := line + rest;
    Utf8Concat(line, rest);
    forall j | 0 <= j < |line| ensures !CrlfAt(s, j) { assert !CrlfAt(line, j); }
    FindCrlfIs(s, 0, |line|);
    assert s[..|line|] == line && s[|line|..] == rest;
    BlankAfterLine(line, rest);
  }

  lemma {:induction false} CleanParts(s: Bytes)
    requires Clean(s) && ' ' !in s
    ensures forall p | p in SplitChar(s, '&') :: Clean(p) && ' ' !in p
    decreases |s|
  {
    hide ValidUtf8, NoCrlf;
    match FindChar(s, '&')
    case None =>
    case Some(i) =>
      SplitOnceParts(s, '&');
      CleanParts(s[i + 1..]);
  }

  lemma {:induction false} CleanJoin(parts: seq<Bytes>)
    requires parts != [] && forall p | p in parts :: Clean(p) && ' ' !in p
    ensures Clean(JoinChar(parts, '&')) && ' ' !in JoinChar(parts, '&')
  {
    hide Clean;
    assert parts[0] in parts;
    if |parts| > 1 {
      CleanJoin(parts[1..]);
      CleanJoined(parts[0], '&', JoinChar(parts[1..], '&'));
    }
  }

  /** Removing parameters keeps the pieces clean and is read back exactly. */
  lemma WithParams(t: Target, kept: seq<Bytes>)
    requires t.WellFormed() && kept != []
    requires forall p | p in kept :: p in SplitChar(t.query, '&')
    ensures var u := t.(query := JoinChar(kept, '&'));
            && u.WellFormed()
            && ParseTarget(u.FirstLine() + u.rest) == Some(u)
            && SplitChar(u.query, '&') == kept
            && Tail(u.FirstLine() + u.rest) == Tail(t.rest)
  {
    hide Clean, ParseTarget, SplitChar, JoinChar, Tail;
    var u := t.(query := JoinChar(kept, '&'));
    CleanParts(t.query);
    CleanJoin(kept);
    FirstLineIsClean(u);
    FirstLineParses(u);
    RequestSplits(u.FirstLine(), u.rest);
    SplitOfJoinChar(kept, '&');
  }

  lemma WithoutQuery(t: Target)
    requires t.WellFormed()
    ensures var r := t.verb + [' '] + (t.path + [' '] + t.version) + t.rest;
            ParseTarget(r).None? && Tail(r) == Tail(t.rest)
  {
    hide Clean, FindChar, ParseTarget, Tail;
    CleanJoined(t.path, ' ', t.version);
    CleanJoined(t.verb, ' ', t.path + [' '] + t.version);
    RequestSplits(t.verb + [' '] + (t.path + [' '] + t.version), t.rest);
    SplitOnceJoined(t.verb, ' ', t.path + [' '] + t.version);
    SplitOnceJoined(t.path, ' ', t.version);
    assert FindChar(t.path, '?').None?;
  }

  /** Parameter stripping: kept parameters in order, everything from the first CRLF on unchanged, nothing left to strip. */
  lemma StripQuerySpec(buf: Bytes)
    ensures StripQuery(buf).Some? <==>
            ParseTarget(buf).Some? && exists p | p in SplitChar(ParseTarget(buf).value.query, '&') :: IsTracking(p)
    ensures StripQuery(buf).Some? ==>
              var r := StripQuery(buf).value;
              var t := ParseTarget(buf).value;
              var kept := Retain(SplitChar(t.query, '&'), NotTracking);
              && StripQuery(r).None?
              && Tail(r) == Tail(buf)
              && ParseTarget(r) == (if kept == [] then None else Some(t.(query := JoinChar(kept, '&'))))
              && (kept != [] ==> SplitChar(ParseTarget(r).value.query, '&') == kept)
  {
    hide ParseTarget, IsTracking, SplitChar, JoinChar, Tail, ValidUtf8, Clean;
    if ParseTarget(buf).Some? {
      var t := ParseTarget(buf).value;
      ParsedTarget(buf);
      FirstLineIsClean(t);
      RequestSplits(t.FirstLine(), t.rest);
      var params := SplitChar(t.query, '&');
      var kept := Retain(params, NotTracking);
      if |kept| == |params| {
        RetainNone(params, NotTracking);
      } else {
        if forall p | p in params :: NotTracking(p) { RetainAll(params, NotTracking); }
        if kept == [] {
          WithoutQuery(t);
        } else {
          WithParams(t, kept);
          RetainAll(kept, NotTracking);
        }
      }
    }
  }

  // ---------------------------------------------------------------- all three together

  /** What the relay sends upstream in place of the first read; `None` leaves the read as it is. */
  function RewriteFirstRequest(buf: Bytes, spoofReferer: bool, stripQuery: bool, tracker: bool): Option<Bytes> {
    var a := if spoofReferer then InjectReferer(buf) else None;
    var src := if a.Some? then a.value else buf;
    var b := if stripQuery && StripQuery(src).Some? then StripQuery(src) else a;
    var src' := if b.Some? then b.value else buf;
    if tracker && StripConditional(src').Some? then StripConditional(src') else b
  }

  /** Whatever combination applies, the request from its first empty line on reaches the server unchanged. */
  lemma RewriteKeepsTail(buf: Bytes, spoofReferer: bool, stripQuery: bool, tracker: bool)
    ensures var r := RewriteFirstRequest(buf, spoofReferer, stripQuery, tracker);
            r.Some? ==> Tail(r.value) == Tail(buf)
  {
    hide InjectReferer, StripQuery, StripConditional, Tail;
    InjectRefererSpec(buf);
    var a := if spoofReferer then InjectReferer(buf) else None;
    var src := if a.Some? then a.value else buf;
    StripQuerySpec(src);
    var b := if stripQuery && StripQuery(src).Some? then StripQuery(src) else a;
    StripConditionalSpec(if b.Some? then b.value else buf);
  }

  // ---------------------------------------------------------------- when nothing changes

  /** A head that referer injection leaves as it is: its last line is the injected one, and no other names a referer. */
  predicate Injected(buf: Bytes) {
    EndsOnly(HeadLines(buf), REFERER_LINE)
  }

  predicate HasTrackingParam(buf: Bytes) {
    ParseTarget(buf).Some? && exists p | p in SplitChar(ParseTarget(buf).value.query, '&') :: IsTracking(p)
  }

  /** A request whose head the referer and conditional-header rewrites can take apart. */
  predicate HasHead(buf: Bytes) {
    ValidUtf8(buf) && Tail(buf).Some?
  }

  predicate HasConditional(buf: Bytes) {
    HasHead(buf) && exists l | l in HeadLines(buf) :: !NotConditional(l)
  }

  /** Nothing in the request is there for the enabled rewrites to change. */
  predicate Settled(buf: Bytes, spoofReferer: bool, stripQuery: bool, tracker: bool) {
    && (spoofReferer && HasHead(buf) ==> Injected(buf))
    && !(stripQuery && HasTrackingParam(buf))
    && !(tracker && HasConditional(buf))
  }

  lemma {:induction false} RetainFront(lines: seq<Bytes>)
    requires lines != [] && IsReferer(lines[|lines| - 1])
    ensures |Retain(lines, NotReferer)| < |lines|
    ensures |Retain(lines, NotReferer)| == |lines| - 1 ==> Retain(lines, NotReferer) == lines[..|lines| - 1]
  {
    hide IsReferer;
    var front, last := lines[..|lines| - 1], lines[|lines| - 1];
    assert lines == front + [last];
    RetainConcat(front, [last], NotReferer);
    RetainEmpty([last], NotReferer);
    assert Retain(front, NotReferer) + [] == Retain(front, NotReferer);
    if |Retain(front, NotReferer)| == |front| {
      RetainNone(front, NotReferer);
      RetainAll(front, NotReferer);
    }
  }

  /** The head lines and the tail are the whole request. */
  lemma HeadAndTail(buf: Bytes)
    requires Tail(buf).Some?
    ensures HeadLines(buf) != [] && buf == JoinCrlf(HeadLines(buf)) + Tail(buf).value
  {
    hide FindBlank, SplitCrlf, JoinCrlf;
    var e := FindBlank(buf, 0).value;
    JoinOfSplit(buf[..e]);
  }

  lemma RetainFrontAll(front: seq<Bytes>, last: Bytes)
    requires IsReferer(last) && forall l | l in front :: NotReferer(l)
    ensures Retain(front + [last], NotReferer) == front
  {
    hide IsReferer, Retain;
    RetainConcat(front, [last], NotReferer);
    RetainAll(front, NotReferer);
    RetainEmpty([last], NotReferer);
    assert front + [] == front;
  }

  lemma RetainPlusIff(lines: seq<Bytes>, last: Bytes)
    requires IsReferer(last) && lines != []
    ensures Retain(lines, NotReferer) + [last] == lines <==> EndsOnly(lines, last)
  {
    hide *;
    if Retain(lines, NotReferer) + [last] == lines { FrontRetained(lines, Retain(lines, NotReferer), last); }
    if EndsOnly(lines, last) { FrontIsRetained(lines, last); }
  }

  /** The last line is `last`, and no other names a referer. */
  predicate EndsOnly(lines: seq<Bytes>, last: Bytes) {
    && lines != [] && lines[|lines| - 1] == last
    && forall i | 0 <= i < |lines| - 1 :: NotReferer(lines[i])
  }

  lemma FrontIsRetained(lines: seq<Bytes>, last: Bytes)
    requires IsReferer(last) && EndsOnly(lines, last)
    ensures Retain(lines, NotReferer) + [last] == lines
  {
    hide IsReferer, Retain;
    var front := lines[..|lines| - 1];
    RetainFrontAll(front, last);
    assert front + [last] == lines;
  }

  lemma FrontRetained(lines: seq<Bytes>, kept: seq<Bytes>, last: Bytes)
    requires kept == Retain(lines, NotReferer) && kept + [last] == lines
    ensures EndsOnly(lines, last)
  {
    hide NotReferer, Retain;
    forall i | 0 <= i < |lines| - 1 ensures NotReferer(lines[i]) { assert lines[i] == kept[i] && kept[i] in kept; }
  }

  lemma InjectedIff(buf: Bytes)
    requires HasHead(buf)
    ensures InjectReferer(buf) == Some(buf) <==> Injected(buf)
  {
    hide InjectReferer, ValidUtf8, Tail, HeadLines, IsReferer, JoinCrlf, Retain;
    InjectRefererSpec(buf);
    RefererLineIsReferer();
    HeadAndTail(buf);
    HeadAndTail(InjectReferer(buf).value);
    RetainPlusIff(HeadLines(buf), REFERER_LINE);
  }

  /** The lines of a head behind its first one are settled by what follows the first line. */
  lemma HeadLinesBehind(line: Bytes, rest: Bytes)
    requires NoCrlf(line) && CrlfAt(rest, 0) && FindBlank(rest, 0).Some?
    ensures var i := FindBlank(rest, 0).value;
            && (i == 0 || 2 <= i)
            && HeadLines(line + rest) == [line] + if i == 0 then [] else SplitCrlf(rest[2..i])
  {
    hide SplitCrlf, FindBlank;
    var i, s := FindBlank(rest, 0).value, line + rest;
    BlankAfterLine(line, rest);
    assert i != 1;
    if i == 0 {
      assert s[..|line|] == line;
      SplitNone(line);
    } else {
      assert rest[..2] == CRLF;
      assert s[..|line| + i] == line + CRLF + rest[2..i];
      SplitCons(line, rest[2..i]);
    }
  }

  lemma SplitNone(line: Bytes)
    requires NoCrlf(line)
    ensures SplitCrlf(line) == [line]
  {
  }

  /** What is left of a request whose query was stripped: the first line is new, the others are as they were. */
  lemma StripQueryLines(buf: Bytes)
    requires StripQuery(buf).Some? && Tail(buf).Some?
    ensures var r := StripQuery(buf).value;
            && Tail(r).Some? && ValidUtf8(r)
            && HeadLines(r) != [] && HeadLines(r)[0] == StrippedLine(ParseTarget(buf).value).value
            && HeadLines(buf) != [] && |HeadLines(r)| == |HeadLines(buf)| && HeadLines(r)[1..] == HeadLines(buf)[1..]
            && HeadLines(buf)[0] == ParseTarget(buf).value.FirstLine()
  {
    hide ParseTarget, IsTracking, SplitChar, JoinChar, HeadLines, Clean, FindBlank, ValidUtf8;
    StripQuerySpec(buf);
    ParsedTarget(buf);
    var t := ParseTarget(buf).value;
    FirstLineIsClean(t);
    RequestSplits(t.FirstLine(), t.rest);
    CleanHasNoCrlf(t.FirstLine());
    HeadLinesBehind(t.FirstLine(), t.rest);
    var kept := Retain(SplitChar(t.query, '&'), NotTracking);
    var line;
    if kept == [] {
      line := t.verb + [' '] + (t.path + [' '] + t.version);
      CleanJoined(t.path, ' ', t.version);
      CleanJoined(t.verb, ' ', t.path + [' '] + t.version);
    } else {
      line := t.(query := JoinChar(kept, '&')).FirstLine();
      WithParams(t, kept);
      FirstLineIsClean(t.(query := JoinChar(kept, '&')));
    }
    CleanHasNoCrlf(line);
    HeadLinesBehind(line, t.rest);
    CleanConcat(line, t.rest);
  }

  lemma CleanConcat(line: Bytes, rest: Bytes)
    requires Clean(line) && ValidUtf8(rest)
    ensures ValidUtf8(line + rest)
  {
    hide ValidUtf8;
    Utf8Concat(line, rest);
  }

  lemma CleanHasNoCrlf(s: Bytes)
    requires Clean(s)
    ensures NoCrlf(s)
  {
  }

  lemma RefererOneSpace(i: nat, j: nat)
    requires i < j < |REFERER_LINE| && REFERER_LINE[i] == ' '
    ensures REFERER_LINE[j] != ' '
  {
  }

  /** A request line has two spaces, so it is neither empty nor the injected line. */
  lemma FirstLineIsNoReferer(t: Target)
    ensures t.FirstLine() != REFERER_LINE && t.FirstLine() != []
  {
    var i, j := |t.verb|, |t.verb| + 1 + |t.Uri()|;
    assert t.FirstLine()[i] == ' ' && t.FirstLine()[j] == ' ';
    if t.FirstLine() == REFERER_LINE { RefererOneSpace(i, j); }
  }

  lemma RefererLineKept()
    ensures NotConditional(REFERER_LINE)
  {
    hide FieldName;
    RefererLineName();
    assert |Lower("Referer")| == 7 && |Lower("if-none-match")| == 13 && |Lower("if-modified-since")| == 17;
  }

  /** Stripping the query after an injection never undoes it. */
  lemma StripAfterInject(buf: Bytes, src: Bytes)
    requires HasHead(buf) && InjectReferer(buf) == Some(src) && StripQuery(src).Some?
    ensures StripQuery(src).value != buf
    ensures Tail(StripQuery(src).value).Some?
    ensures var lines := HeadLines(StripQuery(src).value);
            && |lines| == |Retain(HeadLines(buf), NotReferer)| + 1 && |lines| >= 2 && lines[|lines| - 1] == REFERER_LINE
  {
    hide InjectReferer, StripQuery, ValidUtf8, Tail, HeadLines, IsReferer, JoinCrlf, ParseTarget;
    InjectRefererSpec(buf);
    StripQueryLines(src);
    StripQuerySpec(src);
    FirstLineIsNoReferer(ParseTarget(src).value);
    RefererLineIsReferer();
    var r := StripQuery(src).value;
    var kept := Retain(HeadLines(buf), NotReferer);
    var lines := HeadLines(r);
    assert lines[|lines| - 1] == lines[1..][|kept| - 1] == REFERER_LINE;
    if r == buf {
      RetainFront(lines);
      assert HeadLines(src) == lines[..|lines| - 1] + [REFERER_LINE] == lines;
      HeadAndTail(src);
      HeadAndTail(buf);
    }
  }

  /** Stripping conditional headers last never undoes what came before: a stripped query, */
  lemma ConditionalAfterStrip(buf: Bytes, src: Bytes)
    requires StripQuery(buf) == Some(src) && StripConditional(src).Some?
    ensures StripConditional(src).value != buf
  {
    hide StripQuery, StripConditional, ValidUtf8, Tail, HeadLines, NotConditional, ParseTarget, Retain;
    StripConditionalSpec(src);
    StripQuerySpec(buf);
    StripQueryLines(buf);
    FirstLineIsNoReferer(ParseTarget(buf).value);
    FewerLines(HeadLines(src));
  }

  /** or an injected referer, behind which one line more than the other lines of the request is left. */
  lemma ConditionalAfterInject(buf: Bytes, src: Bytes)
    requires StripConditional(src).Some?
    requires var lines := HeadLines(src);
             lines != [] && lines[|lines| - 1] == REFERER_LINE && |lines| == |Retain(HeadLines(buf), NotReferer)| + 1
    ensures StripConditional(src).value != buf
  {
    hide StripConditional, ValidUtf8, Tail, HeadLines, IsReferer, NotConditional, Retain;
    StripConditionalSpec(src);
    RefererLineIsReferer();
    RefererLineKept();
    LastKept(HeadLines(src));
    FewerLines(HeadLines(src));
    if StripConditional(src).value == buf { RetainFront(HeadLines(buf)); }
  }

  lemma FewerLines(lines: seq<Bytes>)
    requires exists l | l in lines :: !NotConditional(l)
    ensures |Retain(lines, NotConditional)| < |lines|
  {
    hide NotConditional;
    if |Retain(lines, NotConditional)| == |lines| { RetainNone(lines, NotConditional); }
  }

  lemma LastKept(lines: seq<Bytes>)
    requires lines != [] && NotConditional(lines[|lines| - 1])
    ensures var kept := Retain(lines, NotConditional); kept != [] && kept[|kept| - 1] == lines[|lines| - 1]
  {
    hide NotConditional;
    var front, last := lines[..|lines| - 1], lines[|lines| - 1];
    assert lines == front + [last];
    RetainConcat(front, [last], NotConditional);
    RetainAll([last], NotConditional);
  }

  /** Exactly when the three rewrites together leave a request as it is: none of the enabled ones finds anything to
      change. In particular no later rewrite ever undoes an earlier one. */
  lemma RewriteChangesNothingIff(buf: Bytes, spoofReferer: bool, stripQuery: bool, tracker: bool)
    ensures var r := RewriteFirstRequest(buf, spoofReferer, stripQuery, tracker);
            r.None? || r.value == buf <==> Settled(buf, spoofReferer, stripQuery, tracker)
  {
    hide InjectReferer, StripQuery, StripConditional, HasHead, Injected, HasTrackingParam, HasConditional, HeadLines, Retain,
      ParseTarget, Tail, ValidUtf8, IsReferer, NotConditional, IsTracking;
    var r := RewriteFirstRequest(buf, spoofReferer, stripQuery, tracker);
    RewriteGuards(buf);
    var a := if spoofReferer then InjectReferer(buf) else None;
    var src := if a.Some? then a.value else buf;
    var b := if stripQuery && StripQuery(src).Some? then StripQuery(src) else a;
    var src' := if b.Some? then b.value else buf;
    if tracker && StripConditional(src').Some? {
      if a.Some? {
        InjectRefererSpec(buf);
        if b != a { StripAfterInject(buf, src); }
        ConditionalAfterInject(buf, src');
      } else if b.Some? {
        ConditionalAfterStrip(buf, src');
      } else {
        StripConditionalSpec(buf);
      }
    } else if stripQuery && StripQuery(src).Some? {
      StripQuerySpec(src);
      if a.Some? { StripAfterInject(buf, src); }
    }
  }

  /** The guards of the three rewrites. */
  lemma RewriteGuards(buf: Bytes)
    ensures InjectReferer(buf).Some? <==> HasHead(buf)
    ensures HasHead(buf) ==> (InjectReferer(buf) == Some(buf) <==> Injected(buf))
    ensures StripQuery(buf).Some? <==> HasTrackingParam(buf)
    ensures StripConditional(buf).Some? <==> HasConditional(buf)
  {
    hide InjectReferer, StripQuery, StripConditional, ValidUtf8, Tail, HeadLines, Injected, NotConditional, ParseTarget, IsTracking;
    InjectRefererSpec(buf);
    if HasHead(buf) { InjectedIff(buf); }
    StripQuerySpec(buf);
    StripConditionalSpec(buf);
  }

  // ---------------------------------------------------------------- what is forwarded, line by line

  /** `StrippedLine` of a line of text. */
  function StripLine(line: Bytes): Option<Bytes> {
    match ParseFirstLine(line, []) case None => None case Some(t) => StrippedLine(t)
  }

  /** The first line of a head ends where the first CRLF is. */
  lemma FirstLineOf(buf: Bytes)
    requires Tail(buf).Some?
    ensures HeadLines(buf) != [] && FindCrlf(buf, 0) == Some(|HeadLines(buf)[0]|)
    ensures |HeadLines(buf)[0]| <= |buf| && buf[..|HeadLines(buf)[0]|] == HeadLines(buf)[0]
  {
    hide FindBlank;
    var e := FindBlank(buf, 0).value;
    var head := buf[..e];
    assert CrlfAt(buf, e);
    var i := FindCrlf(buf, 0).value;
    assert i <= e;
    if i < e {
      assert i + 1 != e;
      assert CrlfAt(head, i);
      forall j | 0 <= j < i ensures !CrlfAt(head, j) { assert !CrlfAt(buf, j); }
      FindCrlfIs(head, 0, i);
      assert head[..i] == buf[..i];
    } else {
      forall j | 0 <= j < e ensures !CrlfAt(head, j) { assert !CrlfAt(buf, j); }
      SplitNone(head);
    }
  }

  lemma RestDoesNotMatter(line: Bytes, rest: Bytes)
    ensures match ParseFirstLine(line, rest)
            case None => StripLine(line).None?
            case Some(t) => StripLine(line) == StrippedLine(t)
  {
    hide SplitOnce;
  }

  /** On a request with a head, query stripping is a change of the first line. */
  lemma StripQueryHead(buf: Bytes)
    requires HasHead(buf)
    ensures HeadLines(buf) != [] && (StripQuery(buf).Some? <==> StripLine(HeadLines(buf)[0]).Some?)
    ensures StripQuery(buf).Some? ==>
              var r := StripQuery(buf).value;
              HasHead(r) && HeadLines(r) == [StripLine(HeadLines(buf)[0]).value] + HeadLines(buf)[1..]
  {
    hide ValidUtf8, HeadLines, Tail, FindCrlf, ParseFirstLine, StrippedLine, StripLine;
    FirstLineOf(buf);
    var line := HeadLines(buf)[0];
    RestDoesNotMatter(line, buf[|line|..]);
    if StripQuery(buf).Some? {
      StripQueryLines(buf);
      var lines := HeadLines(StripQuery(buf).value);
      assert lines == [lines[0]] + lines[1..];
    }
  }

  /** The lines in front of the conditional pass. */
  function LinesToCheck(lines: seq<Bytes>, spoofReferer: bool, stripQuery: bool): seq<Bytes> {
    var a := if spoofReferer then Retain(lines, NotReferer) + [REFERER_LINE] else lines;
    if stripQuery && a != [] && StripLine(a[0]).Some? then [StripLine(a[0]).value] + a[1..] else a
  }

  /** The head lines that reach the server. */
  function LinesForwarded(lines: seq<Bytes>, spoofReferer: bool, stripQuery: bool, tracker: bool): seq<Bytes> {
    var b := LinesToCheck(lines, spoofReferer, stripQuery);
    var c := if tracker then Retain(b, NotConditional) else b;
    if c == [] then [[]] else c
  }

  /** What is sent in place of the first read. */
  function Outgoing(buf: Bytes, spoofReferer: bool, stripQuery: bool, tracker: bool): Bytes {
    var r := RewriteFirstRequest(buf, spoofReferer, stripQuery, tracker);
    if r.Some? then r.value else buf
  }

  lemma InjectedLines(buf: Bytes)
    requires HasHead(buf)
    ensures InjectReferer(buf).Some? && HasHead(InjectReferer(buf).value)
    ensures HeadLines(InjectReferer(buf).value) == Retain(HeadLines(buf), NotReferer) + [REFERER_LINE]
  {
    hide InjectReferer, ValidUtf8, HeadLines, Tail, IsReferer, Retain;
    InjectRefererSpec(buf);
    InjectRefererSpec(InjectReferer(buf).value);
  }

  /** What the first two rewrites make of a request with a head. */
  lemma CheckedLines(buf: Bytes, spoofReferer: bool, stripQuery: bool)
    requires HasHead(buf)
    ensures var b := Outgoing(buf, spoofReferer, stripQuery, false);
            && HasHead(b) && HeadLines(b) == LinesToCheck(HeadLines(buf), spoofReferer, stripQuery)
            && (stripQuery ==> StripQuery(b).None?)
  {
    hide InjectReferer, StripQuery, StripConditional, HasHead, HeadLines, StripLine, Retain;
    if spoofReferer { InjectedLines(buf); }
    var src := if spoofReferer then InjectReferer(buf).value else buf;
    StripQueryHead(src);
    StripQuerySpec(src);
  }

  /** Over every combination of the rewrites: the head lines that reach the server. Each enabled rewrite works on the
      result of the one before. */
  lemma ForwardedLines(buf: Bytes, spoofReferer: bool, stripQuery: bool, tracker: bool)
    requires HasHead(buf)
    ensures HeadLines(Outgoing(buf, spoofReferer, stripQuery, tracker)) ==
            LinesForwarded(HeadLines(buf), spoofReferer, stripQuery, tracker)
  {
    hide InjectReferer, StripQuery, StripConditional, HeadLines, LinesToCheck, NotConditional, Retain, ValidUtf8, Tail;
    CheckedLines(buf, spoofReferer, stripQuery);
    var b := Outgoing(buf, spoofReferer, stripQuery, false);
    ConditionalLast(buf, spoofReferer, stripQuery);
    StripConditionalSpec(b);
    HeadAndTail(b);
    if tracker && StripConditional(b).None? { RetainAll(HeadLines(b), NotConditional); }
  }

  lemma ConditionalLast(buf: Bytes, spoofReferer: bool, stripQuery: bool)
    ensures var b := Outgoing(buf, spoofReferer, stripQuery, false);
            Outgoing(buf, spoofReferer, stripQuery, true) == if StripConditional(b).Some? then StripConditional(b).value else b
  {
    hide InjectReferer, StripQuery, StripConditional;
  }

  /** A read without a complete head can only lose its tracking parameters. */
  lemma ForwardedHeadless(buf: Bytes, spoofReferer: bool, stripQuery: bool, tracker: bool)
    requires !HasHead(buf)
    ensures Outgoing(buf, spoofReferer, stripQuery, tracker) ==
            if stripQuery && StripQuery(buf).Some? then StripQuery(buf).value else buf
  {
    hide InjectReferer, StripQuery, StripConditional, Tail, ValidUtf8;
    RewriteGuards(buf);
    if StripQuery(buf).Some? {
      StripQuerySpec(buf);
      RewriteGuards(StripQuery(buf).value);
      StrippedIsValid(buf);
    }
  }

  lemma StrippedIsValid(buf: Bytes)
    requires StripQuery(buf).Some?
    ensures ValidUtf8(buf)
  {
  }

  lemma RefererIsNotConditional(line: Bytes)
    requires IsReferer(line)
    ensures NotConditional(line)
  {
    hide FieldName;
    assert |Lower("referer")| == 7 && |Lower("if-none-match")| == 13 && |Lower("if-modified-since")| == 17;
  }

  lemma RefererLineStays()
    ensures StripLine(REFERER_LINE).None?
  {
    hide ValidUtf8;
    if ParseFirstLine(REFERER_LINE, []).Some? {
      ParsedLine(REFERER_LINE, []);
      FirstLineIsNoReferer(ParseFirstLine(REFERER_LINE, []).value);
    }
  }

  lemma ParsedLine(line: Bytes, rest: Bytes)
    requires ParseFirstLine(line, rest).Some?
    ensures ParseFirstLine(line, rest).value.FirstLine() == line
  {
    hide SplitOnce;
    var (verb, after) := SplitOnce(line, ' ').value;
    var (uri, version) := SplitOnce(after, ' ').value;
    SplitOnceParts(line, ' ');
    SplitOnceParts(after, ' ');
    SplitOnceParts(uri, '?');
  }

  /** The injected line is the last, no other line behind the first names a referer, and `first` says whether the
      first one does. */
  predicate RefererLaid(sent: seq<Bytes>, first: bool) {
    && sent != [] && sent[|sent| - 1] == REFERER_LINE
    && (forall i | 1 <= i < |sent| - 1 :: NotReferer(sent[i]))
    && (|sent| > 1 ==> (IsReferer(sent[0]) <==> first))
  }

  /** With the referer spoofed, the last line is the injected one and no other line behind the first names a referer. The
      first does exactly when stripping its parameters has turned it into one. */
  lemma RefererForwarded(lines: seq<Bytes>, stripQuery: bool, tracker: bool)
    ensures var kept := Retain(lines, NotReferer);
            RefererLaid(LinesForwarded(lines, true, stripQuery, tracker),
                        stripQuery && kept != [] && StripLine(kept[0]).Some? && IsReferer(StripLine(kept[0]).value))
  {
    hide StripLine, IsReferer, NotConditional, Retain, RefererLaid, LinesToCheck;
    var kept := Retain(lines, NotReferer);
    var b := LinesToCheck(lines, true, stripQuery);
    SpoofedLines(lines, stripQuery);
    if kept == [] {
      OnlyReferer(tracker);
    } else {
      RefererLast(b[0], kept[1..], tracker);
      LaidNotEmpty(if tracker then Retain(b, NotConditional) else b, IsReferer(b[0]));
    }
  }

  /** What the conditional pass is given: the kept lines, the first perhaps stripped, and the injected line. */
  lemma SpoofedLines(lines: seq<Bytes>, stripQuery: bool)
    ensures var kept := Retain(lines, NotReferer);
            var b := LinesToCheck(lines, true, stripQuery);
            && b != []
            && (kept == [] ==> b == [REFERER_LINE])
            && (kept != [] ==>
                  && b == [b[0]] + kept[1..] + [REFERER_LINE]
                  && (IsReferer(b[0]) <==> stripQuery && StripLine(kept[0]).Some? && IsReferer(StripLine(kept[0]).value)))
            && forall l | l in kept[if kept == [] then 0 else 1..] :: NotReferer(l)
  {
    hide StripLine, IsReferer, Retain;
    RefererLineStays();
    var kept := Retain(lines, NotReferer);
    var a := kept + [REFERER_LINE];
    if kept != [] {
      assert kept[0] in kept;
      assert a[1..] == kept[1..] + [REFERER_LINE];
      assert [a[0]] + a[1..] == a;
    }
  }

  lemma OnlyReferer(tracker: bool)
    ensures var sent := if tracker then Retain([REFERER_LINE], NotConditional) else [REFERER_LINE];
            sent == [REFERER_LINE] && forall first :: RefererLaid(sent, first)
  {
    hide NotConditional, Retain, IsReferer;
    RefererLineKept();
    RetainAll([REFERER_LINE], NotConditional);
  }

  lemma LaidNotEmpty(sent: seq<Bytes>, first: bool)
    requires RefererLaid(sent, first)
    ensures sent != []
  {
  }

  lemma RefererLast(first: Bytes, middle: seq<Bytes>, tracker: bool)
    requires forall l | l in middle :: NotReferer(l)
    ensures var b := [first] + middle + [REFERER_LINE];
            RefererLaid(if tracker then Retain(b, NotConditional) else b, IsReferer(first))
  {
    hide IsReferer, NotConditional, Retain;
    RefererLineKept();
    RetainConcat([first] + middle, [REFERER_LINE], NotConditional);
    RetainConcat([first], middle, NotConditional);
    RetainAll([REFERER_LINE], NotConditional);
    if NotConditional(first) {
      RetainAll([first], NotConditional);
    } else {
      RetainEmpty([first], NotConditional);
      if IsReferer(first) { RefererIsNotConditional(first); }
    }
    var rest := Retain(middle, NotConditional);
    assert forall i | 0 <= i < |rest| :: rest[i] in rest;
    assert forall i | 0 <= i < |middle| :: middle[i] in middle;
  }

  /** On tracker hosts no line is a conditional header. */
  lemma ConditionalForwarded(lines: seq<Bytes>, spoofReferer: bool, stripQuery: bool)
    ensures forall l | l in LinesForwarded(lines, spoofReferer, stripQuery, true) :: NotConditional(l)
  {
    hide NotConditional, Retain, LinesToCheck;
    EmptyLineKept();
  }

  /** With parameters stripped, none is left, unless the conditional pass took the request line itself away. */
  lemma QueryForwarded(buf: Bytes, spoofReferer: bool, tracker: bool)
    requires HasHead(buf) && (tracker ==> NotConditional(LinesToCheck(HeadLines(buf), spoofReferer, true)[0]))
    ensures !HasTrackingParam(Outgoing(buf, spoofReferer, true, tracker))
  {
    hide InjectReferer, StripQuery, StripConditional, HeadLines, NotConditional, ValidUtf8, Tail, LinesToCheck, StripLine,
      HasTrackingParam;
    CheckedLines(buf, spoofReferer, true);
    var b := Outgoing(buf, spoofReferer, true, false);
    ConditionalLast(buf, spoofReferer, true);
    StripQueryHead(b);
    StripConditionalSpec(b);
    RewriteGuards(b);
    if tracker && StripConditional(b).Some? {
      var r := StripConditional(b).value;
      StrippedHasHead(b);
      StripQueryHead(r);
      FirstKept(HeadLines(b));
      RewriteGuards(r);
    }
  }

  lemma FirstKept(lines: seq<Bytes>)
    requires lines != [] && NotConditional(lines[0])
    ensures Retain(lines, NotConditional) != [] && Retain(lines, NotConditional)[0] == lines[0]
  {
  }

  lemma StrippedHasHead(buf: Bytes)
    requires StripConditional(buf).Some?
    ensures HasHead(StripConditional(buf).value)
  {
    hide ValidUtf8, FindBlank, SplitCrlf, JoinCrlf, NotConditional, HeadFor, Retain;
    HeadLinesAreHead(buf);
    RetainHead(HeadLines(buf), NotConditional);
    Rehead(buf, Retain(HeadLines(buf), NotConditional));
  }

  /** What reaches the server of a first read with a complete head, for every combination of the rewrites: the injected
      referer and no other, no conditional header, and the other lines in order behind the first. */
  lemma ForwardedHead(buf: Bytes, spoofReferer: bool, stripQuery: bool, tracker: bool)
    requires HasHead(buf)
    ensures var sent := HeadLines(Outgoing(buf, spoofReferer, stripQuery, tracker));
            var kept := Retain(HeadLines(buf), NotReferer);
            && (spoofReferer ==>
                  RefererLaid(sent, stripQuery && kept != [] && StripLine(kept[0]).Some? && IsReferer(StripLine(kept[0]).value)))
            && (tracker ==> forall l | l in sent :: NotConditional(l))
            && (!spoofReferer && !tracker ==> sent != [] && sent[1..] == HeadLines(buf)[if HeadLines(buf) == [] then 0 else 1..])
    ensures Tail(Outgoing(buf, spoofReferer, stripQuery, tracker)) == Tail(buf)
  {
    hide HeadLines, Retain, RefererLaid, StripLine, IsReferer, NotConditional, RewriteFirstRequest, Tail, HasHead;
    ForwardedLines(buf, spoofReferer, stripQuery, tracker);
    RewriteKeepsTail(buf, spoofReferer, stripQuery, tracker);
    if spoofReferer { RefererForwarded(HeadLines(buf), stripQuery, tracker); }
    if tracker { ConditionalForwarded(HeadLines(buf), spoofReferer, stripQuery); }
  }

  /** A first line that stripping turns into a referer line. */
  lemma OddFirstLine()
    ensures NotReferer("Referer ?gclid=1 :") && StripLine("Referer ?gclid=1 :") == Some("Referer  :") && IsReferer("Referer  :")
  {
    hide ParseFirstLine, IsReferer, SplitChar, IsTracking, Retain;
    OddLineParts();
    OddLineNames();
    GclidIsTracking();
    RetainEmpty(["gclid=1"], NotTracking);
    assert "Referer" + [' '] + ([] + [' '] + ":") == "Referer  :";
  }

  lemma OddLineParts()
    ensures ParseFirstLine("Referer ?gclid=1 :", []) == Some(Target("Referer", [], "gclid=1", ":", []))
  {
    hide SplitOnce;
    var verb: Bytes, uri: Bytes, query: Bytes := "Referer", "?gclid=1", "gclid=1";
    assert "Referer ?gclid=1 :" == verb + [' '] + (uri + [' '] + ":") && uri == [] + ['?'] + query;
    SplitOnceJoined(verb, ' ', uri + [' '] + ":");
    SplitOnceJoined(uri, ' ', ":");
    SplitOnceJoined([], '?', query);
  }

  lemma OddLineNames()
    ensures NotReferer("Referer ?gclid=1 :") && IsReferer("Referer  :")
  {
    hide FindChar, Trim;
    var field: Bytes, name: Bytes := "Referer ?gclid=1 ", "Referer";
    assert "Referer ?gclid=1 :" == field + ":";
    FindCharIs(field + ":", ':', 17);
    FindCharIs("Referer  :", ':', 9);
    assert (field + ":")[..17] == field == [] + "Referer ?gclid=1" + " ";
    assert "Referer  :"[..9] == [] + name + "  ";
    TrimOfParts([], "Referer ?gclid=1", " ");
    TrimOfParts([], name, "  ");
    assert LowerChar('R') == 'r';
    assert Lower(name) == Lower("referer") && |Lower("referer")| == 7 && |Lower("Referer ?gclid=1")| == 16;
  }

  lemma GclidIsTracking()
    ensures SplitChar("gclid=1", '&') == ["gclid=1"] && IsTracking("gclid=1")
  {
    hide FindChar;
    var p: Bytes := "gclid=1";
    assert FindChar(p, '&').None?;
    FindCharIs(p, '=', 5);
    assert p[..5] == "gclid" && Lower("gclid") == "gclid";
    assert TRACKING_PARAMS[1] == "gclid";
  }

  /** `request_has_websocket_upgrade`. */
  predicate HasWebsocketUpgrade(buf: Bytes) {
    ValidUtf8(buf)
    && exists l | l in SplitCrlf(buf) ::
      NamesField(l, "upgrade") && EqCI(Trim(AfterColon(l).value), "websocket")
  }

  /** A WebSocket upgrade is asked for by a line whose name and value say so, in any letter case and between any white
      space. */
  lemma UpgradeIff(buf: Bytes)
    ensures HasWebsocketUpgrade(buf) <==>
            ValidUtf8(buf) && exists f: FieldText ::
              f.Names("upgrade") && f.Text() in SplitCrlf(buf) && EqCI(Trim(f.value), "websocket")
  {
    hide ValidUtf8, SplitCrlf, FindChar, EqCI, Trim, FieldText.Text, FieldText.Names;
    UpgradeIsSolid();
    if HasWebsocketUpgrade(buf) {
      var l :| l in SplitCrlf(buf) && NamesField(l, "upgrade") && EqCI(Trim(AfterColon(l).value), "websocket");
      NamesFieldIff(l, "upgrade", AfterColon(l).value);
      var f: FieldText :| f.Names("upgrade") && f.value == AfterColon(l).value && f.Text() == l;
    }
    if exists f: FieldText :: f.Names("upgrade") && f.Text() in SplitCrlf(buf) && EqCI(Trim(f.value), "websocket") {
      var f: FieldText :| f.Names("upgrade") && f.Text() in SplitCrlf(buf) && EqCI(Trim(f.value), "websocket");
      FieldTextNames(f, "upgrade");
    }
  }

  lemma UpgradeIsSolid()
    ensures Trimmed("upgrade") && ':' !in "upgrade"
  {
  }

  /** The lines the request rewrites look for, by their field names. */
  lemma RequestFields(line: Bytes)
    ensures IsReferer(line) <==> exists f: FieldText :: f.Names("referer") && f.Text() == line
    ensures NotConditional(line) <==>
            !(exists f: FieldText :: (f.Names("if-none-match") || f.Names("if-modified-since")) && f.Text() == line)
  {
    hide NamesField, FieldText.Text, FieldText.Names;
    RequestFieldNames();
    NamesIff(line, "referer");
    NamesIff(line, "if-none-match");
    NamesIff(line, "if-modified-since");
  }

  lemma RequestFieldNames()
    ensures Trimmed("referer") && ':' !in "referer"
    ensures Trimmed("if-none-match") && ':' !in "if-none-match"
    ensures Trimmed("if-modified-since") && ':' !in "if-modified-since"
  {
  }
}
