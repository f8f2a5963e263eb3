/**
  When a run changes nothing, in either direction, in any mode; and what that leaves of report-only mode, which still
  strips cache headers and rewrites or refuses requests.
 */
module ReportOnlyRuns {
  import opened Text
  import opened Utf8
  import opened Headers
  import opened Chunked
  import opened Requests
  import opened Domains
  import opened Policy
  import opened Relay
  import opened RelayRuns
  import opened CookieStripping
  import opened RebuiltHeads

  // ---------------------------------------------------------------- requests

  /** The request is not refused and none of the rewrites planned for the host finds anything to change. */
  predicate PassesRequest(conn: Conn, engine: Engine, seg: Bytes) {
    var plan, body := PlanForHost(engine, conn.host, conn.sourceIp), PlanForBody(engine, conn.host);
    && !(plan.trackerMatch && plan.websocketBlocking && HasWebsocketUpgrade(seg))
    && Settled(seg, body.spoofReferer, body.stripQuery, plan.trackerMatch)
  }

  /** Exactly when the first read reaches the server as it is, in every mode. */
  lemma RequestUnchangedIff(conn: Conn, engine: Engine, seg: Bytes)
    ensures OnFirstRequest(conn, engine, seg) == Forward(seg) <==> PassesRequest(conn, engine, seg)
  {
    hide PlanForHost, PlanForBody, HasWebsocketUpgrade, RewriteFirstRequest, Settled;
    var plan, body := PlanForHost(engine, conn.host, conn.sourceIp), PlanForBody(engine, conn.host);
    RewriteChangesNothingIff(seg, body.spoofReferer, body.stripQuery, plan.trackerMatch);
  }

  /** Exactly when a whole run sends the server what the client sent: no read was checked yet, or the first one passes. */
  lemma RequestsConservedIff(conn: Conn, events: seq<Event>, default: Engine) returns (n: nat, engine: Engine)
    ensures engine == default || exists ev | ev in events :: ev.FromClient? && ev.engine == engine
    ensures var st := Run(conn, events);
            && RequestExplained(conn, st, n, engine)
            && (st.toUpstream == st.fromClient <==>
                st.checked ==> PassesRequest(conn, engine, st.fromClient[..n]))
  {
    hide Run, OnFirstRequest, PassesRequest;
    n, engine := RunRequests(conn, events, default);
    var st := Run(conn, events);
    if st.checked {
      var first := st.fromClient[..n];
      RequestUnchangedIff(conn, engine, first);
      if OnFirstRequest(conn, engine, first).Forward? {
        SameTail(OnFirstRequest(conn, engine, first).bytes, st.fromClient, n);
      }
    }
  }

  // ---------------------------------------------------------------- responses

  /** The header block is passed on as it is. */
  predicate PassesBlock(conn: Conn, engine: Engine, block: Bytes) {
    && !Enforces(conn, engine)
    && !(PlanForHost(engine, conn.host, conn.sourceIp).trackerMatch
         && exists l | l in HeaderLines(block) :: !NotCacheTracking(l))
  }

  /** Exactly when a whole run has sent, or still holds, what it read. */
  lemma ResponsesConservedIff(conn: Conn, events: seq<Event>) returns (a: Account)
    ensures InForce(a, events)
    ensures var st := Run(conn, events);
            && Explains(conn, a, st.fromUpstream, st.server, st.relayed)
            && (st.relayed + Held(st.server) == st.fromUpstream <==>
                match a
                case Untouched => true
                case Filtered(engine, e) => PassesBlock(conn, engine, st.fromUpstream[..e])
                case Rewritten(engine, e, n, body) =>
                  RebuildsToItself(conn, engine, st.fromUpstream[..e], |body|) && body == st.fromUpstream[e..e + n])
  {
    hide Run, HeadersEnd, OutputHeaders, RewrittenFrom, NewHead, Deferral, PlanForHost, HeaderLines, NotCacheTracking,
      RebuildsToItself;
    a := RunExplained(conn, events);
    var st := Run(conn, events);
    ConservedIff(conn, a, st.fromUpstream, st.server, st.relayed);
    if a.Filtered? {
      HeadIsComplete(st.fromUpstream, a.e);
      OutputUnchangedIff(a.engine, conn.host, conn.sourceIp, st.fromUpstream[..a.e]);
    } else if a.Rewritten? {
      RewrittenSameIff(conn, a, st.fromUpstream, st.server, st.relayed);
    }
  }

  // ---------------------------------------------------------------- report-only mode

  lemma ReportOnlyNeverRewrites(conn: Conn, a: Account, u: Bytes, ph: Phase, sent: Bytes)
    requires Explains(conn, a, u, ph, sent) && !a.Untouched? && a.engine.cfg.mode == ReportOnly
    ensures !a.Rewritten?
  {
    hide HeadersEnd, OutputHeaders, Compressed, NewHead, Deferral, PlanForBody, Decode;
    if a.Rewritten? {
      DeferralHeaders(conn, a.engine, u[..a.e]);
      BodyPlanMode(a.engine, conn.host);
    }
  }

  /** Every run in report-only mode: no body is ever rewritten; responses are conserved exactly when the response head was
      never processed, the host is no tracker or the head has no cache header; and requests exactly when the first one
      passes, by the same condition as in Enforce mode. */
  lemma ReportOnlyRun(conn: Conn, events: seq<Event>, default: Engine) returns (a: Account, n: nat, engine: Engine)
    requires default.cfg.mode == ReportOnly && forall ev | ev in events :: ev.engine.cfg.mode == ReportOnly
    ensures InForce(a, events) && !a.Rewritten?
    ensures engine == default || exists ev | ev in events :: ev.FromClient? && ev.engine == engine
    ensures var st := Run(conn, events);
            && Explains(conn, a, st.fromUpstream, st.server, st.relayed)
            && RequestExplained(conn, st, n, engine)
            && (st.relayed + Held(st.server) == st.fromUpstream <==>
                || a.Untouched?
                || !PlanForHost(a.engine, conn.host, conn.sourceIp).trackerMatch
                || forall l | l in HeaderLines(st.fromUpstream[..a.e]) :: NotCacheTracking(l))
            && (st.toUpstream == st.fromClient <==> st.checked ==> PassesRequest(conn, engine, st.fromClient[..n]))
  {
    hide Run, PlanForHost, HeaderLines, NotCacheTracking, PassesRequest, RequestExplained, OutputHeaders, HeadersEnd, Deferral,
      RewrittenFrom, NewHead, RebuildsToItself;
    a := ResponsesConservedIff(conn, events);
    n, engine := RequestsConservedIff(conn, events, default);
    var st := Run(conn, events);
    if !a.Untouched? {
      ReportOnlyNeverRewrites(conn, a, st.fromUpstream, st.server, st.relayed);
      ModeOfPlan(a.engine, conn.host, conn.sourceIp);
    }
  }

  // ---------------------------------------------------------------- two inputs it changes

  /** Report-only, with one tracker host and tracking parameters stripped. */
  function ReportOnlyEngine(): Engine {
    Engine(
      Config(ReportOnly, DomainRule(true, {"t"}), DomainRule(false, {}),
             BodyRule(true, [], [], [], false, 0, {}, true),
             ConsentRule(false, EssentialOnly, {}, map[], map[]), false),
      FilterRules({}, {}, [], [], map[]))
  }

  lemma OneLetterHost(h: Bytes)
    requires h == "t" || h == "h"
    ensures NormalizeHost(h) == h
  {
    assert TrimEndChar(h, '.') == h && Lower(h) == h;
  }

  lemma ReportOnlyPlans(sourceIp: Option<Bytes>)
    ensures PlanForHost(ReportOnlyEngine(), "t", sourceIp).trackerMatch
    ensures !PlanForHost(ReportOnlyEngine(), "h", sourceIp).trackerMatch
    ensures var b := PlanForBody(ReportOnlyEngine(), "h"); b.stripQuery && !b.spoofReferer
  {
    hide NormalizeHost, LongestMatch, AllMatches;
    OneLetterHost("t");
    OneLetterHost("h");
    assert SuffixMatch("t", "t");
  }

  /** A cache header is stripped from a response of a tracker host. */
  lemma ReportOnlyStripsCache(sourceIp: Option<Bytes>)
    ensures OutputHeaders(ReportOnlyEngine(), "t", sourceIp, Block(["A", "X-Cache: 1"])) == Block(["A"])
    ensures Block(["A"]) != Block(["A", "X-Cache: 1"])
  {
    hide PlanForHost, Block, HeaderLines, FilterHeaders, NotCacheTracking, Retain, NoCrlf;
    var lines: seq<Bytes> := ["A", "X-Cache: 1"];
    var block := Block(lines);
    ReportOnlyPlans(sourceIp);
    ModeOfPlan(ReportOnlyEngine(), "t", sourceIp);
    CacheLines();
    BlockLines(lines);
    BlockLines(["A"]);
    ReportOnlyPasses(PlanForHost(ReportOnlyEngine(), "t", sourceIp).filterSetCookie, block);
    RetainFirst(lines[0], lines[1]);
  }

  lemma ReportOnlyPasses(filter: bool, block: Bytes)
    ensures FilterHeaders(filter, ReportOnly, block).output == block
  {
    ReportOnlyAgrees(block);
  }

  lemma CacheLines()
    ensures NoCrlf("A") && NoCrlf("X-Cache: 1")
    ensures NotCacheTracking("A") && !NotCacheTracking("X-Cache: 1")
  {
    var line: Bytes := "X-Cache: 1";
    assert LowerChar('X') == 'x' && LowerChar('C') == 'c';
    assert HasPrefixCI(line, "x-cache:");
  }

  lemma RetainFirst(a: Bytes, b: Bytes)
    requires NotCacheTracking(a) && !NotCacheTracking(b)
    ensures Retain([a, b], NotCacheTracking) == [a]
  {
    hide NotCacheTracking;
    RetainConcat([a], [b], NotCacheTracking);
    RetainAll([a], NotCacheTracking);
    RetainEmpty([b], NotCacheTracking);
    assert [a] + [b] == [a, b];
  }

  /** The pieces of `GET /?gclid=1 HTTP/1.1` and the end of the head. */
  function ExampleTarget(): Target {
    Target("GET", "/", "gclid=1", "HTTP/1.1", BLANK)
  }

  /** A tracking parameter is stripped from a request to a host on no list. */
  lemma ReportOnlyStripsQuery(codec: Codec)
    ensures var t := ExampleTarget();
            OnFirstRequest(Conn("h", None, codec), ReportOnlyEngine(), t.FirstLine() + t.rest) ==
            Forward("GET" + " " + ("/" + " " + "HTTP/1.1") + BLANK)
  {
    hide PlanForHost, PlanForBody, HasWebsocketUpgrade, InjectReferer, StripQuery, StripConditional;
    ReportOnlyPlans(None);
    ExampleStripped();
  }

  lemma ExampleStripped()
    ensures var t := ExampleTarget();
            StripQuery(t.FirstLine() + t.rest) == Some(t.verb + " " + (t.path + " " + t.version) + t.rest)
  {
    hide ParseTarget, Clean, SplitChar, Retain, IsTracking, ValidUtf8;
    var t := ExampleTarget();
    ExampleWellFormed();
    FirstLineIsClean(t);
    FirstLineParses(t);
    RequestSplits(t.FirstLine(), t.rest);
    GclidIsTracking();
    RetainEmpty([t.query], NotTracking);
  }

  lemma ExampleWellFormed()
    ensures ExampleTarget().WellFormed()
  {
    hide Clean, ValidUtf8;
    PlainTextIsClean("GET");
    PlainTextIsClean("/");
    PlainTextIsClean("gclid=1");
    PlainTextIsClean("HTTP/1.1");
    AsciiIsValid(BLANK);
  }

  lemma PlainTextIsClean(s: Bytes)
    requires forall i | 0 <= i < |s| :: '!' <= s[i] <= '~'
    ensures Clean(s) && ' ' !in s
  {
    hide ValidUtf8;
    AsciiIsValid(s);
  }
}
