/**
  Whether what the server is sent depends on how the client's stream is cut into reads. Only the first read is checked
  and rewritten, and a first read of one byte always passes.
 */
module RequestCuts {
  import opened Text
  import opened Utf8
  import opened Headers
  import opened Requests
  import opened Domains
  import opened Policy
  import opened Relay
  import opened RelayRuns
  import opened CookieStripping
  import opened ReportOnlyRuns
  import opened Segmentation
  import opened GapExample

  /** Everything the server is sent when the client's reads are `segs`. */
  function RequestDelivery(conn: Conn, engine: Engine, segs: seq<Bytes>): Bytes {
    if segs == [] then []
    else
      match OnFirstRequest(conn, engine, segs[0])
      case Refuse => []
      case Forward(bytes) => bytes + Concat(segs[1..])
  }

  /** All ways of reading `c` send the server the same bytes. */
  ghost predicate RequestsIndependent(conn: Conn, engine: Engine, c: Bytes) {
    forall s, t | Cut(s, c) && Cut(t, c) :: RequestDelivery(conn, engine, s) == RequestDelivery(conn, engine, t)
  }

  /** Whatever the first read holds of `c`, it is neither refused nor rewritten. */
  predicate FirstReadsPass(conn: Conn, engine: Engine, c: Bytes) {
    forall n | 0 < n <= READ_SIZE && n <= |c| :: PassesRequest(conn, engine, c[..n])
  }

  lemma OneByteHasNoUpgrade(seg: Bytes)
    requires |seg| == 1
    ensures !HasWebsocketUpgrade(seg)
  {
    hide ValidUtf8, FindCrlf, FindChar;
    assert SplitCrlf(seg) == [seg];
    if FindChar(seg, ':').Some? { assert seg[..0] == []; }
    assert |Lower("upgrade")| == 7;
  }

  /** One byte is too little for any check or rewrite. */
  lemma OneBytePasses(conn: Conn, engine: Engine, seg: Bytes)
    requires |seg| == 1
    ensures PassesRequest(conn, engine, seg)
  {
    hide PlanForHost, PlanForBody, HasWebsocketUpgrade, ValidUtf8, ParseFirstLine;
    OneByteHasNoUpgrade(seg);
    assert FindBlank(seg, 0).None? && FindCrlf(seg, 0).None?;
  }

  /** A cut whose first read is `c[..n]`. */
  function CutAt(c: Bytes, n: nat): (segs: seq<Bytes>)
    requires 0 < n <= READ_SIZE && n <= |c|
    ensures Cut(segs, c) && segs != [] && segs[0] == c[..n] && Concat(segs[1..]) == c[n..]
  {
    TailCut(c, 0, n);
    assert c[0..] == c && c[0..n] == c[..n];
    CutConcat(Pieces(c[n..]), c[n..]);
    assert ([c[..n]] + Pieces(c[n..]))[1..] == Pieces(c[n..]);
    [c[..n]] + Pieces(c[n..])
  }

  /** A cut sends the whole stream as it is exactly when its first read passes. */
  lemma DeliversAllIff(conn: Conn, engine: Engine, c: Bytes, segs: seq<Bytes>)
    requires Cut(segs, c) && segs != []
    ensures 0 < |segs[0]| <= READ_SIZE && |segs[0]| <= |c| && segs[0] == c[..|segs[0]|]
    ensures RequestDelivery(conn, engine, segs) == c <==> PassesRequest(conn, engine, segs[0])
  {
    hide OnFirstRequest, PassesRequest;
    var first := segs[0];
    assert first in segs;
    assert c == first + Concat(segs[1..]);
    assert c[|first|..] == Concat(segs[1..]);
    RequestUnchangedIff(conn, engine, first);
    if OnFirstRequest(conn, engine, first).Forward? {
      SameTail(OnFirstRequest(conn, engine, first).bytes, c, |first|);
    }
  }

  /** Every request has a cut under which it reaches the server as it is. */
  lemma SomeCutPasses(conn: Conn, engine: Engine, c: Bytes) returns (segs: seq<Bytes>)
    ensures Cut(segs, c) && RequestDelivery(conn, engine, segs) == c
  {
    hide PassesRequest, OnFirstRequest;
    if c == [] {
      segs := [];
    } else {
      segs := CutAt(c, 1);
      OneBytePasses(conn, engine, c[..1]);
      DeliversAllIff(conn, engine, c, segs);
    }
  }

  /** Exactly when what the server is sent does not depend on the cut: when no possible first read is refused or
      rewritten. Otherwise the same request is changed under one cut and forwarded as it is under another. */
  lemma RequestsIndependentIff(conn: Conn, engine: Engine, c: Bytes)
    ensures RequestsIndependent(conn, engine, c) <==> FirstReadsPass(conn, engine, c)
  {
    hide RequestDelivery, PassesRequest, Cut;
    if FirstReadsPass(conn, engine, c) {
      forall s | Cut(s, c) ensures RequestDelivery(conn, engine, s) == c { PassingCut(conn, engine, c, s); }
    }
    if RequestsIndependent(conn, engine, c) {
      forall n | 0 < n <= READ_SIZE && n <= |c| ensures PassesRequest(conn, engine, c[..n]) {
        var one, cut := CutAt(c, 1), CutAt(c, n);
        OneBytePasses(conn, engine, c[..1]);
        DeliversAllIff(conn, engine, c, one);
        DeliversAllIff(conn, engine, c, cut);
      }
    }
  }

  lemma PassingCut(conn: Conn, engine: Engine, c: Bytes, segs: seq<Bytes>)
    requires Cut(segs, c) && FirstReadsPass(conn, engine, c)
    ensures RequestDelivery(conn, engine, segs) == c
  {
    hide PassesRequest;
    if segs != [] { DeliversAllIff(conn, engine, c, segs); }
  }

  // ---------------------------------------------------------------- whole runs

  /** The reads from the client in a schedule. */
  function ClientReads(events: seq<Event>): seq<Bytes> {
    if events == [] then []
    else
      var front, last := events[..|events| - 1], events[|events| - 1];
      ClientReads(front) + if last.FromClient? then [last.seg] else []
  }

  /** A schedule that reads `c` from the client under one policy; its reads from upstream are arbitrary. */
  predicate Reads(events: seq<Event>, engine: Engine, c: Bytes) {
    Cut(ClientReads(events), c) && forall ev | ev in events && ev.FromClient? :: ev.engine == engine && ev.seg != []
  }

  /** What the state of a run says about the client's reads so far. */
  predicate ReadsExplained(conn: Conn, engine: Engine, segs: seq<Bytes>, st: State) {
    && !st.clientClosed
    && st.toUpstream == RequestDelivery(conn, engine, segs)
    && (st.checked <==> segs != [])
    && (st.refused <==> segs != [] && OnFirstRequest(conn, engine, segs[0]).Refuse?)
  }

  lemma DeliverySnoc(conn: Conn, engine: Engine, segs: seq<Bytes>, seg: Bytes)
    ensures RequestDelivery(conn, engine, segs + [seg]) ==
            if segs == [] then
              match OnFirstRequest(conn, engine, seg) case Refuse => [] case Forward(bytes) => bytes
            else if OnFirstRequest(conn, engine, segs[0]).Refuse? then []
            else RequestDelivery(conn, engine, segs) + seg
    ensures segs != [] && OnFirstRequest(conn, engine, segs[0]).Refuse? ==> RequestDelivery(conn, engine, segs) == []
  {
    hide OnFirstRequest;
    assert Concat([]) == [];
    if segs != [] {
      assert (segs + [seg])[1..] == segs[1..] + [seg];
      ConcatAppend(segs[1..], [seg]);
      assert Concat([seg]) == seg + Concat([]);
    } else {
      assert (segs + [seg])[1..] == [];
    }
  }

  lemma ReadsStep(conn: Conn, engine: Engine, segs: seq<Bytes>, st: State, ev: Event)
    requires ReadsExplained(conn, engine, segs, st)
    requires ev.FromClient? ==> ev.engine == engine && ev.seg != []
    ensures ReadsExplained(conn, engine, if ev.FromClient? then segs + [ev.seg] else segs, Step(conn, st, ev))
  {
    hide OnFirstRequest, RequestDelivery, OnRead, OnEof, RunsPolicy;
    if ev.FromClient? {
      DeliverySnoc(conn, engine, segs, ev.seg);
      NoReads(conn, engine);
      assert (segs + [ev.seg])[0] == if segs == [] then ev.seg else segs[0];
      if !st.checked && OnFirstRequest(conn, engine, ev.seg).Forward? {
        assert [] + OnFirstRequest(conn, engine, ev.seg).bytes == OnFirstRequest(conn, engine, ev.seg).bytes;
      }
    }
  }

  lemma NoReads(conn: Conn, engine: Engine)
    ensures RequestDelivery(conn, engine, []) == []
  {
  }

  /** What any run sends the server is the delivery of its client reads; upstream reads never matter. */
  lemma {:induction false} RunDeliversRequests(conn: Conn, engine: Engine, events: seq<Event>)
    requires forall ev | ev in events && ev.FromClient? :: ev.engine == engine && ev.seg != []
    ensures ReadsExplained(conn, engine, ClientReads(events), Run(conn, events))
    decreases |events|
  {
    hide OnFirstRequest, RequestDelivery, Step;
    if events == [] {
      NoReads(conn, engine);
    } else {
      var front, ev := events[..|events| - 1], events[|events| - 1];
      assert ev in events && forall x | x in front :: x in events;
      RunDeliversRequests(conn, engine, front);
      ReadsStep(conn, engine, ClientReads(front), Run(conn, front), ev);
      assert ClientReads(front) + [] == ClientReads(front);
    }
  }

  function ReadAll(engine: Engine, segs: seq<Bytes>): (events: seq<Event>)
    ensures |events| == |segs| && forall i | 0 <= i < |segs| :: events[i] == FromClient(engine, segs[i])
  {
    seq(|segs|, i requires 0 <= i < |segs| => FromClient(engine, segs[i]))
  }

  lemma {:induction false} ReadsOfAll(engine: Engine, segs: seq<Bytes>)
    ensures ClientReads(ReadAll(engine, segs)) == segs
    decreases |segs|
  {
    if segs != [] {
      var front := segs[..|segs| - 1];
      ReadsOfAll(engine, front);
      assert ReadAll(engine, segs)[..|segs| - 1] == ReadAll(engine, front);
    }
  }

  lemma CutIsRead(engine: Engine, segs: seq<Bytes>, c: Bytes)
    requires Cut(segs, c)
    ensures Reads(ReadAll(engine, segs), engine, c)
  {
    hide Concat, ClientReads;
    ReadsOfAll(engine, segs);
    var events := ReadAll(engine, segs);
    forall ev | ev in events ensures ev.engine == engine && ev.seg != [] {
      var i :| 0 <= i < |events| && events[i] == ev;
      assert segs[i] in segs;
    }
  }

  /** All schedules that read `c` from the client send the server the same bytes. */
  ghost predicate SchedulesSendSame(conn: Conn, engine: Engine, c: Bytes) {
    forall a, b | Reads(a, engine, c) && Reads(b, engine, c) :: Run(conn, a).toUpstream == Run(conn, b).toUpstream
  }

  /** The same over whole runs, with any reads from upstream in between. */
  lemma RequestSchedulesAgreeIff(conn: Conn, engine: Engine, c: Bytes)
    ensures SchedulesSendSame(conn, engine, c) <==> FirstReadsPass(conn, engine, c)
  {
    hide Run, RequestDelivery, FirstReadsPass, Cut, OnFirstRequest, ClientReads;
    RequestsIndependentIff(conn, engine, c);
    if RequestsIndependent(conn, engine, c) {
      forall a, b | Reads(a, engine, c) && Reads(b, engine, c) ensures Run(conn, a).toUpstream == Run(conn, b).toUpstream {
        RunDeliversRequests(conn, engine, a);
        RunDeliversRequests(conn, engine, b);
      }
    }
    if SchedulesSendSame(conn, engine, c) {
      forall s, t | Cut(s, c) && Cut(t, c) ensures RequestDelivery(conn, engine, s) == RequestDelivery(conn, engine, t) {
        SameForCuts(conn, engine, c, s, t);
      }
    }
  }

  lemma SameForCuts(conn: Conn, engine: Engine, c: Bytes, s: seq<Bytes>, t: seq<Bytes>)
    requires SchedulesSendSame(conn, engine, c) && Cut(s, c) && Cut(t, c)
    ensures RequestDelivery(conn, engine, s) == RequestDelivery(conn, engine, t)
  {
    hide Run, RequestDelivery, Cut, OnFirstRequest, ClientReads;
    var a, b := ReadAll(engine, s), ReadAll(engine, t);
    CutIsRead(engine, s, c);
    CutIsRead(engine, t, c);
    ReadsOfAll(engine, s);
    ReadsOfAll(engine, t);
    RunDeliversRequests(conn, engine, a);
    RunDeliversRequests(conn, engine, b);
    assert Run(conn, a).toUpstream == Run(conn, b).toUpstream;
  }

  // ---------------------------------------------------------------- an upgrade request

  const UPGRADE_LINE: Bytes := "Upgrade: websocket"

  function WebsocketRequest(): Bytes {
    Block(["A", UPGRADE_LINE])
  }

  lemma UpgradeLineName()
    ensures NamesField(UPGRADE_LINE, "upgrade") && AfterColon(UPGRADE_LINE) == Some(" websocket")
  {
    hide Trim, FindChar;
    FindCharIs(UPGRADE_LINE, ':', 7);
    assert UPGRADE_LINE[..7] == "Upgrade" && UPGRADE_LINE[8..] == " websocket";
    TrimSolid("Upgrade");
    assert LowerChar('U') == 'u';
    assert Lower("Upgrade") == Lower("upgrade");
  }

  lemma UpgradeValue()
    ensures Trim(" websocket") == "websocket"
  {
    hide TrimEnd;
    var v: Bytes := "websocket";
    assert " websocket"[1..] == v;
    assert TrimStart(" websocket") == TrimStart(v) == v;
    TrimSolid(v);
  }

  lemma UpgradeText()
    ensures NoCrlf("A") && NoCrlf(UPGRADE_LINE) && Ascii(WebsocketRequest()) && 1 < |WebsocketRequest()| <= 100
  {
    var lines: seq<Bytes> := ["A", UPGRADE_LINE];
    assert lines[1..] == [UPGRADE_LINE];
    assert JoinCrlf(lines) == "A" + CRLF + JoinCrlf([UPGRADE_LINE]);
  }

  lemma UpgradeIsSeen()
    ensures HasWebsocketUpgrade(WebsocketRequest())
  {
    hide ValidUtf8, SplitCrlf, NamesField, AfterColon, Trim, Block, NoCrlf;
    UpgradeText();
    AsciiIsValid(WebsocketRequest());
    UpgradeLineName();
    UpgradeValue();
    var lines: seq<Bytes> := ["A", UPGRADE_LINE];
    SplitBlock(lines, []);
    assert WebsocketRequest() + [] == WebsocketRequest();
    assert lines[1] in SplitCrlf(WebsocketRequest());
  }

  /** Read whole, the upgrade is refused and the server is sent nothing; read one byte first, it is forwarded. */
  lemma UpgradeDependsOnCut()
    ensures var conn, engine, c := TrackerConn(), TrackerEngine(), WebsocketRequest();
            && OnFirstRequest(conn, engine, c) == Refuse
            && Cut([c], c) && RequestDelivery(conn, engine, [c]) == []
            && |c| > 1 && Cut([c[..1], c[1..]], c) && RequestDelivery(conn, engine, [c[..1], c[1..]]) == c
            && !RequestsIndependent(conn, engine, c)
  {
    hide PlanForHost, PlanForBody, HasWebsocketUpgrade, PassesRequest, WebsocketRequest, TrackerEngine, RequestsIndependent,
      RewriteFirstRequest, Concat;
    var conn, engine, c := TrackerConn(), TrackerEngine(), WebsocketRequest();
    UpgradeText();
    UpgradeIsSeen();
    TrackerBlocksUpgrades();
    CutOne(c);
    CutOne(c[..1]);
    CutOne(c[1..]);
    CutAppend([c[..1]], c[..1], [c[1..]], c[1..]);
    assert [c[..1]] + [c[1..]] == [c[..1], c[1..]] && c[..1] + c[1..] == c;
    OneBytePasses(conn, engine, c[..1]);
    DeliversAllIff(conn, engine, c, [c[..1], c[1..]]);
    TwoCutsDiffer(conn, engine, c, [c], [c[..1], c[1..]]);
  }

  lemma TrackerBlocksUpgrades()
    ensures var plan := PlanForHost(TrackerEngine(), "t", None); plan.trackerMatch && plan.websocketBlocking
  {
    hide LongestMatch, TrimEndChar, Lower, NormalizeHost, Listed;
    TrackerPlans();
  }

  lemma TwoCutsDiffer(conn: Conn, engine: Engine, c: Bytes, s: seq<Bytes>, t: seq<Bytes>)
    requires Cut(s, c) && Cut(t, c) && RequestDelivery(conn, engine, s) != RequestDelivery(conn, engine, t)
    ensures !RequestsIndependent(conn, engine, c)
  {
  }
}
