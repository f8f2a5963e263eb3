/** What holds of every run of the relay, whatever the schedule of reads and policy changes. */
module RelayRuns {
  import opened Text
  import opened Headers
  import opened Chunked
  import opened Requests
  import opened Policy
  import opened Relay

  // ---------------------------------------------------------------- what the client has been sent

  /** How the bytes sent to the client came from the bytes read: passed on as they are, passed on behind
      a header block changed by `engine`, or with the `n` body bytes at `e` replaced by `body`. */
  datatype Account =
    | Untouched
    | Filtered(engine: Engine, e: nat)
    | Rewritten(engine: Engine, e: nat, n: nat, body: Bytes)

  /** The block sent for the response head `u[..e]`. */
  function SentHead(conn: Conn, engine: Engine, u: Bytes, e: nat): Bytes
    requires e <= |u|
  {
    OutputHeaders(engine, conn.host, conn.sourceIp, u[..e])
  }

  /** The body that was rewritten: decoded if it was chunked. */
  predicate RewrittenFrom(conn: Conn, d: Deferred, wire: Bytes, body: Bytes) {
    if d.framing.ChunkedBody? then
      && Decode(wire).Some? && Decode(wire).value.consumed == |wire|
      && AttemptRewrite(conn.codec, Decode(wire).value.body, d.plan, d.encoding) == Some(body)
    else AttemptRewrite(conn.codec, wire, d.plan, d.encoding) == Some(body)
  }

  function NewHead(d: Deferred, n: nat): Bytes {
    if d.framing.ChunkedBody? then ReplaceChunked(d.headers, n) else ReplaceContentLength(d.headers, n)
  }

  /** The account `a` explains the run: `u` was read, `sent` was sent and the phase is `ph`. */
  predicate Explains(conn: Conn, a: Account, u: Bytes, ph: Phase, sent: Bytes) {
    match a
    case Untouched => !ph.Body? && sent + Held(ph) == u
    case Filtered(engine, e) =>
      && HeadersEnd(u) == Some(e) && e <= |u|
      && !ph.Head?
      && sent + Held(ph) == SentHead(conn, engine, u, e) + u[e..]
      && (ph.Body? ==> sent == [] && Deferral(conn, engine, u[..e]) == Some(ph.deferred) && ph.buffer == u[e..])
    case Rewritten(engine, e, n, body) =>
      && HeadersEnd(u) == Some(e) && e + n <= |u|
      && (ph.Pass? || ph.Closed?)
      && Deferral(conn, engine, u[..e]).Some?
      && var d := Deferral(conn, engine, u[..e]).value;
         && RewrittenFrom(conn, d, u[e..e + n], body)
         && sent == NewHead(d, |body|) + body + u[e + n..]
  }

  /** A complete head is among these bytes and they are within the limit. */
  predicate HeadFits(u: Bytes) {
    HeadersEnd(u).Some? && |u| <= MAX_HEADER_BYTES
  }

  lemma HeadersEndStable(u: Bytes, more: Bytes)
    requires HeadersEnd(u).Some?
    ensures HeadersEnd(u + more) == HeadersEnd(u)
    ensures HeadersEnd(u).value <= |u| && (u + more)[..HeadersEnd(u).value] == u[..HeadersEnd(u).value]
  {
    hide FindBlank;
    var i := FindBlank(u, 0).value;
    assert (u + more)[..|u|] == u[..|u|];
    FindBlankStable(u, u + more, 0, |u|);
  }

  lemma DeferralHeaders(conn: Conn, engine: Engine, block: Bytes)
    ensures Deferral(conn, engine, block).Some? ==>
              && Deferral(conn, engine, block).value.headers == OutputHeaders(engine, conn.host, conn.sourceIp, block)
              && Deferral(conn, engine, block).value.plan == PlanForBody(engine, conn.host)
  {
    hide OutputHeaders, PlanForBody, ExtractContentEncoding, ExtractContentLength, ResponseIsHtml, HasChunked, EncodingOk;
  }

  /** A read that is passed through extends the account. */
  lemma PassExplained(conn: Conn, a: Account, u: Bytes, sent: Bytes, seg: Bytes)
    requires Explains(conn, a, u, Pass, sent)
    ensures Explains(conn, a, u + seg, Pass, sent + seg)
  {
    hide Deferral, RewrittenFrom, HeadersEnd, OutputHeaders, NewHead, Explains;
    match a
    case Untouched => PassUntouched(conn, u, sent, seg);
    case Filtered(engine, e) => PassFiltered(conn, a, u, sent, seg);
    case Rewritten(engine, e, n, body) => PassRewritten(conn, a, u, sent, seg);
  }

  lemma PassUntouched(conn: Conn, u: Bytes, sent: Bytes, seg: Bytes)
    requires Explains(conn, Untouched, u, Pass, sent)
    ensures Explains(conn, Untouched, u + seg, Pass, sent + seg)
  {
    assert sent + [] == sent;
    assert sent + seg + [] == sent + seg;
  }

  lemma PassFiltered(conn: Conn, a: Account, u: Bytes, sent: Bytes, seg: Bytes)
    requires a.Filtered? && Explains(conn, a, u, Pass, sent)
    ensures Explains(conn, a, u + seg, Pass, sent + seg)
  {
    hide Deferral, HeadersEnd, OutputHeaders;
    HeadersEndStable(u, seg);
    var head := SentHead(conn, a.engine, u, a.e);
    assert (u + seg)[a.e..] == u[a.e..] + seg;
    assert sent == sent + [] == head + u[a.e..];
    assert sent + seg + [] == head + (u + seg)[a.e..];
  }

  lemma PassRewritten(conn: Conn, a: Account, u: Bytes, sent: Bytes, seg: Bytes)
    requires a.Rewritten? && Explains(conn, a, u, Pass, sent)
    ensures Explains(conn, a, u + seg, Pass, sent + seg)
  {
    hide Deferral, RewrittenFrom, HeadersEnd, OutputHeaders, NewHead;
    HeadersEndStable(u, seg);
    var e, n := a.e, a.n;
    assert (u + seg)[e..e + n] == u[e..e + n] && (u + seg)[e + n..] == u[e + n..] + seg;
  }

  /** A read into the head buffer: still pending, too long, or complete. */
  lemma HeadExplained(conn: Conn, engine: Engine, u: Bytes) returns (a: Account)
    ensures Explains(conn, a, u, OnHead(conn, engine, u).0, OnHead(conn, engine, u).1)
    ensures a.Untouched? <==> !HeadFits(u)
    ensures a.Untouched? || a.engine == engine
  {
    hide Deferral, RewrittenFrom, HeadersEnd, OutputHeaders, NewHead;
    if |u| > MAX_HEADER_BYTES || HeadersEnd(u).None? {
      a := Untouched;
    } else {
      var e := HeadersEnd(u).value;
      HeadersEndBounds(u);
      DeferralHeaders(conn, engine, u[..e]);
      a := Filtered(engine, e);
    }
  }

  /** Body bytes `wire` of a deferred response are sent rewritten, or the response is sent as it is held. */
  lemma SendExplained(conn: Conn, engine: Engine, u: Bytes, e: nat, n: nat, body: Option<Bytes>, ph: Phase, sent: Bytes)
    returns (a: Account)
    requires HeadersEnd(u) == Some(e) && e + n <= |u| && (ph.Pass? || ph.Closed?)
    requires Deferral(conn, engine, u[..e]).Some?
    requires var d := Deferral(conn, engine, u[..e]).value;
             if body.Some? then RewrittenFrom(conn, d, u[e..e + n], body.value)
                                && sent == NewHead(d, |body.value|) + body.value + u[e + n..]
             else sent == d.headers + u[e..]
    ensures Explains(conn, a, u, ph, sent)
    ensures !a.Untouched? && a.engine == engine
  {
    hide Deferral, RewrittenFrom, HeadersEnd, OutputHeaders, NewHead;
    DeferralHeaders(conn, engine, u[..e]);
    if body.Some? {
      a := Rewritten(engine, e, n, body.value);
    } else {
      a := Filtered(engine, e);
    }
  }

  /** What is sent for a complete chunked message. */
  lemma ChunkedExplained(conn: Conn, engine: Engine, u: Bytes, e: nat, ph: Phase) returns (a: Account)
    requires HeadersEnd(u) == Some(e) && e <= |u| && (ph.Pass? || ph.Closed?)
    requires Deferral(conn, engine, u[..e]).Some? && Deferral(conn, engine, u[..e]).value.framing.ChunkedBody?
    requires Decode(u[e..]).Some?
    ensures Explains(conn, a, u, ph, SendChunked(conn, Deferral(conn, engine, u[..e]).value, u[e..]))
    ensures !a.Untouched? && a.engine == engine
  {
    hide Deferral, HeadersEnd, OutputHeaders, DecodeFrom, AttemptRewrite, Explains;
    var d := Deferral(conn, engine, u[..e]).value;
    var Decoded(body, n) := Decode(u[e..]).value;
    DecodeStable(u[e..], []);
    assert u[e..][..n] == u[e..e + n] && u[e..][n..] == u[e + n..];
    a := SendExplained(conn, engine, u, e, n, AttemptRewrite(conn.codec, body, d.plan, d.encoding), ph,
                       SendChunked(conn, d, u[e..]));
  }

  /** What is sent for a body of `n` bytes that is not chunked, followed by the rest of the stream. */
  lemma WholeExplained(conn: Conn, engine: Engine, u: Bytes, e: nat, n: nat, ph: Phase) returns (a: Account)
    requires HeadersEnd(u) == Some(e) && e + n <= |u| && (ph.Pass? || ph.Closed?)
    requires Deferral(conn, engine, u[..e]).Some? && !Deferral(conn, engine, u[..e]).value.framing.ChunkedBody?
    ensures Explains(conn, a, u, ph, SendWhole(conn, Deferral(conn, engine, u[..e]).value, u[e..e + n]) + u[e + n..])
    ensures !a.Untouched? && a.engine == engine
  {
    hide Deferral, HeadersEnd, OutputHeaders, AttemptRewrite, Explains, ReplaceContentLength;
    var d := Deferral(conn, engine, u[..e]).value;
    assert u[e..] == u[e..e + n] + u[e + n..];
    a := SendExplained(conn, engine, u, e, n, AttemptRewrite(conn.codec, u[e..e + n], d.plan, d.encoding), ph,
                       SendWhole(conn, d, u[e..e + n]) + u[e + n..]);
  }

  lemma RawExplained(conn: Conn, engine: Engine, u: Bytes, e: nat, ph: Phase) returns (a: Account)
    requires HeadersEnd(u) == Some(e) && e <= |u| && (ph.Pass? || ph.Closed?)
    requires Deferral(conn, engine, u[..e]).Some?
    ensures Explains(conn, a, u, ph, Deferral(conn, engine, u[..e]).value.headers + u[e..])
    ensures !a.Untouched? && a.engine == engine
  {
    hide Deferral, HeadersEnd, OutputHeaders, Explains, RewrittenFrom, NewHead;
    a := SendExplained(conn, engine, u, e, 0, None, ph, Deferral(conn, engine, u[..e]).value.headers + u[e..]);
  }

  /** A read into the body buffer: `u` is everything read so far. */
  lemma BodyExplained(conn: Conn, engine: Engine, u: Bytes, e: nat) returns (a: Account)
    requires HeadersEnd(u) == Some(e) && e <= |u| && Deferral(conn, engine, u[..e]).Some?
    ensures var next := OnBody(conn, Deferral(conn, engine, u[..e]).value, u[e..]);
            Explains(conn, a, u, next.0, next.1)
    ensures !a.Untouched? && a.engine == engine
  {
    hide Deferral, HeadersEnd, OutputHeaders, RewrittenFrom, SendChunked, SendWhole, DecodeFrom, NewHead;
    var d := Deferral(conn, engine, u[..e]).value;
    var buffer := u[e..];
    DeferralHeaders(conn, engine, u[..e]);
    if d.framing.ChunkedBody? && |buffer| < d.plan.maxBodyBytes && Decode(buffer).Some? {
      a := ChunkedExplained(conn, engine, u, e, Pass);
    } else if d.framing.Length? && |buffer| >= d.framing.n {
      var n := d.framing.n;
      assert buffer[..n] == u[e..e + n] && buffer[n..] == u[e + n..];
      a := WholeExplained(conn, engine, u, e, n, Pass);
    } else if |buffer| >= d.plan.maxBodyBytes {
      a := RawExplained(conn, engine, u, e, Pass);
    } else {
      a := Filtered(engine, e);
    }
  }

  /** Every read keeps the run explained. */
  lemma ReadExplained(conn: Conn, engine: Engine, a: Account, u: Bytes, ph: Phase, sent: Bytes, seg: Bytes)
    returns (b: Account)
    requires Explains(conn, a, u, ph, sent) && !ph.Closed? && (ph.Head? ==> sent == [])
    ensures var next := OnRead(conn, engine, ph, seg);
            Explains(conn, b, u + seg, next.0, sent + next.1) && (next.0.Head? ==> sent + next.1 == [])
    ensures b.Untouched? <==> a.Untouched? && !RunsPolicy(ph, seg)
    ensures b.Untouched? || b.engine == engine || (!a.Untouched? && b.engine == a.engine)
  {
    hide Deferral, HeadersEnd, OutputHeaders, RewrittenFrom, OnHead, OnBody, NewHead;
    match ph
    case Head(pending) =>
      assert pending == u;
      b := HeadExplained(conn, engine, u + seg);
      HeadSendsNothing(conn, engine, u + seg);
      assert [] + OnHead(conn, engine, u + seg).1 == OnHead(conn, engine, u + seg).1;
    case Body(d, buffer) =>
      HeadersEndStable(u, seg);
      assert (u + seg)[a.e..] == buffer + seg;
      b := BodyExplained(conn, a.engine, u + seg, a.e);
      BodyLeavesHead(conn, d, buffer + seg);
      assert [] + OnBody(conn, d, buffer + seg).1 == OnBody(conn, d, buffer + seg).1;
    case Pass =>
      b := a;
      PassExplained(conn, a, u, sent, seg);
  }

  lemma HeadSendsNothing(conn: Conn, engine: Engine, pending: Bytes)
    ensures OnHead(conn, engine, pending).0.Head? ==> OnHead(conn, engine, pending).1 == []
  {
    hide Deferral, HeadersEnd, OutputHeaders;
  }

  lemma BodyLeavesHead(conn: Conn, d: Deferred, buffer: Bytes)
    ensures !OnBody(conn, d, buffer).0.Head?
  {
  }

  /** EOF while the body is buffered. */
  lemma BodyEofExplained(conn: Conn, engine: Engine, u: Bytes, e: nat) returns (b: Account)
    requires HeadersEnd(u) == Some(e) && e <= |u| && Deferral(conn, engine, u[..e]).Some?
    ensures Explains(conn, b, u, Closed, OnEof(conn, Body(Deferral(conn, engine, u[..e]).value, u[e..])))
    ensures !b.Untouched? && b.engine == engine
  {
    hide Deferral, HeadersEnd, OutputHeaders, RewrittenFrom, SendChunked, SendWhole, DecodeFrom, NewHead, Explains;
    var d := Deferral(conn, engine, u[..e]).value;
    var buffer := u[e..];
    if d.framing.ChunkedBody? && Decode(buffer).Some? {
      b := ChunkedExplained(conn, engine, u, e, Closed);
    } else if d.framing.ChunkedBody? {
      b := RawExplained(conn, engine, u, e, Closed);
    } else {
      var n := |buffer|;
      assert u[e..e + n] == buffer && u[e + n..] == [];
      b := WholeExplained(conn, engine, u, e, n, Closed);
      assert SendWhole(conn, d, buffer) + [] == SendWhole(conn, d, buffer);
    }
  }

  /** EOF keeps the run explained and leaves nothing held. */
  lemma EofExplained(conn: Conn, a: Account, u: Bytes, ph: Phase, sent: Bytes) returns (b: Account)
    requires Explains(conn, a, u, ph, sent)
    ensures Explains(conn, b, u, Closed, sent + OnEof(conn, ph))
    ensures b.Untouched? <==> a.Untouched?
    ensures b.Untouched? || b.engine == a.engine
  {
    hide Deferral, HeadersEnd, OutputHeaders, RewrittenFrom, SendChunked, SendWhole, DecodeFrom, NewHead;
    match ph
    case Head(pending) => b := Untouched;
    case Body(d, buffer) =>
      hide OnEof;
      b := BodyEofExplained(conn, a.engine, u, a.e);
      assert sent + OnEof(conn, ph) == OnEof(conn, ph);
    case Pass =>
      b := a;
      assert sent + [] == sent;
    case Closed =>
      b := a;
      assert sent + [] == sent;
  }

  /** The account of a run names only a policy that was in force at some read from upstream. */
  predicate InForce(a: Account, events: seq<Event>) {
    a.Untouched? || exists ev | ev in events :: ev.FromUpstream? && ev.engine == a.engine
  }

  /** Every run, however reads are cut, interleaved and policed, is explained by one account; it is untouched exactly
      when the header policy never ran. */
  lemma {:induction false} RunExplained(conn: Conn, events: seq<Event>) returns (a: Account)
    ensures var st := Run(conn, events);
            && Explains(conn, a, st.fromUpstream, st.server, st.relayed)
            && (st.server.Head? ==> st.relayed == [])
            && (a.Untouched? <==> st.policyRuns == 0)
    ensures InForce(a, events)
    decreases |events|
  {
    hide Explains, OnRead, OnEof, OnFirstRequest, RunsPolicy;
    if events == [] {
      a := Untouched;
      InitExplained(conn);
    } else {
      var front, ev := events[..|events| - 1], events[|events| - 1];
      assert ev in events && forall x | x in front :: x in events;
      a := RunExplained(conn, front);
      var st := Run(conn, front);
      if !st.Finished() && ev.FromUpstream? && !st.server.Closed? {
        if ev.seg == [] {
          a := EofExplained(conn, a, st.fromUpstream, st.server, st.relayed);
        } else {
          a := ReadExplained(conn, ev.engine, a, st.fromUpstream, st.server, st.relayed, ev.seg);
        }
      }
    }
  }

  lemma InitExplained(conn: Conn)
    ensures Explains(conn, Untouched, [], Head([]), [])
  {
  }

  // ---------------------------------------------------------------- consequences

  /** The relay's invariant over every run: bounded buffers, one evaluation of the header policy at most,
      and nothing held once the upstream side is closed. */
  lemma {:induction false} RunValid(conn: Conn, events: seq<Event>)
    ensures var st := Run(conn, events);
            && ValidState(st)
            && |Held(st.server)| <= Bound(st.server)
            && (st.server.Closed? ==> Held(st.server) == [])
    decreases |events|
  {
    hide ValidPhase, OnUpstream, OnFirstRequest;
    if events == [] {
      InitValid();
    } else {
      var front, ev := events[..|events| - 1], events[|events| - 1];
      RunValid(conn, front);
      if ev.FromUpstream? { UpstreamKeepsValid(conn, Run(conn, front), ev.engine, ev.seg); }
    }
    HeldBounded(Run(conn, events).server);
  }

  /** The most that can be held: a head buffer, or deferred headers and a body buffer. */
  function Bound(ph: Phase): nat {
    match ph
    case Head(_) => MAX_HEADER_BYTES
    case Body(d, _) => |d.headers| + if d.plan.maxBodyBytes > MAX_HEADER_BYTES then d.plan.maxBodyBytes else MAX_HEADER_BYTES
    case Pass => 0
    case Closed => 0
  }

  lemma HeldBounded(ph: Phase)
    requires ValidPhase(ph)
    ensures |Held(ph)| <= Bound(ph)
  {
  }

  lemma InitValid()
    ensures ValidPhase(Head([]))
  {
  }

  /** A policy under which the header block is passed on and no body is ever rewritten. */
  ghost predicate Inert(conn: Conn, engine: Engine) {
    && (forall block :: OutputHeaders(engine, conn.host, conn.sourceIp, block) == block)
    && (PlanForBody(engine, conn.host).shouldRewrite ==>
          forall body, encoding :: AttemptRewrite(conn.codec, body, PlanForBody(engine, conn.host), encoding).None?)
  }

  ghost predicate AllInert(conn: Conn, events: seq<Event>) {
    forall ev | ev in events :: Inert(conn, ev.engine)
  }

  lemma DeferralRewrites(conn: Conn, engine: Engine, block: Bytes)
    ensures Deferral(conn, engine, block).Some? ==> PlanForBody(engine, conn.host).shouldRewrite
  {
    hide OutputHeaders, PlanForBody, ExtractContentEncoding, ExtractContentLength, ResponseIsHtml, HasChunked, EncodingOk;
  }

  /** Exactly when what was sent, followed by what is held, is what was read. */
  lemma ConservedIff(conn: Conn, a: Account, u: Bytes, ph: Phase, sent: Bytes)
    requires Explains(conn, a, u, ph, sent)
    ensures sent + Held(ph) == u <==>
            match a
            case Untouched => true
            case Filtered(engine, e) => SentHead(conn, engine, u, e) == u[..e]
            case Rewritten(engine, e, n, body) =>
              NewHead(Deferral(conn, engine, u[..e]).value, |body|) + body == u[..e + n]
  {
    hide HeadersEnd, OutputHeaders, RewrittenFrom, NewHead, Deferral;
    match a
    case Untouched =>
    case Filtered(engine, e) =>
      SameTail(SentHead(conn, engine, u, e), u, e);
    case Rewritten(engine, e, n, body) =>
      assert sent + [] == sent;
      SameTail(NewHead(Deferral(conn, engine, u[..e]).value, |body|) + body, u, e + n);
  }

  lemma SameTail(head: Bytes, u: Bytes, e: nat)
    requires e <= |u|
    ensures head + u[e..] == u <==> head == u[..e]
  {
    assert u[..e] + u[e..] == u;
    if head + u[e..] == u {
      assert |head| == e;
      assert u[..e] == (head + u[e..])[..e] == head;
    }
  }

  /** `engine` would replace the `n` body bytes behind the head `u[..e]` by `body`. */
  predicate Rewrites(conn: Conn, engine: Engine, u: Bytes, e: nat, n: nat, body: Bytes) {
    e + n <= |u| && Deferral(conn, engine, u[..e]).Some?
    && RewrittenFrom(conn, Deferral(conn, engine, u[..e]).value, u[e..e + n], body)
  }

  /** A policy that changes nothing in the stream `u`: it leaves its header block alone and rewrites no part of its body. */
  ghost predicate InertOn(conn: Conn, engine: Engine, u: Bytes) {
    forall e | HeadersEnd(u) == Some(e) && e <= |u| ::
      SentHead(conn, engine, u, e) == u[..e] && forall n, body :: !Rewrites(conn, engine, u, e, n, body)
  }

  lemma InertOnStream(conn: Conn, engine: Engine, u: Bytes)
    requires Inert(conn, engine)
    ensures InertOn(conn, engine, u)
  {
    hide HeadersEnd, OutputHeaders, PlanForBody, AttemptRewrite, DecodeFrom, Deferral;
    forall e | HeadersEnd(u) == Some(e) && e <= |u|
      ensures SentHead(conn, engine, u, e) == u[..e] && forall n, body :: !Rewrites(conn, engine, u, e, n, body)
    {
      DeferralHeaders(conn, engine, u[..e]);
      DeferralRewrites(conn, engine, u[..e]);
    }
  }

  /** Conservation: on every run in which no policy in force changes anything in the stream that was read, at every
      moment what the client was sent followed by what is held is exactly what was read, and after EOF nothing is held. */
  lemma Conservation(conn: Conn, events: seq<Event>)
    requires forall ev | ev in events && ev.FromUpstream? :: InertOn(conn, ev.engine, Run(conn, events).fromUpstream)
    ensures var st := Run(conn, events);
            && st.relayed + Held(st.server) == st.fromUpstream
            && (st.server.Closed? ==> st.relayed == st.fromUpstream)
  {
    hide InertOn, Run, Explains;
    var a := RunExplained(conn, events);
    var st := Run(conn, events);
    InertOnAccount(conn, a, st.fromUpstream, st.server, st.relayed);
    assert st.relayed + [] == st.relayed;
  }

  lemma InertOnAccount(conn: Conn, a: Account, u: Bytes, ph: Phase, sent: Bytes)
    requires Explains(conn, a, u, ph, sent)
    requires a.Untouched? || InertOn(conn, a.engine, u)
    ensures sent + Held(ph) == u
  {
    hide HeadersEnd, OutputHeaders, RewrittenFrom, NewHead, Deferral;
    ConservedIff(conn, a, u, ph, sent);
    if a.Rewritten? { RewrittenRewrites(conn, a, u, ph, sent); }
  }

  lemma RewrittenRewrites(conn: Conn, a: Account, u: Bytes, ph: Phase, sent: Bytes)
    requires Explains(conn, a, u, ph, sent) && a.Rewritten?
    ensures Rewrites(conn, a.engine, u, a.e, a.n, a.body)
  {
  }

  /** In particular under policies that change nothing in any stream. */
  lemma InertConservation(conn: Conn, events: seq<Event>)
    requires AllInert(conn, events)
    ensures var st := Run(conn, events);
            && st.relayed + Held(st.server) == st.fromUpstream
            && (st.server.Closed? ==> st.relayed == st.fromUpstream)
  {
    hide Inert, InertOn, Run;
    forall ev | ev in events ensures InertOn(conn, ev.engine, Run(conn, events).fromUpstream) {
      InertOnStream(conn, ev.engine, Run(conn, events).fromUpstream);
    }
    Conservation(conn, events);
  }

  /** Reporting only, on a host that matches no tracker list, changes no response. */
  lemma ReportOnlyIsInert(conn: Conn, engine: Engine)
    requires engine.cfg.mode == ReportOnly && !PlanForHost(engine, conn.host, conn.sourceIp).trackerMatch
    ensures Inert(conn, engine)
  {
    hide PlanForHost, OutputHeaders, Compressed;
    forall block ensures OutputHeaders(engine, conn.host, conn.sourceIp, block) == block {
      OutputUnchanged(engine, conn.host, conn.sourceIp, block);
    }
    BodyPlanMode(engine, conn.host);
  }

  lemma BodyPlanMode(engine: Engine, host: Bytes)
    ensures PlanForBody(engine, host).mode == engine.cfg.mode
  {
  }

  /** The head of a stream is complete. */
  lemma HeadIsComplete(u: Bytes, e: nat)
    requires HeadersEnd(u) == Some(e)
    ensures e <= |u| && Complete(u[..e])
  {
    hide FindBlank;
    var i := FindBlank(u, 0).value;
    assert BlankAt(u[..e], i);
    forall j | 0 <= j < i ensures !BlankAt(u[..e], j) { assert !BlankAt(u, j); }
    FindBlankIs(u[..e], 0, i);
  }

  lemma DeferralFraming(conn: Conn, engine: Engine, block: Bytes)
    requires Deferral(conn, engine, block).Some?
    ensures var d := Deferral(conn, engine, block).value; d.framing.ChunkedBody? <==> HasChunked(d.headers)
  {
    hide OutputHeaders, PlanForBody, ExtractContentEncoding, ExtractContentLength, ResponseIsHtml, HasChunked, EncodingOk;
  }

  lemma NewHeadFrames(d: Deferred, n: nat)
    ensures var head := NewHead(d, n);
            && Complete(head)
            && |Retain(HeaderLines(head), IsContentLength)| == 1
            && (n <= USIZE_MAX ==> ExtractContentLength(head) == Some(n))
  {
    hide HeaderLines, ExtractContentLength, ReplaceChunked, ReplaceContentLength, IsContentLength, Complete;
    ReplaceChunkedSpec(d.headers, n);
    ReplaceContentLengthSpec(d.headers, n);
  }

  /** When the head in front of a rewritten body has no Transfer-Encoding line, in terms of the block received. */
  lemma TransferEncodingSent(conn: Conn, engine: Engine, block: Bytes, n: nat)
    requires Complete(block) && Deferral(conn, engine, block).Some?
    ensures (forall l | l in HeaderLines(NewHead(Deferral(conn, engine, block).value, n)) :: !IsTransferEncoding(l)) <==>
            || (forall l | l in LinesReceived(engine, conn.host, conn.sourceIp, block) :: !IsTransferEncoding(l))
            || (exists l | l in LinesSent(engine, conn.host, conn.sourceIp, block) :: SaysChunked(l))
  {
    hide Deferral, OutputHeaders, HeaderLines, ReplaceChunked, ReplaceContentLength, IsTransferEncoding, LinesReceived, LinesSent,
      SaysChunked, HasChunked, Complete;
    var d := Deferral(conn, engine, block).value;
    DeferralHeaders(conn, engine, block);
    DeferralFraming(conn, engine, block);
    OutputLines(engine, conn.host, conn.sourceIp, block);
    TransferEncodingLeft(d.headers, n);
    TransferEncodingPasses(engine, conn.host, conn.sourceIp, block);
    if exists l | l in HeaderLines(d.headers) :: IsTransferEncoding(l) { HasChunkedIff(d.headers); }
  }

  /** Both header passes keep every Transfer-Encoding line. */
  lemma TransferEncodingPasses(engine: Engine, host: Bytes, sourceIp: Option<Bytes>, block: Bytes)
    requires Complete(block)
    ensures forall l | IsTransferEncoding(l) ::
              l in LinesReceived(engine, host, sourceIp, block) <==> l in LinesSent(engine, host, sourceIp, block)
  {
    hide LinesReceived, PlanForHost, NotCacheTracking, IsTransferEncoding, Complete;
    forall l | IsTransferEncoding(l) ensures l != [] && NotCacheTracking(l) { TransferEncodingIsNoCache(l); }
  }

  lemma TransferEncodingIsNoCache(line: Bytes)
    requires IsTransferEncoding(line)
    ensures line != [] && NotCacheTracking(line)
  {
    assert LowerChar(line[0]) == 't';
  }

  /** Framing: when a body was rewritten, a client that reads the stream by its own headers finds one complete block
      with one Content-Length line, exactly the rewritten body, and then the rest of the stream unchanged. A
      Transfer-Encoding line is left beside the length exactly when the block received had one and no line that is
      passed on says "chunked". */
  lemma RewrittenIsFramed(conn: Conn, a: Account, u: Bytes, ph: Phase, sent: Bytes)
    requires Explains(conn, a, u, ph, sent) && a.Rewritten? && |a.body| <= USIZE_MAX
    ensures HeadersEnd(sent).Some? && HeadersEnd(sent).value + |a.body| <= |sent|
    ensures var e := HeadersEnd(sent).value;
            && ExtractContentLength(sent[..e]) == Some(|a.body|)
            && |Retain(HeaderLines(sent[..e]), IsContentLength)| == 1
            && sent[e..e + |a.body|] == a.body
            && sent[e + |a.body|..] == u[a.e + a.n..]
    ensures Complete(u[..a.e])
    ensures (forall l | l in HeaderLines(sent[..HeadersEnd(sent).value]) :: !IsTransferEncoding(l)) <==>
            || (forall l | l in LinesReceived(a.engine, conn.host, conn.sourceIp, u[..a.e]) :: !IsTransferEncoding(l))
            || (exists l | l in LinesSent(a.engine, conn.host, conn.sourceIp, u[..a.e]) :: SaysChunked(l))
  {
    hide Deferral, RewrittenFrom, HeadersEnd, HeaderLines, ExtractContentLength, ReplaceChunked, ReplaceContentLength,
      IsContentLength, IsTransferEncoding, KeptForLength, KeptForChunked, ContentLengthLine, LinesReceived, LinesSent,
      SaysChunked, NewHead;
    var d := Deferral(conn, a.engine, u[..a.e]).value;
    HeadIsComplete(u, a.e);
    TransferEncodingSent(conn, a.engine, u[..a.e], |a.body|);
    var head := NewHead(d, |a.body|);
    NewHeadFrames(d, |a.body|);
    HeadersEndStable(head, a.body + u[a.e + a.n..]);
    assert sent == head + (a.body + u[a.e + a.n..]);
    assert sent[..|head|] == head;
  }

  // ---------------------------------------------------------------- the request direction

  /** What was sent upstream: everything read, with at most the first read refused or rewritten. */
  predicate RequestExplained(conn: Conn, st: State, n: nat, engine: Engine) {
    if !st.checked then st.toUpstream == [] && st.fromClient == [] && !st.refused
    else
      && 0 < n <= |st.fromClient|
      && match OnFirstRequest(conn, engine, st.fromClient[..n])
         case Refuse => st.refused && st.toUpstream == [] && n == |st.fromClient|
         case Forward(bytes) => !st.refused && st.toUpstream == bytes + st.fromClient[n..]
  }

  lemma RequestStep(conn: Conn, st: State, n: nat, engine: Engine, now: Engine, seg: Bytes)
    requires RequestExplained(conn, st, n, engine) && seg != [] && !st.refused
    ensures RequestExplained(conn, OnClient(conn, st, now, seg),
                             if st.checked then n else |seg|, if st.checked then engine else now)
  {
    hide OnFirstRequest;
    if st.checked {
      assert (st.fromClient + seg)[..n] == st.fromClient[..n];
      assert (st.fromClient + seg)[n..] == st.fromClient[n..] + seg;
    } else {
      assert [] + seg == seg;
      assert seg[..|seg|] == seg && seg[|seg|..] == [];
    }
  }

  /** Every run's requests are explained by one first read of `n` bytes under one policy that was in force. */
  lemma {:induction false} RunRequests(conn: Conn, events: seq<Event>, default: Engine) returns (n: nat, engine: Engine)
    ensures RequestExplained(conn, Run(conn, events), n, engine)
    ensures engine == default || exists ev | ev in events :: ev.FromClient? && ev.engine == engine
    decreases |events|
  {
    hide RequestExplained, OnClient, OnUpstream;
    if events == [] {
      n, engine := 0, default;
      RequestInit(conn, n, engine);
    } else {
      var front, ev := events[..|events| - 1], events[|events| - 1];
      assert ev in events && forall x | x in front :: x in events;
      n, engine := RunRequests(conn, front, default);
      var st := Run(conn, front);
      if !st.Finished() {
        if ev.FromUpstream? {
          RequestsIgnoreUpstream(conn, st, n, engine, ev.engine, ev.seg);
        } else if !st.clientClosed {
          if ev.seg == [] {
            RequestsIgnoreEof(conn, st, n, engine, ev.engine);
          } else {
            RequestStep(conn, st, n, engine, ev.engine, ev.seg);
            if !st.checked { n, engine := |ev.seg|, ev.engine; }
          }
        }
      }
    }
  }

  lemma RequestInit(conn: Conn, n: nat, engine: Engine)
    ensures RequestExplained(conn, INIT, n, engine)
  {
  }

  lemma RequestsIgnoreUpstream(conn: Conn, st: State, n: nat, engine: Engine, now: Engine, seg: Bytes)
    requires RequestExplained(conn, st, n, engine)
    ensures RequestExplained(conn, OnUpstream(conn, st, now, seg), n, engine)
  {
    hide OnFirstRequest, OnRead, OnEof, RunsPolicy;
  }

  lemma RequestsIgnoreEof(conn: Conn, st: State, n: nat, engine: Engine, now: Engine)
    requires RequestExplained(conn, st, n, engine)
    ensures RequestExplained(conn, OnClient(conn, st, now, []), n, engine)
  {
    hide OnFirstRequest;
  }

  /** Whatever the first request becomes, it is the same from its first empty line on. */
  lemma ForwardedKeepsTail(conn: Conn, engine: Engine, seg: Bytes)
    ensures OnFirstRequest(conn, engine, seg).Forward? ==> Tail(OnFirstRequest(conn, engine, seg).bytes) == Tail(seg)
  {
    hide PlanForHost, PlanForBody, HasWebsocketUpgrade, RewriteFirstRequest, Tail;
    var body := PlanForBody(engine, conn.host);
    RewriteKeepsTail(seg, body.spoofReferer, body.stripQuery, PlanForHost(engine, conn.host, conn.sourceIp).trackerMatch);
  }

  // ---------------------------------------------------------------- transparency

  /** A policy that plans nothing for this host. */
  predicate Quiet(conn: Conn, engine: Engine) {
    var body := PlanForBody(engine, conn.host);
    && !PlanForHost(engine, conn.host, conn.sourceIp).trackerMatch
    && !body.shouldRewrite && !body.spoofReferer && !body.stripQuery
  }

  lemma QuietIsInert(conn: Conn, engine: Engine)
    requires Quiet(conn, engine)
    ensures Inert(conn, engine)
    ensures forall seg :: OnFirstRequest(conn, engine, seg) == Forward(seg)
  {
    hide PlanForHost, PlanForBody, OutputHeaders, HasWebsocketUpgrade, AttemptRewrite, InjectReferer, StripQuery,
      StripConditional;
    forall block ensures OutputHeaders(engine, conn.host, conn.sourceIp, block) == block {
      OutputUnchanged(engine, conn.host, conn.sourceIp, block);
    }
  }

  /** Under quiet policies the relay is a wire in both directions. */
  lemma QuietTransparency(conn: Conn, events: seq<Event>)
    requires forall ev | ev in events :: Quiet(conn, ev.engine)
    ensures var st := Run(conn, events);
            && !st.refused
            && st.toUpstream == st.fromClient
            && st.ToClient() + Held(st.server) == st.fromUpstream
            && (st.server.Closed? ==> st.ToClient() == st.fromUpstream)
  {
    hide Quiet, Inert, Run, OnFirstRequest, Held;
    forall ev | ev in events ensures Inert(conn, ev.engine) { QuietIsInert(conn, ev.engine); }
    InertConservation(conn, events);
    if events != [] {
      assert events[0] in events;
      QuietIsInert(conn, events[0].engine);
      var n, engine := RunRequests(conn, events, events[0].engine);
      assert Quiet(conn, engine);
      QuietIsInert(conn, engine);
      var st := Run(conn, events);
      if st.checked {
        assert st.fromClient[..n] + st.fromClient[n..] == st.fromClient;
      }
    } else {
      RunOfNothing(conn);
    }
  }

  /** With the policy disabled, whatever else the configuration and the filter lists say and however they change, both
      directions are delivered byte for byte. */
  lemma DisabledTransparency(conn: Conn, events: seq<Event>)
    requires forall ev | ev in events :: ev.engine.cfg.mode == Disabled
    ensures var st := Run(conn, events);
            && !st.refused
            && st.toUpstream == st.fromClient
            && st.ToClient() + Held(st.server) == st.fromUpstream
            && (st.server.Closed? ==> st.ToClient() == st.fromUpstream)
  {
    hide PlanForHost, PlanForBody, Run;
    forall ev | ev in events ensures Quiet(conn, ev.engine) {
      DisabledPlans(ev.engine, conn.host, conn.sourceIp);
    }
    QuietTransparency(conn, events);
  }
}
