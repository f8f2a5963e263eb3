/**
  The HTTP/1.1 relay as a machine of four phases. The upstream side buffers the response head, then
  either passes bytes through or buffers the body for rewriting, and ends at EOF. `RelayLoop` holds
  the loop that refines this machine; `RelayRuns` and `Segmentation` hold what is true of whole runs.
 */
module Relay {
  import opened Text
  import opened Headers
  import opened Chunked
  import opened Requests
  import opened Policy

  const MAX_HEADER_BYTES: nat := 65536
  const READ_SIZE: nat := 8192

  /** Compression and HTML rewriting belong to foreign libraries; each may fail. */
  datatype Codec = Codec(
    decompress: (Bytes, Bytes) -> Option<Bytes>,
    rewriteHtml: (Bytes, BodyPlan) -> Option<Bytes>,
    compress: (Bytes, Bytes) -> Option<Bytes>)

  datatype Conn = Conn(host: Bytes, sourceIp: Option<Bytes>, codec: Codec)

  predicate Compressed(encoding: Option<Bytes>) {
    encoding.Some? && (encoding.value == "gzip" || encoding.value == "x-gzip"
                       || encoding.value == "deflate" || encoding.value == "br")
  }

  /** The HTML inside a body, if it can be decoded. */
  function Html(codec: Codec, body: Bytes, encoding: Option<Bytes>): Option<Bytes> {
    if Compressed(encoding) then codec.decompress(body, encoding.value) else Some(body)
  }

  /** `attempt_body_rewrite`: `None` means the original body is sent. */
  function AttemptRewrite(codec: Codec, body: Bytes, plan: BodyPlan, encoding: Option<Bytes>): Option<Bytes> {
    match Html(codec, body, encoding)
    case None => None
    case Some(h) =>
      match codec.rewriteHtml(h, plan)
      case None => None
      case Some(out) =>
        if plan.mode == ReportOnly then None
        else if Compressed(encoding) then codec.compress(out, encoding.value)
        else Some(out)
  }

  /** The codings the relay can take off and put on again. */
  const CODINGS: seq<Bytes> := ["gzip", "x-gzip", "deflate", "br"]

  /** Exactly when a body is rewritten, and into what: outside report-only mode, if its HTML can be had and rewritten and
      put back into its coding. */
  lemma RewriteMeaning(codec: Codec, body: Bytes, plan: BodyPlan, encoding: Option<Bytes>, sent: Bytes)
    ensures AttemptRewrite(codec, body, plan, encoding) == Some(sent) <==>
            && plan.mode != ReportOnly
            && exists html, out ::
                 && codec.rewriteHtml(html, plan) == Some(out)
                 && if encoding.Some? && encoding.value in CODINGS
                    then codec.decompress(body, encoding.value) == Some(html) && codec.compress(out, encoding.value) == Some(sent)
                    else html == body && out == sent
  {
    hide Compressed;
    CompressedIff(encoding);
    if AttemptRewrite(codec, body, plan, encoding) == Some(sent) {
      var html := Html(codec, body, encoding).value;
      var out := codec.rewriteHtml(html, plan).value;
      assert codec.rewriteHtml(html, plan) == Some(out);
    }
  }

  lemma CompressedIff(encoding: Option<Bytes>)
    ensures Compressed(encoding) <==> encoding.Some? && encoding.value in CODINGS
  {
    var c := CODINGS;
    assert c[0] == "gzip" && c[1] == "x-gzip" && c[2] == "deflate" && c[3] == "br";
  }

  /** With a lossless codec, a client that decodes a rewritten body sees the rewritten HTML of the original;
      in report-only mode nothing is rewritten. */
  lemma RewriteDecodes(codec: Codec, body: Bytes, plan: BodyPlan, encoding: Option<Bytes>)
    requires forall html, e, z :: codec.compress(html, e) == Some(z) ==> codec.decompress(z, e) == Some(html)
    ensures var r := AttemptRewrite(codec, body, plan, encoding);
            r.Some? ==>
              && plan.mode != ReportOnly
              && Html(codec, body, encoding).Some?
              && Html(codec, r.value, encoding) == codec.rewriteHtml(Html(codec, body, encoding).value, plan)
  {
    var r := AttemptRewrite(codec, body, plan, encoding);
    if r.Some? && Compressed(encoding) {
      var out := codec.rewriteHtml(Html(codec, body, encoding).value, plan).value;
      assert codec.compress(out, encoding.value) == Some(r.value);
      assert codec.decompress(r.value, encoding.value) == Some(out);
    }
  }

  // ---------------------------------------------------------------- phases

  datatype Framing = ChunkedBody | Length(n: nat) | UntilEof

  /** A response whose headers are held back while its body is buffered. */
  datatype Deferred = Deferred(plan: BodyPlan, headers: Bytes, framing: Framing, encoding: Option<Bytes>)

  datatype Phase =
    | Head(pending: Bytes)
    | Body(deferred: Deferred, buffer: Bytes)
    | Pass
    | Closed

  /** The bytes read from upstream, in the form they would be sent, that the client has not been sent yet. */
  function Held(ph: Phase): Bytes {
    match ph
    case Head(pending) => pending
    case Body(d, buffer) => d.headers + buffer
    case Pass => []
    case Closed => []
  }

  predicate EncodingOk(encoding: Option<Bytes>) {
    encoding.None? || encoding.value == "identity" || Compressed(encoding)
  }

  /** The deferral for a response head, or `None` when its body is not to be buffered. */
  function Deferral(conn: Conn, engine: Engine, block: Bytes): Option<Deferred> {
    var headers := OutputHeaders(engine, conn.host, conn.sourceIp, block);
    var plan := PlanForBody(engine, conn.host);
    var encoding := ExtractContentEncoding(headers);
    var length := ExtractContentLength(headers);
    if plan.shouldRewrite && ResponseIsHtml(headers) && EncodingOk(encoding)
       && !(length.Some? && length.value > plan.maxBodyBytes)
    then
      Some(Deferred(plan, headers,
                    if HasChunked(headers) then ChunkedBody
                    else if length.Some? then Length(length.value)
                    else UntilEof,
                    encoding))
    else None
  }

  /** Codings under which a body can be rewritten. */
  lemma EncodingOkIff(encoding: Option<Bytes>)
    ensures EncodingOk(encoding) <==> encoding.None? || encoding.value in CODINGS || encoding.value == "identity"
  {
    hide Compressed;
    CompressedIff(encoding);
  }

  /** Exactly when a body is held back, and how it is then framed: something is to be rewritten, the block says HTML in a
      known coding, and does not announce more than the limit. */
  lemma DeferralMeaning(conn: Conn, engine: Engine, block: Bytes)
    ensures var headers := OutputHeaders(engine, conn.host, conn.sourceIp, block);
            var plan := PlanForBody(engine, conn.host);
            var encoding, length := ExtractContentEncoding(headers), ExtractContentLength(headers);
            && (Deferral(conn, engine, block).Some? <==>
                && plan.shouldRewrite && ResponseIsHtml(headers)
                && (encoding.None? || encoding.value in CODINGS || encoding.value == "identity")
                && (length.Some? ==> length.value <= plan.maxBodyBytes))
            && (Deferral(conn, engine, block).Some? ==>
                  var d := Deferral(conn, engine, block).value;
                  && d.plan == plan && d.headers == headers && d.encoding == encoding
                  && (d.framing.ChunkedBody? <==> HasChunked(headers))
                  && (d.framing.Length? <==> !HasChunked(headers) && length.Some?)
                  && (d.framing.Length? ==> length == Some(d.framing.n)))
  {
    hide OutputHeaders, PlanForBody, ExtractContentEncoding, ExtractContentLength, ResponseIsHtml, HasChunked, EncodingOk, CODINGS;
    EncodingOkIff(ExtractContentEncoding(OutputHeaders(engine, conn.host, conn.sourceIp, block)));
  }

  /** The response head is complete: `block` is the head, `rest` what was read behind it. */
  function Enter(conn: Conn, engine: Engine, block: Bytes, rest: Bytes): (Phase, Bytes) {
    match Deferral(conn, engine, block)
    case Some(d) => (Body(d, rest), [])
    case None => (Pass, OutputHeaders(engine, conn.host, conn.sourceIp, block) + rest)
  }

  /** A complete chunked message at the front of `raw`, rewritten if possible; what follows it is unchanged. */
  function SendChunked(conn: Conn, d: Deferred, raw: Bytes): Bytes
    requires Decode(raw).Some?
  {
    var Decoded(body, n) := Decode(raw).value;
    match AttemptRewrite(conn.codec, body, d.plan, d.encoding)
    case Some(rewritten) => ReplaceChunked(d.headers, |rewritten|) + rewritten + raw[n..]
    case None => d.headers + raw
  }

  /** A body that is not chunked, rewritten if possible. */
  function SendWhole(conn: Conn, d: Deferred, body: Bytes): Bytes {
    match AttemptRewrite(conn.codec, body, d.plan, d.encoding)
    case Some(rewritten) => ReplaceContentLength(d.headers, |rewritten|) + rewritten
    case None => d.headers + body
  }

  /** A non-empty read while the body is buffered. */
  function OnBody(conn: Conn, d: Deferred, buffer: Bytes): (Phase, Bytes) {
    match d.framing
    case ChunkedBody =>
      if |buffer| >= d.plan.maxBodyBytes then (Pass, d.headers + buffer)
      else if Decode(buffer).Some? then (Pass, SendChunked(conn, d, buffer))
      else (Body(d, buffer), [])
    case Length(n) =>
      if |buffer| >= n then (Pass, SendWhole(conn, d, buffer[..n]) + buffer[n..])
      else if |buffer| >= d.plan.maxBodyBytes then (Pass, d.headers + buffer)
      else (Body(d, buffer), [])
    case UntilEof =>
      if |buffer| >= d.plan.maxBodyBytes then (Pass, d.headers + buffer)
      else (Body(d, buffer), [])
  }

  /** A non-empty read while the head is buffered. */
  function OnHead(conn: Conn, engine: Engine, pending: Bytes): (Phase, Bytes) {
    if |pending| > MAX_HEADER_BYTES then (Pass, pending)
    else
      match HeadersEnd(pending)
      case None => (Head(pending), [])
      case Some(e) => Enter(conn, engine, pending[..e], pending[e..])
  }

  /** A non-empty read from upstream: the next phase and what is written to the client. */
  function OnRead(conn: Conn, engine: Engine, ph: Phase, seg: Bytes): (Phase, Bytes) {
    match ph
    case Head(pending) => OnHead(conn, engine, pending + seg)
    case Body(d, buffer) => OnBody(conn, d, buffer + seg)
    case Pass => (Pass, seg)
    case Closed => (Closed, [])
  }

  /** EOF from upstream: what is written to the client before its side is shut down. */
  function OnEof(conn: Conn, ph: Phase): Bytes {
    match ph
    case Head(pending) => pending
    case Body(d, buffer) =>
      if d.framing.ChunkedBody? then
        if Decode(buffer).Some? then SendChunked(conn, d, buffer) else d.headers + buffer
      else SendWhole(conn, d, buffer)
    case Pass => []
    case Closed => []
  }

  /** What every reachable phase satisfies, with the bounds on the two buffers. */
  predicate ValidPhase(ph: Phase) {
    match ph
    case Head(pending) => |pending| <= MAX_HEADER_BYTES && HeadersEnd(pending).None?
    case Body(d, buffer) =>
      && (|buffer| < MAX_HEADER_BYTES || |buffer| < d.plan.maxBodyBytes)
      && (d.framing.Length? ==> d.framing.n <= d.plan.maxBodyBytes)
      && d.plan.shouldRewrite
    case Pass => true
    case Closed => true
  }

  lemma EnterValid(conn: Conn, engine: Engine, block: Bytes, rest: Bytes)
    requires |rest| < MAX_HEADER_BYTES
    ensures ValidPhase(Enter(conn, engine, block, rest).0)
  {
    hide OutputHeaders, PlanForBody, ExtractContentEncoding, ExtractContentLength, ResponseIsHtml, HasChunked;
  }

  /** One read keeps the phase valid, so both buffers stay bounded for ever. */
  lemma ReadKeepsValid(conn: Conn, engine: Engine, ph: Phase, seg: Bytes)
    requires ValidPhase(ph)
    ensures ValidPhase(OnRead(conn, engine, ph, seg).0)
  {
    hide Enter, SendChunked, SendWhole, HeadersEnd, Decode;
    match ph
    case Head(pending) =>
      var p := pending + seg;
      if |p| <= MAX_HEADER_BYTES && HeadersEnd(p).Some? {
        var e := HeadersEnd(p).value;
        HeadersEndBounds(p);
        EnterValid(conn, engine, p[..e], p[e..]);
      }
    case Body(d, buffer) =>
    case Pass =>
    case Closed =>
  }

  lemma HeadersEndBounds(buf: Bytes)
    ensures HeadersEnd(buf).Some? ==> 4 <= HeadersEnd(buf).value <= |buf|
  {
  }

  /** Whether this read completes the response head and so runs the header policy. */
  predicate RunsPolicy(ph: Phase, seg: Bytes) {
    ph.Head? && |ph.pending + seg| <= MAX_HEADER_BYTES && HeadersEnd(ph.pending + seg).Some?
  }

  /** The head phase is left for good by the read that runs the header policy. */
  lemma HeadThenPolicy(conn: Conn, engine: Engine, ph: Phase, seg: Bytes)
    ensures OnRead(conn, engine, ph, seg).0.Head? ==> ph.Head? && !RunsPolicy(ph, seg)
  {
    hide Deferral, SendChunked, SendWhole, HeadersEnd, Decode, OutputHeaders;
  }

  // ---------------------------------------------------------------- the first request

  /** The answer to a refused request. */
  function Forbidden(): Bytes {
    "HTTP/1.1 403 Forbidden" + CRLF + "Content-Length: 0" + CRLF + "Connection: close" + BLANK
  }

  /** It is one complete block that says 403 and announces an empty body. */
  lemma ForbiddenMeaning()
    ensures Complete(Forbidden())
    ensures HeaderLines(Forbidden()) == ["HTTP/1.1 403 Forbidden", "Content-Length: 0", "Connection: close"]
  {
    hide Complete, HeaderLines;
    var a: Bytes, b: Bytes, c: Bytes := "HTTP/1.1 403 Forbidden", "Content-Length: 0", "Connection: close";
    ThreeLines(a, b, c);
    assert NoCrlf(a) && NoCrlf(b) && NoCrlf(c);
    BlockRoundTrip([a, b, c]);
  }

  lemma ThreeLines(a: Bytes, b: Bytes, c: Bytes)
    ensures Block([a, b, c]) == a + CRLF + b + CRLF + c + BLANK
  {
    assert [a, b, c][1..] == [b, c] && [b, c][1..] == [c];
    assert JoinCrlf([b, c]) == b + CRLF + JoinCrlf([c]);
    assert JoinCrlf([a, b, c]) == a + CRLF + JoinCrlf([b, c]);
  }

  datatype FirstRequest = Refuse | Forward(bytes: Bytes)

  /** The first read from the client: refused, rewritten, or forwarded as it is. */
  function OnFirstRequest(conn: Conn, engine: Engine, seg: Bytes): FirstRequest {
    var plan := PlanForHost(engine, conn.host, conn.sourceIp);
    if plan.trackerMatch && plan.websocketBlocking && HasWebsocketUpgrade(seg) then Refuse
    else
      var body := PlanForBody(engine, conn.host);
      match RewriteFirstRequest(seg, body.spoofReferer, body.stripQuery, plan.trackerMatch)
      case Some(modified) => Forward(modified)
      case None => Forward(seg)
  }

  // ---------------------------------------------------------------- both directions

  /** A read of either direction, with the policy in force at that moment; an empty segment is EOF. */
  datatype Event =
    | FromClient(engine: Engine, seg: Bytes)
    | FromUpstream(engine: Engine, seg: Bytes)

  /** `relayed` is what was written to the client on behalf of upstream; `fromClient` and `fromUpstream`
      record everything read; `policyRuns` counts evaluations of the header policy. */
  datatype State = State(
    server: Phase,
    checked: bool,
    clientClosed: bool,
    refused: bool,
    relayed: Bytes,
    toUpstream: Bytes,
    fromClient: Bytes,
    fromUpstream: Bytes,
    policyRuns: nat)
  {
    function ToClient(): Bytes {
      if refused then relayed + Forbidden() else relayed
    }

    predicate Finished() {
      refused || (clientClosed && server.Closed?)
    }
  }

  const INIT := State(Head([]), false, false, false, [], [], [], [], 0)

  function OnClient(conn: Conn, st: State, engine: Engine, seg: Bytes): State {
    if seg == [] then st.(clientClosed := true)
    else if st.checked then st.(toUpstream := st.toUpstream + seg, fromClient := st.fromClient + seg)
    else
      var next := st.(checked := true, fromClient := st.fromClient + seg);
      match OnFirstRequest(conn, engine, seg)
      case Refuse => next.(refused := true)
      case Forward(bytes) => next.(toUpstream := st.toUpstream + bytes)
  }

  function OnUpstream(conn: Conn, st: State, engine: Engine, seg: Bytes): State {
    if seg == [] then st.(server := Closed, relayed := st.relayed + OnEof(conn, st.server))
    else
      var (ph, out) := OnRead(conn, engine, st.server, seg);
      st.(server := ph,
          relayed := st.relayed + out,
          fromUpstream := st.fromUpstream + seg,
          policyRuns := st.policyRuns + if RunsPolicy(st.server, seg) then 1 else 0)
  }

  /** What every reachable state satisfies: a valid phase, and at most one evaluation of the header policy, none of them
      while the head is still buffered. */
  predicate ValidState(st: State) {
    ValidPhase(st.server) && st.policyRuns <= 1 && (st.server.Head? ==> st.policyRuns == 0)
  }

  lemma UpstreamKeepsValid(conn: Conn, st: State, engine: Engine, seg: Bytes)
    requires ValidState(st)
    ensures ValidState(OnUpstream(conn, st, engine, seg))
  {
    hide ValidPhase, OnRead, OnEof, HeadersEnd;
    if seg == [] {
      ClosedIsValid();
    } else {
      ReadKeepsValid(conn, engine, st.server, seg);
      HeadThenPolicy(conn, engine, st.server, seg);
    }
  }

  lemma ClosedIsValid()
    ensures ValidPhase(Closed)
  {
  }

  /** One turn of the loop. A closed side is no longer polled, and a finished relay does nothing. */
  function Step(conn: Conn, st: State, ev: Event): State {
    if st.Finished() then st
    else
      match ev
      case FromClient(engine, seg) => if st.clientClosed then st else OnClient(conn, st, engine, seg)
      case FromUpstream(engine, seg) => if st.server.Closed? then st else OnUpstream(conn, st, engine, seg)
  }

  function Run(conn: Conn, events: seq<Event>): State {
    if events == [] then INIT
    else Step(conn, Run(conn, events[..|events| - 1]), events[|events| - 1])
  }

  lemma RunUnfolds(conn: Conn, events: seq<Event>)
    requires events != []
    ensures Run(conn, events) == Step(conn, Run(conn, events[..|events| - 1]), events[|events| - 1])
  {
  }

  lemma RunOfNothing(conn: Conn)
    ensures Run(conn, []) == INIT
  {
  }
}
