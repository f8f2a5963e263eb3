/** `relay_with_first_response_header_policy`: the loop's variables, and each `select!` arm as a method. */
module RelayLoop {
  import opened Text
  import opened Headers
  import opened Chunked
  import opened Requests
  import opened Policy
  import opened Relay

  class Loop {
    const conn: Conn

    var clientToServerBytes: nat
    var serverToClientBytes: nat
    var clientClosed: bool
    var upstreamClosed: bool
    var firstResponseFiltered: bool
    var pending: Bytes
    var firstRequestChecked: bool
    var bufferingBody: bool
    var bodyBuffer: Bytes
    var bodyRewritePlan: Option<BodyPlan>
    var deferredHeaders: Option<Bytes>
    var expectedBodyLen: Option<nat>
    var bufferedContentEncoding: Option<Bytes>
    var bufferingChunked: bool

    // The two streams written to, and the early return after a refused request.
    var toClient: Bytes
    var toUpstream: Bytes
    var refused: bool

    // What has been read, and how often the header policy ran.
    ghost var fromClient: Bytes
    ghost var fromUpstream: Bytes
    ghost var relayed: Bytes
    ghost var policyRuns: nat

    ghost function Framed(): Framing
      reads this`bufferingChunked, this`expectedBodyLen
    {
      if bufferingChunked then ChunkedBody
      else if expectedBodyLen.Some? then Length(expectedBodyLen.value)
      else UntilEof
    }

    /** The flags agree with one phase; in particular the plan and the held headers are there while buffering. */
    ghost predicate FlagsAgree()
      reads this`bufferingBody, this`bodyRewritePlan, this`deferredHeaders, this`upstreamClosed,
            this`firstResponseFiltered, this`bufferingChunked, this`expectedBodyLen, this`pending
    {
      && (bufferingBody ==>
            && bodyRewritePlan.Some? && deferredHeaders.Some?
            && !upstreamClosed && firstResponseFiltered
            && (bufferingChunked ==> expectedBodyLen.None?))
      && (!bufferingBody ==> bodyRewritePlan.None? && deferredHeaders.None? && !bufferingChunked)
      && (upstreamClosed || firstResponseFiltered ==> pending == [])
    }

    ghost function Server(): Phase
      reads this`bufferingBody, this`bodyRewritePlan, this`deferredHeaders, this`upstreamClosed,
            this`firstResponseFiltered, this`bufferingChunked, this`expectedBodyLen, this`pending,
            this`bodyBuffer, this`bufferedContentEncoding
    {
      if upstreamClosed then Closed
      else if bufferingBody then
        if bodyRewritePlan.Some? && deferredHeaders.Some?
        then Body(Deferred(bodyRewritePlan.value, deferredHeaders.value, Framed(), bufferedContentEncoding), bodyBuffer)
        else Pass
      else if firstResponseFiltered then Pass
      else Head(pending)
    }

    /** The counters equal what was written. */
    ghost predicate CountersAgree()
      reads this`serverToClientBytes, this`clientToServerBytes, this`relayed, this`toUpstream, this`toClient, this`refused
    {
      && serverToClientBytes == |relayed|
      && clientToServerBytes == |toUpstream|
      && toClient == (if refused then relayed + Forbidden() else relayed)
    }

    ghost predicate Valid()
      reads this
    {
      FlagsAgree() && CountersAgree() && ValidState(Abstract())
    }

    ghost function Abstract(): State
      reads this
    {
      State(Server(), firstRequestChecked, clientClosed, refused, relayed, toUpstream, fromClient, fromUpstream, policyRuns)
    }

    constructor (conn: Conn)
      ensures Valid() && Abstract() == INIT && this.conn == conn
    {
      hide Forbidden;
      this.conn := conn;
      clientToServerBytes, serverToClientBytes := 0, 0;
      clientClosed, upstreamClosed := false, false;
      firstResponseFiltered, pending, firstRequestChecked := false, [], false;
      bufferingBody, bodyBuffer, bodyRewritePlan, deferredHeaders := false, [], None, None;
      expectedBodyLen, bufferedContentEncoding, bufferingChunked := None, None, false;
      toClient, toUpstream, refused := [], [], false;
      fromClient, fromUpstream, relayed, policyRuns := [], [], [], 0;
    }

    /** `client_write.write_all` followed by the counter. */
    method Write(bytes: Bytes)
      requires !refused && toClient == relayed && serverToClientBytes == |relayed|
      modifies this`toClient, this`relayed, this`serverToClientBytes
      ensures relayed == old(relayed) + bytes
      ensures toClient == relayed && serverToClientBytes == |relayed|
    {
      toClient := toClient + bytes;
      relayed := relayed + bytes;
      serverToClientBytes := serverToClientBytes + |bytes|;
    }

    /** A decoded chunked message: the rewritten body and what followed the message, or the raw bytes. */
    method WriteChunked(d: Deferred)
      requires !refused && toClient == relayed && serverToClientBytes == |relayed|
      requires Decode(bodyBuffer).Some?
      modifies this`toClient, this`relayed, this`serverToClientBytes
      ensures relayed == old(relayed) + SendChunked(conn, d, bodyBuffer)
      ensures toClient == relayed && serverToClientBytes == |relayed|
    {
      hide AttemptRewrite, ReplaceChunked, DecodeFrom;
      var decoded := TryDecodeChunkedMessage(bodyBuffer);
      var overflow := bodyBuffer[decoded.value.consumed..];
      match AttemptRewrite(conn.codec, decoded.value.body, d.plan, d.encoding) {
        case Some(rewritten) =>
          var headers := ReplaceChunked(d.headers, |rewritten|);
          Write(headers + rewritten);
          if overflow != [] { Write(overflow); }
        case None =>
          Write(d.headers + bodyBuffer);
      }
    }

    /** A body that is not chunked: rewritten under a new Content-Length, or as it came. */
    method WriteWhole(d: Deferred, body: Bytes)
      requires !refused && toClient == relayed && serverToClientBytes == |relayed|
      modifies this`toClient, this`relayed, this`serverToClientBytes
      ensures relayed == old(relayed) + SendWhole(conn, d, body)
      ensures toClient == relayed && serverToClientBytes == |relayed|
    {
      hide AttemptRewrite, ReplaceContentLength;
      match AttemptRewrite(conn.codec, body, d.plan, d.encoding) {
        case Some(rewritten) =>
          var headers := ReplaceContentLength(d.headers, |rewritten|);
          Write(headers + rewritten);
        case None =>
          Write(d.headers + body);
      }
    }

    /** Headers, then what was read behind them, if anything. */
    method WriteThrough(headers: Bytes, remainder: Bytes)
      requires CountersAgree() && !refused
      modifies this`toClient, this`relayed, this`serverToClientBytes
      ensures CountersAgree()
      ensures relayed == old(relayed) + (headers + remainder)
    {
      Write(headers);
      if remainder != [] { Write(remainder); }
    }

    /** The held response leaves the loop's variables and the loop passes bytes through from now on. */
    method LeaveBuffering() returns (d: Deferred)
      requires bufferingBody && bodyRewritePlan.Some? && deferredHeaders.Some? && pending == []
      modifies this`bodyRewritePlan, this`deferredHeaders, this`bufferingBody, this`bufferingChunked,
               this`firstResponseFiltered
      ensures d == old(Deferred(bodyRewritePlan.value, deferredHeaders.value, Framed(), bufferedContentEncoding))
      ensures FlagsAgree() && Server() == if upstreamClosed then Closed else Pass
    {
      var framing :=
        if bufferingChunked then ChunkedBody
        else if expectedBodyLen.Some? then Length(expectedBodyLen.value)
        else UntilEof;
      d := Deferred(bodyRewritePlan.value, deferredHeaders.value, framing, bufferedContentEncoding);
      bodyRewritePlan, deferredHeaders := None, None;
      bufferingBody, bufferingChunked, firstResponseFiltered := false, false, true;
    }

    /** The client arm. */
    method ClientArm(engine: Engine, seg: Bytes)
      requires Valid() && !clientClosed && !refused
      modifies this`clientClosed, this`fromClient, this`firstRequestChecked, this`toClient, this`refused,
               this`toUpstream, this`clientToServerBytes
      ensures Valid()
      ensures Abstract() == OnClient(conn, old(Abstract()), engine, seg)
    {
      hide OnFirstRequest, ValidPhase, Framed, FlagsAgree, Server, Forbidden;
      if seg == [] {
        clientClosed := true;
      } else {
        fromClient := fromClient + seg;
        if firstRequestChecked {
          Send(seg);
        } else {
          FirstRead(engine, seg);
        }
      }
    }

    /** `upstream_write.write_all` followed by the counter. */
    method Send(bytes: Bytes)
      requires clientToServerBytes == |toUpstream|
      modifies this`toUpstream, this`clientToServerBytes
      ensures toUpstream == old(toUpstream) + bytes && clientToServerBytes == |toUpstream|
    {
      toUpstream := toUpstream + bytes;
      clientToServerBytes := clientToServerBytes + |bytes|;
    }

    /** The checks made on the first request only. */
    method FirstRead(engine: Engine, seg: Bytes)
      requires !firstRequestChecked && !refused && clientToServerBytes == |toUpstream|
      modifies this`firstRequestChecked, this`toClient, this`refused, this`toUpstream, this`clientToServerBytes
      ensures firstRequestChecked && clientToServerBytes == |toUpstream|
      ensures match OnFirstRequest(conn, engine, seg)
              case Refuse => refused && toClient == old(toClient) + Forbidden() && toUpstream == old(toUpstream)
              case Forward(bytes) => !refused && toClient == old(toClient) && toUpstream == old(toUpstream) + bytes
    {
      hide HasWebsocketUpgrade, RewriteFirstRequest, PlanForHost, PlanForBody, Forbidden;
      firstRequestChecked := true;
      var plan := PlanForHost(engine, conn.host, conn.sourceIp);
      if plan.trackerMatch && plan.websocketBlocking && HasWebsocketUpgrade(seg) {
        toClient := toClient + Forbidden();
        refused := true;
        return;
      }
      var bodyPlan := PlanForBody(engine, conn.host);
      var outgoing := RewriteFirst(seg, bodyPlan.spoofReferer, bodyPlan.stripQuery, plan.trackerMatch);
      if outgoing.Some? {
        Send(outgoing.value);
        return;
      }
      Send(seg);
    }

    /** The upstream arm. */
    method UpstreamArm(engine: Engine, seg: Bytes)
      requires Valid() && !upstreamClosed && !refused
      modifies this
      ensures Valid()
      ensures Abstract() == OnUpstream(conn, old(Abstract()), engine, seg)
    {
      hide Forbidden, OnRead, OnEof, RunsPolicy, FlagsAgree, CountersAgree, Server, ValidState;
      UpstreamKeepsValid(conn, Abstract(), engine, seg);
      if seg == [] {
        Eof();
        return;
      }
      fromUpstream := fromUpstream + seg;
      Read(engine, seg);
    }

    /** A non-empty read, by what the flags say. */
    method Read(engine: Engine, seg: Bytes)
      requires FlagsAgree() && CountersAgree() && !refused && !upstreamClosed && seg != []
      modifies this`toClient, this`relayed, this`serverToClientBytes, this`pending, this`firstResponseFiltered,
               this`bufferingBody, this`bufferingChunked, this`bodyRewritePlan, this`deferredHeaders,
               this`expectedBodyLen, this`bodyBuffer, this`bufferedContentEncoding, this`policyRuns
      ensures FlagsAgree() && CountersAgree()
      ensures Server() == OnRead(conn, engine, old(Server()), seg).0
      ensures relayed == old(relayed) + OnRead(conn, engine, old(Server()), seg).1
      ensures policyRuns == old(policyRuns) + if RunsPolicy(old(Server()), seg) then 1 else 0
    {
      hide Forbidden, OnHead, OnBody;
      if bufferingBody {
        BodyRead(seg);
      } else if firstResponseFiltered {
        Write(seg);
      } else {
        HeadRead(engine, seg);
      }
    }

    /** The end of the upstream stream: everything held is sent. */
    method Eof()
      requires FlagsAgree() && CountersAgree() && !upstreamClosed && !refused
      modifies this`toClient, this`relayed, this`serverToClientBytes, this`upstreamClosed, this`pending,
               this`firstResponseFiltered, this`bufferingBody, this`bufferingChunked, this`bodyRewritePlan,
               this`deferredHeaders
      ensures FlagsAgree() && CountersAgree() && upstreamClosed && Server() == Closed
      ensures relayed == old(relayed) + OnEof(conn, old(Server()))
    {
      hide Forbidden, SendChunked, SendWhole, DecodeFrom;
      upstreamClosed := true;
      if pending != [] {
        Write(pending);
        pending := [];
        firstResponseFiltered := true;
      }
      if bufferingBody {
        var d := LeaveBuffering();
        WriteAtEof(d);
      }
    }

    /** A body that is still buffered at EOF. */
    method WriteAtEof(d: Deferred)
      requires !refused && toClient == relayed && serverToClientBytes == |relayed|
      modifies this`toClient, this`relayed, this`serverToClientBytes
      ensures relayed == old(relayed) + OnEof(conn, Body(d, bodyBuffer))
      ensures toClient == relayed && serverToClientBytes == |relayed|
    {
      hide SendChunked, SendWhole, DecodeFrom;
      if d.framing.ChunkedBody? {
        var decoded := TryDecodeChunkedMessage(bodyBuffer);
        if decoded.Some? {
          WriteChunked(d);
        } else {
          Write(d.headers + bodyBuffer);
        }
      } else {
        WriteWhole(d, bodyBuffer);
      }
    }

    /** The buffer has reached the size limit: everything held is sent as it is. */
    method FlushRaw()
      requires FlagsAgree() && bufferingBody && !refused && toClient == relayed && serverToClientBytes == |relayed|
      modifies this`toClient, this`relayed, this`serverToClientBytes, this`firstResponseFiltered,
               this`bufferingBody, this`bufferingChunked, this`bodyRewritePlan, this`deferredHeaders
      ensures FlagsAgree() && Server() == Pass && toClient == relayed && serverToClientBytes == |relayed|
      ensures relayed == old(relayed) + (old(Server()).deferred.headers + bodyBuffer)
    {
      hide Forbidden;
      var d := LeaveBuffering();
      Write(d.headers + bodyBuffer);
    }

    /** The chunked message is complete. */
    method FlushChunked()
      requires FlagsAgree() && bufferingBody && !refused && toClient == relayed && serverToClientBytes == |relayed|
      requires Decode(bodyBuffer).Some?
      modifies this`toClient, this`relayed, this`serverToClientBytes, this`firstResponseFiltered,
               this`bufferingBody, this`bufferingChunked, this`bodyRewritePlan, this`deferredHeaders
      ensures FlagsAgree() && Server() == Pass && toClient == relayed && serverToClientBytes == |relayed|
      ensures relayed == old(relayed) + SendChunked(conn, old(Server()).deferred, bodyBuffer)
    {
      hide Forbidden, SendChunked, DecodeFrom;
      var d := LeaveBuffering();
      WriteChunked(d);
    }

    /** The body has its announced length: what follows it is sent behind it. */
    method FlushLength()
      requires FlagsAgree() && bufferingBody && !refused && toClient == relayed && serverToClientBytes == |relayed|
      requires expectedBodyLen.Some? && |bodyBuffer| >= expectedBodyLen.value
      modifies this`toClient, this`relayed, this`serverToClientBytes, this`firstResponseFiltered,
               this`bufferingBody, this`bufferingChunked, this`bodyRewritePlan, this`deferredHeaders
      ensures FlagsAgree() && Server() == Pass && toClient == relayed && serverToClientBytes == |relayed|
      ensures var n := expectedBodyLen.value;
              relayed == old(relayed) + (SendWhole(conn, old(Server()).deferred, bodyBuffer[..n]) + bodyBuffer[n..])
    {
      hide Forbidden, SendWhole;
      var d := LeaveBuffering();
      WriteWhole(d, bodyBuffer[..expectedBodyLen.value]);
      if |bodyBuffer| > expectedBodyLen.value {
        Write(bodyBuffer[expectedBodyLen.value..]);
      }
    }

    /** A read while the body is buffered. */
    method BodyRead(seg: Bytes)
      requires FlagsAgree() && CountersAgree() && bufferingBody && !refused
      modifies this`toClient, this`relayed, this`serverToClientBytes, this`firstResponseFiltered,
               this`bufferingBody, this`bufferingChunked, this`bodyRewritePlan, this`deferredHeaders, this`bodyBuffer
      ensures FlagsAgree() && CountersAgree()
      ensures var next := OnBody(conn, old(Server()).deferred, old(Server()).buffer + seg);
              Server() == next.0 && relayed == old(relayed) + next.1
    {
      hide Forbidden, SendChunked, SendWhole, DecodeFrom;
      bodyBuffer := bodyBuffer + seg;
      var plan := bodyRewritePlan.value;
      var atLimit := |bodyBuffer| >= plan.maxBodyBytes;
      var atContentLength := expectedBodyLen.Some? && |bodyBuffer| >= expectedBodyLen.value;
      var chunkedParsed: Option<Decoded> := None;
      if bufferingChunked && !atLimit {
        chunkedParsed := TryDecodeChunkedMessage(bodyBuffer);
      }
      if atLimit && chunkedParsed.None? && !atContentLength {
        FlushRaw();
      } else if chunkedParsed.Some? {
        FlushChunked();
      } else if atContentLength {
        FlushLength();
      }
    }

    /** A read while the response head is buffered. */
    method HeadRead(engine: Engine, seg: Bytes)
      requires FlagsAgree() && CountersAgree() && !refused
      requires !bufferingBody && !firstResponseFiltered && !upstreamClosed
      modifies this`toClient, this`relayed, this`serverToClientBytes, this`pending, this`firstResponseFiltered,
               this`bufferingBody, this`bufferingChunked, this`bodyRewritePlan, this`deferredHeaders,
               this`expectedBodyLen, this`bodyBuffer, this`bufferedContentEncoding, this`policyRuns
      ensures FlagsAgree() && CountersAgree()
      ensures var next := OnHead(conn, engine, old(pending) + seg);
              Server() == next.0 && relayed == old(relayed) + next.1
      ensures policyRuns == old(policyRuns) + if RunsPolicy(Head(old(pending)), seg) then 1 else 0
    {
      hide Forbidden, HeadersEnd, Enter;
      pending := pending + seg;
      if |pending| > MAX_HEADER_BYTES {
        Write(pending);
        pending := [];
        firstResponseFiltered := true;
        return;
      }
      var headerEnd := HeadersEnd(pending);
      if headerEnd.Some? {
        HeadersEndBounds(pending);
        var block, remainder := pending[..headerEnd.value], pending[headerEnd.value..];
        pending := [];
        firstResponseFiltered := true;
        HeadComplete(engine, block, remainder);
      }
    }

    /** Enter body buffering mode. */
    method StartBuffering(d: Deferred, remainder: Bytes)
      requires !bufferingBody && firstResponseFiltered && !upstreamClosed && pending == []
      modifies this`bufferingBody, this`bufferingChunked, this`bodyRewritePlan, this`deferredHeaders,
               this`expectedBodyLen, this`bodyBuffer, this`bufferedContentEncoding
      ensures FlagsAgree() && Server() == Body(d, remainder)
    {
      deferredHeaders := Some(d.headers);
      expectedBodyLen := if d.framing.Length? then Some(d.framing.n) else None;
      bodyRewritePlan := Some(d.plan);
      bufferingBody := true;
      bufferingChunked := d.framing.ChunkedBody?;
      bufferedContentEncoding := d.encoding;
      bodyBuffer := remainder;
    }

    /** The response head is complete: apply the header policy and decide whether to buffer the body. */
    method HeadComplete(engine: Engine, block: Bytes, remainder: Bytes)
      requires FlagsAgree() && CountersAgree() && !refused
      requires !bufferingBody && firstResponseFiltered && !upstreamClosed
      modifies this`toClient, this`relayed, this`serverToClientBytes,
               this`bufferingBody, this`bufferingChunked, this`bodyRewritePlan, this`deferredHeaders,
               this`expectedBodyLen, this`bodyBuffer, this`bufferedContentEncoding, this`policyRuns
      ensures FlagsAgree() && CountersAgree()
      ensures var next := Enter(conn, engine, block, remainder);
              Server() == next.0 && relayed == old(relayed) + next.1
      ensures policyRuns == old(policyRuns) + 1
    {
      hide OutputHeaders, PlanForBody, ExtractContentEncoding, ExtractContentLength, ResponseIsHtml, HasChunked, EncodingOk,
        Forbidden;
      var outputHeaders := OutputHeaders(engine, conn.host, conn.sourceIp, block);
      policyRuns := policyRuns + 1;
      var plan := PlanForBody(engine, conn.host);
      var encoding := ExtractContentEncoding(outputHeaders);
      var isChunked := HasChunked(outputHeaders);
      var canRewrite := plan.shouldRewrite && ResponseIsHtml(outputHeaders) && EncodingOk(encoding);
      if canRewrite {
        var contentLength := ExtractContentLength(outputHeaders);
        if contentLength.Some? && contentLength.value > plan.maxBodyBytes {
          WriteThrough(outputHeaders, remainder);
        } else {
          var framing :=
            if isChunked then ChunkedBody
            else if contentLength.Some? then Length(contentLength.value)
            else UntilEof;
          StartBuffering(Deferred(plan, outputHeaders, framing, encoding), remainder);
        }
      } else {
        WriteThrough(outputHeaders, remainder);
      }
    }

    /** What the loop has written is what the machine has. */
    lemma WrittenIsAbstract()
      requires Valid()
      ensures toClient == Abstract().ToClient() && toUpstream == Abstract().toUpstream
    {
      hide Forbidden, ValidState, FlagsAgree, Server;
    }

    /** One turn of the loop; a disabled arm is not polled. */
    method Turn(ev: Event)
      requires Valid()
      modifies this
      ensures Valid()
      ensures Abstract() == Step(conn, old(Abstract()), ev)
    {
      hide Forbidden, OnClient, OnUpstream, ValidState, CountersAgree;
      if refused || (clientClosed && upstreamClosed) { return; }
      match ev {
        case FromClient(engine, seg) =>
          if !clientClosed { ClientArm(engine, seg); }
        case FromUpstream(engine, seg) =>
          if !upstreamClosed { UpstreamArm(engine, seg); }
      }
    }
  }

  /** The rewrites of the first request in the order the client arm tries them. */
  method RewriteFirst(buf: Bytes, spoofReferer: bool, stripQuery: bool, tracker: bool) returns (outgoing: Option<Bytes>)
    ensures outgoing == RewriteFirstRequest(buf, spoofReferer, stripQuery, tracker)
  {
    hide InjectReferer, StripQuery, StripConditional;
    outgoing := None;
    if spoofReferer {
      var modified := InjectReferer(buf);
      if modified.Some? { outgoing := modified; }
    }
    if stripQuery {
      var src := if outgoing.Some? then outgoing.value else buf;
      var stripped := StripTrackingQueryParams(src);
      if stripped.Some? { outgoing := stripped; }
    }
    if tracker {
      var src := if outgoing.Some? then outgoing.value else buf;
      var stripped := StripConditional(src);
      if stripped.Some? { outgoing := stripped; }
    }
  }

  /** The whole loop over any schedule of reads does what the machine does. */
  method Serve(conn: Conn, events: seq<Event>) returns (toClient: Bytes, toUpstream: Bytes)
    ensures toClient == Run(conn, events).ToClient()
    ensures toUpstream == Run(conn, events).toUpstream
  {
    hide Step, ValidState, Forbidden, Run, Loop.Valid, Loop.Abstract;
    var loop := new Loop(conn);
    assert events[..0] == [];
    RunOfNothing(conn);
    for i := 0 to |events|
      invariant loop.Valid() && loop.conn == conn && fresh(loop)
      invariant loop.Abstract() == Run(conn, events[..i])
    {
      assert events[..i + 1][..i] == events[..i];
      RunUnfolds(conn, events[..i + 1]);
      loop.Turn(events[i]);
    }
    assert events[..|events|] == events;
    loop.WrittenIsAbstract();
    toClient, toUpstream := loop.toClient, loop.toUpstream;
  }
}
