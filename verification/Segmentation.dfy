/**
  Whether the client's stream depends on how the network cuts the upstream stream into reads.
  For one upstream stream there are at most three possible client streams; this module says which, and exactly when
  there is only one.
 */
module Segmentation {
  import opened Text
  import opened Headers
  import opened Chunked
  import opened Policy
  import opened Relay
  import opened RelayRuns
  import opened CookieStripping
  import opened RebuiltHeads

  // ---------------------------------------------------------------- cutting a stream

  function Concat(segs: seq<Bytes>): Bytes {
    if segs == [] then [] else segs[0] + Concat(segs[1..])
  }

  predicate Readable(segs: seq<Bytes>) {
    forall s | s in segs :: 0 < |s| <= READ_SIZE
  }

  /** `segs` is one way of reading `u`. */
  predicate Cut(segs: seq<Bytes>, u: Bytes) {
    Readable(segs) && Concat(segs) == u
  }

  lemma {:induction false} ConcatAppend(a: seq<Bytes>, b: seq<Bytes>)
    ensures Concat(a + b) == Concat(a) + Concat(b)
  {
    if a == [] {
      assert a + b == b;
    } else {
      assert (a + b)[1..] == a[1..] + b;
      ConcatAppend(a[1..], b);
      assert a[0] + (Concat(a[1..]) + Concat(b)) == Concat(a) + Concat(b);
    }
  }

  lemma CutAppend(a: seq<Bytes>, u: Bytes, b: seq<Bytes>, v: Bytes)
    requires Cut(a, u) && Cut(b, v)
    ensures Cut(a + b, u + v)
  {
    ConcatAppend(a, b);
  }

  lemma CutOne(s: Bytes)
    requires 0 < |s| <= READ_SIZE
    ensures Cut([s], s)
  {
    assert Concat([s]) == s + Concat([]);
  }

  /** Full reads. */
  function Pieces(s: Bytes): (segs: seq<Bytes>)
    ensures Cut(segs, s)
  {
    if s == [] then []
    else if |s| <= READ_SIZE then CutOne(s); [s]
    else
      var rest := Pieces(s[READ_SIZE..]);
      assert s == s[..READ_SIZE] + s[READ_SIZE..];
      assert ([s[..READ_SIZE]] + rest)[1..] == rest;
      [s[..READ_SIZE]] + rest
  }

  /** Everything the client is sent when the reads are `segs` and then EOF comes, starting from `ph`. */
  function Delivery(conn: Conn, engine: Engine, ph: Phase, segs: seq<Bytes>): Bytes
    decreases |segs|
  {
    if segs == [] then OnEof(conn, ph)
    else
      var (next, out) := OnRead(conn, engine, ph, segs[0]);
      out + Delivery(conn, engine, next, segs[1..])
  }

  lemma {:induction false} PassDelivery(conn: Conn, engine: Engine, segs: seq<Bytes>)
    ensures Delivery(conn, engine, Pass, segs) == Concat(segs)
  {
    if segs != [] {
      PassDelivery(conn, engine, segs[1..]);
    }
  }

  lemma {:induction false} DeliveryStep(conn: Conn, engine: Engine, ph: Phase, seg: Bytes, rest: seq<Bytes>)
    ensures Delivery(conn, engine, ph, [seg] + rest) ==
            OnRead(conn, engine, ph, seg).1 + Delivery(conn, engine, OnRead(conn, engine, ph, seg).0, rest)
  {
    hide OnRead;
    assert ([seg] + rest)[1..] == rest;
  }

  // ---------------------------------------------------------------- body: two possible outcomes

  /** What happens to a body stream `b` in the ordinary case. */
  function BodyMain(conn: Conn, d: Deferred, b: Bytes): Bytes {
    match d.framing
    case ChunkedBody =>
      if Decode(b).Some? && Decode(b).value.consumed < d.plan.maxBodyBytes then SendChunked(conn, d, b) else d.headers + b
    case Length(n) => if |b| > n then SendWhole(conn, d, b[..n]) + b[n..] else SendWhole(conn, d, b)
    case UntilEof => if b != [] && |b| >= d.plan.maxBodyBytes then d.headers + b else SendWhole(conn, d, b)
  }

  /** The other thing that can happen: EOF finds the whole body unexamined, or one read jumps over the limit. */
  function BodyAlt(conn: Conn, d: Deferred, b: Bytes): Bytes {
    match d.framing
    case ChunkedBody =>
      if Decode(b).Some? && Decode(b).value.consumed >= d.plan.maxBodyBytes then SendChunked(conn, d, b) else d.headers + b
    case Length(n) => SendWhole(conn, d, b)
    case UntilEof => SendWhole(conn, d, b)
  }

  /** When only the first is possible, if at most `room` body bytes can come with the end of the head. */
  predicate BodyStable(d: Deferred, b: Bytes, room: nat) {
    var max := d.plan.maxBodyBytes;
    match d.framing
    case ChunkedBody =>
      Decode(b).Some? ==>
        var n := Decode(b).value.consumed;
        || (n < max && (|b| < max || (n - 1 + READ_SIZE < max && room + READ_SIZE < max)))
        || (n >= max && |b| > room)
    case Length(n) => |b| <= n || |b| > room
    case UntilEof => b == [] || |b| < max || |b| > room
  }

  /** A buffer that a read has examined and left alone. */
  predicate Waiting(d: Deferred, buffer: Bytes) {
    match d.framing
    case ChunkedBody => |buffer| < d.plan.maxBodyBytes && Decode(buffer).None?
    case Length(n) => |buffer| < n
    case UntilEof => |buffer| < d.plan.maxBodyBytes
  }

  predicate ValidDeferred(d: Deferred) {
    d.framing.Length? ==> d.framing.n <= d.plan.maxBodyBytes
  }

  lemma SendChunkedAppend(conn: Conn, d: Deferred, raw: Bytes, more: Bytes)
    requires Decode(raw).Some?
    ensures Decode(raw + more) == Decode(raw)
    ensures SendChunked(conn, d, raw + more) == SendChunked(conn, d, raw) + more
  {
    hide DecodeFrom, AttemptRewrite, ReplaceChunked;
    DecodeStable(raw, more);
    var n := Decode(raw).value.consumed;
    assert (raw + more)[n..] == raw[n..] + more;
  }

  /** EOF while buffering. */
  lemma BodyEof(conn: Conn, d: Deferred, b: Bytes, room: nat, entering: bool)
    requires if entering then |b| <= room else Waiting(d, b)
    ensures var r := OnEof(conn, Body(d, b));
            (r == BodyMain(conn, d, b) || r == BodyAlt(conn, d, b)) && (BodyStable(d, b, room) ==> r == BodyMain(conn, d, b))
  {
    hide SendChunked, SendWhole, DecodeFrom;
  }

  /** A read that ends the buffering. */
  lemma BodyEnds(conn: Conn, d: Deferred, buffer: Bytes, seg: Bytes, rest: Bytes, room: nat, entering: bool)
    requires ValidDeferred(d) && 0 < |seg| <= READ_SIZE
    requires if entering then |buffer| <= room else Waiting(d, buffer)
    requires OnBody(conn, d, buffer + seg).0.Pass?
    ensures var b := buffer + seg + rest;
            var r := OnBody(conn, d, buffer + seg).1 + rest;
            (r == BodyMain(conn, d, b) || r == BodyAlt(conn, d, b)) && (BodyStable(d, b, room) ==> r == BodyMain(conn, d, b))
  {
    hide SendChunked, SendWhole, DecodeFrom;
    var buf, b := buffer + seg, buffer + seg + rest;
    match d.framing
    case ChunkedBody =>
      DecodePrefix(buffer, seg + rest);
      assert buffer + (seg + rest) == b;
      assert d.headers + buf + rest == d.headers + b;
      if |buf| < d.plan.maxBodyBytes {
        SendChunkedAppend(conn, d, buf, rest);
      }
    case Length(n) =>
      assert b[..n] == buf[..n] && b[n..] == buf[n..] + rest;
      assert SendWhole(conn, d, buf[..n]) + buf[n..] + rest == SendWhole(conn, d, b[..n]) + b[n..];
      if |b| == n { assert b[..n] == b && b[n..] == []; }
    case UntilEof =>
      assert d.headers + buf + rest == d.headers + b;
  }

  /** From the body phase on, a stream has at most two outcomes, and one if it is stable. */
  lemma {:induction false} BodyDelivery(conn: Conn, engine: Engine, d: Deferred, buffer: Bytes, segs: seq<Bytes>, room: nat,
                                        entering: bool)
    requires ValidDeferred(d) && Readable(segs)
    requires if entering then |buffer| <= room else Waiting(d, buffer)
    ensures var b := buffer + Concat(segs);
            var r := Delivery(conn, engine, Body(d, buffer), segs);
            (r == BodyMain(conn, d, b) || r == BodyAlt(conn, d, b)) && (BodyStable(d, b, room) ==> r == BodyMain(conn, d, b))
    decreases |segs|
  {
    hide OnBody, BodyMain, BodyAlt, BodyStable, Waiting, OnEof, Decode;
    if segs == [] {
      assert buffer + Concat(segs) == buffer;
      BodyEof(conn, d, buffer, room, entering);
    } else {
      var seg, rest := segs[0], segs[1..];
      assert seg in segs;
      assert buffer + seg + Concat(rest) == buffer + Concat(segs);
      BodyStep(conn, d, buffer + seg);
      if OnBody(conn, d, buffer + seg).0.Pass? {
        PassDelivery(conn, engine, rest);
        BodyEnds(conn, d, buffer, seg, Concat(rest), room, entering);
      } else {
        BodyDelivery(conn, engine, d, buffer + seg, rest, room, false);
        assert [] + Delivery(conn, engine, Body(d, buffer + seg), rest) == Delivery(conn, engine, Body(d, buffer + seg), rest);
      }
    }
  }

  lemma BodyStep(conn: Conn, d: Deferred, buffer: Bytes)
    ensures OnBody(conn, d, buffer).0.Pass? || (OnBody(conn, d, buffer) == (Body(d, buffer), []) && Waiting(d, buffer))
    ensures ValidDeferred(d) && Waiting(d, buffer) ==> OnBody(conn, d, buffer) == (Body(d, buffer), [])
  {
    hide SendChunked, SendWhole, DecodeFrom;
  }

  // ---------------------------------------------------------------- whole streams

  /** What the client is sent for `u` in the ordinary case. */
  function Delivered(conn: Conn, engine: Engine, u: Bytes): Bytes {
    HeadersEndBounds(u);
    match HeadersEnd(u)
    case None => u
    case Some(e) =>
      if e > MAX_HEADER_BYTES then u
      else
        match Deferral(conn, engine, u[..e])
        case None => OutputHeaders(engine, conn.host, conn.sourceIp, u[..e]) + u[e..]
        case Some(d) => BodyMain(conn, d, u[e..])
  }

  function Alternative(conn: Conn, engine: Engine, u: Bytes): Bytes {
    HeadersEndBounds(u);
    match HeadersEnd(u)
    case None => u
    case Some(e) =>
      if e > MAX_HEADER_BYTES then u
      else
        match Deferral(conn, engine, u[..e])
        case None => OutputHeaders(engine, conn.host, conn.sourceIp, u[..e]) + u[e..]
        case Some(d) => BodyAlt(conn, d, u[e..])
  }

  /** The response head ends so close to the limit that the read that completes it may overshoot it. */
  predicate Gap(u: Bytes) {
    HeadersEnd(u).Some? && MAX_HEADER_BYTES - READ_SIZE + 1 < HeadersEnd(u).value <= MAX_HEADER_BYTES && |u| > MAX_HEADER_BYTES
  }

  /** How many body bytes can come with the end of the head. */
  function Room(u: Bytes): (room: nat)
    ensures room < READ_SIZE
  {
    if Gap(u) then MAX_HEADER_BYTES - HeadersEnd(u).value else READ_SIZE - 1
  }

  predicate Stable(conn: Conn, engine: Engine, u: Bytes) {
    HeadersEndBounds(u);
    match HeadersEnd(u)
    case None => true
    case Some(e) =>
      e <= MAX_HEADER_BYTES && Deferral(conn, engine, u[..e]).Some? ==>
        BodyStable(Deferral(conn, engine, u[..e]).value, u[e..], Room(u))
  }

  lemma DeferralValid(conn: Conn, engine: Engine, block: Bytes)
    ensures Deferral(conn, engine, block).Some? ==> ValidDeferred(Deferral(conn, engine, block).value)
  {
    hide OutputHeaders, PlanForBody, ExtractContentEncoding, ExtractContentLength, ResponseIsHtml, HasChunked, EncodingOk;
  }

  /** A head that is not complete in a prefix ends beyond it. */
  lemma HeadEndsLater(p: Bytes, more: Bytes)
    requires HeadersEnd(p).None? && HeadersEnd(p + more).Some?
    ensures HeadersEnd(p + more).value > |p|
  {
    hide FindBlank;
    var i := FindBlank(p + more, 0).value;
    assert i + 4 <= |p| ==> BlankAt(p, i);
  }

  /** The read that completes the head: everything after it is decided. */
  lemma EnterDelivery(conn: Conn, engine: Engine, p: Bytes, e: nat, segs: seq<Bytes>)
    requires HeadersEnd(p) == Some(e) && e <= |p| <= MAX_HEADER_BYTES && |p| - e < READ_SIZE && Readable(segs)
    ensures |p| - e <= Room(p + Concat(segs))
    ensures var u := p + Concat(segs);
            var (next, out) := OnHead(conn, engine, p);
            var r := out + Delivery(conn, engine, next, segs);
            && (r == Delivered(conn, engine, u) || r == Alternative(conn, engine, u))
            && (Stable(conn, engine, u) ==> r == Delivered(conn, engine, u))
  {
    hide Deferral, OutputHeaders, HeadersEnd, BodyMain, BodyAlt, BodyStable, Delivery;
    var u := p + Concat(segs);
    HeadersEndStable(p, Concat(segs));
    assert u[e..] == p[e..] + Concat(segs);
    match Deferral(conn, engine, p[..e])
    case None =>
      PassDelivery(conn, engine, segs);
      var head := OutputHeaders(engine, conn.host, conn.sourceIp, p[..e]);
      assert head + p[e..] + Concat(segs) == head + u[e..];
    case Some(d) =>
      DeferralValid(conn, engine, p[..e]);
      BodyDelivery(conn, engine, d, p[e..], segs, Room(u), true);
      assert [] + Delivery(conn, engine, Body(d, p[e..]), segs) == Delivery(conn, engine, Body(d, p[e..]), segs);
  }

  /** A read that overshoots the head limit without having completed a head before. */
  lemma OversizeDelivery(conn: Conn, engine: Engine, pending: Bytes, seg: Bytes, rest: Bytes)
    requires HeadersEnd(pending).None? && 0 < |seg| <= READ_SIZE && |pending + seg| > MAX_HEADER_BYTES
    ensures var u := pending + seg + rest;
            Gap(u) || (u == Delivered(conn, engine, u) && u == Alternative(conn, engine, u))
  {
    hide Deferral, OutputHeaders, HeadersEnd, BodyMain, BodyAlt;
    var u := pending + seg + rest;
    assert u == pending + (seg + rest);
    if HeadersEnd(u).Some? {
      HeadEndsLater(pending, seg + rest);
    }
  }

  /** Every way of reading `u` gives one of the described streams. */
  lemma {:induction false} HeadDelivery(conn: Conn, engine: Engine, pending: Bytes, segs: seq<Bytes>)
    requires |pending| <= MAX_HEADER_BYTES && HeadersEnd(pending).None? && Readable(segs)
    ensures var u := pending + Concat(segs);
            var r := Delivery(conn, engine, Head(pending), segs);
            || (r == u && Gap(u))
            || ((r == Delivered(conn, engine, u) || r == Alternative(conn, engine, u))
                && (Stable(conn, engine, u) ==> r == Delivered(conn, engine, u)))
    decreases |segs|
  {
    hide Deferral, OutputHeaders, HeadersEnd, BodyMain, BodyAlt, Delivered, Alternative, Stable, Enter, Gap;
    if segs == [] {
      assert pending + Concat(segs) == pending;
      NoHeadDelivered(conn, engine, pending);
    } else {
      var seg, rest := segs[0], segs[1..];
      assert seg in segs;
      var p := pending + seg;
      assert p + Concat(rest) == pending + Concat(segs);
      DeliveryStep(conn, engine, Head(pending), seg, rest);
      assert [seg] + rest == segs;
      if |p| > MAX_HEADER_BYTES {
        PassDelivery(conn, engine, rest);
        OversizeDelivery(conn, engine, pending, seg, Concat(rest));
      } else if HeadersEnd(p).Some? {
        HeadersEndBounds(p);
        HeadEndsLater(pending, seg);
        EnterDelivery(conn, engine, p, HeadersEnd(p).value, rest);
      } else {
        HeadDelivery(conn, engine, p, rest);
        assert [] + Delivery(conn, engine, Head(p), rest) == Delivery(conn, engine, Head(p), rest);
      }
    }
  }

  lemma NoHeadDelivered(conn: Conn, engine: Engine, u: Bytes)
    requires HeadersEnd(u).None?
    ensures Delivered(conn, engine, u) == u
  {
  }

  lemma NothingPending()
    ensures HeadersEnd([]).None?
  {
  }

  /** The first `n` body bytes are a body the relay will try to rewrite: a chunked message below the size limit, the
      announced length or what came of it, or everything up to EOF below the limit. */
  predicate Rewritable(d: Deferred, b: Bytes, n: nat) {
    match d.framing
    case ChunkedBody => Decode(b).Some? && n == Decode(b).value.consumed && n < d.plan.maxBodyBytes
    case Length(k) => n == if |b| < k then |b| else k
    case UntilEof => n == |b| && (b == [] || |b| < d.plan.maxBodyBytes)
  }

  /** What the ordinary outcome is: a body that can be rewritten is, behind its new head and in front of the rest; */
  lemma DeliveredRewritten(conn: Conn, engine: Engine, u: Bytes, e: nat, d: Deferred, n: nat, body: Bytes)
    requires HeadersEnd(u) == Some(e) && e <= MAX_HEADER_BYTES && e + n <= |u| && Deferral(conn, engine, u[..e]) == Some(d)
    requires Rewritable(d, u[e..], n) && RewrittenFrom(conn, d, u[e..e + n], body)
    ensures Delivered(conn, engine, u) == NewHead(d, |body|) + body + u[e + n..]
  {
    hide HeadersEnd, Deferral, AttemptRewrite, DecodeFrom, ReplaceChunked, ReplaceContentLength, OutputHeaders;
    var b := u[e..];
    assert b[..n] == u[e..e + n] && b[n..] == u[e + n..];
    if d.framing.ChunkedBody? {
      DecodeStable(b, []);
    } else if n == |b| {
      assert b[..n] == b && b[n..] == [];
      var head := ReplaceContentLength(d.headers, |body|);
      assert head + body + [] == head + body;
    }
  }

  /** any other is passed on behind the head the header policy gives. */
  lemma DeliveredRaw(conn: Conn, engine: Engine, u: Bytes, e: nat, d: Deferred)
    requires HeadersEnd(u) == Some(e) && e <= MAX_HEADER_BYTES && e <= |u| && Deferral(conn, engine, u[..e]) == Some(d)
    requires forall n: nat, body | Rewritable(d, u[e..], n) :: !Rewrites(conn, engine, u, e, n, body)
    ensures Delivered(conn, engine, u) == OutputHeaders(engine, conn.host, conn.sourceIp, u[..e]) + u[e..]
  {
    hide HeadersEnd, Deferral, OutputHeaders, AttemptRewrite, DecodeFrom, ReplaceChunked, ReplaceContentLength;
    DeferralHeaders(conn, engine, u[..e]);
    var b := u[e..];
    var n := match d.framing
             case ChunkedBody => if Decode(b).Some? then Decode(b).value.consumed else 0
             case Length(k) => if |b| < k then |b| else k
             case UntilEof => |b|;
    if d.framing.ChunkedBody? && Decode(b).Some? { DecodeStable(b, []); }
    assert b[..n] == u[e..e + n] && b == b[..n] + b[n..];
    assert n == |b| ==> b[..n] == b && b[n..] == [];
    if Rewritable(d, b, n) { NotRewritten(conn, engine, u, e, n, d); }
  }

  lemma NotRewritten(conn: Conn, engine: Engine, u: Bytes, e: nat, n: nat, d: Deferred)
    requires e + n <= |u| && Deferral(conn, engine, u[..e]) == Some(d)
    requires forall body :: !Rewrites(conn, engine, u, e, n, body)
    ensures var wire := u[e..e + n];
            if d.framing.ChunkedBody?
            then Decode(wire).Some? && Decode(wire).value.consumed == n ==>
                   AttemptRewrite(conn.codec, Decode(wire).value.body, d.plan, d.encoding).None?
            else AttemptRewrite(conn.codec, wire, d.plan, d.encoding).None?
  {
    hide AttemptRewrite, DecodeFrom, Deferral;
    var wire := u[e..e + n];
    var source := if d.framing.ChunkedBody? && Decode(wire).Some? then Decode(wire).value.body else wire;
    var r := AttemptRewrite(conn.codec, source, d.plan, d.encoding);
    if r.Some? { assert !Rewrites(conn, engine, u, e, n, r.value); }
  }

  /** Segmentation independence: away from the head limit, any way of reading a stable stream gives the same bytes. */
  lemma SegmentationIndependence(conn: Conn, engine: Engine, u: Bytes, segs: seq<Bytes>)
    requires Cut(segs, u) && Stable(conn, engine, u) && !Gap(u)
    ensures Delivery(conn, engine, Head([]), segs) == Delivered(conn, engine, u)
  {
    hide Delivered, Alternative, Stable, Gap, Delivery;
    NothingPending();
    HeadDelivery(conn, engine, [], segs);
    assert [] + Concat(segs) == u;
  }

  // ---------------------------------------------------------------- the exceptions are real

  /** Reads that leave the head incomplete only fill the buffer. */
  lemma {:induction false} HeadFeed(conn: Conn, engine: Engine, pending: Bytes, segs: seq<Bytes>, more: seq<Bytes>)
    requires HeadersEnd(pending + Concat(segs)).None? && |pending + Concat(segs)| <= MAX_HEADER_BYTES
    ensures Delivery(conn, engine, Head(pending), segs + more) ==
            Delivery(conn, engine, Head(pending + Concat(segs)), more)
    decreases |segs|
  {
    hide HeadersEnd, Enter, Delivery;
    if segs == [] {
      assert segs + more == more && pending + Concat(segs) == pending;
    } else {
      var p := pending + segs[0];
      assert p + Concat(segs[1..]) == pending + Concat(segs);
      assert segs + more == [segs[0]] + (segs[1..] + more);
      DeliveryStep(conn, engine, Head(pending), segs[0], segs[1..] + more);
      if HeadersEnd(p).Some? { HeadersEndStable(p, Concat(segs[1..])); }
      HeadFeed(conn, engine, p, segs[1..], more);
    }
  }

  lemma WaitingPrefix(d: Deferred, buffer: Bytes, more: Bytes)
    requires Waiting(d, buffer + more)
    ensures Waiting(d, buffer)
  {
    hide DecodeFrom;
    DecodePrefix(buffer, more);
  }

  /** Reads that leave the body waiting only fill the buffer. */
  lemma {:induction false} BodyFeed(conn: Conn, engine: Engine, d: Deferred, buffer: Bytes, segs: seq<Bytes>, more: seq<Bytes>)
    requires ValidDeferred(d) && Waiting(d, buffer + Concat(segs))
    ensures Delivery(conn, engine, Body(d, buffer), segs + more) ==
            Delivery(conn, engine, Body(d, buffer + Concat(segs)), more)
    decreases |segs|
  {
    hide Waiting, OnBody, Delivery;
    if segs == [] {
      assert segs + more == more && buffer + Concat(segs) == buffer;
    } else {
      var buf := buffer + segs[0];
      assert buf + Concat(segs[1..]) == buffer + Concat(segs);
      assert segs + more == [segs[0]] + (segs[1..] + more);
      DeliveryStep(conn, engine, Body(d, buffer), segs[0], segs[1..] + more);
      WaitingPrefix(d, buf, Concat(segs[1..]));
      BodyStep(conn, d, buf);
      BodyFeed(conn, engine, d, buf, segs[1..], more);
    }
  }

  /** A read that ends the buffering, followed by any cut of the rest. */
  lemma BodyEndsWith(conn: Conn, engine: Engine, d: Deferred, buffer: Bytes, seg: Bytes, rest: seq<Bytes>)
    requires OnBody(conn, d, buffer + seg).0.Pass?
    ensures Delivery(conn, engine, Body(d, buffer), [seg] + rest) == OnBody(conn, d, buffer + seg).1 + Concat(rest)
  {
    hide OnBody, Delivery;
    DeliveryStep(conn, engine, Body(d, buffer), seg, rest);
    PassDelivery(conn, engine, rest);
  }

  /** One way of reading the body behind a head that was completed with `x` body bytes in the same read. */
  datatype BodyCut = BodyCut(x: nat, more: seq<Bytes>)

  predicate CutsBody(c: BodyCut, b: Bytes, room: nat) {
    c.x <= room && c.x <= |b| && Cut(c.more, b[c.x..])
  }

  function BodyStream(conn: Conn, engine: Engine, d: Deferred, b: Bytes, c: BodyCut): Bytes
    requires c.x <= |b|
  {
    Delivery(conn, engine, Body(d, b[..c.x]), c.more)
  }

  /** The whole body comes with the head, and EOF follows. */
  lemma AllAtOnce(conn: Conn, engine: Engine, d: Deferred, b: Bytes, room: nat) returns (c: BodyCut)
    requires |b| <= room
    ensures CutsBody(c, b, room) && BodyStream(conn, engine, d, b, c) == OnEof(conn, Body(d, b))
  {
    c := BodyCut(|b|, []);
    assert b[..|b|] == b && b[|b|..] == [];
  }

  /** The reads stop at `x`, then one read goes to `y`, and the rest follows. */
  lemma StopAndJump(conn: Conn, engine: Engine, d: Deferred, b: Bytes, room: nat, x: nat, y: nat)
    returns (c: BodyCut)
    requires ValidDeferred(d) && x < y <= |b| && y - x <= READ_SIZE
    requires x <= room || Waiting(d, b[..x])
    requires OnBody(conn, d, b[..y]).0.Pass?
    ensures CutsBody(c, b, room) && BodyStream(conn, engine, d, b, c) == OnBody(conn, d, b[..y]).1 + b[y..]
  {
    hide OnBody, Waiting, Delivery, Cut;
    assert b[..x] + b[x..y] == b[..y];
    var tail := [b[x..y]] + Pieces(b[y..]);
    TailCut(b, x, y);
    BodyEndsWith(conn, engine, d, b[..x], b[x..y], Pieces(b[y..]));
    CutConcat(Pieces(b[y..]), b[y..]);
    if x <= room {
      c := BodyCut(x, tail);
    } else {
      c := BodyCut(0, Pieces(b[..x]) + tail);
      CutAppend(Pieces(b[..x]), b[..x], tail, b[x..]);
      assert b[..x] + b[x..] == b == b[0..];
      CutConcat(Pieces(b[..x]), b[..x]);
      assert b[..0] == [] && [] + b[..x] == b[..x];
      BodyFeed(conn, engine, d, [], Pieces(b[..x]), tail);
    }
  }

  lemma TailCut(b: Bytes, x: nat, y: nat)
    requires x < y <= |b| && y - x <= READ_SIZE
    ensures Cut([b[x..y]] + Pieces(b[y..]), b[x..])
  {
    hide Cut;
    CutOne(b[x..y]);
    CutAppend([b[x..y]], b[x..y], Pieces(b[y..]), b[y..]);
    assert b[x..y] + b[y..] == b[x..];
  }

  /** A body that is not stable and not chunked can be read both ways. */
  lemma PlainBodyWitness(conn: Conn, engine: Engine, d: Deferred, b: Bytes, room: nat)
    returns (main: BodyCut, alt: BodyCut)
    requires ValidDeferred(d) && !d.framing.ChunkedBody? && !BodyStable(d, b, room) && room < READ_SIZE
    ensures CutsBody(main, b, room) && BodyStream(conn, engine, d, b, main) == BodyMain(conn, d, b)
    ensures CutsBody(alt, b, room) && BodyStream(conn, engine, d, b, alt) == BodyAlt(conn, d, b)
  {
    hide SendWhole, SendChunked, Decode, BodyStream, CutsBody;
    alt := AllAtOnce(conn, engine, d, b, room);
    assert b[..|b|] == b;
    main := StopAndJump(conn, engine, d, b, room, 0, |b|);
    assert b[|b|..] == [];
    assert OnBody(conn, d, b).1 + [] == OnBody(conn, d, b).1;
  }

  lemma NotYetDecoded(b: Bytes, x: nat)
    requires Decode(b).Some? && x < Decode(b).value.consumed && x <= |b|
    ensures Decode(b[..x]).None?
  {
    DecodeMinimal(b, x);
  }

  lemma SendChunkedPrefix(conn: Conn, d: Deferred, b: Bytes, y: nat)
    requires Decode(b).Some? && Decode(b).value.consumed <= y <= |b|
    ensures Decode(b[..y]) == Decode(b)
    ensures SendChunked(conn, d, b[..y]) + b[y..] == SendChunked(conn, d, b)
  {
    hide DecodeFrom, SendChunked;
    assert b[..y] + b[y..] == b;
    DecodePrefix(b[..y], b[y..]);
    SendChunkedAppend(conn, d, b[..y], b[y..]);
  }

  /** Stopping at `x` and jumping over the limit sends the raw stream. */
  lemma JumpOverLimit(conn: Conn, engine: Engine, d: Deferred, b: Bytes, room: nat, x: nat, y: nat)
    returns (c: BodyCut)
    requires d.framing.ChunkedBody? && x < y <= |b| && y - x <= READ_SIZE && y >= d.plan.maxBodyBytes
    requires x <= room || (x < d.plan.maxBodyBytes && Decode(b[..x]).None?)
    ensures CutsBody(c, b, room) && BodyStream(conn, engine, d, b, c) == d.headers + b
  {
    hide SendWhole, SendChunked, Decode, BodyStream, CutsBody;
    c := StopAndJump(conn, engine, d, b, room, x, y);
    assert d.headers + b[..y] + b[y..] == d.headers + b;
  }

  /** Stopping exactly at the end of the message sends it rewritten. */
  lemma StopAtMessage(conn: Conn, engine: Engine, d: Deferred, b: Bytes, room: nat) returns (c: BodyCut)
    requires d.framing.ChunkedBody? && Decode(b).Some? && Decode(b).value.consumed < d.plan.maxBodyBytes
    ensures CutsBody(c, b, room) && BodyStream(conn, engine, d, b, c) == SendChunked(conn, d, b)
  {
    hide SendWhole, SendChunked, DecodeFrom, BodyStream, CutsBody;
    var n := Decode(b).value.consumed;
    SendChunkedPrefix(conn, d, b, n);
    NotYetDecoded(b, n - 1);
    c := StopAndJump(conn, engine, d, b, room, n - 1, n);
  }

  /** A chunked body that is not stable can be read both ways. */
  lemma ChunkedBodyWitness(conn: Conn, engine: Engine, d: Deferred, b: Bytes, room: nat)
    returns (main: BodyCut, alt: BodyCut)
    requires d.framing.ChunkedBody? && !BodyStable(d, b, room) && room < READ_SIZE
    ensures CutsBody(main, b, room) && BodyStream(conn, engine, d, b, main) == BodyMain(conn, d, b)
    ensures CutsBody(alt, b, room) && BodyStream(conn, engine, d, b, alt) == BodyAlt(conn, d, b)
  {
    hide SendWhole, SendChunked, DecodeFrom, BodyStream, CutsBody, Waiting;
    var max, n := d.plan.maxBodyBytes, Decode(b).value.consumed;
    if n >= max {
      alt := AllAtOnce(conn, engine, d, b, room);
      main := JumpOverLimit(conn, engine, d, b, room, 0, |b|);
    } else {
      main := StopAtMessage(conn, engine, d, b, room);
      if max <= room + READ_SIZE {
        alt := JumpOverLimit(conn, engine, d, b, room, if max - 1 <= room then max - 1 else room, max);
      } else {
        NotYetDecoded(b, n - 1);
        alt := JumpOverLimit(conn, engine, d, b, room, n - 1, max);
      }
    }
  }

  /** A body cut behind a head cut is a cut of the whole stream with the same outcome. */
  lemma WholeCut(conn: Conn, engine: Engine, u: Bytes, e: nat, c: BodyCut) returns (segs: seq<Bytes>)
    requires HeadersEnd(u) == Some(e) && 4 <= e <= |u| && e <= MAX_HEADER_BYTES
    requires CutsBody(c, u[e..], READ_SIZE - 1) && e + c.x <= MAX_HEADER_BYTES
    ensures Cut(segs, u)
    ensures var (next, out) := Enter(conn, engine, u[..e], u[e..][..c.x]);
            Delivery(conn, engine, Head([]), segs) == out + Delivery(conn, engine, next, c.more)
  {
    hide HeadersEnd, Enter, Delivery, Cut, Concat;
    var k, m := e - 1, e + c.x;
    var front, mid := Pieces(u[..k]), u[k..m];
    segs := front + ([mid] + c.more);
    assert u[e..][c.x..] == u[m..];
    ThreeCuts(u, k, m, c.more);
    HeadCompleteAt(u, e, k, m);
    ReachHead(conn, engine, u, k, [mid] + c.more);
    DeliveryStep(conn, engine, Head(u[..k]), mid, c.more);
    assert u[..k] + mid == u[..m];
    assert u[..m][..e] == u[..e] && u[..m][e..] == u[e..][..c.x];
  }

  /** Full reads up to `k`, one read up to `m`, and any cut of the rest. */
  lemma ThreeCuts(u: Bytes, k: nat, m: nat, more: seq<Bytes>)
    requires k < m <= |u| && m - k <= READ_SIZE && Cut(more, u[m..])
    ensures Cut(Pieces(u[..k]) + ([u[k..m]] + more), u)
  {
    hide Cut;
    CutOne(u[k..m]);
    CutAppend([u[k..m]], u[k..m], more, u[m..]);
    CutAppend(Pieces(u[..k]), u[..k], [u[k..m]] + more, u[k..m] + u[m..]);
    assert u[..k] + (u[k..m] + u[m..]) == u;
  }

  /** Full reads up to `k` while the head is incomplete. */
  lemma ReachHead(conn: Conn, engine: Engine, u: Bytes, k: nat, more: seq<Bytes>)
    requires k <= |u| && k <= MAX_HEADER_BYTES && HeadersEnd(u[..k]).None?
    ensures Delivery(conn, engine, Head([]), Pieces(u[..k]) + more) == Delivery(conn, engine, Head(u[..k]), more)
  {
    hide HeadersEnd, Delivery;
    assert [] + u[..k] == u[..k];
    HeadFeed(conn, engine, [], Pieces(u[..k]), more);
  }

  lemma HeadCompleteAt(u: Bytes, e: nat, k: nat, m: nat)
    requires HeadersEnd(u) == Some(e) && k < e <= m <= |u|
    ensures HeadersEnd(u[..k]).None? && HeadersEnd(u[..m]) == Some(e)
  {
    hide FindBlank;
    assert u[..k] + u[k..] == u && u[..m] + u[m..] == u;
    if HeadersEnd(u[..k]).Some? { HeadersEndStable(u[..k], u[k..]); }
    if HeadersEnd(u[..m]).Some? {
      HeadersEndStable(u[..m], u[m..]);
    } else {
      HeadEndsLater(u[..m], u[m..]);
    }
  }

  /** A stream that is not stable has two ways of being read with the two outcomes. */
  lemma UnstableWitness(conn: Conn, engine: Engine, u: Bytes) returns (main: seq<Bytes>, alt: seq<Bytes>)
    requires !Stable(conn, engine, u)
    ensures Cut(main, u) && Delivery(conn, engine, Head([]), main) == Delivered(conn, engine, u)
    ensures Cut(alt, u) && Delivery(conn, engine, Head([]), alt) == Alternative(conn, engine, u)
  {
    hide HeadersEnd, Deferral, OutputHeaders, BodyStable, BodyMain, BodyAlt, Delivery, CutsBody;
    HeadersEndBounds(u);
    var e := HeadersEnd(u).value;
    var d := Deferral(conn, engine, u[..e]).value;
    var b := u[e..];
    DeferralValid(conn, engine, u[..e]);
    var mainCut, altCut;
    if d.framing.ChunkedBody? {
      mainCut, altCut := ChunkedBodyWitness(conn, engine, d, b, Room(u));
    } else {
      mainCut, altCut := PlainBodyWitness(conn, engine, d, b, Room(u));
    }
    BodyCutFits(mainCut, u, e);
    BodyCutFits(altCut, u, e);
    main := WholeCut(conn, engine, u, e, mainCut);
    alt := WholeCut(conn, engine, u, e, altCut);
    assert [] + BodyMain(conn, d, b) == BodyMain(conn, d, b);
    assert [] + BodyAlt(conn, d, b) == BodyAlt(conn, d, b);
  }

  lemma BodyCutFits(c: BodyCut, u: Bytes, e: nat)
    requires e <= |u| && e <= MAX_HEADER_BYTES && HeadersEnd(u) == Some(e) && CutsBody(c, u[e..], Room(u))
    ensures e + c.x <= MAX_HEADER_BYTES && CutsBody(c, u[e..], READ_SIZE - 1)
  {
  }

  /** A stable stream can be read with its one outcome as long as its head fits. */
  lemma StableWitness(conn: Conn, engine: Engine, u: Bytes) returns (processed: seq<Bytes>)
    requires Gap(u) && Stable(conn, engine, u)
    ensures Cut(processed, u) && Delivery(conn, engine, Head([]), processed) == Delivered(conn, engine, u)
  {
    hide HeadersEnd, Deferral, OutputHeaders, BodyStable, BodyMain, BodyAlt, Delivery, Delivered, Stable;
    HeadersEndBounds(u);
    var e := HeadersEnd(u).value;
    var c := BodyCut(0, Pieces(u[e..]));
    assert u[e..][0..] == u[e..] && u[e..][..0] == [];
    processed := WholeCut(conn, engine, u, e, c);
    ProcessedDelivery(conn, engine, u, e);
  }

  lemma ProcessedDelivery(conn: Conn, engine: Engine, u: Bytes, e: nat)
    requires HeadersEnd(u) == Some(e) && 4 <= e <= |u| && e <= MAX_HEADER_BYTES && Stable(conn, engine, u)
    ensures var (next, out) := Enter(conn, engine, u[..e], []);
            out + Delivery(conn, engine, next, Pieces(u[e..])) == Delivered(conn, engine, u)
  {
    hide HeadersEnd, OutputHeaders, Deferral, Delivery, Alternative, Delivered, Stable, Enter;
    HeadCompleteAt(u, e, e - 1, e);
    assert u[..e][..e] == u[..e] && u[..e][e..] == [];
    EnterDelivery(conn, engine, u[..e], e, Pieces(u[e..]));
    assert u[..e] + u[e..] == u;
  }

  /** Near the head limit the whole stream may be passed on raw. */
  lemma RawCut(conn: Conn, engine: Engine, u: Bytes) returns (segs: seq<Bytes>)
    requires Gap(u)
    ensures Cut(segs, u) && Delivery(conn, engine, Head([]), segs) == u
  {
    hide HeadersEnd, Enter, Delivery, Cut, Concat;
    HeadersEndBounds(u);
    var e, k, m := HeadersEnd(u).value, MAX_HEADER_BYTES - READ_SIZE + 1, MAX_HEADER_BYTES + 1;
    var mid, rest := u[k..m], Pieces(u[m..]);
    segs := Pieces(u[..k]) + ([mid] + rest);
    ThreeCuts(u, k, m, rest);
    HeadCompleteAt(u, e, k, |u|);
    ReachHead(conn, engine, u, k, [mid] + rest);
    DeliveryStep(conn, engine, Head(u[..k]), mid, rest);
    assert u[..k] + mid == u[..m];
    PassDelivery(conn, engine, rest);
    CutConcat(rest, u[m..]);
    assert u[..m] + u[m..] == u;
  }

  lemma CutConcat(segs: seq<Bytes>, u: Bytes)
    requires Cut(segs, u)
    ensures Concat(segs) == u
  {
  }

  /** The region near the limit is not empty: any long enough first line in front of enough data is in it. */
  lemma GapReached(line: Bytes, tail: Bytes)
    requires NoCrlf(line) && MAX_HEADER_BYTES - READ_SIZE - 3 < |line| <= MAX_HEADER_BYTES - 4
    requires |line| + 4 + |tail| > MAX_HEADER_BYTES
    ensures Gap(line + BLANK + tail)
  {
    hide FindBlank;
    BlankAfterJoin([line], tail);
    assert JoinCrlf([line]) == line;
  }

  /** All ways of reading `u` give the client the same bytes. */
  ghost predicate Independent(conn: Conn, engine: Engine, u: Bytes) {
    forall s, t | Cut(s, u) && Cut(t, u) ::
      Delivery(conn, engine, Head([]), s) == Delivery(conn, engine, Head([]), t)
  }

  /** Exactly when the client's stream does not depend on the cut, for every stream: it is stable, or its two outcomes
      coincide; and, near the head limit, its outcome is the raw stream itself. */
  lemma IndependentIff(conn: Conn, engine: Engine, u: Bytes)
    ensures Independent(conn, engine, u) <==>
            && (Stable(conn, engine, u) || Delivered(conn, engine, u) == Alternative(conn, engine, u))
            && (Gap(u) ==> Delivered(conn, engine, u) == u)
  {
    hide Gap, Stable, Delivered, Alternative, Delivery, Cut;
    forall s | Cut(s, u)
      ensures var r := Delivery(conn, engine, Head([]), s);
              || (r == u && Gap(u))
              || ((r == Delivered(conn, engine, u) || r == Alternative(conn, engine, u))
                  && (Stable(conn, engine, u) ==> r == Delivered(conn, engine, u)))
    {
      AnyCut(conn, engine, u, s);
    }
    if !Stable(conn, engine, u) {
      var main, alt := UnstableWitness(conn, engine, u);
    }
    if Gap(u) {
      var raw := RawCut(conn, engine, u);
      if Stable(conn, engine, u) {
        var processed := StableWitness(conn, engine, u);
      }
    }
  }

  lemma AnyCut(conn: Conn, engine: Engine, u: Bytes, s: seq<Bytes>)
    requires Cut(s, u)
    ensures var r := Delivery(conn, engine, Head([]), s);
            || (r == u && Gap(u))
            || ((r == Delivered(conn, engine, u) || r == Alternative(conn, engine, u))
                && (Stable(conn, engine, u) ==> r == Delivered(conn, engine, u)))
  {
    hide Gap, Stable, Delivered, Alternative, Delivery;
    NothingPending();
    HeadDelivery(conn, engine, [], s);
    assert [] + Concat(s) == u;
  }

  /** The ordinary outcome of a stream whose head fits has an account. */
  lemma DeliveredExplained(conn: Conn, engine: Engine, u: Bytes, e: nat) returns (a: Account)
    requires HeadersEnd(u) == Some(e) && e <= MAX_HEADER_BYTES && e <= |u|
    ensures Explains(conn, a, u, Closed, Delivered(conn, engine, u))
    ensures !a.Untouched? && a.engine == engine
  {
    hide HeadersEnd, OutputHeaders, RewrittenFrom, NewHead, Deferral, BodyMain;
    match Deferral(conn, engine, u[..e])
    case None =>
      a := Filtered(engine, e);
      var sent := SentHead(conn, engine, u, e) + u[e..];
      assert sent + [] == sent;
    case Some(d) =>
      a := BodyMainExplained(conn, engine, u, e);
  }

  lemma BodyMainExplained(conn: Conn, engine: Engine, u: Bytes, e: nat) returns (a: Account)
    requires HeadersEnd(u) == Some(e) && e <= |u| && Deferral(conn, engine, u[..e]).Some?
    ensures Explains(conn, a, u, Closed, BodyMain(conn, Deferral(conn, engine, u[..e]).value, u[e..]))
    ensures !a.Untouched? && a.engine == engine
  {
    hide HeadersEnd, Deferral, Explains, SendChunked, SendWhole, DecodeFrom;
    var d, b := Deferral(conn, engine, u[..e]).value, u[e..];
    if d.framing.ChunkedBody? && Decode(b).Some? && Decode(b).value.consumed < d.plan.maxBodyBytes {
      a := ChunkedExplained(conn, engine, u, e, Closed);
    } else if d.framing.ChunkedBody? || (d.framing.UntilEof? && b != [] && |b| >= d.plan.maxBodyBytes) {
      a := RawExplained(conn, engine, u, e, Closed);
    } else {
      var n := if d.framing.Length? && |b| > d.framing.n then d.framing.n else |b|;
      assert b[..n] == u[e..e + n] && b[n..] == u[e + n..];
      assert n == |b| ==> b[..n] == b && SendWhole(conn, d, b) + u[e + n..] == SendWhole(conn, d, b);
      a := WholeExplained(conn, engine, u, e, n, Closed);
    }
  }

  /** Near the limit, with the Set-Cookie filter enforced: the stream is independent of the cut only if its body is
      rewritten into itself under a head that rebuilds to itself; otherwise cookies are stripped under one cut and
      passed on under another. */
  lemma GapIndependentIff(conn: Conn, engine: Engine, u: Bytes) returns (a: Account)
    requires Gap(u) && Enforces(conn, engine)
    ensures Explains(conn, a, u, Closed, Delivered(conn, engine, u)) && !a.Untouched? && a.engine == engine
    ensures Independent(conn, engine, u) <==>
            && (Stable(conn, engine, u) || Delivered(conn, engine, u) == Alternative(conn, engine, u))
            && a.Rewritten?
            && RebuildsToItself(conn, engine, u[..a.e], |a.body|) && a.body == u[a.e..a.e + a.n]
  {
    hide HeadersEnd, OutputHeaders, RewrittenFrom, NewHead, Deferral, Stable, Alternative, Independent, Delivered, PlanForHost,
      RebuildsToItself;
    HeadersEndBounds(u);
    var e := HeadersEnd(u).value;
    a := DeliveredExplained(conn, engine, u, e);
    var sent := Delivered(conn, engine, u);
    ConservedIff(conn, a, u, Closed, sent);
    if a.Rewritten? { RewrittenSameIff(conn, a, u, Closed, sent); }
    assert sent + [] == sent;
    HeadIsComplete(u, e);
    EnforcedChanges(engine, conn.host, conn.sourceIp, u[..e]);
    IndependentIff(conn, engine, u);
  }

  /** In particular, near the limit every stream whose body is not rewritten depends on the cut. */
  lemma GapDepends(conn: Conn, engine: Engine, u: Bytes)
    requires Gap(u) && Enforces(conn, engine)
    requires forall n, body :: !Rewrites(conn, engine, u, HeadersEnd(u).value, n, body)
    ensures !Independent(conn, engine, u)
  {
    hide HeadersEnd, Deferral, Stable, Alternative, Independent, Delivered, Enforces, RebuildsToItself, Rewrites, Explains;
    var a := GapIndependentIff(conn, engine, u);
    AccountAt(conn, a, u, Delivered(conn, engine, u));
  }

  lemma AccountAt(conn: Conn, a: Account, u: Bytes, sent: Bytes)
    requires Explains(conn, a, u, Closed, sent) && !a.Untouched?
    ensures HeadersEnd(u) == Some(a.e)
    ensures a.Rewritten? ==> Rewrites(conn, a.engine, u, a.e, a.n, a.body)
  {
    hide HeadersEnd, OutputHeaders, RewrittenFrom, NewHead, Deferral;
  }

  /** The dependence is real: a response that overruns its Content-Length by less than a read is framed by one length or
      another, according to whether the overrun came with the head. */
  lemma OverrunDepends(conn: Conn, engine: Engine, u: Bytes, e: nat, d: Deferred, x: Bytes, y: Bytes)
    requires HeadersEnd(u) == Some(e) && e <= |u| && e <= MAX_HEADER_BYTES
    requires Deferral(conn, engine, u[..e]) == Some(d) && d.framing.Length? && d.framing.n < |u[e..]| <= Room(u)
    requires AttemptRewrite(conn.codec, u[e..][..d.framing.n], d.plan, d.encoding) == Some(x)
    requires AttemptRewrite(conn.codec, u[e..], d.plan, d.encoding) == Some(y)
    requires |x| != |y| && |x| <= USIZE_MAX && |y| <= USIZE_MAX
    ensures !Independent(conn, engine, u)
  {
    hide Deferral, HeadersEnd, AttemptRewrite, ReplaceContentLength, ExtractContentLength, Independent, OutputHeaders;
    IndependentIff(conn, engine, u);
    DifferentLengths(d.headers, x, x + u[e..][d.framing.n..], y, y);
    var head := ReplaceContentLength(d.headers, |x|);
    assert head + x + u[e..][d.framing.n..] == head + (x + u[e..][d.framing.n..]);
  }

  /** Streams that start with blocks announcing different lengths are different. */
  lemma DifferentLengths(headers: Bytes, x: Bytes, afterX: Bytes, y: Bytes, afterY: Bytes)
    requires |x| != |y| && |x| <= USIZE_MAX && |y| <= USIZE_MAX
    ensures ReplaceContentLength(headers, |x|) + afterX != ReplaceContentLength(headers, |y|) + afterY
  {
    hide HeadersEnd, ReplaceContentLength, ExtractContentLength, HeaderLines;
    var a, b := ReplaceContentLength(headers, |x|), ReplaceContentLength(headers, |y|);
    ReplaceContentLengthSpec(headers, |x|);
    ReplaceContentLengthSpec(headers, |y|);
    HeadersEndStable(a, afterX);
    HeadersEndStable(b, afterY);
    assert a == (a + afterX)[..|a|];
    assert b == (b + afterY)[..|b|];
  }

  // ---------------------------------------------------------------- back to the relay

  /** Phase and output after the given reads. */
  function Feed(conn: Conn, engine: Engine, segs: seq<Bytes>): (Phase, Bytes) {
    if segs == [] then (Head([]), [])
    else
      var (ph, sent) := Feed(conn, engine, segs[..|segs| - 1]);
      var (next, out) := OnRead(conn, engine, ph, segs[|segs| - 1]);
      (next, sent + out)
  }

  lemma {:induction false} FeedThenDeliver(conn: Conn, engine: Engine, segs: seq<Bytes>, more: seq<Bytes>)
    ensures Feed(conn, engine, segs).1 + Delivery(conn, engine, Feed(conn, engine, segs).0, more) ==
            Delivery(conn, engine, Head([]), segs + more)
    decreases |segs|
  {
    hide OnRead, Delivery;
    if segs == [] {
      assert segs + more == more;
      assert [] + Delivery(conn, engine, Head([]), more) == Delivery(conn, engine, Head([]), more);
    } else {
      var front, last := segs[..|segs| - 1], segs[|segs| - 1];
      FeedThenDeliver(conn, engine, front, [last] + more);
      assert front + ([last] + more) == segs + more;
      DeliveryStep(conn, engine, Feed(conn, engine, front).0, last, more);
    }
  }

  /** The reads from upstream in a schedule. */
  function UpstreamReads(events: seq<Event>): seq<Bytes> {
    if events == [] then []
    else
      var front, last := events[..|events| - 1], events[|events| - 1];
      UpstreamReads(front) + if last.FromUpstream? then [last.seg] else []
  }

  lemma FeedSnoc(conn: Conn, engine: Engine, segs: seq<Bytes>, seg: Bytes)
    ensures var (ph, sent) := Feed(conn, engine, segs);
            var (next, out) := OnRead(conn, engine, ph, seg);
            Feed(conn, engine, segs + [seg]) == (next, sent + out)
  {
    hide OnRead;
    assert (segs + [seg])[..|segs|] == segs;
  }

  /** What the client does never matters to the upstream side, unless its first request is refused. */
  lemma {:induction false} RunIsFeed(conn: Conn, engine: Engine, events: seq<Event>)
    requires forall ev | ev in events && ev.FromUpstream? :: ev.engine == engine && ev.seg != []
    requires !Run(conn, events).refused
    ensures (Run(conn, events).server, Run(conn, events).relayed) == Feed(conn, engine, UpstreamReads(events))
    ensures !Run(conn, events).server.Closed?
    decreases |events|
  {
    hide OnRead, Step, Feed;
    if events == [] {
      FeedNothing(conn, engine);
    } else {
      var front, ev := events[..|events| - 1], events[|events| - 1];
      assert ev in events && forall x | x in front :: x in events;
      StepServer(conn, Run(conn, front), ev);
      RunIsFeed(conn, engine, front);
      if ev.FromUpstream? {
        FeedSnoc(conn, engine, UpstreamReads(front), ev.seg);
        ReadNeverCloses(conn, engine, Run(conn, front).server, ev.seg);
      } else {
        assert UpstreamReads(events) == UpstreamReads(front);
      }
    }
  }

  lemma FeedNothing(conn: Conn, engine: Engine)
    ensures Feed(conn, engine, []) == (Head([]), [])
  {
  }

  lemma StepServer(conn: Conn, st: State, ev: Event)
    requires !Step(conn, st, ev).refused
    ensures !st.refused
    ensures !st.server.Closed? && ev.FromUpstream? && ev.seg != [] ==>
              (Step(conn, st, ev).server, st.relayed + OnRead(conn, ev.engine, st.server, ev.seg).1) ==
              (OnRead(conn, ev.engine, st.server, ev.seg).0, Step(conn, st, ev).relayed)
    ensures ev.FromClient? ==> (Step(conn, st, ev).server, Step(conn, st, ev).relayed) == (st.server, st.relayed)
  {
    hide OnRead, OnEof, OnFirstRequest, RunsPolicy;
  }

  lemma ReadNeverCloses(conn: Conn, engine: Engine, ph: Phase, seg: Bytes)
    requires !ph.Closed?
    ensures !OnRead(conn, engine, ph, seg).0.Closed?
  {
    hide Deferral, OutputHeaders, SendChunked, SendWhole, Decode, HeadersEnd;
  }

  /** The client's stream at the end of any schedule whose policy does not change is the delivery of its upstream reads. */
  lemma RunDelivers(conn: Conn, engine: Engine, events: seq<Event>)
    requires forall ev | ev in events && ev.FromUpstream? :: ev.engine == engine && ev.seg != []
    requires !Run(conn, events).refused
    ensures var last := FromUpstream(engine, []);
            Run(conn, events + [last]).ToClient() == Delivery(conn, engine, Head([]), UpstreamReads(events))
  {
    hide OnRead, OnEof, OnFirstRequest, RunsPolicy, Feed, UpstreamReads;
    var last := FromUpstream(engine, []);
    RunIsFeed(conn, engine, events);
    assert (events + [last])[..|events|] == events;
    var segments := UpstreamReads(events);
    FeedThenDeliver(conn, engine, segments, []);
    assert segments + [] == segments;
  }

  /** Two schedules that read the same stable upstream stream, cut and interleaved in any way, send the client the same bytes. */
  lemma SchedulesAgree(conn: Conn, engine: Engine, u: Bytes, a: seq<Event>, b: seq<Event>)
    requires forall ev | ev in a && ev.FromUpstream? :: ev.engine == engine && ev.seg != []
    requires forall ev | ev in b && ev.FromUpstream? :: ev.engine == engine && ev.seg != []
    requires !Run(conn, a).refused && !Run(conn, b).refused
    requires Cut(UpstreamReads(a), u) && Cut(UpstreamReads(b), u)
    requires Stable(conn, engine, u) && !Gap(u)
    ensures Run(conn, a + [FromUpstream(engine, [])]).ToClient() == Run(conn, b + [FromUpstream(engine, [])]).ToClient()
  {
    hide Run, Delivery, UpstreamReads, Cut, Stable, Gap, Delivered;
    RunDelivers(conn, engine, a);
    RunDelivers(conn, engine, b);
    SegmentationIndependence(conn, engine, u, UpstreamReads(a));
    SegmentationIndependence(conn, engine, u, UpstreamReads(b));
  }
}
