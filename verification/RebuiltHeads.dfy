/** When the head put in front of a rewritten body is the head that was received. */
module RebuiltHeads {
  import opened Text
  import opened Headers
  import opened Chunked
  import opened Policy
  import opened Relay
  import opened RelayRuns
  import opened CookieStripping

  /** A line that the header passes and the rebuild all leave in place; `first` is whether it is the first. */
  predicate Stays(conn: Conn, engine: Engine, line: Bytes, first: bool) {
    && NotContentLength(line) && NotIntegrity(line)
    && (PlanForHost(engine, conn.host, conn.sourceIp).trackerMatch ==> NotCacheTracking(line))
    && (Enforces(conn, engine) ==> '\n' !in line && (first || NotSetCookie(line)))
  }

  /** The block is one that rebuilding for a body of `n` bytes gives back: solid lines, the Content-Length last, every
      other line one that stays, and no Transfer-Encoding line if a line says "chunked". */
  predicate RebuildsToItself(conn: Conn, engine: Engine, block: Bytes, n: nat) {
    var lines := HeaderLines(block);
    && block == Block(lines)
    && lines != [] && lines[|lines| - 1] == ContentLengthLine(n)
    && (forall i | 0 <= i < |lines| - 1 :: Stays(conn, engine, lines[i], i == 0))
    && ((exists l | l in lines :: SaysChunked(l)) ==> forall l | l in lines :: !IsTransferEncoding(l))
  }

  lemma LengthLineStays(n: nat)
    ensures var l := ContentLengthLine(n);
            && NotCacheTracking(l) && NotSetCookie(l) && '\n' !in l && NoCrlf(l) && l != []
            && !SaysChunked(l) && !IsTransferEncoding(l) && IsContentLength(l)
  {
    hide NotCacheTracking, NotSetCookie, SaysChunked, IsTransferEncoding, IsContentLength;
    LengthIsNoCookie(n);
    ContentLengthLineParses(n);
    LengthIsNoCache(n);
    LengthSaysNothing(n);
  }

  lemma LengthIsNoCache(n: nat)
    ensures NotCacheTracking(ContentLengthLine(n))
  {
    hide Numeral;
    assert LowerChar(ContentLengthLine(n)[0]) == 'c';
  }

  lemma LengthSaysNothing(n: nat)
    ensures '\n' !in ContentLengthLine(n) && !SaysChunked(ContentLengthLine(n))
  {
    hide Numeral;
    var line, digits := ContentLengthLine(n), Numeral(n, 10);
    forall i | 0 <= i < |line| ensures LowerChar(line[i]) != 'k' && line[i] != '\n' {
      if i >= 16 { assert line[i] == digits[i - 16] && digits[i - 16] in digits; }
    }
    forall i | 0 <= i <= |line| - 7 ensures !OccursAt(Lower(line), "chunked", i) {
      assert Lower(line)[i..i + 7][4] == LowerChar(line[i + 4]);
      assert "chunked"[4] == 'k';
    }
  }

  /** What the rebuild keeps of the lines sent. */
  function Kept(d: Deferred): seq<Bytes> {
    if d.framing.ChunkedBody? then KeptForChunked(HeaderLines(d.headers)) else KeptForLength(HeaderLines(d.headers))
  }

  lemma KeptFacts(d: Deferred)
    ensures forall l | l in Kept(d) :: l in HeaderLines(d.headers) && NotContentLength(l) && NotIntegrity(l)
    ensures d.framing.ChunkedBody? ==> forall l | l in Kept(d) :: !IsTransferEncoding(l)
    ensures CookieFree(HeaderLines(d.headers)) ==> CookieFree(Kept(d))
  {
    hide HeaderLines, IsContentLength, NotIntegrity, IsTransferEncoding, CookieFree, Retain;
    if CookieFree(HeaderLines(d.headers)) {
      var lines := HeaderLines(d.headers);
      RetainBehindFirst(lines, NotContentLength);
      RetainBehindFirst(Retain(lines, NotContentLength), NotIntegrity);
      RetainBehindFirst(lines, NotTransferFraming);
      RetainBehindFirst(Retain(lines, NotTransferFraming), NotIntegrity);
    }
  }

  /** The lines sent pass the header passes. */
  lemma SentFacts(conn: Conn, engine: Engine, block: Bytes)
    requires Complete(block)
    ensures var sent := LinesSent(engine, conn.host, conn.sourceIp, block);
            && (PlanForHost(engine, conn.host, conn.sourceIp).trackerMatch ==> forall l | l in sent :: NotCacheTracking(l))
            && (Enforces(conn, engine) ==> CookieFree(sent) && forall l | l in sent :: '\n' !in l)
  {
    hide PlanForHost, FindBlank, KeptLines, NotCacheTracking, CookieFree, HeaderLines, OutputHeaders;
    if Enforces(conn, engine) {
      KeptLinesShape(block);
      OutputLines(engine, conn.host, conn.sourceIp, block);
      OutputHead(engine, conn, block, []);
    }
  }

  lemma NewHeadLines(d: Deferred, n: nat)
    ensures NewHead(d, n) == Block(Kept(d) + [ContentLengthLine(n)])
    ensures HeaderLines(NewHead(d, n)) == Kept(d) + [ContentLengthLine(n)]
  {
    hide HeaderLines, Block, ContentLengthLine, Complete, ExtractContentLength, IsContentLength, IsTransferEncoding;
    ReplaceContentLengthSpec(d.headers, n);
    ReplaceChunkedSpec(d.headers, n);
  }

  /** One direction: a head that is given back has that form. */
  lemma GivenBack(conn: Conn, engine: Engine, block: Bytes, n: nat)
    requires Complete(block) && Deferral(conn, engine, block).Some?
    requires NewHead(Deferral(conn, engine, block).value, n) == block
    ensures RebuildsToItself(conn, engine, block, n)
  {
    hide Deferral, OutputHeaders, HeaderLines, Kept, NewHead, Block, ContentLengthLine, PlanForHost, Enforces, NotCacheTracking,
      NotSetCookie, NotIntegrity, NotContentLength, IsTransferEncoding, SaysChunked, LinesSent, Complete, HasChunked;
    var d := Deferral(conn, engine, block).value;
    var kept, lines := Kept(d), HeaderLines(block);
    NewHeadLines(d, n);
    KeptFacts(d);
    DeferralHeaders(conn, engine, block);
    DeferralFraming(conn, engine, block);
    OutputLines(engine, conn.host, conn.sourceIp, block);
    SentFacts(conn, engine, block);
    LengthLineStays(n);
    forall i | 0 <= i < |lines| - 1 ensures Stays(conn, engine, lines[i], i == 0) {
      assert lines[i] == kept[i] && kept[i] in kept;
    }
    if exists l | l in lines :: IsTransferEncoding(l) {
      var l :| l in lines && IsTransferEncoding(l);
      assert l in kept;
      HasChunkedIff(d.headers);
    }
  }

  /** Lines of that form are all sent. */
  lemma AllSent(conn: Conn, engine: Engine, block: Bytes, n: nat)
    requires Complete(block) && RebuildsToItself(conn, engine, block, n)
    ensures LinesSent(engine, conn.host, conn.sourceIp, block) == HeaderLines(block)
  {
    hide FindBlank, PlanForHost, NotCacheTracking, NotSetCookie, NotIntegrity, NotContentLength, SaysChunked, IsTransferEncoding, Retain,
      ContentLengthLine, Block, KeptLines, SplitCrlf, NoCrlf;
    var lines := HeaderLines(block);
    LengthLineStays(n);
    HeaderLinesSolid(block);
    if Enforces(conn, engine) {
      KeptOfBlock(lines);
      RetainDropsEmpty(lines, [[]]);
    }
    if PlanForHost(engine, conn.host, conn.sourceIp).trackerMatch {
      forall l | l in lines ensures NotCacheTracking(l) {
        var i :| 0 <= i < |lines| && lines[i] == l;
        if i < |lines| - 1 { assert Stays(conn, engine, lines[i], i == 0); }
      }
      RetainAll(lines, NotCacheTracking);
    }
  }

  /** The rebuild drops nothing but the last of them. */
  lemma OnlyLengthDropped(front: seq<Bytes>, line: Bytes)
    requires IsContentLength(line) && forall l | l in front :: NotContentLength(l) && NotIntegrity(l)
    ensures KeptForLength(front + [line]) == front
    ensures (forall l | l in front :: !IsTransferEncoding(l)) ==> KeptForChunked(front + [line]) == front
  {
    hide IsContentLength, NotIntegrity, IsTransferEncoding, Retain;
    RetainConcat(front, [line], NotContentLength);
    RetainAll(front, NotContentLength);
    RetainEmpty([line], NotContentLength);
    assert front + [] == front;
    RetainAll(front, NotIntegrity);
    if forall l | l in front :: !IsTransferEncoding(l) {
      RetainConcat(front, [line], NotTransferFraming);
      RetainAll(front, NotTransferFraming);
      RetainEmpty([line], NotTransferFraming);
    }
  }

  /** The other direction: a head of that form is given back. */
  lemma GivesBack(conn: Conn, engine: Engine, block: Bytes, n: nat)
    requires Complete(block) && Deferral(conn, engine, block).Some? && RebuildsToItself(conn, engine, block, n)
    ensures NewHead(Deferral(conn, engine, block).value, n) == block
  {
    hide Deferral, OutputHeaders, HeaderLines, NewHead, Block, ContentLengthLine, PlanForHost, Enforces, NotCacheTracking, NotSetCookie,
      NotIntegrity, NotContentLength, IsTransferEncoding, SaysChunked, LinesSent, Complete, HasChunked, KeptForLength, KeptForChunked;
    var d := Deferral(conn, engine, block).value;
    var lines := HeaderLines(block);
    var front, line := lines[..|lines| - 1], ContentLengthLine(n);
    assert lines == front + [line];
    DeferralHeaders(conn, engine, block);
    DeferralFraming(conn, engine, block);
    OutputLines(engine, conn.host, conn.sourceIp, block);
    AllSent(conn, engine, block, n);
    NewHeadLines(d, n);
    LengthLineStays(n);
    forall l | l in front ensures NotContentLength(l) && NotIntegrity(l) {
      var i :| 0 <= i < |front| && front[i] == l;
      assert Stays(conn, engine, lines[i], i == 0);
    }
    if exists l | l in lines :: IsTransferEncoding(l) { HasChunkedIff(d.headers); }
    OnlyLengthDropped(front, line);
  }

  /** Exactly when a head is rebuilt into itself, in terms of the block received. */
  lemma NewHeadSameIff(conn: Conn, engine: Engine, block: Bytes, n: nat)
    requires Complete(block) && Deferral(conn, engine, block).Some?
    ensures NewHead(Deferral(conn, engine, block).value, n) == block <==> RebuildsToItself(conn, engine, block, n)
  {
    hide *;
    if NewHead(Deferral(conn, engine, block).value, n) == block { GivenBack(conn, engine, block, n); }
    if RebuildsToItself(conn, engine, block, n) { GivesBack(conn, engine, block, n); }
  }

  /** A head and body are put in place of the same bytes exactly when the head and the body are both the same. */
  lemma SameHeadAndBody(head: Bytes, body: Bytes, u: Bytes, e: nat, n: nat)
    requires Complete(head) && HeadersEnd(u) == Some(e) && e + n <= |u|
    ensures head + body == u[..e + n] <==> head == u[..e] && body == u[e..e + n]
  {
    hide HeadersEnd;
    HeadIsComplete(u, e);
    assert u[..e] + u[e..e + n] == u[..e + n];
    HeadersEndStable(head, body);
    HeadersEndStable(u[..e], u[e..e + n]);
    if head + body == u[..e + n] {
      assert |head| == e;
      assert head == (head + body)[..e] && body == (head + body)[e..];
    }
  }

  /** Exactly when a rewritten response is the response received: the body is, and its head rebuilds to itself. */
  lemma RewrittenSameIff(conn: Conn, a: Account, u: Bytes, ph: Phase, sent: Bytes)
    requires Explains(conn, a, u, ph, sent) && a.Rewritten?
    ensures sent + Held(ph) == u <==>
            RebuildsToItself(conn, a.engine, u[..a.e], |a.body|) && a.body == u[a.e..a.e + a.n]
  {
    hide HeadersEnd, OutputHeaders, RewrittenFrom, NewHead, Deferral, RebuildsToItself, HeaderLines, ExtractContentLength, Complete;
    var d := Deferral(conn, a.engine, u[..a.e]).value;
    ConservedIff(conn, a, u, ph, sent);
    HeadIsComplete(u, a.e);
    NewHeadFrames(d, |a.body|);
    SameHeadAndBody(NewHead(d, |a.body|), a.body, u, a.e, a.n);
    NewHeadSameIff(conn, a.engine, u[..a.e], |a.body|);
  }
}
