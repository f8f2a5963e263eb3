/**
  What the relay is for: in Enforce mode the first response head of a connection reaches the client without Set-Cookie
  lines, except past the head limit. Everything behind it, later responses included, is passed on as it is.
 */
module CookieStripping {
  import opened Text
  import opened Headers
  import opened Policy
  import opened Relay
  import opened RelayRuns

  /** The Set-Cookie filter is enforced on this connection. */
  predicate Enforces(conn: Conn, engine: Engine) {
    var plan := PlanForHost(engine, conn.host, conn.sourceIp);
    plan.filterSetCookie && plan.mode == Enforce
  }

  /** No line behind the status line is a Set-Cookie line. */
  predicate CookieFree(lines: seq<Bytes>) {
    forall i | 1 <= i < |lines| :: NotSetCookie(lines[i])
  }

  /** What a client that reads `w` takes for its response head. */
  function ClientHead(w: Bytes): seq<Bytes>
    requires HeadersEnd(w).Some?
  {
    HeadersEndBounds(w);
    HeaderLines(w[..HeadersEnd(w).value])
  }

  /** `w` starts with a complete head that sets no cookie. */
  predicate HeadIsCookieFree(w: Bytes) {
    HeadersEnd(w).Some? && CookieFree(ClientHead(w))
  }

  lemma {:induction false} RetainBehindFirst(lines: seq<Bytes>, p: Bytes -> bool)
    requires CookieFree(lines)
    ensures CookieFree(Retain(lines, p))
  {
    hide NotSetCookie;
    if lines != [] {
      var rest := lines[1..];
      forall l | l in rest ensures NotSetCookie(l) {
        var i :| 0 <= i < |rest| && rest[i] == l;
        assert lines[i + 1] == l;
      }
      var r := Retain(lines, p);
      forall i | 1 <= i < |r| ensures NotSetCookie(r[i]) {
        assert r[i] in Retain(rest, p);
      }
    }
  }

  lemma CookieFreeSnoc(lines: seq<Bytes>, line: Bytes)
    requires CookieFree(lines) && NotSetCookie(line)
    ensures CookieFree(lines + [line])
  {
  }

  lemma LengthIsNoCookie(n: nat)
    ensures NotSetCookie(ContentLengthLine(n))
  {
    hide Numeral;
    assert LowerChar(ContentLengthLine(n)[0]) == 'c';
  }

  /** A complete block in front of anything is the client's head. */
  lemma HeadOfComplete(block: Bytes, rest: Bytes)
    requires Complete(block)
    ensures HeadersEnd(block + rest) == Some(|block|) && ClientHead(block + rest) == HeaderLines(block)
  {
    hide HeadersEnd, HeaderLines;
    HeadersEndStable(block, rest);
    assert (block + rest)[..|block|] == block;
  }

  /** The first empty line of an enforced block stands behind some of the kept lines. */
  lemma EnforcedPrefix(block: Bytes) returns (k: nat)
    requires Complete(block)
    ensures var out, kept := FilterHeaders(true, Enforce, block).output, KeptLines(block);
            && HeadersEnd(out).Some? && 4 <= HeadersEnd(out).value <= |out|
            && k <= |kept| && out[..HeadersEnd(out).value] == Unlines(kept[..k]) + CRLF
  {
    hide FindBlank, KeptLines, Unlines, FilterHeaders;
    var out := FilterHeaders(true, Enforce, block).output;
    k := EnforcedBlank(block);
    CutAfterBlank(out, FindBlank(out, 0).value);
  }

  lemma CutAfterBlank(s: Bytes, b: nat)
    requires BlankAt(s, b)
    ensures b + 4 <= |s| && s[..b + 4] == s[..b + 2] + CRLF
  {
  }

  /** The head a client finds in an enforced block: the kept lines up to the first empty one. */
  lemma EnforcedHead(block: Bytes, rest: Bytes)
    requires Complete(block)
    ensures HeadIsCookieFree(FilterHeaders(true, Enforce, block).output + rest)
  {
    hide FindBlank, KeptLines, Unlines, HeaderLines, FilterHeaders, LfFree, CookieFree, NotSetCookie;
    var out, kept := FilterHeaders(true, Enforce, block).output, KeptLines(block);
    var k := EnforcedPrefix(block);
    KeptLinesShape(block);
    KeptCookieFree(block);
    PrefixHead(kept, k, out[..HeadersEnd(out).value]);
    HeadersEndStable(out, rest);
  }

  /** A block that holds the first lines of a head without cookies is one. */
  lemma PrefixHead(kept: seq<Bytes>, k: nat, head: Bytes)
    requires LfFree(kept) && CookieFree(kept) && k <= |kept| && head == Unlines(kept[..k]) + CRLF && |head| > 2
    ensures CookieFree(HeaderLines(head))
  {
    hide NotSetCookie, Unlines, JoinCrlf, HeaderLines, NoCrlf, LfFree;
    var lines := kept[..k];
    NoUnlines();
    UnlinesIsJoin(lines);
    assert head == Block(lines);
    forall l | l in lines ensures NoCrlf(l) {
      assert l in kept;
      LineIsCrlfFree(kept, l);
    }
    BlockNonEmptyLines(lines);
    RetainBehindFirst(lines, NonEmpty);
  }

  lemma NoUnlines()
    ensures Unlines([]) == []
  {
  }

  lemma LineIsCrlfFree(lines: seq<Bytes>, line: Bytes)
    requires LfFree(lines) && line in lines
    ensures NoCrlf(line)
  {
    LfFreeIsCrlfFree(line);
  }

  /** The block the relay sends, in front of anything. */
  lemma OutputHead(engine: Engine, conn: Conn, block: Bytes, rest: Bytes)
    requires Complete(block) && Enforces(conn, engine)
    ensures HeadIsCookieFree(OutputHeaders(engine, conn.host, conn.sourceIp, block) + rest)
    ensures CookieFree(HeaderLines(OutputHeaders(engine, conn.host, conn.sourceIp, block)))
  {
    hide PlanForHost, HeaderLines, KeptLines, FindBlank, CookieFree, FilterHeaders, NotCacheTracking, Retain, StripCacheTracking;
    var filtered := FilterHeaders(true, Enforce, block).output;
    EnforcedHead(block, rest);
    EnforcedHeaderLines(block);
    KeptCookieFree(block);
    RetainBehindFirst(KeptLines(block), NonEmpty);
    if StripCacheTracking(filtered).Some? {
      StripCacheTrackingSpec(filtered);
      RetainBehindFirst(HeaderLines(filtered), NotCacheTracking);
      HeadOfComplete(StripCacheTracking(filtered).value, rest);
    }
  }

  lemma KeptCookieFree(block: Bytes)
    requires Complete(block)
    ensures CookieFree(KeptLines(block))
  {
    hide FindBlank, NotSetCookie, KeptLines;
    KeptLinesShape(block);
    var kept := KeptLines(block);
    forall i | 1 <= i < |kept| ensures NotSetCookie(kept[i]) { assert kept[i] == kept[1..][i - 1]; }
  }

  /** The head in front of a rewritten body. */
  lemma NewHeadCookieFree(d: Deferred, n: nat, rest: Bytes)
    requires CookieFree(HeaderLines(d.headers))
    ensures HeadIsCookieFree(NewHead(d, n) + rest)
  {
    hide HeaderLines, CookieFree, NotSetCookie, HeadersEnd, ContentLengthLine, ReplaceContentLength, ReplaceChunked,
      ExtractContentLength, NotIntegrity, NotContentLength, NotTransferFraming, IsTransferEncoding, IsContentLength;
    var lines := HeaderLines(d.headers);
    ReplaceContentLengthSpec(d.headers, n);
    ReplaceChunkedSpec(d.headers, n);
    HeadOfComplete(NewHead(d, n), rest);
    LengthIsNoCookie(n);
    RetainBehindFirst(lines, NotContentLength);
    RetainBehindFirst(Retain(lines, NotContentLength), NotIntegrity);
    RetainBehindFirst(lines, NotTransferFraming);
    RetainBehindFirst(Retain(lines, NotTransferFraming), NotIntegrity);
    CookieFreeSnoc(KeptForLength(lines), ContentLengthLine(n));
    CookieFreeSnoc(KeptForChunked(lines), ContentLengthLine(n));
  }

  /** Every account but Untouched sends a head without cookies. */
  lemma AccountCookieFree(conn: Conn, a: Account, u: Bytes, ph: Phase, sent: Bytes)
    requires Explains(conn, a, u, ph, sent) && !a.Untouched? && Enforces(conn, a.engine)
    ensures HeadIsCookieFree(sent + Held(ph))
  {
    hide HeadersEnd, OutputHeaders, Enforces, HeadIsCookieFree, HeaderLines, Deferral, RewrittenFrom, NewHead, CookieFree;
    HeadIsComplete(u, a.e);
    if a.Filtered? {
      OutputHead(a.engine, conn, u[..a.e], u[a.e..]);
    } else {
      var d := Deferral(conn, a.engine, u[..a.e]).value;
      DeferralHeaders(conn, a.engine, u[..a.e]);
      OutputHead(a.engine, conn, u[..a.e], []);
      var rest := a.body + u[a.e + a.n..];
      NewHeadCookieFree(d, |a.body|, rest);
      assert sent + [] == NewHead(d, |a.body|) + rest;
    }
  }

  // ---------------------------------------------------------------- behind the first head

  /** Some line, the first included, starts with Set-Cookie. */
  predicate SetsCookie(s: Bytes) {
    exists l | l in SplitCrlf(s) :: IsSetCookie(l)
  }

  /** Some line of the stream other than its first starts with Set-Cookie. */
  predicate SetsCookieLater(w: Bytes) {
    exists i | 1 <= i < |SplitCrlf(w)| :: IsSetCookie(SplitCrlf(w)[i])
  }

  /** How much of the stream read the account has replaced. */
  function Replaced(a: Account): nat {
    match a
    case Untouched => 0
    case Filtered(_, e) => e
    case Rewritten(_, e, n, _) => e + n
  }

  /** The head that was sent, if one was processed. */
  function FirstHead(conn: Conn, a: Account, u: Bytes): Bytes
    requires Replaced(a) <= |u| && (a.Rewritten? ==> Deferral(conn, a.engine, u[..a.e]).Some?)
  {
    match a
    case Untouched => []
    case Filtered(engine, e) => SentHead(conn, engine, u, e)
    case Rewritten(engine, e, n, body) => NewHead(Deferral(conn, engine, u[..e]).value, |body|)
  }

  /** The body that was put in. */
  function NewBody(a: Account): Bytes {
    if a.Rewritten? then a.body else []
  }

  /** In every run the relay changes one stretch at the front of the stream; what follows, with all later responses of
      the connection, is passed on byte for byte. */
  lemma LaterBytesUnchanged(conn: Conn, a: Account, u: Bytes, ph: Phase, sent: Bytes)
    requires Explains(conn, a, u, ph, sent)
    ensures Replaced(a) <= |u| && (a.Rewritten? ==> Deferral(conn, a.engine, u[..a.e]).Some?)
    ensures sent + Held(ph) == FirstHead(conn, a, u) + (NewBody(a) + u[Replaced(a)..])
  {
    hide HeadersEnd, OutputHeaders, RewrittenFrom, NewHead, Deferral;
    match a
    case Untouched =>
      assert [] + ([] + u[0..]) == u;
    case Filtered(engine, e) =>
      assert [] + u[e..] == u[e..];
    case Rewritten(engine, e, n, body) =>
      assert sent + [] == sent;
      var head := NewHead(Deferral(conn, engine, u[..e]).value, |body|);
      assert head + body + u[e + n..] == head + (body + u[e + n..]);
  }

  /** The lines of a block in front of anything. */
  lemma SplitBlock(lines: seq<Bytes>, rest: Bytes)
    requires CrlfFree(lines)
    ensures SplitCrlf(Block(lines) + rest) == (if lines == [] then [[]] else lines) + [[]] + SplitCrlf(rest)
  {
    hide SplitCrlf, JoinCrlf, Unlines, NoCrlf;
    var solid: seq<Bytes> := if lines == [] then [[]] else lines;
    EmptyIsCrlfFree();
    JoinOfNothing();
    UnlinesIsJoin(solid);
    UnlinesSnoc(solid, []);
    assert Unlines(solid + [[]]) == JoinCrlf(solid) + CRLF + [] + CRLF == Block(lines);
    SplitUnlines(solid + [[]], rest);
  }

  lemma JoinOfNothing()
    ensures JoinCrlf([]) == [] == JoinCrlf([[]])
  {
  }

  /** Behind a block without cookies, a cookie line can only come from what follows it. */
  lemma CookiesBehindBlock(lines: seq<Bytes>, rest: Bytes)
    requires CrlfFree(lines) && CookieFree(lines)
    ensures SetsCookieLater(Block(lines) + rest) <==> SetsCookie(rest)
  {
    hide SplitCrlf, NotSetCookie, IsSetCookie, Block, CrlfFree;
    SplitBlock(lines, rest);
    var front: seq<Bytes> := (if lines == [] then [[]] else lines) + [[]];
    FrontIsCookieFree(lines);
    CookiesBehind(front, rest, Block(lines) + rest);
  }

  lemma FrontIsCookieFree(lines: seq<Bytes>)
    requires CookieFree(lines)
    ensures CookieFree((if lines == [] then [[]] else lines) + [[]])
  {
    hide NotSetCookie;
    EmptyNotSetCookie();
  }

  lemma CookiesBehind(front: seq<Bytes>, rest: Bytes, w: Bytes)
    requires front != [] && CookieFree(front) && SplitCrlf(w) == front + SplitCrlf(rest)
    ensures SetsCookieLater(w) <==> SetsCookie(rest)
  {
    hide SplitCrlf, IsSetCookie;
    var lines, more := SplitCrlf(w), SplitCrlf(rest);
    if SetsCookieLater(w) {
      var i :| 1 <= i < |lines| && IsSetCookie(lines[i]);
      assert lines[i] == more[i - |front|];
    }
    if SetsCookie(rest) {
      var l :| l in more && IsSetCookie(l);
      var j :| 0 <= j < |more| && more[j] == l;
      assert IsSetCookie(lines[|front| + j]);
    }
  }

  /** The block sent under enforcement is built from lines without cookies. */
  lemma OutputIsBlock(engine: Engine, conn: Conn, block: Bytes) returns (lines: seq<Bytes>)
    requires Complete(block) && Enforces(conn, engine)
    ensures OutputHeaders(engine, conn.host, conn.sourceIp, block) == Block(lines)
    ensures CrlfFree(lines) && CookieFree(lines)
  {
    hide PlanForHost, KeptLines, FindBlank, CookieFree, FilterHeaders, NotCacheTracking, Retain, Block, SplitCrlf, NoCrlf;
    var filtered := FilterHeaders(true, Enforce, block).output;
    CookieFilterMeaning(engine, conn.host, conn.sourceIp);
    EnforcedIsBlock(block);
    KeptCookieFree(block);
    lines := KeptLines(block);
    if StripCacheTracking(filtered).Some? {
      EnforcedHeaderLines(block);
      RetainBehindFirst(lines, NonEmpty);
      RetainBehindFirst(HeaderLines(filtered), NotCacheTracking);
      lines := Retain(HeaderLines(filtered), NotCacheTracking);
    }
  }

  /** So is the block in front of a rewritten body. */
  lemma NewHeadIsBlock(d: Deferred, n: nat) returns (lines: seq<Bytes>)
    requires CookieFree(HeaderLines(d.headers))
    ensures NewHead(d, n) == Block(lines) && CrlfFree(lines) && CookieFree(lines)
  {
    hide CookieFree, NotSetCookie, ContentLengthLine, NotIntegrity, NotContentLength, NotTransferFraming, SplitCrlf, Block, NoCrlf,
      Retain, IsContentLength, IsTransferEncoding;
    var all := HeaderLines(d.headers);
    LengthIsNoCookie(n);
    ContentLengthLineParses(n);
    RetainBehindFirst(all, NotContentLength);
    RetainBehindFirst(Retain(all, NotContentLength), NotIntegrity);
    RetainBehindFirst(all, NotTransferFraming);
    RetainBehindFirst(Retain(all, NotTransferFraming), NotIntegrity);
    var kept := if d.framing.ChunkedBody? then KeptForChunked(all) else KeptForLength(all);
    CookieFreeSnoc(kept, ContentLengthLine(n));
    lines := kept + [ContentLengthLine(n)];
  }

  /** Exactly when a Set-Cookie line reaches the client under enforcement, once the first head was processed: when one is
      in what stands behind that head. In particular every later response is delivered with its cookies. */
  lemma CookieReachesClientIff(conn: Conn, a: Account, u: Bytes, ph: Phase, sent: Bytes)
    requires Explains(conn, a, u, ph, sent) && !a.Untouched? && Enforces(conn, a.engine)
    ensures Replaced(a) <= |u|
    ensures SetsCookieLater(sent + Held(ph)) <==> SetsCookie(NewBody(a) + u[Replaced(a)..])
  {
    hide HeadersEnd, OutputHeaders, Enforces, Deferral, RewrittenFrom, NewHead, CookieFree, SetsCookie, SetsCookieLater, HeaderLines,
      CrlfFree, Block, Held;
    LaterBytesUnchanged(conn, a, u, ph, sent);
    HeadIsComplete(u, a.e);
    var lines;
    if a.Filtered? {
      lines := OutputIsBlock(a.engine, conn, u[..a.e]);
    } else {
      DeferralHeaders(conn, a.engine, u[..a.e]);
      OutputHead(a.engine, conn, u[..a.e], []);
      lines := NewHeadIsBlock(Deferral(conn, a.engine, u[..a.e]).value, |a.body|);
    }
    CookiesBehindBlock(lines, NewBody(a) + u[Replaced(a)..]);
  }

  // ---------------------------------------------------------------- when the header policy runs

  /** At some moment of the run everything read so far was within the limit and held a complete head. */
  ghost predicate HeadEverFits(conn: Conn, events: seq<Event>) {
    exists i | 0 <= i <= |events| :: HeadFits(Run(conn, events[..i]).fromUpstream)
  }

  lemma HeadEverFitsStep(conn: Conn, events: seq<Event>)
    requires events != []
    ensures HeadEverFits(conn, events) <==>
            HeadEverFits(conn, events[..|events| - 1]) || HeadFits(Run(conn, events).fromUpstream)
  {
    hide HeadFits, Run;
    var front := events[..|events| - 1];
    assert events[..|events|] == events;
    assert forall i | 0 <= i <= |front| :: front[..i] == events[..i];
    if HeadEverFits(conn, events) {
      var i :| 0 <= i <= |events| && HeadFits(Run(conn, events[..i]).fromUpstream);
      if i < |events| { assert HeadFits(Run(conn, front[..i]).fromUpstream); }
    }
    if HeadEverFits(conn, front) {
      var i :| 0 <= i <= |front| && HeadFits(Run(conn, front[..i]).fromUpstream);
      assert HeadFits(Run(conn, events[..i]).fromUpstream);
    }
  }

  /** Exactly when the header policy runs in a run. It does not if reads carry the head past the limit before it is seen
      whole, or if the stream ends before the head does. */
  lemma {:induction false} PolicyRunsIff(conn: Conn, events: seq<Event>)
    ensures Run(conn, events).policyRuns == 1 <==> HeadEverFits(conn, events)
    ensures var st := Run(conn, events);
            st.policyRuns == 0 && (st.server.Pass? || st.server.Body?) ==> |st.fromUpstream| > MAX_HEADER_BYTES
    decreases |events|
  {
    hide HeadEverFits, Run, Explains, ValidPhase, HeadFits;
    RunValid(conn, events);
    if events == [] {
      NothingFits(conn);
    } else {
      var front := events[..|events| - 1];
      PolicyRunsIff(conn, front);
      RunValid(conn, front);
      HeadEverFitsStep(conn, events);
      FitsNow(conn, front);
      var a := RunExplained(conn, front);
      var st := Run(conn, front);
      PendingIsAll(conn, a, st.fromUpstream, st.server, st.relayed);
      RunUnfolds(conn, events);
      if st.policyRuns == 0 {
        PolicyStep(conn, st, events[|events| - 1]);
      } else {
        RunsNeverDrop(conn, st, events[|events| - 1]);
      }
    }
  }

  lemma NothingFits(conn: Conn)
    ensures Run(conn, []) == INIT && !HeadEverFits(conn, [])
  {
  }

  lemma FitsNow(conn: Conn, events: seq<Event>)
    ensures HeadFits(Run(conn, events).fromUpstream) ==> HeadEverFits(conn, events)
  {
    hide HeadFits, Run;
    assert events[..|events|] == events;
  }

  lemma PendingIsAll(conn: Conn, a: Account, u: Bytes, ph: Phase, sent: Bytes)
    requires Explains(conn, a, u, ph, sent) && (ph.Head? ==> sent == [])
    ensures ph.Head? ==> ph.pending == u
  {
    hide HeadersEnd, OutputHeaders, RewrittenFrom, NewHead, Deferral;
    if ph.Head? { assert sent + Held(ph) == Held(ph); }
  }

  /** One step runs the policy exactly when the head is whole within the limit for the first time. */
  lemma PolicyStep(conn: Conn, st: State, ev: Event)
    requires st.policyRuns == 0 && !HeadFits(st.fromUpstream)
    requires st.server.Head? ==> st.server.pending == st.fromUpstream
    requires st.server.Pass? || st.server.Body? ==> |st.fromUpstream| > MAX_HEADER_BYTES
    ensures var next := Step(conn, st, ev);
            && (next.policyRuns == 1 <==> HeadFits(next.fromUpstream))
            && (next.policyRuns == 0 && (next.server.Pass? || next.server.Body?) ==> |next.fromUpstream| > MAX_HEADER_BYTES)
  {
    hide OnFirstRequest, OnEof, OnBody, Enter, HeadersEnd;
  }

  lemma RunsNeverDrop(conn: Conn, st: State, ev: Event)
    ensures st.policyRuns <= Step(conn, st, ev).policyRuns
  {
    hide OnFirstRequest, OnEof, OnRead, RunsPolicy;
  }

  // ---------------------------------------------------------------- whole runs

  /** While the filter is enforced on a host, every run that processed its first response head sends the client a head
      without Set-Cookie, in every way of cutting and interleaving the reads; and a run processed it exactly when at
      some moment the head was whole within the limit. Nothing is said of responses behind the first. */
  lemma NoCookieSent(conn: Conn, events: seq<Event>)
    requires forall ev | ev in events && ev.FromUpstream? :: Enforces(conn, ev.engine)
    ensures var st := Run(conn, events);
            HeadEverFits(conn, events) ==>
              && (HeadersEnd(st.relayed).Some? ==> HeadIsCookieFree(st.relayed))
              && (st.server.Closed? ==> HeadIsCookieFree(st.relayed))
    ensures var st := Run(conn, events);
            !HeadEverFits(conn, events) ==> st.relayed + Held(st.server) == st.fromUpstream
  {
    hide Run, Explains, Enforces, HeadIsCookieFree, HeadersEnd, HeadEverFits, HeaderLines, ValidPhase;
    var st := Run(conn, events);
    var a := RunExplained(conn, events);
    PolicyRunsIff(conn, events);
    RunValid(conn, events);
    if a.Untouched? {
      UntouchedSends(conn, st.fromUpstream, st.server, st.relayed);
    } else {
      AccountCookieFree(conn, a, st.fromUpstream, st.server, st.relayed);
      SameHead(st.relayed, Held(st.server));
      assert st.relayed + [] == st.relayed;
    }
  }

  lemma UntouchedSends(conn: Conn, u: Bytes, ph: Phase, sent: Bytes)
    requires Explains(conn, Untouched, u, ph, sent)
    ensures sent + Held(ph) == u
  {
  }

  /** In terms of field names: behind the status line no line is `Set-Cookie:`, in any letter case. */
  lemma CookieFreeMeaning(lines: seq<Bytes>)
    ensures CookieFree(lines) <==> forall i | 1 <= i < |lines| :: !HasField(lines[i], "set-cookie")
  {
    hide IsSetCookie, HasField;
    forall i | 1 <= i < |lines| ensures IsSetCookie(lines[i]) <==> HasField(lines[i], "set-cookie") { CookieField(lines[i]); }
  }

  /** More bytes do not change a complete head. */
  lemma SameHead(sent: Bytes, more: Bytes)
    requires HeadIsCookieFree(sent + more)
    ensures HeadersEnd(sent).Some? ==> HeadIsCookieFree(sent)
  {
    hide HeadersEnd, HeaderLines, CookieFree;
    if HeadersEnd(sent).Some? { HeadersEndStable(sent, more); }
  }

  /** The same over every run that processed its first head: behind it, exactly the cookies of the stream read, or of the
      body put in, reach the client. */
  lemma LaterCookiesReach(conn: Conn, events: seq<Event>) returns (a: Account)
    requires forall ev | ev in events && ev.FromUpstream? :: Enforces(conn, ev.engine)
    requires HeadEverFits(conn, events)
    ensures InForce(a, events) && !a.Untouched?
    ensures var st := Run(conn, events);
            && Explains(conn, a, st.fromUpstream, st.server, st.relayed)
            && Replaced(a) <= |st.fromUpstream|
            && (SetsCookieLater(st.relayed + Held(st.server)) <==>
                SetsCookie(NewBody(a) + st.fromUpstream[Replaced(a)..]))
  {
    hide Run, Explains, Enforces, HeadEverFits, SetsCookie, SetsCookieLater, ValidPhase, Held;
    a := RunExplained(conn, events);
    PolicyRunsIff(conn, events);
    var st := Run(conn, events);
    CookieReachesClientIff(conn, a, st.fromUpstream, st.server, st.relayed);
  }
}
