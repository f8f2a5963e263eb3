/** A connection on which the cookies of the first response are stripped and those of the second are delivered. */
module SecondResponse {
  import opened Text
  import opened Headers
  import opened Domains
  import opened Policy
  import opened Relay
  import opened RelayRuns
  import opened CookieStripping

  /** A policy in Enforce mode with one tracker host and nothing to rewrite. */
  function EnforcingEngine(): Engine {
    Engine(
      Config(Enforce, DomainRule(true, {"t"}), DomainRule(false, {}),
             BodyRule(false, [], [], [], false, 0, {}, false),
             ConsentRule(false, EssentialOnly, {}, map[], map[]), true),
      FilterRules({}, {}, [], [], map[]))
  }

  function FirstBlock(): Bytes {
    Block(["A"])
  }

  function SecondBlock(): Bytes {
    Block(["A", "Set-Cookie: a=1"])
  }

  lemma Plans(codec: Codec)
    ensures Enforces(Conn("t", None, codec), EnforcingEngine())
    ensures !PlanForBody(EnforcingEngine(), "t").shouldRewrite
  {
    hide LongestMatch, TrimEndChar, Lower;
    TrimEndCharShape("t", '.');
    assert Lower("t") == "t";
    assert SuffixMatch("t", "t");
    NoMatches("t");
  }

  lemma {:induction false} NoMatches(host: Bytes)
    ensures AllMatches<seq<Bytes>>(host, map[]) == []
    decreases |host|
  {
    match FindChar(host, '.')
    case None =>
    case Some(i) => NoMatches(host[i + 1..]);
  }

  lemma LinesArePlain()
    ensures NoCrlf("A") && NoCrlf("Set-Cookie: a=1") && NotCacheTracking("A") && IsSetCookie("Set-Cookie: a=1")
  {
    var line: Bytes := "Set-Cookie: a=1";
    assert LowerChar('S') == 's' && LowerChar('C') == 'c';
    assert HasPrefixCI(line, "set-cookie:");
  }

  /** The first block gains its extra line and nothing else. */
  lemma FirstBlockSent(codec: Codec)
    ensures Complete(FirstBlock())
    ensures OutputHeaders(EnforcingEngine(), "t", None, FirstBlock()) == Block(["A", []])
  {
    hide PlanForHost, FilterHeaders, HeaderLines, FindBlank, KeptLines, NotCacheTracking, Block, Retain, EnforcingEngine,
      StripCacheTracking, NoCrlf, IsSetCookie;
    var lines: seq<Bytes> := ["A"];
    LinesArePlain();
    Plans(codec);
    KeptOfBlock(lines);
    assert lines + [[]] == ["A", []];
    EnforcedIsBlock(FirstBlock());
    EnforcedHeaderLines(FirstBlock());
    StripCacheTrackingSpec(FilterHeaders(true, Enforce, FirstBlock()).output);
  }

  /** Both responses in one read: the second is delivered as it is, and sets its cookie. */
  lemma SecondResponseKeepsCookies(codec: Codec)
    ensures var conn, engine := Conn("t", None, codec), EnforcingEngine();
            var st := Run(conn, [FromUpstream(engine, FirstBlock() + SecondBlock())]);
            && Enforces(conn, engine)
            && st.relayed == Block(["A", []]) + SecondBlock()
            && SetsCookieLater(st.relayed)
    ensures HeadersEnd(SecondBlock()).Some? && !HeadIsCookieFree(SecondBlock())
  {
    hide Block, HeadersEnd, EnforcingEngine, Enforces, OnRead, OnEof, OnFirstRequest, RunsPolicy, SetsCookieLater, HeadIsCookieFree,
      FirstBlock, SecondBlock;
    var conn, engine, u := Conn("t", None, codec), EnforcingEngine(), FirstBlock() + SecondBlock();
    var events := [FromUpstream(engine, u)];
    Plans(codec);
    ReadBoth(codec);
    RunUnfolds(conn, events);
    RunOfNothing(conn);
    assert events[..0] == [];
    assert [] + (Block(["A", []]) + SecondBlock()) == Block(["A", []]) + SecondBlock();
    SecondSetsCookie();
  }

  lemma Sizes()
    ensures 5 <= |FirstBlock()| && |FirstBlock() + SecondBlock()| <= 100
  {
    var lines: seq<Bytes> := ["A", "Set-Cookie: a=1"];
    assert lines[1..] == ["Set-Cookie: a=1"];
    assert JoinCrlf(lines) == "A" + CRLF + JoinCrlf(["Set-Cookie: a=1"]);
  }

  /** The read that carries both responses. */
  lemma ReadBoth(codec: Codec)
    ensures var conn, u := Conn("t", None, codec), FirstBlock() + SecondBlock();
            u != [] && OnRead(conn, EnforcingEngine(), Head([]), u) == (Pass, Block(["A", []]) + SecondBlock())
  {
    hide Block, HeadersEnd, EnforcingEngine, OutputHeaders, PlanForBody, FirstBlock, SecondBlock, ExtractContentLength,
      ExtractContentEncoding, ResponseIsHtml, HasChunked, EncodingOk;
    var u := FirstBlock() + SecondBlock();
    Sizes();
    Plans(codec);
    FirstBlockSent(codec);
    HeadOfComplete(FirstBlock(), SecondBlock());
    assert [] + u == u;
    assert u[..|FirstBlock()|] == FirstBlock() && u[|FirstBlock()|..] == SecondBlock();
  }

  lemma SecondSetsCookie()
    ensures SetsCookieLater(Block(["A", []]) + SecondBlock())
    ensures HeadersEnd(SecondBlock()).Some? && !HeadIsCookieFree(SecondBlock())
  {
    hide Block, HeadersEnd, SplitCrlf, NoCrlf, IsSetCookie, HeaderLines;
    var first: seq<Bytes>, second: seq<Bytes> := ["A", []], ["A", "Set-Cookie: a=1"];
    LinesArePlain();
    EmptyIsCrlfFree();
    EmptyNotSetCookie();
    BlockRoundTrip(second);
    HeadOfComplete(SecondBlock(), []);
    assert SecondBlock() + [] == SecondBlock();
    assert ClientHead(SecondBlock())[1] == second[1];
    CookiesBehindBlock(first, SecondBlock());
    SplitBlock(second, []);
    assert second[1] in SplitCrlf(SecondBlock());
  }
}
