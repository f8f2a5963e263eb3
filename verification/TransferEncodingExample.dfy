/** A response that is rewritten at EOF and sent with a Transfer-Encoding line beside its new Content-Length. */
module TransferEncodingExample {
  import opened Text
  import opened Headers
  import opened Domains
  import opened Policy
  import opened Relay
  import opened RelayRuns
  import opened CookieStripping
  import opened Segmentation
  import opened OverrunExample

  const CODING_LINE: Bytes := "Transfer-Encoding: gzip"

  function CodedLines(): seq<Bytes> {
    ["OK", HTML_LINE, CODING_LINE]
  }

  function CodedBlock(): Bytes {
    Block(CodedLines())
  }

  /** Two bytes of body behind a block that announces no length. */
  function CodedStream(): Bytes {
    CodedBlock() + "ab"
  }

  lemma CodingLineText()
    ensures NoCrlf(CODING_LINE) && FreeOf(CODING_LINE, 'u') && CODING_LINE != []
  {
  }

  lemma CodingLineField()
    ensures IsTransferEncoding(CODING_LINE)
  {
    assert LowerChar('T') == 't' && LowerChar('E') == 'e';
  }

  lemma CodingLineFacts()
    ensures IsTransferEncoding(CODING_LINE) && NoCrlf(CODING_LINE) && FreeOf(CODING_LINE, 'u') && CODING_LINE != []
    ensures !IsContentLength(CODING_LINE) && NotIntegrity(CODING_LINE) && !HasPrefixCI(CODING_LINE, "content-encoding:")
  {
    hide NoCrlf, FreeOf, NotIntegrity, IsContentLength, IsTransferEncoding;
    CodingLineText();
    CodingLineField();
    TransferEncodingKept(CODING_LINE);
    assert LowerChar(CODING_LINE[0]) == 't';
  }

  /** Every line of the block survives the rebuild. */
  lemma LinesSurvive()
    ensures forall l | l in CodedLines() :: l != [] && NoCrlf(l) && NotContentLength(l) && NotIntegrity(l) && FreeOf(l, 'u')
    ensures forall l | l in CodedLines() :: !HasPrefixCI(l, "content-encoding:")
  {
    hide NoCrlf, FreeOf, NotIntegrity, IsContentLength, HasPrefixCI;
    LineFacts();
    FreeLines();
    CodingLineFacts();
    PlainIntegrity();
  }

  lemma PlainIntegrity()
    ensures NotIntegrity("OK") && NotIntegrity(HTML_LINE)
  {
    assert LowerChar(HTML_LINE[0]) == 'c' && LowerChar(HTML_LINE[8]) == 't';
  }

  lemma CodedSplits()
    ensures SplitCrlf(CodedBlock()) == CodedLines() + EMPTY_LINES
  {
    hide JoinCrlf, SplitCrlf, Block, NoCrlf, NotIntegrity, NotContentLength, FreeOf, HasPrefixCI;
    LinesSurvive();
    JoinThenBlank(CodedLines());
    EmptyIsCrlfFree();
    SplitOfJoin(CodedLines() + EMPTY_LINES);
  }

  lemma CodedHasNoLength()
    ensures ExtractContentLength(CodedBlock()).None?
  {
    hide SplitCrlf, CodedBlock, CodedLines, NoCrlf, NotIntegrity, FreeOf, HasPrefixCI;
    LinesSurvive();
    CodedSplits();
    var lines := CodedLines() + EMPTY_LINES;
    EmptyIsNoLength();
    ScanSkips(lines, []);
    assert lines + [] == lines;
  }

  lemma EmptyIsNoLength()
    ensures !IsContentLength([])
  {
  }

  lemma CodedIsHtml()
    ensures ResponseIsHtml(CodedBlock())
  {
    hide CodedBlock, NamesField, AfterColon, Trim, HasPrefixCI, SplitCrlf;
    CodedSplits();
    StatusHasNoField();
    HtmlLineIsHtml();
    HtmlValue();
    var lines := CodedLines() + EMPTY_LINES;
    assert lines[1..][0] == HTML_LINE;
    assert ScanIsHtml(lines[1..]);
  }

  lemma CodedHasNoEncoding()
    ensures ExtractContentEncoding(CodedBlock()).None?
  {
    hide SplitCrlf, CodedBlock, CodedLines, NoCrlf, NotIntegrity, FreeOf, HasPrefixCI, ScanContentEncoding, NotContentLength;
    LinesSurvive();
    CodedSplits();
    LengthLineIsNotEncoding();
    NoEncoding(CodedLines() + EMPTY_LINES);
  }

  lemma CodedNotChunked()
    ensures !HasChunked(CodedBlock())
  {
    hide FreeOf, JoinCrlf, Contains, CodedLines, NoCrlf, NotIntegrity, NotContentLength, HasPrefixCI;
    LinesSurvive();
    FreeLines();
    FreeJoin(CodedLines(), 'u');
    FreeOfConcat(JoinCrlf(CodedLines()), CRLF, 'u');
    FreeOfConcat(JoinCrlf(CodedLines()) + CRLF, CRLF, 'u');
    assert CodedBlock() == JoinCrlf(CodedLines()) + CRLF + CRLF;
    NotContained(CodedBlock());
  }

  lemma CodedDeferral() returns (d: Deferred)
    ensures Deferral(ExampleConn(), ExampleEngine(), CodedBlock()) == Some(d)
    ensures d.headers == CodedBlock() && d.framing.UntilEof? && d.encoding.None? && d.plan.mode == Enforce
    ensures d.plan.maxBodyBytes == 2097152
  {
    hide ResponseIsHtml, ExtractContentLength, ExtractContentEncoding, HasChunked, CodedBlock, OutputHeaders, NormalizeHost, AllMatches,
      LongestMatch;
    var conn, engine := ExampleConn(), ExampleEngine();
    assert !PlanForHost(engine, conn.host, conn.sourceIp).trackerMatch;
    OutputUnchanged(engine, conn.host, conn.sourceIp, CodedBlock());
    CodedIsHtml();
    CodedHasNoLength();
    CodedHasNoEncoding();
    CodedNotChunked();
    d := Deferral(conn, engine, CodedBlock()).value;
  }

  lemma CodedRebuilt()
    ensures ReplaceContentLength(CodedBlock(), 2) == Block(CodedLines() + [ContentLengthLine(2)])
  {
    hide Block, CodedLines, HeaderLines, NoCrlf, NotIntegrity, NotContentLength, FreeOf, HasPrefixCI, Retain, ContentLengthLine;
    LinesSurvive();
    BlockLines(CodedLines());
    RetainAll(CodedLines(), NotContentLength);
    RetainAll(CodedLines(), NotIntegrity);
  }

  lemma CodedSize()
    ensures |CodedBlock()| <= 90
  {
    var last: seq<Bytes> := [CODING_LINE];
    assert CodedLines()[1..] == [HTML_LINE] + last;
    assert ([HTML_LINE] + last)[1..] == last;
    assert JoinCrlf([HTML_LINE] + last) == HTML_LINE + CRLF + JoinCrlf(last);
  }

  lemma CodedHead()
    ensures HeadersEnd(CodedStream()) == Some(|CodedBlock()|)
    ensures CodedStream()[..|CodedBlock()|] == CodedBlock() && CodedStream()[|CodedBlock()|..] == "ab"
  {
    hide CodedLines, HeadersEnd, HeaderLines, NoCrlf, NotIntegrity, NotContentLength, FreeOf, HasPrefixCI, Block;
    LinesSurvive();
    BlockRoundTrip(CodedLines());
    HeadOfComplete(CodedBlock(), "ab");
  }

  /** However the response is cut into reads, the client is sent the rewritten body under a head that holds both the
      Transfer-Encoding line and a Content-Length line. */
  lemma CodingLineLeft(segs: seq<Bytes>)
    requires Cut(segs, CodedStream())
    ensures Delivery(ExampleConn(), ExampleEngine(), Head([]), segs) == Block(CodedLines() + [ContentLengthLine(2)]) + "ab"
    ensures CODING_LINE in CodedLines() && IsTransferEncoding(CODING_LINE)
  {
    hide Deferral, HeadersEnd, CodedBlock, CodedStream, ExampleEngine, Cut, Delivery, ReplaceContentLength, Block, ContentLengthLine,
      IsTransferEncoding;
    var conn, engine, u := ExampleConn(), ExampleEngine(), CodedStream();
    CodedHead();
    CodedSize();
    CodingLineField();
    HeadersEndBounds(u);
    var d := CodedDeferral();
    CodedRebuilt();
    var b: Bytes := "ab";
    assert AttemptRewrite(conn.codec, b, d.plan, d.encoding) == Some(b);
    assert Stable(conn, engine, u) && !Gap(u);
    SegmentationIndependence(conn, engine, u, segs);
  }
}
