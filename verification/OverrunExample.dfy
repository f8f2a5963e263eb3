/** One concrete connection whose client stream depends on how the network cuts it. */
module OverrunExample {
  import opened Text
  import opened Headers
  import opened Domains
  import opened Policy
  import opened Relay
  import opened Segmentation

  /** A policy in Enforce mode with one cosmetic selector and no host list. */
  function ExampleEngine(): Engine {
    Engine(
      Config(Enforce, DomainRule(false, {}), DomainRule(false, {}),
             BodyRule(false, [], [], [], false, 2097152, {}, false),
             ConsentRule(false, EssentialOnly, {}, map[], map[]), true),
      FilterRules({}, {}, [], ["#ad"], map[]))
  }

  /** A rewriter that leaves the HTML as it is. */
  function ExampleConn(): Conn {
    Conn("h", None, Codec((b, e) => Some(b), (b, p) => Some(b), (b, e) => Some(b)))
  }

  const HTML_LINE: Bytes := "Content-Type: text/html"

  function ExampleLines(): seq<Bytes> {
    ["OK", HTML_LINE, ContentLengthLine(1)]
  }

  /** A response that announces one byte of body and sends two. */
  function ExampleStream(): Bytes {
    Block(ExampleLines()) + "ab"
  }

  lemma LineFacts()
    ensures NoCrlf("OK") && NoCrlf(HTML_LINE)
    ensures !IsContentLength("OK") && !IsContentLength(HTML_LINE)
    ensures !HasPrefixCI("OK", "content-encoding:") && !HasPrefixCI(HTML_LINE, "content-encoding:")
  {
    assert LowerChar(HTML_LINE[8]) == 't';
  }

  lemma ExampleSplits()
    ensures CrlfFree(ExampleLines()) && SolidAfterFirst(ExampleLines())
    ensures SplitCrlf(Block(ExampleLines())) == ExampleLines() + EMPTY_LINES
  {
    hide JoinCrlf, SplitCrlf, ContentLengthLine, Block, NoCrlf;
    LineFacts();
    ContentLengthLineShape(1);
    JoinThenBlank(ExampleLines());
    EmptyIsCrlfFree();
    SplitOfJoin(ExampleLines() + EMPTY_LINES);
  }

  lemma ExampleLength()
    ensures ExtractContentLength(Block(ExampleLines())) == Some(1)
  {
    hide ContentLengthLine, Block, ScanContentLength, IsContentLength, SplitCrlf;
    ExampleSplits();
    LineFacts();
    ContentLengthLineParses(1);
    var front: seq<Bytes> := ["OK", HTML_LINE];
    var line := ContentLengthLine(1);
    assert ExampleLines() + EMPTY_LINES == front + ([line] + EMPTY_LINES);
    ScanSkips(front, [line] + EMPTY_LINES);
    ScanFirst(line, EMPTY_LINES);
  }

  lemma HtmlLineIsHtml()
    ensures NamesField(HTML_LINE, "content-type") && AfterColon(HTML_LINE) == Some(" text/html")
  {
    hide Trim, FindChar, Lower;
    FindCharIs(HTML_LINE, ':', 12);
    assert HTML_LINE[..12] == "Content-Type" && HTML_LINE[13..] == " text/html";
    TrimSolid("Content-Type");
    ContentTypeName();
  }

  lemma ContentTypeName()
    ensures Lower("Content-Type") == Lower("content-type")
  {
    var name: Bytes, lower: Bytes := "Content-Type", "content-type";
    assert LowerChar('C') == 'c' && LowerChar('T') == 't';
    assert Lower(name) == Lower(lower);
  }

  lemma HtmlValue()
    ensures HasPrefixCI(Trim(" text/html"), "text/html")
  {
    hide TrimEnd;
    var v: Bytes := "text/html";
    assert " text/html"[1..] == v;
    assert TrimStart(" text/html") == TrimStart(v) == v;
    TrimSolid(v);
  }

  lemma StatusHasNoField()
    ensures !NamesField("OK", "content-type")
  {
  }

  lemma ExampleIsHtml()
    ensures ResponseIsHtml(Block(ExampleLines()))
  {
    hide ContentLengthLine, Block, NamesField, AfterColon, Trim, HasPrefixCI, SplitCrlf;
    ExampleSplits();
    StatusHasNoField();
    HtmlLineIsHtml();
    HtmlValue();
    var lines := ExampleLines() + EMPTY_LINES;
    assert lines[1..][0] == HTML_LINE;
    assert ScanIsHtml(lines[1..]);
  }

  lemma LengthLineIsNotEncoding()
    ensures !HasPrefixCI(ContentLengthLine(1), "content-encoding:") && !HasPrefixCI([], "content-encoding:")
  {
    hide Numeral;
    assert LowerChar(ContentLengthLine(1)[8]) == 'l';
  }

  lemma {:induction false} NoEncoding(lines: seq<Bytes>)
    requires forall l | l in lines :: !HasPrefixCI(l, "content-encoding:")
    ensures ScanContentEncoding(lines).None?
  {
    hide HasPrefixCI;
    if lines != [] {
      assert lines[0] in lines;
      NoEncoding(lines[1..]);
    }
  }

  lemma ExampleEncoding()
    ensures ExtractContentEncoding(Block(ExampleLines())).None?
  {
    hide ContentLengthLine, Block, HasPrefixCI, SplitCrlf, ScanContentEncoding;
    ExampleSplits();
    LineFacts();
    LengthLineIsNotEncoding();
    NoEncoding(ExampleLines() + EMPTY_LINES);
  }

  /** The letter `c` does not occur, in either case. */
  predicate FreeOf(s: Bytes, c: char) {
    forall i | 0 <= i < |s| :: LowerChar(s[i]) != c
  }

  lemma FreeOfConcat(a: Bytes, b: Bytes, c: char)
    requires FreeOf(a, c) && FreeOf(b, c)
    ensures FreeOf(a + b, c)
  {
  }

  lemma FreeLines()
    ensures FreeOf("OK", 'u') && FreeOf(HTML_LINE, 'u') && FreeOf(ContentLengthLine(1), 'u') && FreeOf(CRLF, 'u')
  {
    hide ContentLengthLine;
    LengthIsFree(1);
  }

  lemma LengthIsFree(n: nat)
    ensures FreeOf(ContentLengthLine(n), 'u')
  {
    hide Numeral;
    var line, digits := ContentLengthLine(n), Numeral(n, 10);
    forall i | 0 <= i < |line| ensures LowerChar(line[i]) != 'u' {
      if i >= 16 { assert line[i] == digits[i - 16] && digits[i - 16] in digits; }
    }
  }

  lemma {:induction false} FreeJoin(lines: seq<Bytes>, c: char)
    requires (forall l | l in lines :: FreeOf(l, c)) && FreeOf(CRLF, c)
    ensures FreeOf(JoinCrlf(lines), c)
  {
    hide FreeOf;
    if lines == [] {
      FreeOfNothing(c);
    } else if |lines| == 1 {
      assert lines[0] in lines;
    } else {
      assert lines[0] in lines;
      FreeJoin(lines[1..], c);
      FreeOfConcat(lines[0], CRLF, c);
      FreeOfConcat(lines[0] + CRLF, JoinCrlf(lines[1..]), c);
    }
  }

  lemma FreeOfNothing(c: char)
    ensures FreeOf([], c)
  {
  }

  lemma NotContained(s: Bytes)
    requires FreeOf(s, 'u')
    ensures !Contains(Lower(s), "chunked")
  {
    hide Lower;
    forall i | 0 <= i <= |s| - 7 ensures !OccursAt(Lower(s), "chunked", i) {
      assert Lower(s)[i..i + 7][2] == LowerChar(s[i + 2]);
      assert "chunked"[2] == 'u';
    }
  }

  lemma ExampleNotChunked()
    ensures !HasChunked(Block(ExampleLines()))
  {
    hide ContentLengthLine, FreeOf, JoinCrlf, Contains;
    FreeLines();
    FreeJoin(ExampleLines(), 'u');
    FreeOfConcat(JoinCrlf(ExampleLines()), CRLF, 'u');
    FreeOfConcat(JoinCrlf(ExampleLines()) + CRLF, CRLF, 'u');
    assert Block(ExampleLines()) == JoinCrlf(ExampleLines()) + CRLF + CRLF;
    NotContained(Block(ExampleLines()));
  }

  lemma ExampleHead()
    ensures HeadersEnd(ExampleStream()) == Some(|Block(ExampleLines())|)
    ensures ExampleStream()[..|Block(ExampleLines())|] == Block(ExampleLines())
    ensures ExampleStream()[|Block(ExampleLines())|..] == "ab"
    ensures |ExampleStream()| <= 100
  {
    hide ContentLengthLine, FindBlank, SplitCrlf;
    ExampleSplits();
    BlankAfterJoin(ExampleLines(), "ab");
    ExampleSize();
  }

  lemma ExampleSize()
    ensures |JoinCrlf(ExampleLines())| <= 90
  {
    var last: seq<Bytes> := [ContentLengthLine(1)];
    assert ExampleLines()[1..] == [HTML_LINE] + last;
    assert ([HTML_LINE] + last)[1..] == last;
    assert JoinCrlf(last) == ContentLengthLine(1);
    assert JoinCrlf([HTML_LINE] + last) == HTML_LINE + CRLF + JoinCrlf(last);
    assert Numeral(1, 10) == ['1'];
  }

  lemma ExampleDeferral() returns (d: Deferred)
    ensures Deferral(ExampleConn(), ExampleEngine(), Block(ExampleLines())) == Some(d)
    ensures d.framing == Length(1) && d.encoding.None? && d.plan.mode == Enforce
  {
    hide ResponseIsHtml, ExtractContentLength, ExtractContentEncoding, HasChunked, Block, OutputHeaders, NormalizeHost,
      AllMatches, LongestMatch;
    var conn, engine := ExampleConn(), ExampleEngine();
    assert !PlanForHost(engine, conn.host, conn.sourceIp).trackerMatch;
    OutputUnchanged(engine, conn.host, conn.sourceIp, Block(ExampleLines()));
    ExampleIsHtml();
    ExampleLength();
    ExampleEncoding();
    ExampleNotChunked();
    d := Deferral(conn, engine, Block(ExampleLines())).value;
  }

  /** The same two-byte body reaches the client under a Content-Length of 1 or of 2, according to the cut. */
  lemma ExampleDepends()
    ensures !Independent(ExampleConn(), ExampleEngine(), ExampleStream())
  {
    hide Deferral, HeadersEnd, Block, ExampleLines, ExampleEngine, ExampleStream, Independent;
    var u, e := ExampleStream(), |Block(ExampleLines())|;
    ExampleHead();
    HeadersEndBounds(u);
    var d := ExampleDeferral();
    var b: Bytes := "ab";
    assert b[..1] == "a";
    OverrunDepends(ExampleConn(), ExampleEngine(), u, e, d, "a", "ab");
  }
}
