/**
  One response near the head limit that does not depend on the cut although the Set-Cookie filter is enforced on it: the
  rewritten body and its new head are the old ones, and rewriting absorbs the CRLF that enforcement adds.
 */
module GapExample {
  import opened Text
  import opened Headers
  import opened Domains
  import opened Policy
  import opened Relay
  import opened RelayRuns
  import opened CookieStripping
  import opened Segmentation
  import opened OverrunExample

  const SIZE: nat := 5000

  /** A policy in Enforce mode with one tracker host and one cosmetic selector. */
  function TrackerEngine(): Engine {
    Engine(
      Config(Enforce, DomainRule(true, {"t"}), DomainRule(false, {}),
             BodyRule(false, [], [], [], false, 2097152, {}, false),
             ConsentRule(false, EssentialOnly, {}, map[], map[]), true),
      FilterRules({}, {}, [], ["#ad"], map[]))
  }

  /** A rewriter that leaves the HTML as it is. */
  function TrackerConn(): Conn {
    Conn("t", None, Codec((b, e) => Some(b), (b, p) => Some(b), (b, e) => Some(b)))
  }

  function LongLine(): Bytes {
    seq(61000, _ => 'A')
  }

  function LongBody(): Bytes {
    seq(SIZE, _ => 'b')
  }

  function LongLines(): seq<Bytes> {
    [LongLine(), HTML_LINE, ContentLengthLine(SIZE)]
  }

  function LongStream(): Bytes {
    Block(LongLines()) + LongBody()
  }

  // ---------------------------------------------------------------- the lines

  /** A line that every pass leaves alone. */
  predicate PlainLine(line: Bytes) {
    line != [] && '\n' !in line && NotCacheTracking(line) && NotSetCookie(line) && NotIntegrity(line)
    && !HasPrefixCI(line, "content-encoding:") && FreeOf(line, 'u')
  }

  /** A line whose first letters are none of those the passes look for. */
  lemma NoKnownField(line: Bytes)
    requires |line| > 8
    requires || (LowerChar(line[0]) == 'c' && LowerChar(line[8]) != 'm' && LowerChar(line[8]) != 'e')
             || (LowerChar(line[0]) == 'a' && LowerChar(line[1]) == 'a')
    ensures NotCacheTracking(line) && NotSetCookie(line) && NotIntegrity(line) && !HasPrefixCI(line, "content-encoding:")
  {
    assert LowerChar(line[0]) != 'e' && LowerChar(line[0]) != 'd';
  }

  lemma LongLineText()
    ensures |LongLine()| == 61000 && forall i | 0 <= i < 61000 :: LongLine()[i] == 'A'
  {
  }

  lemma LongLineIsPlain()
    ensures PlainLine(LongLine()) && !IsContentLength(LongLine()) && !NamesField(LongLine(), "content-type")
  {
    hide *;
    LongLineText();
    LettersArePlain(LongLine());
    LettersAreNoField(LongLine());
  }

  lemma LettersArePlain(line: Bytes)
    requires |line| > 8 && forall i | 0 <= i < |line| :: line[i] == 'A'
    ensures PlainLine(line)
  {
    hide NotCacheTracking, NotIntegrity, NotSetCookie, HasPrefixCI;
    assert LowerChar(line[0]) == 'a' && LowerChar(line[1]) == 'a';
    NoKnownField(line);
  }

  lemma LettersAreNoField(line: Bytes)
    requires |line| > 8 && forall i | 0 <= i < |line| :: line[i] == 'A'
    ensures !IsContentLength(line) && !NamesField(line, "content-type")
  {
    hide FindChar;
    assert LowerChar(line[0]) == 'a';
    assert FindChar(line, ':').None?;
  }

  lemma HtmlLineIsPlain()
    ensures PlainLine(HTML_LINE)
  {
    hide NotCacheTracking, NotIntegrity, NotSetCookie, HasPrefixCI;
    FreeLines();
    var line := HTML_LINE;
    assert |line| == 23 && LowerChar(line[0]) == 'c' && LowerChar(line[8]) == 't';
    NoKnownField(line);
  }

  lemma LengthLineIsPlain(n: nat)
    ensures PlainLine(ContentLengthLine(n))
  {
    hide Numeral, NotCacheTracking, NotIntegrity, NotSetCookie, HasPrefixCI;
    var line, digits := ContentLengthLine(n), Numeral(n, 10);
    forall i | 0 <= i < |line| ensures LowerChar(line[i]) != 'u' && line[i] != '\n' {
      if i >= 16 { assert line[i] == digits[i - 16] && digits[i - 16] in digits; }
    }
    assert LowerChar(line[0]) == 'c' && LowerChar(line[8]) == 'l';
    NoKnownField(line);
  }

  lemma LongLinesArePlain()
    ensures forall l | l in LongLines() :: PlainLine(l)
    ensures LfFree(LongLines()) && CrlfFree(LongLines())
  {
    hide PlainLine, LongLine, ContentLengthLine;
    LongLineIsPlain();
    HtmlLineIsPlain();
    LengthLineIsPlain(SIZE);
    forall l | l in LongLines() ensures '\n' !in l && NoCrlf(l) { PlainHasNoLf(l); }
  }

  lemma PlainHasNoLf(line: Bytes)
    requires PlainLine(line)
    ensures '\n' !in line && NoCrlf(line)
  {
    LfFreeIsCrlfFree(line);
  }

  // ---------------------------------------------------------------- the block the relay would send

  /** The kept lines of a block of plain lines are those lines and the empty one. */
  lemma KeptOfPlain(lines: seq<Bytes>)
    requires lines != [] && LfFree(lines) && CrlfFree(lines) && forall l | l in lines :: PlainLine(l)
    ensures Complete(Block(lines)) && KeptLines(Block(lines)) == lines + [[]]
  {
    hide *;
    forall l | l in lines ensures l != [] && NotSetCookie(l) { PlainFacts(l); }
    forall i | 1 <= i < |lines| ensures NotSetCookie(lines[i]) { assert lines[i] in lines; }
    KeptOfBlock(lines);
  }

  lemma PlainFacts(line: Bytes)
    requires PlainLine(line)
    ensures line != [] && NotSetCookie(line) && NotCacheTracking(line) && NotIntegrity(line) && FreeOf(line, 'u')
    ensures !HasPrefixCI(line, "content-encoding:")
  {
  }

  lemma TrackerPlans()
    ensures Enforces(TrackerConn(), TrackerEngine())
    ensures PlanForHost(TrackerEngine(), "t", None).trackerMatch
    ensures var p := PlanForBody(TrackerEngine(), "t"); p.shouldRewrite && p.maxBodyBytes == 2097152 && p.mode == Enforce
  {
    hide LongestMatch, AllMatches, TrimEndChar, Lower;
    TrimEndCharShape("t", '.');
    assert Lower("t") == "t";
    assert SuffixMatch("t", "t");
  }

  /** What is sent for a block of plain lines: the same lines with one empty line more. */
  lemma OutputOfPlain(lines: seq<Bytes>)
    requires lines != [] && LfFree(lines) && CrlfFree(lines) && forall l | l in lines :: PlainLine(l)
    ensures OutputHeaders(TrackerEngine(), "t", None, Block(lines)) == Block(lines + [[]])
  {
    hide PlanForHost, FilterHeaders, HeaderLines, FindBlank, KeptLines, LfFree, CrlfFree, PlainLine, NotCacheTracking, Block, Retain,
      TrackerEngine, StripCacheTracking;
    var block := Block(lines);
    KeptOfPlain(lines);
    TrackerPlans();
    EnforcedIsBlock(block);
    EnforcedHeaderLines(block);
    StripCacheTrackingSpec(FilterHeaders(true, Enforce, block).output);
    forall l | l in Retain(lines + [[]], NonEmpty) ensures NotCacheTracking(l) { PlainFacts(l); }
  }

  lemma PlainBlockSplits(lines: seq<Bytes>)
    requires lines != [] && CrlfFree(lines)
    ensures SplitCrlf(Block(lines + [[]])) == lines + ([[]] + EMPTY_LINES)
  {
    hide JoinCrlf, SplitCrlf, Block;
    var all: seq<Bytes> := lines + [[]];
    JoinThenBlank(all);
    EmptyIsCrlfFree();
    SplitOfJoin(all + EMPTY_LINES);
    assert all + EMPTY_LINES == lines + ([[]] + EMPTY_LINES);
  }

  lemma PlainBlockLines(lines: seq<Bytes>)
    requires lines != [] && CrlfFree(lines) && forall l | l in lines :: l != []
    ensures HeaderLines(Block(lines + [[]])) == lines
  {
    hide SplitCrlf, Block, Retain;
    PlainBlockSplits(lines);
    RetainDropsEmpty(lines, [[]] + EMPTY_LINES);
  }

  // ---------------------------------------------------------------- the deferral

  function Sent(): Bytes {
    Block(LongLines() + [[]])
  }

  lemma SentLength()
    ensures ExtractContentLength(Sent()) == Some(SIZE)
  {
    hide ContentLengthLine, Block, ScanContentLength, IsContentLength, SplitCrlf, LongLine, PlainLine;
    LongLinesArePlain();
    PlainBlockSplits(LongLines());
    LineFacts();
    LongLineIsPlain();
    ContentLengthLineParses(SIZE);
    var front: seq<Bytes> := [LongLine(), HTML_LINE];
    var line := ContentLengthLine(SIZE);
    var empties: seq<Bytes> := [[]] + EMPTY_LINES;
    assert LongLines() + empties == front + ([line] + empties);
    ScanSkips(front, [line] + empties);
    ScanFirst(line, empties);
  }

  lemma SentIsHtml()
    ensures ResponseIsHtml(Sent())
  {
    hide ContentLengthLine, Block, NamesField, AfterColon, Trim, HasPrefixCI, SplitCrlf, LongLine, PlainLine;
    LongLinesArePlain();
    PlainBlockSplits(LongLines());
    LongLineIsPlain();
    HtmlLineIsHtml();
    HtmlValue();
    var lines := LongLines() + ([[]] + EMPTY_LINES);
    assert lines[1..][0] == HTML_LINE;
    assert ScanIsHtml(lines[1..]);
  }

  lemma SentEncoding()
    ensures ExtractContentEncoding(Sent()).None?
  {
    hide ContentLengthLine, Block, HasPrefixCI, SplitCrlf, ScanContentEncoding, LongLines, PlainLine;
    LongLinesArePlain();
    HaveLines();
    PlainBlockSplits(LongLines());
    LengthLineIsNotEncoding();
    var lines := LongLines() + ([[]] + EMPTY_LINES);
    forall l | l in lines ensures !HasPrefixCI(l, "content-encoding:") {
      if l in LongLines() { PlainFacts(l); }
    }
    NoEncoding(lines);
  }

  lemma HaveLines()
    ensures LongLines() != []
  {
  }

  lemma SentNotChunked()
    ensures !HasChunked(Sent())
  {
    hide ContentLengthLine, FreeOf, JoinCrlf, Contains, LongLines, PlainLine;
    LongLinesArePlain();
    FreeLines();
    FreeOfNothing('u');
    var lines := LongLines() + [[]];
    forall l | l in lines ensures FreeOf(l, 'u') {
      if l in LongLines() { PlainFacts(l); }
    }
    FreeJoin(lines, 'u');
    FreeOfConcat(JoinCrlf(lines), CRLF, 'u');
    FreeOfConcat(JoinCrlf(lines) + CRLF, CRLF, 'u');
    assert Block(lines) == JoinCrlf(lines) + CRLF + CRLF;
    NotContained(Block(lines));
  }

  lemma LongDeferral() returns (d: Deferred)
    ensures Deferral(TrackerConn(), TrackerEngine(), Block(LongLines())) == Some(d)
    ensures d.headers == Sent() && d.framing == Length(SIZE) && d.encoding.None? && d.plan.mode == Enforce
  {
    hide ResponseIsHtml, ExtractContentLength, ExtractContentEncoding, HasChunked, Block, OutputHeaders, PlanForBody, LongLines,
      TrackerEngine, PlainLine;
    LongLinesArePlain();
    HaveLines();
    OutputOfPlain(LongLines());
    TrackerPlans();
    SentIsHtml();
    SentLength();
    SentEncoding();
    SentNotChunked();
    d := Deferral(TrackerConn(), TrackerEngine(), Block(LongLines())).value;
  }

  // ---------------------------------------------------------------- the outcome

  lemma HeadAbsorbed()
    ensures ReplaceContentLength(Sent(), SIZE) == Block(LongLines())
  {
    hide ContentLengthLine, Block, IsContentLength, NotIntegrity, LongLine, HeaderLines, PlainLine, Retain;
    LongLinesArePlain();
    LineFacts();
    LongLineIsPlain();
    ContentLengthLineParses(SIZE);
    forall l | l in LongLines() ensures l != [] && NotIntegrity(l) { PlainFacts(l); }
    PlainBlockLines(LongLines());
    var front: seq<Bytes> := [LongLine(), HTML_LINE];
    var line := ContentLengthLine(SIZE);
    assert LongLines() == front + [line];
    RetainConcat(front, [line], NotContentLength);
    RetainAll(front, NotContentLength);
    RetainEmpty([line], NotContentLength);
    assert front + [] == front;
    RetainAll(front, NotIntegrity);
  }

  lemma {:induction false} NumeralShort(n: nat)
    ensures |Numeral(n, 10)| <= n + 1
    ensures n >= 10 ==> |Numeral(n, 10)| <= n / 10 + 2
    decreases n
  {
    if n >= 10 { NumeralShort(n / 10); }
  }

  lemma LongHead()
    ensures HeadersEnd(LongStream()) == Some(|Block(LongLines())|)
    ensures LongStream()[..|Block(LongLines())|] == Block(LongLines())
    ensures LongStream()[|Block(LongLines())|..] == LongBody()
    ensures Gap(LongStream())
  {
    hide ContentLengthLine, FindBlank, LongLine, JoinCrlf, PlainLine, LongBody;
    LongLinesArePlain();
    forall i | 1 <= i < |LongLines()| ensures LongLines()[i] != [] { PlainFacts(LongLines()[i]); }
    BlankAfterJoin(LongLines(), LongBody());
    LongSize();
  }

  lemma LongSize()
    ensures 61000 <= |JoinCrlf(LongLines())| <= 62000 && |LongBody()| == SIZE
  {
    hide Numeral;
    var last: seq<Bytes> := [ContentLengthLine(SIZE)];
    assert LongLines()[1..] == [HTML_LINE] + last;
    assert ([HTML_LINE] + last)[1..] == last;
    assert JoinCrlf(last) == ContentLengthLine(SIZE);
    assert JoinCrlf([HTML_LINE] + last) == HTML_LINE + CRLF + JoinCrlf(last);
    NumeralShort(SIZE);
  }

  /** Near the limit, enforced, and still independent of the cut. */
  lemma RewrittenGapIndependent()
    ensures Gap(LongStream()) && Enforces(TrackerConn(), TrackerEngine())
    ensures Independent(TrackerConn(), TrackerEngine(), LongStream())
  {
    hide Deferral, HeadersEnd, Block, LongLines, TrackerEngine, Independent, Enforces, Gap, ReplaceContentLength, LongBody, LongStream,
      Sent;
    var conn, engine, u, b := TrackerConn(), TrackerEngine(), LongStream(), LongBody();
    var e := |Block(LongLines())|;
    LongHead();
    LongSize();
    TrackerPlans();
    HeadersEndBounds(u);
    var d := LongDeferral();
    HeadAbsorbed();
    GapSmall(u);
    assert AttemptRewrite(conn.codec, b, d.plan, d.encoding) == Some(b);
    assert u == u[..e] + u[e..];
    assert Delivered(conn, engine, u) == u;
    assert Stable(conn, engine, u);
    IndependentIff(conn, engine, u);
  }

  lemma GapSmall(u: Bytes)
    requires Gap(u)
    ensures HeadersEnd(u).value <= MAX_HEADER_BYTES
  {
  }
}
