/** Response header blocks: reading fields out of them and rebuilding them around a rewritten body. */
module Headers {
  import opened Text

  /** `find_headers_end`: the offset just past the first empty line. */
  function HeadersEnd(buf: Bytes): Option<nat> {
    match FindBlank(buf, 0) case None => None case Some(i) => Some(i + 4)
  }

  predicate NonEmpty(line: Bytes) { line != [] }

  /** The non-empty lines of a block, in order. */
  function HeaderLines(block: Bytes): (lines: seq<Bytes>)
    ensures CrlfFree(lines) && forall l | l in lines :: l != []
  {
    Retain(SplitCrlf(block), NonEmpty)
  }

  /** A complete block: its first empty line is its end. */
  predicate Complete(block: Bytes) {
    HeadersEnd(block) == Some(|block|)
  }

  /** The complete block made of the given lines. */
  function Block(lines: seq<Bytes>): Bytes {
    JoinCrlf(lines) + BLANK
  }

  const EMPTY_LINES: seq<Bytes> := [[], []]

  lemma {:induction false} JoinThenBlank(lines: seq<Bytes>)
    ensures Block(lines) == JoinCrlf(if lines == [] then [[]] + EMPTY_LINES else lines + EMPTY_LINES)
  {
    assert EMPTY_LINES[1..] == [[]];
    if lines == [] {
      var one: seq<Bytes> := [[]];
      assert JoinCrlf(EMPTY_LINES) == CRLF;
      assert (one + EMPTY_LINES)[1..] == EMPTY_LINES;
    } else if |lines| == 1 {
      assert (lines + EMPTY_LINES)[1..] == EMPTY_LINES;
    } else {
      JoinThenBlank(lines[1..]);
      assert (lines + EMPTY_LINES)[1..] == lines[1..] + EMPTY_LINES;
    }
  }

  lemma RetainDropsEmpty(lines: seq<Bytes>, empties: seq<Bytes>)
    requires (forall l | l in lines :: l != []) && forall e | e in empties :: e == []
    ensures Retain(lines + empties, NonEmpty) == lines
  {
    RetainConcat(lines, empties, NonEmpty);
    RetainAll(lines, NonEmpty);
    RetainEmpty(empties, NonEmpty);
  }

  lemma BlockComplete(lines: seq<Bytes>)
    requires CrlfFree(lines) && SolidAfterFirst(lines)
    ensures Complete(Block(lines))
  {
    hide JoinCrlf, FindBlank, CrlfFree, SolidAfterFirst;
    BlankAfterJoin(lines, []);
    assert Block(lines) + [] == Block(lines);
  }

  /** The lines read back from a block of any lines are those that are not empty. */
  lemma BlockNonEmptyLines(lines: seq<Bytes>)
    requires CrlfFree(lines) && lines != []
    ensures HeaderLines(Block(lines)) == Retain(lines, NonEmpty)
  {
    hide Block, SplitCrlf, JoinCrlf, CrlfFree, Retain;
    JoinThenBlank(lines);
    CrlfFreeWithEmpty(lines);
    SplitOfJoin(lines + EMPTY_LINES);
    RetainConcat(lines, EMPTY_LINES, NonEmpty);
    RetainEmpty(EMPTY_LINES, NonEmpty);
    assert Retain(lines, NonEmpty) + [] == Retain(lines, NonEmpty);
  }

  lemma EmptyIsCrlfFree()
    ensures NoCrlf([])
  {
  }

  lemma CrlfFreeWithEmpty(lines: seq<Bytes>)
    requires CrlfFree(lines)
    ensures CrlfFree(lines + EMPTY_LINES)
  {
  }

  lemma BlockLines(lines: seq<Bytes>)
    requires CrlfFree(lines) && forall l | l in lines :: l != []
    ensures HeaderLines(Block(lines)) == lines
  {
    hide SplitCrlf, JoinCrlf, Retain, Block;
    JoinThenBlank(lines);
    var empties := if lines == [] then [[]] + EMPTY_LINES else EMPTY_LINES;
    assert (if lines == [] then [[]] + EMPTY_LINES else lines + EMPTY_LINES) == lines + empties;
    SplitOfJoin(lines + empties);
    RetainDropsEmpty(lines, empties);
  }

  /** Building a block from solid lines loses nothing: the lines come back and the block is complete. */
  lemma BlockRoundTrip(lines: seq<Bytes>)
    requires CrlfFree(lines) && forall l | l in lines :: l != []
    ensures HeaderLines(Block(lines)) == lines
    ensures Complete(Block(lines))
  {
    hide Complete, HeaderLines, Block;
    BlockLines(lines);
    forall i | 1 <= i < |lines| ensures lines[i] != [] { assert lines[i] in lines; }
    BlockComplete(lines);
  }

  // ---------------------------------------------------------------- fields

  predicate IsContentLength(line: Bytes) { HasPrefixCI(line, "content-length:") }
  predicate IsTransferEncoding(line: Bytes) { HasPrefixCI(line, "transfer-encoding:") }
  predicate NotContentLength(line: Bytes) { !IsContentLength(line) }
  predicate NotTransferFraming(line: Bytes) { !IsTransferEncoding(line) && !IsContentLength(line) }

  /** What `strip_body_integrity_headers` keeps. */
  predicate NotIntegrity(line: Bytes) {
    && !HasPrefixCI(line, "etag:")
    && !HasPrefixCI(line, "digest:")
    && !HasPrefixCI(line, "content-md5:")
    && !HasPrefixCI(line, "accept-ranges:")
    && !HasPrefixCI(line, "trailer:")
  }

  /** What `strip_cache_tracking_headers` keeps. */
  predicate NotCacheTracking(line: Bytes) {
    && !HasPrefixCI(line, "last-modified:")
    && !HasPrefixCI(line, "x-cache:")
    && !HasPrefixCI(line, "x-request-id:")
  }

  /** `split_once(':')`, second half. */
  function AfterColon(line: Bytes): Option<Bytes> {
    match FindChar(line, ':') case None => None case Some(i) => Some(line[i + 1..])
  }

  /** `split_once(':')`, first half, trimmed. */
  function FieldName(line: Bytes): Option<Bytes> {
    match FindChar(line, ':') case None => None case Some(i) => Some(Trim(line[..i]))
  }

  predicate NamesField(line: Bytes, name: Bytes) {
    FieldName(line).Some? && EqCI(FieldName(line).value, name)
  }

  function ScanContentLength(lines: seq<Bytes>): Option<nat> {
    if lines == [] then None
    else if IsContentLength(lines[0]) then
      match AfterColon(lines[0]) case None => None case Some(v) => ParseUsize(Trim(v), 10)
    else ScanContentLength(lines[1..])
  }

  /** `extract_content_length`. */
  function ExtractContentLength(block: Bytes): Option<nat> {
    ScanContentLength(SplitCrlf(block))
  }

  function ScanContentEncoding(lines: seq<Bytes>): Option<Bytes> {
    if lines == [] then None
    else if HasPrefixCI(lines[0], "content-encoding:") then
      match AfterColon(lines[0]) case None => None case Some(v) => Some(Lower(Trim(v)))
    else ScanContentEncoding(lines[1..])
  }

  /** `extract_content_encoding`. */
  function ExtractContentEncoding(block: Bytes): Option<Bytes> {
    ScanContentEncoding(SplitCrlf(block))
  }

  function ScanIsHtml(lines: seq<Bytes>): bool {
    if lines == [] then false
    else if NamesField(lines[0], "content-type") then
      HasPrefixCI(Trim(AfterColon(lines[0]).value), "text/html")
    else ScanIsHtml(lines[1..])
  }

  /** `response_is_html`. */
  predicate ResponseIsHtml(block: Bytes) {
    ScanIsHtml(SplitCrlf(block))
  }

  /** `has_transfer_encoding_chunked`: a substring test over the whole block. */
  predicate HasChunked(block: Bytes) {
    Contains(Lower(block), "transfer-encoding:") && Contains(Lower(block), "chunked")
  }

  predicate SaysChunked(line: Bytes) { Contains(Lower(line), "chunked") }

  /** Text that stays on one line does not occur across a line end. */
  lemma NotAcross(a: Bytes, b: Bytes, needle: Bytes, i: nat)
    requires needle != [] && '\r' !in needle && '\n' !in needle && i <= |a| + 1 && |a| < i + |needle|
    ensures !OccursAt(a + CRLF + b, needle, i)
  {
    var k := if i <= |a| then |a| else |a| + 1;
    assert needle[k - i] in needle && (a + CRLF + b)[k] in CRLF;
  }

  lemma OccursIn(s: Bytes, needle: Bytes, i: nat)
    requires OccursAt(s, needle, i)
    ensures Contains(s, needle)
  {
  }

  lemma ContainsAcross(a: Bytes, b: Bytes, needle: Bytes)
    requires needle != [] && '\r' !in needle && '\n' !in needle
    ensures Contains(a + CRLF + b, needle) <==> Contains(a, needle) || Contains(b, needle)
  {
    hide Contains, OccursAt;
    if Contains(a + CRLF + b, needle) { ContainedApart(a, b, needle); }
    if Contains(a, needle) { ContainedLater([], a, CRLF + b, needle); }
    if Contains(b, needle) { ContainedLater(a + CRLF, b, [], needle); }
    assert [] + a + (CRLF + b) == a + CRLF + b == a + CRLF + b + [];
  }

  /** A slice of the middle part of a text. */
  lemma MiddleSlice(a: Bytes, b: Bytes, c: Bytes, i: nat, j: nat)
    requires i <= j <= |b|
    ensures (a + b + c)[|a| + i..|a| + j] == b[i..j]
  {
    forall k | i <= k < j ensures (a + b + c)[|a| + k] == b[k] {}
  }

  lemma ContainedLater(a: Bytes, b: Bytes, c: Bytes, needle: Bytes)
    requires Contains(b, needle)
    ensures Contains(a + b + c, needle)
  {
    var n := |needle|;
    var i :| 0 <= i <= |b| - n && OccursAt(b, needle, i);
    MiddleSlice(a, b, c, i, i + n);
    OccursIn(a + b + c, needle, |a| + i);
  }

  lemma ContainedApart(a: Bytes, b: Bytes, needle: Bytes)
    requires needle != [] && '\r' !in needle && '\n' !in needle && Contains(a + CRLF + b, needle)
    ensures Contains(a, needle) || Contains(b, needle)
  {
    var s, n := a + CRLF + b, |needle|;
    var i :| 0 <= i <= |s| - n && OccursAt(s, needle, i);
    if i + n <= |a| {
      MiddleSlice([], a, CRLF + b, i, i + n);
      assert [] + a + (CRLF + b) == s;
      OccursIn(a, needle, i);
    } else if i > |a| + 1 {
      var j := i - |a| - 2;
      MiddleSlice(a + CRLF, b, [], j, j + n);
      assert a + CRLF + b + [] == s;
      OccursIn(b, needle, j);
    } else {
      NotAcross(a, b, needle, i);
    }
  }

  /** Such text occurs, in any letter case, exactly when it occurs in a line. */
  lemma {:induction false} ContainsInLine(s: Bytes, needle: Bytes)
    requires needle != [] && '\r' !in needle && '\n' !in needle
    ensures Contains(Lower(s), needle) <==> exists l | l in SplitCrlf(s) :: Contains(Lower(l), needle)
    decreases |s|
  {
    hide Contains, Lower, FindCrlf;
    match FindCrlf(s, 0)
    case None =>
      assert SplitCrlf(s) == [s];
    case Some(i) =>
      var line, rest := s[..i], s[i + 2..];
      assert SplitCrlf(s) == [line] + SplitCrlf(rest);
      ContainsInLine(rest, needle);
      assert LowerChar('\r') == '\r' && LowerChar('\n') == '\n';
      assert Lower(s) == Lower(line) + CRLF + Lower(rest);
      ContainsAcross(Lower(line), Lower(rest), needle);
  }

  lemma SaysChunkedLine(block: Bytes)
    ensures Contains(Lower(block), "chunked") <==> exists l | l in HeaderLines(block) :: SaysChunked(l)
  {
    hide Lower, SplitCrlf, Contains, Retain;
    ContainsInLine(block, "chunked");
    EmptyContainsNothing();
    if exists l | l in SplitCrlf(block) :: Contains(Lower(l), "chunked") {
      var l :| l in SplitCrlf(block) && Contains(Lower(l), "chunked");
      assert l in HeaderLines(block) && SaysChunked(l);
    }
  }

  lemma EmptyContainsNothing()
    ensures !SaysChunked([])
  {
  }

  /** With a Transfer-Encoding line present, the substring test is whether some line says "chunked". */
  lemma HasChunkedIff(block: Bytes)
    requires exists l | l in HeaderLines(block) :: IsTransferEncoding(l)
    ensures HasChunked(block) <==> exists l | l in HeaderLines(block) :: SaysChunked(l)
  {
    hide Lower, Contains, SaysChunked, HeaderLines, IsTransferEncoding, SplitCrlf;
    SaysChunkedLine(block);
    NamesTransferEncoding(block);
  }

  /** Without one, it is whether some line holds the one text and some line the other, in any letter case. */
  lemma HasChunkedMeaning(block: Bytes)
    ensures HasChunked(block) <==>
            && (exists l | l in SplitCrlf(block) :: Contains(Lower(l), "transfer-encoding:"))
            && (exists l | l in SplitCrlf(block) :: Contains(Lower(l), "chunked"))
  {
    hide Lower, Contains, SplitCrlf;
    ContainsInLine(block, "transfer-encoding:");
    ContainsInLine(block, "chunked");
  }

  lemma NamesTransferEncoding(block: Bytes)
    requires exists l | l in HeaderLines(block) :: IsTransferEncoding(l)
    ensures Contains(Lower(block), "transfer-encoding:")
  {
    hide Lower, Contains, SplitCrlf, IsTransferEncoding;
    var l :| l in HeaderLines(block) && IsTransferEncoding(l);
    TransferEncodingText(l);
    ContainsInLine(block, "transfer-encoding:");
  }

  lemma TransferEncodingText(line: Bytes)
    requires IsTransferEncoding(line)
    ensures Contains(Lower(line), "transfer-encoding:")
  {
    hide Contains;
    assert Lower(line)[0..18] == "transfer-encoding:";
    OccursIn(Lower(line), "transfer-encoding:", 0);
  }

  // ---------------------------------------------------------------- rebuilding

  function ContentLengthLine(n: nat): Bytes {
    "Content-Length: " + Numeral(n, 10)
  }

  /** The lines that survive `replace_content_length`. */
  function KeptForLength(lines: seq<Bytes>): seq<Bytes> {
    Retain(Retain(lines, NotContentLength), NotIntegrity)
  }

  /** The lines that survive `replace_chunked_with_content_length`. */
  function KeptForChunked(lines: seq<Bytes>): seq<Bytes> {
    Retain(Retain(lines, NotTransferFraming), NotIntegrity)
  }

  /** `replace_content_length`. */
  function ReplaceContentLength(block: Bytes, n: nat): Bytes {
    Block(KeptForLength(HeaderLines(block)) + [ContentLengthLine(n)])
  }

  /** `replace_chunked_with_content_length`. */
  function ReplaceChunked(block: Bytes, n: nat): Bytes {
    Block(KeptForChunked(HeaderLines(block)) + [ContentLengthLine(n)])
  }

  /** The cache-header pass over a response block: `None` when no line is dropped. */
  function StripCacheTracking(block: Bytes): Option<Bytes> {
    var lines := HeaderLines(block);
    var kept := Retain(lines, NotCacheTracking);
    if |kept| < |lines| then Some(Block(kept)) else None
  }

  lemma ContentLengthLineShape(n: nat)
    ensures IsContentLength(ContentLengthLine(n)) && NoCrlf(ContentLengthLine(n)) && ContentLengthLine(n) != []
  {
    hide Numeral;
    var line, digits := ContentLengthLine(n), Numeral(n, 10);
    forall j | 0 <= j < |line| ensures !CrlfAt(line, j) {
      if j >= 16 { assert line[j] == digits[j - 16] && digits[j - 16] in digits; }
    }
  }

  lemma ContentLengthLineKept(n: nat)
    ensures NotIntegrity(ContentLengthLine(n)) && !IsTransferEncoding(ContentLengthLine(n))
  {
    hide Numeral;
    var line := ContentLengthLine(n);
    assert LowerChar(line[0]) == 'c' && LowerChar(line[8]) == 'l';
  }

  lemma ContentLengthLineValue(n: nat)
    requires n <= USIZE_MAX
    ensures ScanContentLength([ContentLengthLine(n)]) == Some(n)
  {
    hide Numeral, Trim, ParseUsize, IsContentLength, FindChar;
    ContentLengthLineShape(n);
    var line := ContentLengthLine(n);
    FindCharIs(line, ':', 14);
    assert line[15..] == " " + Numeral(n, 10);
    NumeralTrim(n, 10);
    ParseNumeral(n, 10);
  }

  lemma ContentLengthLineParses(n: nat)
    ensures IsContentLength(ContentLengthLine(n)) && NoCrlf(ContentLengthLine(n)) && ContentLengthLine(n) != []
    ensures NotIntegrity(ContentLengthLine(n)) && !IsTransferEncoding(ContentLengthLine(n))
    ensures n <= USIZE_MAX ==> ScanContentLength([ContentLengthLine(n)]) == Some(n)
  {
    hide *;
    ContentLengthLineShape(n);
    ContentLengthLineKept(n);
    if n <= USIZE_MAX { ContentLengthLineValue(n); }
  }

  lemma {:induction false} ScanSkips(lines: seq<Bytes>, more: seq<Bytes>)
    requires forall l | l in lines :: !IsContentLength(l)
    ensures ScanContentLength(lines + more) == ScanContentLength(more)
  {
    hide IsContentLength, AfterColon, Trim, ParseUsize;
    if lines == [] {
      assert lines + more == more;
    } else {
      assert lines[0] in lines;
      assert (lines + more)[1..] == lines[1..] + more;
      ScanSkips(lines[1..], more);
    }
  }

  /** What every rebuilt block satisfies, whichever lines were kept. */
  lemma RebuiltBlock(kept: seq<Bytes>, n: nat)
    requires CrlfFree(kept) && forall l | l in kept :: l != [] && !IsContentLength(l)
    ensures var r := Block(kept + [ContentLengthLine(n)]);
            && Complete(r)
            && HeaderLines(r) == kept + [ContentLengthLine(n)]
            && Retain(HeaderLines(r), IsContentLength) == [ContentLengthLine(n)]
            && (n <= USIZE_MAX ==> ExtractContentLength(r) == Some(n))
  {
    hide IsContentLength, ContentLengthLine, Complete, ScanContentLength, HeaderLines, SplitCrlf, JoinCrlf;
    var line := ContentLengthLine(n);
    var lines := kept + [line];
    ContentLengthLineParses(n);
    BlockRoundTrip(lines);
    RetainConcat(kept, [line], IsContentLength);
    RetainEmpty(kept, IsContentLength);
    JoinThenBlank(lines);
    SplitOfJoin(lines + EMPTY_LINES);
    assert lines + EMPTY_LINES == kept + ([line] + EMPTY_LINES);
    ScanSkips(kept, [line] + EMPTY_LINES);
    ScanFirst(line, EMPTY_LINES);
  }

  lemma ScanFirst(line: Bytes, more: seq<Bytes>)
    requires IsContentLength(line)
    ensures ScanContentLength([line] + more) == ScanContentLength([line])
  {
  }

  /** The block around a rewritten body of known length: complete, one Content-Length line, that length. */
  lemma ReplaceContentLengthSpec(block: Bytes, n: nat)
    ensures var r := ReplaceContentLength(block, n);
            && Complete(r)
            && HeaderLines(r) == KeptForLength(HeaderLines(block)) + [ContentLengthLine(n)]
            && Retain(HeaderLines(r), IsContentLength) == [ContentLengthLine(n)]
            && (n <= USIZE_MAX ==> ExtractContentLength(r) == Some(n))
  {
    RebuiltBlock(KeptForLength(HeaderLines(block)), n);
  }

  /** The same around a body that was chunked, with no Transfer-Encoding line left. */
  lemma ReplaceChunkedSpec(block: Bytes, n: nat)
    ensures var r := ReplaceChunked(block, n);
            && Complete(r)
            && HeaderLines(r) == KeptForChunked(HeaderLines(block)) + [ContentLengthLine(n)]
            && Retain(HeaderLines(r), IsContentLength) == [ContentLengthLine(n)]
            && (n <= USIZE_MAX ==> ExtractContentLength(r) == Some(n))
            && forall l | l in HeaderLines(r) :: !IsTransferEncoding(l)
  {
    hide ContentLengthLine, IsContentLength, IsTransferEncoding, HeaderLines, ExtractContentLength, Complete, Block;
    RebuiltBlock(KeptForChunked(HeaderLines(block)), n);
    ContentLengthLineParses(n);
  }

  /** A Transfer-Encoding line is neither a Content-Length nor an integrity line. */
  lemma TransferEncodingKept(line: Bytes)
    requires IsTransferEncoding(line)
    ensures NotContentLength(line) && NotIntegrity(line)
  {
    assert LowerChar(line[0]) == 't' && LowerChar(line[3]) == 'n';
  }

  /** Replacing the length alone leaves every Transfer-Encoding line; replacing the chunked framing leaves none. */
  lemma TransferEncodingLeft(block: Bytes, n: nat)
    ensures forall l | IsTransferEncoding(l) :: l in HeaderLines(ReplaceContentLength(block, n)) <==> l in HeaderLines(block)
    ensures forall l | l in HeaderLines(ReplaceChunked(block, n)) :: !IsTransferEncoding(l)
  {
    hide ContentLengthLine, IsContentLength, IsTransferEncoding, HeaderLines, ExtractContentLength, Complete, Block, NotIntegrity;
    ReplaceContentLengthSpec(block, n);
    ReplaceChunkedSpec(block, n);
    ContentLengthLineParses(n);
    forall l | IsTransferEncoding(l) ensures NotContentLength(l) && NotIntegrity(l) { TransferEncodingKept(l); }
  }

  /** Headers that a changed body would invalidate. */
  const INTEGRITY_FIELDS: seq<Bytes> := ["etag:", "digest:", "content-md5:", "accept-ranges:", "trailer:"]

  /** None of them survives either rebuild. */
  lemma IntegrityStripped(block: Bytes, n: nat, line: Bytes, field: Bytes)
    requires line in HeaderLines(ReplaceContentLength(block, n)) || line in HeaderLines(ReplaceChunked(block, n))
    requires field in INTEGRITY_FIELDS
    ensures !HasPrefixCI(line, field)
  {
    hide ContentLengthLine, HeaderLines, ReplaceContentLength, ReplaceChunked, HasPrefixCI, IsContentLength;
    ReplaceContentLengthSpec(block, n);
    ReplaceChunkedSpec(block, n);
    ContentLengthLineParses(n);
    assert NotIntegrity(line);
  }

  /** Only the last length counts. */
  lemma ReplaceTwice(block: Bytes, n: nat, m: nat)
    ensures ReplaceContentLength(ReplaceContentLength(block, n), m) == ReplaceContentLength(block, m)
  {
    hide ContentLengthLine, IsContentLength, NotIntegrity, HeaderLines, Block;
    ReplaceContentLengthSpec(block, n);
    var line := ContentLengthLine(n);
    ContentLengthLineParses(n);
    var kept := KeptForLength(HeaderLines(block));
    RetainConcat(kept, [line], NotContentLength);
    RetainAll(kept, NotContentLength);
    RetainAll(kept, NotIntegrity);
    assert Retain([line], NotContentLength) == [];
    assert kept + [] == kept;
  }

  /** A block that lost cache headers is complete and keeps the other lines in order. */
  lemma StripCacheTrackingSpec(block: Bytes)
    ensures StripCacheTracking(block).Some? ==>
              && Complete(StripCacheTracking(block).value)
              && HeaderLines(StripCacheTracking(block).value) == Retain(HeaderLines(block), NotCacheTracking)
              && StripCacheTracking(StripCacheTracking(block).value).None?
    ensures StripCacheTracking(block).None? <==> forall l | l in HeaderLines(block) :: NotCacheTracking(l)
  {
    hide NotCacheTracking, HeaderLines, Block, Complete;
    var lines := HeaderLines(block);
    var kept := Retain(lines, NotCacheTracking);
    BlockRoundTrip(kept);
    RetainAll(kept, NotCacheTracking);
    if |kept| == |lines| {
      RetainNone(lines, NotCacheTracking);
    } else if forall l | l in lines :: NotCacheTracking(l) {
      RetainAll(lines, NotCacheTracking);
    }
  }

  // ---------------------------------------------------------------- what the field tests mean

  /** The line is the field `name`, in any letter case, followed by a colon and anything. */
  predicate HasField(line: Bytes, name: Bytes) {
    |name| < |line| && line[|name|] == ':' && EqCI(line[..|name|], name)
  }

  lemma PrefixIsField(line: Bytes, name: Bytes, prefix: Bytes)
    requires Lower(name) == name && prefix == name + ":"
    ensures HasPrefixCI(line, prefix) <==> HasField(line, name)
  {
    var n := |name|;
    if HasPrefixCI(line, prefix) {
      assert LowerChar(line[n]) == prefix[n] == ':';
      forall i | 0 <= i < n ensures Lower(line[..n])[i] == name[i] { assert LowerChar(line[i]) == prefix[i]; }
      assert Lower(line[..n]) == name;
    }
    if HasField(line, name) {
      forall i | 0 <= i < |prefix| ensures LowerChar(line[i]) == prefix[i] {
        if i < n { assert Lower(line[..n])[i] == LowerChar(line[i]); }
      }
    }
  }

  lemma LowerStays(name: Bytes)
    requires forall i | 0 <= i < |name| :: !('A' <= name[i] <= 'Z')
    ensures Lower(name) == name
  {
  }

  /** The framing fields, */
  lemma FramingFields(line: Bytes)
    ensures IsContentLength(line) <==> HasField(line, "content-length")
    ensures IsTransferEncoding(line) <==> HasField(line, "transfer-encoding")
  {
    hide HasPrefixCI, HasField, Lower;
    LowerStays("content-length");
    LowerStays("transfer-encoding");
    PrefixIsField(line, "content-length", "content-length:");
    PrefixIsField(line, "transfer-encoding", "transfer-encoding:");
  }

  predicate InvalidatedField(line: Bytes) {
    HasField(line, "etag") || HasField(line, "digest") || HasField(line, "content-md5")
    || HasField(line, "accept-ranges") || HasField(line, "trailer")
  }

  /** the fields a changed body would invalidate, */
  lemma IntegrityFields(line: Bytes)
    ensures NotIntegrity(line) <==> !InvalidatedField(line)
  {
    hide HasPrefixCI, HasField, Lower;
    LowerStays("etag");
    LowerStays("digest");
    LowerStays("content-md5");
    LowerStays("accept-ranges");
    LowerStays("trailer");
    PrefixIsField(line, "etag", "etag:");
    PrefixIsField(line, "digest", "digest:");
    PrefixIsField(line, "content-md5", "content-md5:");
    PrefixIsField(line, "accept-ranges", "accept-ranges:");
    PrefixIsField(line, "trailer", "trailer:");
  }

  /** and the cache fields, each by its name in any letter case. */
  lemma CacheFields(line: Bytes)
    ensures NotCacheTracking(line) <==>
            !(HasField(line, "last-modified") || HasField(line, "x-cache") || HasField(line, "x-request-id"))
  {
    hide HasPrefixCI, HasField, Lower;
    LowerStays("last-modified");
    LowerStays("x-cache");
    LowerStays("x-request-id");
    PrefixIsField(line, "last-modified", "last-modified:");
    PrefixIsField(line, "x-cache", "x-cache:");
    PrefixIsField(line, "x-request-id", "x-request-id:");
  }

  /** Rebuilding keeps exactly the lines that are neither the length nor a field that a changed body invalidates, and, for
      a chunked body, no Transfer-Encoding line. */
  lemma KeptMeaning(lines: seq<Bytes>, line: Bytes)
    ensures line in KeptForLength(lines) <==>
            line in lines && !HasField(line, "content-length") && !InvalidatedField(line)
    ensures line in KeptForChunked(lines) <==>
            line in lines && !HasField(line, "content-length") && !HasField(line, "transfer-encoding") && !InvalidatedField(line)
  {
    hide HasPrefixCI, HasField, Retain, NotIntegrity, IsContentLength, IsTransferEncoding;
    FramingFields(line);
    IntegrityFields(line);
  }

  /** The text behind the colon of a field. */
  function FieldValue(line: Bytes, name: Bytes): Bytes
    requires HasField(line, name)
  {
    line[|name| + 1..]
  }

  lemma ColonOfField(line: Bytes, name: Bytes)
    requires HasField(line, name) && ':' !in name
    ensures AfterColon(line) == Some(FieldValue(line, name))
  {
    hide FindChar;
    forall j | 0 <= j < |name| ensures line[j] != ':' {
      assert Lower(line[..|name|])[j] == LowerChar(line[j]) && Lower(name)[j] == LowerChar(name[j]);
      assert name[j] in name;
    }
    FindCharIs(line, ':', |name|);
  }

  /** `i` is the first line for which `p` holds. */
  ghost predicate FirstWith(lines: seq<Bytes>, p: Bytes -> bool, i: nat) {
    i < |lines| && p(lines[i]) && forall j | 0 <= j < i :: !p(lines[j])
  }

  lemma FirstBehind(lines: seq<Bytes>, p: Bytes -> bool, i: nat)
    requires FirstWith(lines, p, i) && i > 0
    ensures FirstWith(lines[1..], p, i - 1) && lines[1..][i - 1] == lines[i] && !p(lines[0])
  {
    forall j | 0 <= j < i - 1 ensures !p(lines[1..][j]) { assert lines[1..][j] == lines[j + 1]; }
  }

  predicate IsContentEncoding(line: Bytes) { HasField(line, "content-encoding") }
  predicate IsContentType(line: Bytes) { NamesField(line, "content-type") }

  lemma EncodingField(line: Bytes)
    ensures HasPrefixCI(line, "content-encoding:") <==> IsContentEncoding(line)
  {
    hide HasPrefixCI, HasField, Lower;
    LowerStays("content-encoding");
    PrefixIsField(line, "content-encoding", "content-encoding:");
  }

  /** The content coding of a block: the trimmed, lower-case value of its first Content-Encoding line, */
  lemma {:induction false} EncodingMeaning(lines: seq<Bytes>)
    ensures (forall l | l in lines :: !IsContentEncoding(l)) ==> ScanContentEncoding(lines).None?
    ensures forall i: nat | FirstWith(lines, IsContentEncoding, i) ::
              ScanContentEncoding(lines) == Some(Lower(Trim(FieldValue(lines[i], "content-encoding"))))
  {
    hide HasPrefixCI, HasField, Lower, Trim, AfterColon, FieldValue;
    if lines != [] {
      assert lines[0] in lines;
      EncodingField(lines[0]);
      if IsContentEncoding(lines[0]) {
        ColonOfField(lines[0], "content-encoding");
      } else {
        EncodingMeaning(lines[1..]);
        forall i: nat | FirstWith(lines, IsContentEncoding, i)
          ensures ScanContentEncoding(lines) == Some(Lower(Trim(FieldValue(lines[i], "content-encoding"))))
        {
          FirstBehind(lines, IsContentEncoding, i);
        }
      }
    }
  }

  /** its length: the number its first Content-Length line spells, */
  lemma {:induction false} LengthMeaning(lines: seq<Bytes>)
    ensures (forall l | l in lines :: !IsContentLength(l)) ==> ScanContentLength(lines).None?
    ensures forall i: nat | FirstWith(lines, IsContentLength, i) ::
              HasField(lines[i], "content-length")
              && ScanContentLength(lines) == ParseUsize(Trim(FieldValue(lines[i], "content-length")), 10)
  {
    hide IsContentLength, HasField, ParseUsize, Trim, AfterColon, FieldValue;
    if lines != [] {
      assert lines[0] in lines;
      FramingFields(lines[0]);
      if IsContentLength(lines[0]) {
        ColonOfField(lines[0], "content-length");
      } else {
        LengthMeaning(lines[1..]);
        forall i: nat | FirstWith(lines, IsContentLength, i)
          ensures HasField(lines[i], "content-length")
                  && ScanContentLength(lines) == ParseUsize(Trim(FieldValue(lines[i], "content-length")), 10)
        {
          FirstBehind(lines, IsContentLength, i);
        }
      }
    }
  }

  /** The text says "text/html" first, in any letter case. */
  predicate StartsHtml(value: Bytes) {
    |value| >= 9 && EqCI(value[..9], "text/html")
  }

  lemma HtmlPrefix(value: Bytes)
    ensures HasPrefixCI(value, "text/html") <==> StartsHtml(value)
  {
    var html: Bytes := "text/html";
    LowerStays(html);
    if HasPrefixCI(value, html) {
      assert forall i | 0 <= i < 9 :: Lower(value[..9])[i] == html[i];
      assert Lower(value[..9]) == html;
    }
    if StartsHtml(value) {
      forall i | 0 <= i < 9 ensures LowerChar(value[i]) == html[i] { assert Lower(value[..9])[i] == LowerChar(value[i]); }
    }
  }

  /** and whether it is HTML, by its first Content-Type line. */
  lemma {:induction false} HtmlMeaning(lines: seq<Bytes>)
    ensures (forall l | l in lines :: !IsContentType(l)) ==> !ScanIsHtml(lines)
    ensures forall i: nat | FirstWith(lines, IsContentType, i) ::
              AfterColon(lines[i]).Some? && (ScanIsHtml(lines) <==> StartsHtml(Trim(AfterColon(lines[i]).value)))
  {
    hide HasPrefixCI, StartsHtml, Trim, Lower;
    if lines != [] {
      assert lines[0] in lines;
      if IsContentType(lines[0]) {
        HtmlPrefix(Trim(AfterColon(lines[0]).value));
      } else {
        HtmlMeaning(lines[1..]);
        forall i: nat | FirstWith(lines, IsContentType, i)
          ensures AfterColon(lines[i]).Some? && (ScanIsHtml(lines) <==> StartsHtml(Trim(AfterColon(lines[i]).value)))
        {
          FirstBehind(lines, IsContentType, i);
        }
      }
    }
  }

  /** A field line taken apart: the name between white space, the colon, the value. */
  datatype FieldText = FieldText(before: Bytes, name: Bytes, after: Bytes, value: Bytes) {
    function Text(): Bytes {
      before + name + after + [':'] + value
    }

    predicate Names(field: Bytes) {
      AllSpace(before) && AllSpace(after) && EqCI(name, field)
    }
  }

  lemma SameLettersSolid(name: Bytes, field: Bytes)
    requires EqCI(name, field) && Trimmed(field) && ':' !in field
    ensures Trimmed(name) && ':' !in name && |name| == |field|
  {
    var a, b := Lower(name), Lower(field);
    assert |a| == |name| && |b| == |field|;
    forall i | 0 <= i < |name| ensures name[i] != ':' && (IsSpace(name[i]) <==> IsSpace(field[i])) {
      assert a[i] == LowerChar(name[i]) && b[i] == LowerChar(field[i]);
      assert field[i] in field;
    }
  }

  /** A line names a field, and with which value, exactly when it can be taken apart in that way. */
  lemma NamesFieldIff(line: Bytes, field: Bytes, value: Bytes)
    requires Trimmed(field) && ':' !in field
    ensures NamesField(line, field) && AfterColon(line) == Some(value) <==>
            exists f: FieldText :: f.Names(field) && f.value == value && f.Text() == line
  {
    hide FindChar, Trim, Lower;
    if NamesField(line, field) && AfterColon(line) == Some(value) {
      var i := FindChar(line, ':').value;
      var a, b := TrimParts(line[..i]);
      var f := FieldText(a, Trim(line[..i]), b, value);
      assert f.Names(field);
      assert f.Text() == line[..i] + [':'] + line[i + 1..] == line;
    }
    if exists f: FieldText :: f.Names(field) && f.value == value && f.Text() == line {
      var f: FieldText :| f.Names(field) && f.value == value && f.Text() == line;
      FieldTextNames(f, field);
    }
  }

  lemma FieldTextNames(f: FieldText, field: Bytes)
    requires f.Names(field) && Trimmed(field) && ':' !in field
    ensures NamesField(f.Text(), field) && AfterColon(f.Text()) == Some(f.value)
  {
    hide FindChar, Trim, EqCI;
    var x, line := f.before + f.name + f.after, f.Text();
    SameLettersSolid(f.name, field);
    assert ':' !in x;
    assert line == x + [':'] + f.value;
    forall j | 0 <= j < |x| ensures line[j] != ':' { assert line[j] == x[j] && x[j] in x; }
    FindCharIs(line, ':', |x|);
    assert line[..|x|] == x && line[|x| + 1..] == f.value;
    TrimOfParts(f.before, f.name, f.after);
  }

  /** In particular whether it names the field at all. */
  lemma NamesIff(line: Bytes, field: Bytes)
    requires Trimmed(field) && ':' !in field
    ensures NamesField(line, field) <==> exists f: FieldText :: f.Names(field) && f.Text() == line
  {
    hide FindChar, Trim, Lower, EqCI, FieldText.Text, FieldText.Names;
    if NamesField(line, field) {
      NamesFieldIff(line, field, AfterColon(line).value);
    }
    if exists f: FieldText :: f.Names(field) && f.Text() == line {
      var f: FieldText :| f.Names(field) && f.Text() == line;
      FieldTextNames(f, field);
    }
  }
}
