/**
  The two decoders of the chunked transfer coding (section 7.1 of RFC 9112): the relay's, which must
  recognise a complete message inside a growing buffer, and the filter-list downloader's, which runs
  once on a finished download.
 */
module Chunked {
  import opened Text
  import opened Utf8

  /** The size a chunk-size line announces, with any chunk extension cut off at `;`. */
  function ChunkSize(line: Bytes): Option<nat> {
    ParseUsize(Trim(Before(line, ';')), 16)
  }

  datatype Decoded = Decoded(body: Bytes, consumed: nat)

  /** A chunk-size line read at some position: the size it announces and where the data starts. */
  datatype SizeHead = SizeHead(size: nat, next: nat)

  function ChunkHead(data: Bytes, pos: nat): (r: Option<SizeHead>)
    requires pos <= |data|
    ensures r.Some? ==> pos + 3 <= r.value.next <= |data|
  {
    match FindCrlf(data, pos)
    case None => None
    case Some(i) =>
      if !ValidUtf8(data[pos..i]) then None
      else
        match ChunkSize(data[pos..i])
        case None => None
        case Some(size) => ChunkSizeNeedsDigit(data[pos..i]); Some(SizeHead(size, i + 2))
  }

  /** The decoder from position `pos`, with `acc` decoded so far. */
  function DecodeFrom(data: Bytes, pos: nat, acc: Bytes): (r: Option<Decoded>)
    requires pos <= |data|
    ensures r.Some? ==> pos + 5 <= r.value.consumed <= |data|
    ensures r.Some? ==> acc <= r.value.body && |r.value.body| - |acc| + 5 <= r.value.consumed - pos
    decreases |data| - pos
  {
    match ChunkHead(data, pos)
    case None => None
    case Some(SizeHead(size, start)) =>
      if size == 0 then FinishFrom(data, start, acc)
      else
        var end := start + size;
        if end + 2 > USIZE_MAX || end + 2 > |data| || !CrlfAt(data, end) then None
        else DecodeFrom(data, end + 2, acc + data[start..end])
  }

  /** After the last chunk: either an immediate CRLF or trailer fields up to an empty line. */
  function FinishFrom(data: Bytes, pos: nat, acc: Bytes): (r: Option<Decoded>)
    requires pos <= |data|
    ensures r.Some? ==> r.value.body == acc && pos + 2 <= r.value.consumed <= |data|
  {
    if |data| < pos + 2 then None
    else if CrlfAt(data, pos) then Some(Decoded(acc, pos + 2))
    else
      match FindBlank(data, pos)
      case None => None
      case Some(j) => Some(Decoded(acc, j + 4))
  }

  /** One step of the decoder. */
  lemma {:induction false} DecodeStep(data: Bytes, pos: nat, acc: Bytes)
    requires pos <= |data|
    ensures ChunkHead(data, pos).None? ==> DecodeFrom(data, pos, acc).None?
    ensures ChunkHead(data, pos).Some? ==>
              var SizeHead(size, start) := ChunkHead(data, pos).value;
              DecodeFrom(data, pos, acc) ==
              if size == 0 then FinishFrom(data, start, acc)
              else if start + size + 2 > USIZE_MAX || start + size + 2 > |data| || !CrlfAt(data, start + size) then None
              else DecodeFrom(data, start + size + 2, acc + data[start..start + size])
  {
    hide ChunkHead, FinishFrom;
  }

  lemma ChunkSizeNeedsDigit(line: Bytes)
    ensures ChunkSize(line).Some? ==> line != []
  {
  }

  function Decode(data: Bytes): Option<Decoded> {
    DecodeFrom(data, 0, [])
  }

  /** `try_decode_chunked_message`. */
  method TryDecodeChunkedMessage(data: Bytes) returns (r: Option<Decoded>)
    ensures r == Decode(data)
  {
    hide ValidUtf8, ParseUsize, Trim, Before, FindCrlf, FindBlank, DecodeFrom;
    var result: Bytes := [];
    var pos: nat := 0;
    while true
      invariant pos <= |data|
      invariant DecodeFrom(data, pos, result) == Decode(data)
      decreases |data| - pos
    {
      DecodeStep(data, pos, result);
      var crlf := FindCrlf(data, pos);
      if crlf.None? { return None; }
      var sizeLine := data[pos..crlf.value];
      if !ValidUtf8(sizeLine) { return None; }
      var chunkSize := ParseUsize(Trim(Before(sizeLine, ';')), 16);
      if chunkSize.None? { return None; }
      assert ChunkHead(data, pos) == Some(SizeHead(chunkSize.value, crlf.value + 2));
      pos := crlf.value + 2;
      if chunkSize.value == 0 {
        if pos + 2 > |data| { return None; }
        if data[pos..pos + 2] == CRLF {
          return Some(Decoded(result, pos + 2));
        }
        var end := FindBlank(data, pos);
        if end.None? { return None; }
        return Some(Decoded(result, end.value + 4));
      }
      var chunkEnd := pos + chunkSize.value;
      if chunkEnd > USIZE_MAX { return None; }
      var crlfEnd := chunkEnd + 2;
      if crlfEnd > USIZE_MAX { return None; }
      if crlfEnd > |data| { return None; }
      result := result + data[pos..chunkEnd];
      if data[chunkEnd..crlfEnd] != CRLF { return None; }
      pos := crlfEnd;
    }
  }

  // ---------------------------------------------------------------- one answer on a growing buffer

  lemma FindCrlfStable(d: Bytes, e: Bytes, from: nat, n: nat)
    requires n <= |d| && n <= |e| && d[..n] == e[..n]
    requires from <= |d| && FindCrlf(d, from).Some? && FindCrlf(d, from).value + 2 <= n
    ensures from <= |e| && FindCrlf(e, from) == FindCrlf(d, from)
  {
    var i := FindCrlf(d, from).value;
    assert forall j | 0 <= j < n :: d[j] == d[..n][j] == e[j];
    forall j | from <= j < i ensures !CrlfAt(e, j) { assert !CrlfAt(d, j); }
    FindCrlfIs(e, from, i);
  }

  lemma FindBlankStable(d: Bytes, e: Bytes, from: nat, n: nat)
    requires n <= |d| && n <= |e| && d[..n] == e[..n]
    requires from <= |d| && FindBlank(d, from).Some? && FindBlank(d, from).value + 4 <= n
    ensures from <= |e| && FindBlank(e, from) == FindBlank(d, from)
  {
    var i := FindBlank(d, from).value;
    assert forall j | 0 <= j < n :: d[j] == d[..n][j] == e[j];
    forall j | from <= j < i ensures !BlankAt(e, j) { assert !BlankAt(d, j); }
    FindBlankIs(e, from, i);
  }

  lemma HeadStable(d: Bytes, e: Bytes, pos: nat, n: nat)
    requires n <= |d| && n <= |e| && d[..n] == e[..n]
    requires pos <= |d| && ChunkHead(d, pos).Some? && ChunkHead(d, pos).value.next <= n
    ensures pos <= |e| && ChunkHead(e, pos) == ChunkHead(d, pos)
  {
    hide ValidUtf8, ChunkSize, FindCrlf;
    FindCrlfStable(d, e, pos, n);
    var i := FindCrlf(d, pos).value;
    assert d[pos..i] == d[..n][pos..i] == e[pos..i];
  }

  lemma FinishStable(d: Bytes, e: Bytes, pos: nat, acc: Bytes)
    requires pos <= |d| && FinishFrom(d, pos, acc).Some?
    requires var n := FinishFrom(d, pos, acc).value.consumed; n <= |e| && d[..n] == e[..n]
    ensures FinishFrom(e, pos, acc) == FinishFrom(d, pos, acc)
  {
    hide FindBlank;
    var n := FinishFrom(d, pos, acc).value.consumed;
    assert d[pos] == d[..n][pos] == e[pos] && d[pos + 1] == d[..n][pos + 1] == e[pos + 1];
    if !CrlfAt(d, pos) {
      FindBlankStable(d, e, pos, n);
    }
  }

  lemma SamePrefix(d: Bytes, e: Bytes, n: nat, i: nat, j: nat)
    requires i <= j <= n <= |d| && n <= |e| && d[..n] == e[..n]
    ensures d[i..j] == e[i..j] && forall k | i <= k < j :: d[k] == e[k]
  {
    forall k | i <= k < j ensures d[k] == e[k] { assert d[..n][k] == e[..n][k]; }
  }

  /** A successful decode is decided by the bytes it consumed and by nothing after them. */
  lemma {:induction false} DecodeFromStable(d: Bytes, e: Bytes, pos: nat, acc: Bytes)
    requires pos <= |d| && DecodeFrom(d, pos, acc).Some?
    requires var n := DecodeFrom(d, pos, acc).value.consumed; n <= |e| && d[..n] == e[..n]
    ensures DecodeFrom(e, pos, acc) == DecodeFrom(d, pos, acc)
    decreases |d| - pos
  {
    hide ChunkHead, FinishFrom, DecodeFrom;
    DecodeStep(d, pos, acc);
    var n := DecodeFrom(d, pos, acc).value.consumed;
    DecodeStep(e, pos, acc);
    var SizeHead(size, start) := ChunkHead(d, pos).value;
    if size == 0 {
      HeadStable(d, e, pos, n);
      FinishStable(d, e, start, acc);
    } else {
      var end := start + size;
      var next := DecodeFrom(d, end + 2, acc + d[start..end]);
      assert next.Some? && end + 2 <= n;
      HeadStable(d, e, pos, n);
      SamePrefix(d, e, n, start, end);
      SamePrefix(d, e, n, end, end + 2);
      assert CrlfAt(d, end) <==> CrlfAt(e, end);
      DecodeFromStable(d, e, end + 2, acc + d[start..end]);
    }
  }

  /** Appending bytes to a decodable buffer, or cutting it after the message, changes nothing. */
  lemma DecodeStable(d: Bytes, more: Bytes)
    requires Decode(d).Some?
    ensures Decode(d + more) == Decode(d)
    ensures Decode(d[..Decode(d).value.consumed]) == Decode(d)
  {
    hide DecodeFrom;
    var n := Decode(d).value.consumed;
    assert (d + more)[..n] == d[..n];
    DecodeFromStable(d, d + more, 0, []);
    assert d[..n][..n] == d[..n];
    DecodeFromStable(d, d[..n], 0, []);
  }

  /** No shorter prefix decodes, so repeated attempts on a growing buffer find exactly one answer. */
  lemma DecodeMinimal(d: Bytes, m: nat)
    requires Decode(d).Some? && m < Decode(d).value.consumed
    ensures Decode(d[..m]).None?
  {
    hide DecodeFrom;
    assert d[..m] + d[m..] == d;
    if Decode(d[..m]).Some? {
      DecodeStable(d[..m], d[m..]);
    }
  }

  /** The same facts for two reads of one stream: the earlier buffer decodes as the later one or not at all. */
  lemma DecodePrefix(d: Bytes, more: Bytes)
    ensures Decode(d).Some? ==> Decode(d + more) == Decode(d)
    ensures Decode(d + more).Some? ==>
              (Decode(d).Some? <==> Decode(d + more).value.consumed <= |d|)
  {
    hide DecodeFrom;
    if Decode(d).Some? {
      DecodeStable(d, more);
    } else if Decode(d + more).Some? && Decode(d + more).value.consumed <= |d| {
      var n := Decode(d + more).value.consumed;
      assert (d + more)[..n] == d[..n];
      DecodeFromStable(d + more, d, 0, []);
    }
  }

  // ---------------------------------------------------------------- the encoder and the grammar

  datatype Chunk = Chunk(sizeLine: Bytes, data: Bytes)
  datatype Message = Message(chunks: seq<Chunk>, lastLine: Bytes, trailer: Bytes)

  /** The pieces of a chunk-size line: hexadecimal digits, perhaps signed, between white space, and any extension. */
  datatype SizeText = SizeText(before: Bytes, plus: bool, hex: Bytes, after: Bytes, extension: Bytes) {
    function Number(): Bytes {
      if plus then ['+'] + hex else hex
    }

    function Text(): Bytes {
      before + Number() + after + extension
    }

    /** `hex` is `size` in hexadecimal, in any letter case and behind any number of zeros. */
    predicate Announces(size: nat) {
      && AllSpace(before) && AllSpace(after)
      && size <= USIZE_MAX && Spells(hex, 16, size)
      && (extension == [] || extension[0] == ';')
    }
  }

  /** A size line with any legal spelling of the size and any extension. */
  ghost predicate SizeLine(line: Bytes, size: nat) {
    ValidUtf8(line) && SpelledLine(line, size)
  }

  /** The same for the downloader, which does not mind other bytes in the extension. */
  ghost predicate SpelledLine(line: Bytes, size: nat) {
    NoCrlf(line) && exists t: SizeText :: t.Announces(size) && t.Text() == line
  }

  lemma SpelledChars(hex: Bytes, size: nat)
    requires Spells(hex, 16, size)
    ensures hex != [] && forall c | c in hex :: LowerChar(c) in DIGITS
  {
    hide Numeral;
    var low := Lower(hex);
    var digits := Numeral(size, 16);
    forall c | c in hex ensures LowerChar(c) in DIGITS {
      var i :| 0 <= i < |hex| && hex[i] == c;
      assert low[i] == LowerChar(c);
      if i >= |hex| - |digits| { assert low[i] in digits; }
      HexDigit(LowerChar(c));
    }
  }

  lemma HexDigit(c: char)
    requires '0' <= c <= '9' || 'a' <= c <= 'f'
    ensures c in DIGITS
  {
    var i := if c <= '9' then c as int - '0' as int else c as int - 'a' as int + 10;
    assert DigitChar(i) == c;
  }

  lemma DigitsAreSolid(c: char)
    requires LowerChar(c) in DIGITS
    ensures !IsSpace(c) && c != ';' && c != '+' && c != '\r' && c != '\n' && c as int < 0x80
  {
    var d := DIGITS;
    assert forall i | 0 <= i < |d| :: '0' <= d[i] <= '9' || 'a' <= d[i] <= 'f';
  }

  /** The decoder reads `size` off a line exactly when the line spells it. */
  lemma ChunkSizeIff(line: Bytes, size: nat)
    ensures ChunkSize(line) == Some(size) <==> exists t: SizeText :: t.Announces(size) && t.Text() == line
  {
    hide ChunkSize;
    if ChunkSize(line) == Some(size) {
      var t := SizeTextOf(line, size);
    }
    if exists t: SizeText :: t.Announces(size) && t.Text() == line {
      var t: SizeText :| t.Announces(size) && t.Text() == line;
      SizeTextRead(t, size);
    }
  }

  lemma SizeTextOf(line: Bytes, size: nat) returns (t: SizeText)
    requires ChunkSize(line) == Some(size)
    ensures t.Announces(size) && t.Text() == line
  {
    hide ParseUsize, Before, Trim, Spells;
    var x := Before(line, ';');
    var a, b := TrimParts(x);
    var plus, hex := NumberOf(Trim(x), size);
    t := SizeText(a, plus, hex, b, line[|x|..]);
    assert line == x + line[|x|..];
  }

  lemma NumberOf(y: Bytes, size: nat) returns (plus: bool, hex: Bytes)
    requires ParseUsize(y, 16) == Some(size)
    ensures size <= USIZE_MAX && Spells(hex, 16, size) && y == if plus then ['+'] + hex else hex
  {
    hide ParseUsize, Spells;
    ParseUsizeIff(y, 16, size);
    plus := y != [] && y[0] == '+';
    hex := if plus then y[1..] else y;
  }

  lemma NumberRead(plus: bool, hex: Bytes, size: nat)
    requires size <= USIZE_MAX && Spells(hex, 16, size)
    ensures var y := if plus then ['+'] + hex else hex;
            ParseUsize(y, 16) == Some(size) && Trimmed(y) && ';' !in y
  {
    hide ParseUsize, Spells;
    var y := if plus then ['+'] + hex else hex;
    SpelledChars(hex, size);
    forall c | c in hex ensures !IsSpace(c) && c != ';' && c != '+' { DigitsAreSolid(c); }
    assert hex[0] in hex && hex[|hex| - 1] in hex;
    assert (if plus then y[1..] else y) == hex;
    ParseUsizeIff(y, 16, size);
  }

  lemma SizeTextRead(t: SizeText, size: nat)
    requires t.Announces(size)
    ensures ChunkSize(t.Text()) == Some(size)
  {
    hide ParseUsize, Before, Trim, Spells;
    var y := t.Number();
    var x := t.before + y + t.after;
    NumberRead(t.plus, t.hex, size);
    SpaceHasNoSemicolon(t.before);
    SpaceHasNoSemicolon(t.after);
    BeforeIs(x, ';', t.extension);
    TrimOfParts(t.before, y, t.after);
  }

  lemma SpaceHasNoSemicolon(s: Bytes)
    requires AllSpace(s)
    ensures ';' !in s
  {
  }

  ghost predicate WellFormedChunk(c: Chunk) {
    c.data != [] && SizeLine(c.sizeLine, |c.data|)
  }

  /** Either the closing CRLF alone, or trailer fields closed by the first empty line. */
  predicate WellFormedTrailer(t: Bytes) {
    t == CRLF || (|t| >= 2 && !CrlfAt(t, 0) && FindBlank(t, 0).Some? && FindBlank(t, 0).value + 4 == |t|)
  }

  ghost predicate WellFormed(m: Message) {
    && (forall c | c in m.chunks :: WellFormedChunk(c))
    && SizeLine(m.lastLine, 0)
    && WellFormedTrailer(m.trailer)
  }

  function EncodeChunk(c: Chunk): Bytes {
    c.sizeLine + CRLF + c.data + CRLF
  }

  function EncodeChunks(chunks: seq<Chunk>): Bytes {
    if chunks == [] then [] else EncodeChunk(chunks[0]) + EncodeChunks(chunks[1..])
  }

  function Encode(m: Message): Bytes {
    EncodeChunks(m.chunks) + m.lastLine + CRLF + m.trailer
  }

  function Data(chunks: seq<Chunk>): Bytes {
    if chunks == [] then [] else chunks[0].data + Data(chunks[1..])
  }

  lemma FirstCrlfAt(front: Bytes, line: Bytes, rest: Bytes)
    requires NoCrlf(line)
    ensures FindCrlf(front + line + CRLF + rest, |front|) == Some(|front| + |line|)
  {
    var s := front + line + CRLF + rest;
    var t := line + CRLF + rest;
    FirstCrlfAfter(line, rest);
    assert s == front + t;
    forall j | |front| <= j < |front| + |line| ensures !CrlfAt(s, j) {
      assert !CrlfAt(t, j - |front|);
    }
    FindCrlfIs(s, |front|, |front| + |line|);
  }

  lemma FinishEncoded(front: Bytes, trailer: Bytes, tail: Bytes, acc: Bytes)
    requires WellFormedTrailer(trailer)
    ensures FinishFrom(front + trailer + tail, |front|, acc) == Some(Decoded(acc, |front| + |trailer|))
  {
    var s := front + trailer + tail;
    assert forall k | 0 <= k < |trailer| :: s[|front| + k] == trailer[k];
    if trailer != CRLF {
      var i := |trailer| - 4;
      forall j | |front| <= j < |front| + i ensures !BlankAt(s, j) {
        assert !BlankAt(trailer, j - |front|);
      }
      assert BlankAt(trailer, i);
      FindBlankIs(s, |front|, |front| + i);
    }
  }

  lemma HeadEncoded(front: Bytes, line: Bytes, rest: Bytes, size: nat)
    requires SizeLine(line, size)
    ensures ChunkHead(front + line + CRLF + rest, |front|) == Some(SizeHead(size, |front| + |line| + 2))
  {
    hide ValidUtf8, ChunkSize, FindCrlf;
    ChunkSizeIff(line, size);
    FirstCrlfAt(front, line, rest);
    assert (front + line + CRLF + rest)[|front|..|front| + |line|] == line;
  }

  lemma ChunkEncoded(front: Bytes, c: Chunk, rest: Bytes, acc: Bytes)
    requires WellFormedChunk(c)
    requires |front| + |EncodeChunk(c)| <= USIZE_MAX
    ensures DecodeFrom(front + EncodeChunk(c) + rest, |front|, acc)
         == DecodeFrom(front + EncodeChunk(c) + rest, |front| + |EncodeChunk(c)|, acc + c.data)
  {
    hide ChunkHead, SizeLine, FinishFrom, DecodeFrom;
    var s := front + EncodeChunk(c) + rest;
    DecodeStep(s, |front|, acc);
    HeadEncoded(front, c.sizeLine, c.data + CRLF + rest, |c.data|);
    assert s == front + c.sizeLine + CRLF + (c.data + CRLF + rest);
    var head := front + c.sizeLine + CRLF;
    assert s == head + c.data + (CRLF + rest);
    assert s[|head|..|head| + |c.data|] == c.data;
    assert CrlfAt(s, |head| + |c.data|);
  }

  lemma EncodeCons(c: Chunk, rest: Message)
    ensures Encode(rest.(chunks := [c] + rest.chunks)) == EncodeChunk(c) + Encode(rest)
    ensures Data([c] + rest.chunks) == c.data + Data(rest.chunks)
  {
    hide EncodeChunk;
    assert ([c] + rest.chunks)[1..] == rest.chunks;
  }

  lemma LastEncoded(front: Bytes, m: Message, tail: Bytes, acc: Bytes)
    requires SizeLine(m.lastLine, 0) && WellFormedTrailer(m.trailer) && m.chunks == []
    ensures DecodeFrom(front + Encode(m) + tail, |front|, acc) == Some(Decoded(acc, |front| + |Encode(m)|))
  {
    hide ChunkHead, FinishFrom, SizeLine, WellFormedTrailer;
    var s := front + Encode(m) + tail;
    HeadEncoded(front, m.lastLine, m.trailer + tail, 0);
    assert s == front + m.lastLine + CRLF + (m.trailer + tail);
    var next := front + m.lastLine + CRLF;
    assert s == next + m.trailer + tail;
    FinishEncoded(next, m.trailer, tail, acc);
  }

  lemma {:induction false} DecodeEncodedFrom(front: Bytes, m: Message, tail: Bytes, acc: Bytes)
    requires WellFormed(m)
    requires |front| + |Encode(m)| <= USIZE_MAX
    ensures DecodeFrom(front + Encode(m) + tail, |front|, acc)
         == Some(Decoded(acc + Data(m.chunks), |front| + |Encode(m)|))
    decreases |m.chunks|
  {
    hide DecodeFrom, SizeLine, WellFormedTrailer, EncodeChunk, WellFormedChunk, Encode;
    if m.chunks == [] {
      LastEncoded(front, m, tail, acc);
      assert acc + Data(m.chunks) == acc;
    } else {
      var c, rest := m.chunks[0], m.(chunks := m.chunks[1..]);
      assert c in m.chunks && [c] + rest.chunks == m.chunks;
      EncodeCons(c, rest);
      var next := front + EncodeChunk(c);
      var s := front + Encode(m) + tail;
      assert s == front + EncodeChunk(c) + (Encode(rest) + tail);
      ChunkEncoded(front, c, Encode(rest) + tail, acc);
      assert s == next + Encode(rest) + tail;
      DecodeEncodedFrom(next, rest, tail, acc + c.data);
      assert acc + c.data + Data(rest.chunks) == acc + Data(m.chunks);
    }
  }

  /** Round trip: every encoding of every message, followed by anything, decodes to its data and exact length. */
  lemma DecodeOfEncode(m: Message, tail: Bytes)
    requires WellFormed(m) && |Encode(m)| <= USIZE_MAX
    ensures Decode(Encode(m) + tail) == Some(Decoded(Data(m.chunks), |Encode(m)|))
  {
    hide DecodeFrom, Encode, Data, WellFormed;
    DecodeEncodedFrom([], m, tail, []);
    assert [] + Encode(m) + tail == Encode(m) + tail;
    assert [] + Data(m.chunks) == Data(m.chunks);
  }

  lemma HeadLine(d: Bytes, pos: nat) returns (line: Bytes)
    requires pos <= |d| && ChunkHead(d, pos).Some?
    ensures SizeLine(line, ChunkHead(d, pos).value.size)
    ensures d[pos..ChunkHead(d, pos).value.next] == line + CRLF
  {
    hide ValidUtf8, ChunkSize, FindCrlf;
    var i := FindCrlf(d, pos).value;
    line := d[pos..i];
    forall j | 0 <= j < |line| ensures !CrlfAt(line, j) { assert !CrlfAt(d, pos + j); }
    assert d[pos..i + 2] == line + CRLF;
    ChunkSizeIff(line, ChunkHead(d, pos).value.size);
  }

  lemma {:induction false} EncodedFrom(d: Bytes, pos: nat, acc: Bytes) returns (m: Message)
    requires pos <= |d| && DecodeFrom(d, pos, acc).Some?
    ensures WellFormed(m)
    ensures Encode(m) == d[pos..DecodeFrom(d, pos, acc).value.consumed]
    ensures DecodeFrom(d, pos, acc).value.body == acc + Data(m.chunks)
    decreases |d| - pos
  {
    hide ChunkHead, FinishFrom, SizeLine, WellFormedTrailer, DecodeFrom;
    DecodeStep(d, pos, acc);
    var n := DecodeFrom(d, pos, acc).value.consumed;
    var SizeHead(size, start) := ChunkHead(d, pos).value;
    var line := HeadLine(d, pos);
    if size == 0 {
      TrailerFrom(d, start, acc);
      m := LastFrom(d, pos, start, n, line);
      assert acc + [] == acc;
    } else {
      hide WellFormedChunk, EncodeChunk, Encode, Data;
      var end := start + size;
      var c := ChunkFrom(d, pos, start, end, line);
      var rest := EncodedFrom(d, end + 2, acc + c.data);
      m := rest.(chunks := [c] + rest.chunks);
      EncodeCons(c, rest);
      assert d[pos..n] == d[pos..end + 2] + d[end + 2..n];
      assert acc + c.data + Data(rest.chunks) == acc + Data(m.chunks);
    }
  }

  lemma LastFrom(d: Bytes, pos: nat, start: nat, n: nat, line: Bytes) returns (m: Message)
    requires pos <= start <= n <= |d| && d[pos..start] == line + CRLF
    requires SizeLine(line, 0) && WellFormedTrailer(d[start..n])
    ensures WellFormed(m) && Encode(m) == d[pos..n] && Data(m.chunks) == []
  {
    hide SizeLine, WellFormedTrailer;
    m := Message([], line, d[start..n]);
    assert d[pos..n] == d[pos..start] + d[start..n];
    assert Encode(m) == line + CRLF + d[start..n];
  }

  lemma ChunkFrom(d: Bytes, pos: nat, start: nat, end: nat, line: Bytes) returns (c: Chunk)
    requires pos <= start < end < |d| - 1 && CrlfAt(d, end)
    requires SizeLine(line, end - start) && d[pos..start] == line + CRLF
    ensures WellFormedChunk(c) && c.data == d[start..end] && EncodeChunk(c) == d[pos..end + 2]
  {
    hide SizeLine;
    c := Chunk(line, d[start..end]);
    assert d[end..end + 2] == CRLF;
    assert d[pos..end + 2] == d[pos..start] + d[start..end] + d[end..end + 2];
  }

  lemma TrailerFrom(d: Bytes, pos: nat, acc: Bytes)
    requires pos <= |d| && FinishFrom(d, pos, acc).Some?
    ensures WellFormedTrailer(d[pos..FinishFrom(d, pos, acc).value.consumed])
  {
    hide FindBlank;
    var n := FinishFrom(d, pos, acc).value.consumed;
    var t := d[pos..n];
    if !CrlfAt(d, pos) {
      assert !CrlfAt(t, 0);
      forall j | 0 <= j < n - 4 - pos ensures !BlankAt(t, j) { assert !BlankAt(d, pos + j); }
      assert BlankAt(d, n - 4);
      FindBlankIs(t, 0, n - 4 - pos);
    }
  }

  /** The decoder accepts exactly the encodings: both directions, with the data and the length. */
  lemma DecodeIffEncoded(d: Bytes, body: Bytes, n: nat)
    requires |d| <= USIZE_MAX
    ensures Decode(d) == Some(Decoded(body, n)) <==>
            n <= |d| && exists m :: WellFormed(m) && Encode(m) == d[..n] && Data(m.chunks) == body
  {
    hide DecodeFrom, Encode, Data, WellFormed;
    if Decode(d) == Some(Decoded(body, n)) {
      var m := EncodedFrom(d, 0, []);
      assert d[0..n] == d[..n] && [] + Data(m.chunks) == Data(m.chunks);
      assert Encode(m) == d[..n] && Data(m.chunks) == body;
    }
    if n <= |d| && exists m :: WellFormed(m) && Encode(m) == d[..n] && Data(m.chunks) == body {
      var m :| WellFormed(m) && Encode(m) == d[..n] && Data(m.chunks) == body;
      DecodeOfEncode(m, d[n..]);
      assert d[..n] + d[n..] == d;
    }
  }

  /** Any spelling of the size, with an optional extension, is a size line. */
  lemma HexSizeLine(hex: Bytes, size: nat, extension: Bytes)
    requires size <= USIZE_MAX && Spells(hex, 16, size)
    requires extension == [] || (extension[0] == ';' && NoCrlf(extension) && ValidUtf8(extension))
    ensures SizeLine(hex + extension, size)
  {
    hide ValidUtf8, Spells, NoCrlf, SizeText.Announces, SizeText.Text;
    HexIsPlain(hex, size);
    NothingIsValid();
    Utf8Concat(hex, extension);
    NoCrlfBehind(hex, extension);
    PlainSizeText(hex, size, extension);
    var t := SizeText([], false, hex, [], extension);
    assert t.Announces(size);
  }

  lemma PlainSizeText(hex: Bytes, size: nat, extension: Bytes)
    requires size <= USIZE_MAX && Spells(hex, 16, size) && (extension == [] || extension[0] == ';')
    ensures var t := SizeText([], false, hex, [], extension); t.Announces(size) && t.Text() == hex + extension
  {
    hide Spells;
  }

  lemma NoCrlfBehind(a: Bytes, b: Bytes)
    requires '\r' !in a && (b == [] || NoCrlf(b))
    ensures NoCrlf(a + b)
  {
    var s := a + b;
    forall j | 0 <= j < |s| ensures !CrlfAt(s, j) {
      if j < |a| {
        assert a[j] in a;
      } else {
        assert !CrlfAt(b, j - |a|);
      }
    }
  }

  lemma NothingIsValid()
    ensures ValidUtf8([])
  {
  }

  lemma HexIsPlain(hex: Bytes, size: nat)
    requires Spells(hex, 16, size)
    ensures ValidUtf8(hex) && '\r' !in hex
  {
    hide ValidUtf8, Spells;
    SpelledChars(hex, size);
    forall c | c in hex ensures c as int < 0x80 && c != '\r' { DigitsAreSolid(c); }
    AsciiIsValid(hex);
  }

  /** Any list of non-empty trailer fields makes a trailer. */
  lemma FieldsAreTrailer(fields: seq<Bytes>)
    requires CrlfFree(fields) && forall f | f in fields :: f != []
    ensures WellFormedTrailer(if fields == [] then CRLF else JoinCrlf(fields) + BLANK)
  {
    if fields != [] {
      assert fields[0] in fields;
      forall i | 1 <= i < |fields| ensures fields[i] != [] { assert fields[i] in fields; }
      BlankAfterJoin(fields, []);
      JoinStartsSolid(fields, []);
      assert JoinCrlf(fields) + BLANK + [] == JoinCrlf(fields) + BLANK;
    }
  }

  // ---------------------------------------------------------------- the download decoder

  function DownloadFrom(body: Bytes, i: nat, out: Bytes): Option<Bytes>
    requires i <= |body|
    decreases |body| - i
  {
    match FindCrlf(body, i)
    case None => None
    case Some(lineEnd) =>
      match ChunkSize(body[i..lineEnd])
      case None => None
      case Some(size) =>
        if size == 0 then Some(out)
        else
          var end := lineEnd + 2 + size;
          if end > USIZE_MAX || end > |body| || !CrlfAt(body, end) then None
          else DownloadFrom(body, end + 2, out + body[lineEnd + 2..end])
  }

  /** One step of the download decoder. */
  lemma {:induction false} DownloadStep(body: Bytes, i: nat, out: Bytes)
    requires i <= |body|
    ensures match FindCrlf(body, i)
            case None => DownloadFrom(body, i, out).None?
            case Some(lineEnd) =>
              match ChunkSize(body[i..lineEnd])
              case None => DownloadFrom(body, i, out).None?
              case Some(size) =>
                var end := lineEnd + 2 + size;
                DownloadFrom(body, i, out) ==
                if size == 0 then Some(out)
                else if end > USIZE_MAX || end > |body| || !CrlfAt(body, end) then None
                else DownloadFrom(body, end + 2, out + body[lineEnd + 2..end])
  {
    hide ChunkSize, FindCrlf;
  }

  /** `decode_chunked`: any error is `None`. */
  method DecodeChunked(body: Bytes) returns (r: Option<Bytes>)
    ensures r == DownloadFrom(body, 0, [])
  {
    hide ParseUsize, Trim, Before, FindCrlf, DownloadFrom;
    var out: Bytes := [];
    var i: nat := 0;
    while true
      invariant i <= |body|
      invariant DownloadFrom(body, i, out) == DownloadFrom(body, 0, [])
      decreases |body| - i
    {
      DownloadStep(body, i, out);
      var lineEnd := FindCrlf(body, i);
      if lineEnd.None? { return None; }
      var size := ParseUsize(Trim(Before(body[i..lineEnd.value], ';')), 16);
      if size.None? { return None; }
      i := lineEnd.value + 2;
      if size.value == 0 { return Some(out); }
      var end := i + size.value;
      if end > USIZE_MAX { return None; }
      if end > |body| { return None; }
      out := out + body[i..end];
      i := end;
      if !(i + 2 <= |body| && body[i..i + 2] == CRLF) { return None; }
      i := i + 2;
    }
  }

  lemma HeadIsSizeLine(d: Bytes, pos: nat)
    requires pos <= |d| && ChunkHead(d, pos).Some?
    ensures var SizeHead(size, start) := ChunkHead(d, pos).value;
            FindCrlf(d, pos) == Some(start - 2) && ChunkSize(d[pos..start - 2]) == Some(size)
  {
    hide ValidUtf8, ChunkSize, FindCrlf;
  }

  lemma {:induction false} DecodersAgreeFrom(d: Bytes, pos: nat, acc: Bytes)
    requires pos <= |d| && DecodeFrom(d, pos, acc).Some?
    ensures DownloadFrom(d, pos, acc) == Some(DecodeFrom(d, pos, acc).value.body)
    decreases |d| - pos
  {
    hide ChunkHead, FinishFrom, DecodeFrom, DownloadFrom, ChunkSize, FindCrlf;
    DecodeStep(d, pos, acc);
    HeadIsSizeLine(d, pos);
    DownloadStep(d, pos, acc);
    var SizeHead(size, start) := ChunkHead(d, pos).value;
    if size != 0 {
      DecodersAgreeFrom(d, start + size + 2, acc + d[start..start + size]);
    }
  }

  /** Whatever the relay decodes, the downloader decodes to the same body. */
  lemma DecodersAgree(d: Bytes)
    requires Decode(d).Some?
    ensures DownloadFrom(d, 0, []) == Some(Decode(d).value.body)
  {
    DecodersAgreeFrom(d, 0, []);
  }

  // ---------------------------------------------------------------- what the download decoder accepts

  ghost predicate SpelledChunk(c: Chunk) {
    c.data != [] && SpelledLine(c.sizeLine, |c.data|)
  }

  /** A download: chunks, a last size line, and anything behind it. */
  datatype Download = Download(chunks: seq<Chunk>, lastLine: Bytes, rest: Bytes) {
    function Text(): Bytes {
      EncodeChunks(chunks) + lastLine + CRLF + rest
    }

    ghost predicate WellFormed() {
      (forall c | c in chunks :: SpelledChunk(c)) && SpelledLine(lastLine, 0)
    }
  }

  lemma SpelledParses(line: Bytes, size: nat)
    requires SpelledLine(line, size)
    ensures NoCrlf(line) && ChunkSize(line) == Some(size)
  {
    hide ChunkSize, SizeText.Text, SizeText.Announces, NoCrlf;
    ChunkSizeIff(line, size);
  }

  lemma LineFound(front: Bytes, line: Bytes, rest: Bytes, size: nat)
    requires SpelledLine(line, size)
    ensures var s := front + line + CRLF + rest;
            FindCrlf(s, |front|) == Some(|front| + |line|) && ChunkSize(s[|front|..|front| + |line|]) == Some(size)
  {
    hide ChunkSize, FindCrlf, SpelledLine, NoCrlf;
    SpelledParses(line, size);
    FirstCrlfAt(front, line, rest);
    assert (front + line + CRLF + rest)[|front|..|front| + |line|] == line;
  }

  /** Where the parts of an encoded chunk are. */
  lemma ChunkLayout(front: Bytes, c: Chunk, rest: Bytes)
    ensures var s := front + EncodeChunk(c) + rest;
            var start := |front| + |c.sizeLine| + 2;
            var end := start + |c.data|;
            && s == front + c.sizeLine + CRLF + (c.data + CRLF + rest)
            && end + 2 == |front| + |EncodeChunk(c)| <= |s|
            && s[start..end] == c.data && CrlfAt(s, end)
  {
    var head, tail := front + c.sizeLine + CRLF, CRLF + rest;
    var s := head + c.data + tail;
    assert s == front + EncodeChunk(c) + rest == front + c.sizeLine + CRLF + (c.data + CRLF + rest);
    assert s[|head|..|head| + |c.data|] == c.data;
    assert s[|head| + |c.data|..] == tail;
  }

  lemma ChunkDownloaded(front: Bytes, c: Chunk, rest: Bytes, out: Bytes)
    requires SpelledChunk(c) && |front| + |EncodeChunk(c)| <= USIZE_MAX
    ensures var s := front + EncodeChunk(c) + rest;
            DownloadFrom(s, |front|, out) == DownloadFrom(s, |front| + |EncodeChunk(c)|, out + c.data)
  {
    hide SpelledLine, DownloadFrom, ChunkSize, FindCrlf, EncodeChunk, CrlfAt;
    DownloadStep(front + EncodeChunk(c) + rest, |front|, out);
    ChunkLayout(front, c, rest);
    LineFound(front, c.sizeLine, c.data + CRLF + rest, |c.data|);
  }

  lemma {:induction false} DownloadOfText(front: Bytes, d: Download, out: Bytes)
    requires d.WellFormed() && |front| + |d.Text()| <= USIZE_MAX
    ensures DownloadFrom(front + d.Text(), |front|, out) == Some(out + Data(d.chunks))
    decreases |d.chunks|
  {
    hide DownloadFrom, SpelledChunk, SpelledLine, EncodeChunk, ChunkSize, FindCrlf;
    if d.chunks == [] {
      LineFound(front, d.lastLine, d.rest, 0);
      assert front + d.Text() == front + d.lastLine + CRLF + d.rest;
      DownloadStep(front + d.Text(), |front|, out);
      assert out + [] == out;
    } else {
      var c, more := d.chunks[0], d.(chunks := d.chunks[1..]);
      assert c in d.chunks && forall x | x in more.chunks :: x in d.chunks;
      assert d.Text() == EncodeChunk(c) + more.Text();
      ChunkDownloaded(front, c, more.Text(), out);
      assert front + EncodeChunk(c) + more.Text() == front + d.Text();
      DownloadOfText(front + EncodeChunk(c), more, out + c.data);
      assert out + c.data + Data(more.chunks) == out + Data(d.chunks);
    }
  }

  lemma LineAt(body: Bytes, i: nat, lineEnd: nat, size: nat)
    requires i <= |body| && FindCrlf(body, i) == Some(lineEnd) && ChunkSize(body[i..lineEnd]) == Some(size)
    ensures SpelledLine(body[i..lineEnd], size) && lineEnd + 2 <= |body| && body[i..lineEnd + 2] == body[i..lineEnd] + CRLF
  {
    hide ChunkSize, FindCrlf;
    var line := body[i..lineEnd];
    forall j | 0 <= j < |line| ensures !CrlfAt(line, j) { assert !CrlfAt(body, i + j); }
    ChunkSizeIff(line, size);
  }

  lemma LastAt(body: Bytes, i: nat, lineEnd: nat) returns (d: Download)
    requires i <= |body| && FindCrlf(body, i) == Some(lineEnd) && ChunkSize(body[i..lineEnd]) == Some(0)
    ensures d.WellFormed() && d.Text() == body[i..] && Data(d.chunks) == []
  {
    hide ChunkSize, FindCrlf, SpelledLine;
    LineAt(body, i, lineEnd, 0);
    var start := lineEnd + 2;
    d := Download([], body[i..lineEnd], body[start..]);
    assert d.Text() == body[i..lineEnd] + CRLF + body[start..];
    assert body[i..] == body[i..start] + body[start..];
  }

  lemma ChunkAt(body: Bytes, i: nat, lineEnd: nat, size: nat) returns (c: Chunk)
    requires i <= |body| && FindCrlf(body, i) == Some(lineEnd) && ChunkSize(body[i..lineEnd]) == Some(size) && size > 0
    requires lineEnd + 2 + size <= |body| && CrlfAt(body, lineEnd + 2 + size)
    ensures SpelledChunk(c) && c.data == body[lineEnd + 2..lineEnd + 2 + size]
    ensures body[i..] == EncodeChunk(c) + body[lineEnd + 2 + size + 2..]
  {
    hide ChunkSize, FindCrlf, SpelledLine;
    LineAt(body, i, lineEnd, size);
    c := Chunk(body[i..lineEnd], body[lineEnd + 2..lineEnd + 2 + size]);
    FourParts(body, i, lineEnd + 2, lineEnd + 2 + size);
  }

  lemma {:induction false} TextOfDownload(body: Bytes, i: nat, out: Bytes) returns (d: Download)
    requires i <= |body| && DownloadFrom(body, i, out).Some?
    ensures d.WellFormed() && d.Text() == body[i..] && DownloadFrom(body, i, out).value == out + Data(d.chunks)
    decreases |body| - i
  {
    hide DownloadFrom, SpelledLine, ChunkSize, FindCrlf, SpelledChunk, EncodeChunk, Data, Download.Text;
    DownloadStep(body, i, out);
    var lineEnd := FindCrlf(body, i).value;
    var size := ChunkSize(body[i..lineEnd]).value;
    if size == 0 {
      d := LastAt(body, i, lineEnd);
      assert out + [] == out;
    } else {
      var c := ChunkAt(body, i, lineEnd, size);
      var more := TextOfDownload(body, lineEnd + 2 + size + 2, out + c.data);
      d := more.(chunks := [c] + more.chunks);
      DownloadCons(c, more);
      assert out + c.data + Data(more.chunks) == out + (c.data + Data(more.chunks));
    }
  }

  lemma FourParts(body: Bytes, i: nat, start: nat, end: nat)
    requires i <= start <= end && CrlfAt(body, end)
    ensures body[i..] == body[i..start] + body[start..end] + CRLF + body[end + 2..]
  {
    assert body[end..end + 2] == CRLF;
  }

  lemma DownloadCons(c: Chunk, d: Download)
    ensures var e := d.(chunks := [c] + d.chunks); e.Text() == EncodeChunk(c) + d.Text() && Data(e.chunks) == c.data + Data(d.chunks)
  {
    hide EncodeChunk;
    assert ([c] + d.chunks)[1..] == d.chunks;
  }

  /** The download decoder accepts exactly the downloads, with their data. */
  lemma DownloadIff(body: Bytes, out: Bytes)
    requires |body| <= USIZE_MAX
    ensures DownloadFrom(body, 0, []) == Some(out) <==>
            exists d: Download :: d.WellFormed() && d.Text() == body && Data(d.chunks) == out
  {
    hide DownloadFrom, Data, Download.Text, Download.WellFormed;
    if DownloadFrom(body, 0, []) == Some(out) {
      var d := TextOfDownload(body, 0, []);
      assert body[0..] == body && [] + Data(d.chunks) == Data(d.chunks);
    }
    if exists d: Download :: d.WellFormed() && d.Text() == body && Data(d.chunks) == out {
      var d: Download :| d.WellFormed() && d.Text() == body && Data(d.chunks) == out;
      DownloadOfText([], d, []);
      assert [] + body == body && [] + out == out;
    }
  }
}
