/**
  Byte strings and the text operations the proxy applies to them: searching, splitting and
  joining, ASCII case folding, trimming, and unsigned number parsing.

  A byte is modelled as the `char` with that code. No definition looks at codes above 255, so every
  statement about all byte strings is an instance of a statement about all `seq<char>`.
 */
module Text {

  type Bytes = seq<char>

  datatype Option<+T> = None | Some(value: T)

  const CRLF: Bytes := "\r\n"
  const BLANK: Bytes := "\r\n\r\n"

  /** The largest `usize` on a 64-bit target. */
  const USIZE_MAX: nat := 0xFFFF_FFFF_FFFF_FFFF

  // ---------------------------------------------------------------- searching

  predicate CrlfAt(s: Bytes, i: int) {
    0 <= i && i + 1 < |s| && s[i] == '\r' && s[i + 1] == '\n'
  }

  /** An empty line: two CRLFs in a row. */
  predicate BlankAt(s: Bytes, i: int) {
    CrlfAt(s, i) && CrlfAt(s, i + 2)
  }

  predicate NoCrlf(s: Bytes) {
    forall i | 0 <= i < |s| :: !CrlfAt(s, i)
  }

  function FindCrlf(s: Bytes, from: nat): (r: Option<nat>)
    requires from <= |s|
    ensures r.Some? ==> from <= r.value && CrlfAt(s, r.value) && forall j | from <= j < r.value :: !CrlfAt(s, j)
    ensures r.None? ==> forall j | from <= j :: !CrlfAt(s, j)
    decreases |s| - from
  {
    if from == |s| then None
    else if CrlfAt(s, from) then Some(from)
    else FindCrlf(s, from + 1)
  }

  function FindBlank(s: Bytes, from: nat): (r: Option<nat>)
    requires from <= |s|
    ensures r.Some? ==> from <= r.value && BlankAt(s, r.value) && forall j | from <= j < r.value :: !BlankAt(s, j)
    ensures r.None? ==> forall j | from <= j :: !BlankAt(s, j)
    decreases |s| - from
  {
    if from == |s| then None
    else if BlankAt(s, from) then Some(from)
    else FindBlank(s, from + 1)
  }

  function FindChar(s: Bytes, c: char): (r: Option<nat>)
    ensures r.Some? ==> r.value < |s| && s[r.value] == c && forall j | 0 <= j < r.value :: s[j] != c
    ensures r.None? ==> c !in s
  {
    if s == [] then None
    else if s[0] == c then Some(0)
    else
      match FindChar(s[1..], c)
      case None => None
      case Some(i) => Some(i + 1)
  }

  predicate OccursAt(s: Bytes, needle: Bytes, i: int) {
    0 <= i <= |s| - |needle| && s[i..i + |needle|] == needle
  }

  predicate Contains(s: Bytes, needle: Bytes) {
    exists i | 0 <= i <= |s| - |needle| :: OccursAt(s, needle, i)
  }

  /** Where a search lands is fixed by the bytes up to the hit. */
  lemma FindCrlfIs(s: Bytes, from: nat, i: nat)
    requires from <= i && CrlfAt(s, i)
    requires forall j | from <= j < i :: !CrlfAt(s, j)
    ensures FindCrlf(s, from) == Some(i)
  {
    var r := FindCrlf(s, from);
    assert r.Some? && !(r.value < i) && !(i < r.value);
  }

  lemma FindBlankIs(s: Bytes, from: nat, i: nat)
    requires from <= i && BlankAt(s, i)
    requires forall j | from <= j < i :: !BlankAt(s, j)
    ensures FindBlank(s, from) == Some(i)
  {
    var r := FindBlank(s, from);
    assert r.Some? && !(r.value < i) && !(i < r.value);
  }

  lemma FindCharIs(s: Bytes, c: char, i: nat)
    requires i < |s| && s[i] == c && forall j | 0 <= j < i :: s[j] != c
    ensures FindChar(s, c) == Some(i)
  {
    var r := FindChar(s, c);
    assert r.Some? && !(r.value < i) && !(i < r.value);
  }

  // ---------------------------------------------------------------- splitting on CRLF

  /** `split("\r\n")`. */
  function SplitCrlf(s: Bytes): (lines: seq<Bytes>)
    ensures |lines| >= 1
    ensures forall l | l in lines :: NoCrlf(l)
    decreases |s|
  {
    match FindCrlf(s, 0)
    case None => [s]
    case Some(i) =>
      assert NoCrlf(s[..i]) by {
        forall j | 0 <= j < i ensures !CrlfAt(s[..i], j) { assert !CrlfAt(s, j); }
      }
      [s[..i]] + SplitCrlf(s[i + 2..])
  }

  /** `join("\r\n")`. */
  function JoinCrlf(lines: seq<Bytes>): Bytes {
    if lines == [] then []
    else if |lines| == 1 then lines[0]
    else lines[0] + CRLF + JoinCrlf(lines[1..])
  }

  lemma {:induction false} JoinOfSplit(s: Bytes)
    ensures JoinCrlf(SplitCrlf(s)) == s
    decreases |s|
  {
    match FindCrlf(s, 0)
    case None =>
    case Some(i) =>
      JoinOfSplit(s[i + 2..]);
      var rest := SplitCrlf(s[i + 2..]);
      assert ([s[..i]] + rest)[1..] == rest;
      assert s[i..i + 2] == CRLF;
      assert s == s[..i] + s[i..i + 2] + s[i + 2..];
  }

  /** In a CRLF-free line followed by CRLF, the first CRLF is the one that follows. */
  lemma FirstCrlfAfter(line: Bytes, rest: Bytes)
    requires NoCrlf(line)
    ensures CrlfAt(line + CRLF + rest, |line|)
    ensures forall j | 0 <= j < |line| :: !CrlfAt(line + CRLF + rest, j)
    ensures FindCrlf(line + CRLF + rest, 0) == Some(|line|)
  {
    var s := line + CRLF + rest;
    forall j | 0 <= j < |line| ensures !CrlfAt(s, j) {
      assert !CrlfAt(line, j);
    }
    FindCrlfIs(s, 0, |line|);
  }

  lemma SplitCons(line: Bytes, rest: Bytes)
    requires NoCrlf(line)
    ensures SplitCrlf(line + CRLF + rest) == [line] + SplitCrlf(rest)
  {
    var s := line + CRLF + rest;
    FirstCrlfAfter(line, rest);
    assert s[..|line|] == line;
    assert s[|line| + 2..] == rest;
  }

  predicate CrlfFree(lines: seq<Bytes>) {
    forall l | l in lines :: NoCrlf(l)
  }

  lemma {:induction false} SplitOfJoin(lines: seq<Bytes>)
    requires lines != [] && CrlfFree(lines)
    ensures SplitCrlf(JoinCrlf(lines)) == lines
  {
    assert lines[0] in lines;
    if |lines| == 1 {
      assert FindCrlf(lines[0], 0).None?;
    } else {
      assert CrlfFree(lines[1..]);
      SplitOfJoin(lines[1..]);
      SplitCons(lines[0], JoinCrlf(lines[1..]));
    }
  }

  /** Every line but the first is non-empty: what precedes the first empty line of a message. */
  predicate SolidAfterFirst(lines: seq<Bytes>) {
    forall i | 1 <= i < |lines| :: lines[i] != []
  }

  /** The first empty line of joined lines followed by a blank line is that blank line. */
  lemma {:induction false} BlankAfterJoin(lines: seq<Bytes>, tail: Bytes)
    requires CrlfFree(lines) && SolidAfterFirst(lines)
    ensures FindBlank(JoinCrlf(lines) + BLANK + tail, 0) == Some(|JoinCrlf(lines)|)
  {
    var s := JoinCrlf(lines) + BLANK + tail;
    if |lines| == 0 {
      FindBlankIs(s, 0, 0);
    } else if |lines| == 1 {
      assert lines[0] in lines;
      FirstCrlfAfter(lines[0], CRLF + tail);
      assert s == lines[0] + CRLF + (CRLF + tail);
      FindBlankIs(s, 0, |lines[0]|);
    } else {
      var l, rest := lines[0], JoinCrlf(lines[1..]) + BLANK + tail;
      assert l in lines && lines[1] in lines;
      assert s == l + (CRLF + rest);
      BlankAfterJoin(lines[1..], tail);
      JoinStartsSolid(lines[1..], tail);
      BlankAfterSolid(l, rest, |JoinCrlf(lines[1..])|);
    }
  }

  lemma BlankAfterSolid(line: Bytes, rest: Bytes, i: nat)
    requires NoCrlf(line) && !CrlfAt(rest, 0) && FindBlank(rest, 0) == Some(i)
    ensures FindBlank(line + (CRLF + rest), 0) == Some(|line| + 2 + i)
  {
    BlankAfterCrlf(rest, i);
    BlankAfterLine(line, CRLF + rest);
  }

  lemma BlankAfterCrlf(rest: Bytes, i: nat)
    requires !CrlfAt(rest, 0) && FindBlank(rest, 0) == Some(i)
    ensures FindBlank(CRLF + rest, 0) == Some(2 + i)
  {
    var s := CRLF + rest;
    assert forall k | 2 <= k < |s| :: s[k] == rest[k - 2];
    forall j | 0 <= j < 2 + i ensures !BlankAt(s, j) {
      if j >= 2 {
        assert !BlankAt(rest, j - 2);
      }
    }
    assert BlankAt(rest, i);
    FindBlankIs(s, 0, 2 + i);
  }

  lemma JoinStartsSolid(lines: seq<Bytes>, tail: Bytes)
    requires lines != [] && lines[0] != [] && NoCrlf(lines[0])
    ensures !CrlfAt(JoinCrlf(lines) + BLANK + tail, 0)
  {
    var s := JoinCrlf(lines) + BLANK + tail;
    assert !CrlfAt(lines[0], 0);
    if |lines| > 1 {
      assert s[0] == lines[0][0];
      assert s[1] == (lines[0] + CRLF)[1];
    } else {
      assert s[1] == (lines[0] + BLANK)[1];
    }
  }

  /** Conversely, what precedes the first empty line splits into lines that are solid after the first. */
  lemma {:induction false} SolidBeforeBlank(s: Bytes, e: nat)
    requires e <= |s| - 4 && BlankAt(s, e)
    requires forall j | 0 <= j < e :: !BlankAt(s, j)
    ensures SolidAfterFirst(SplitCrlf(s[..e]))
    decreases e
  {
    var h := s[..e];
    match FindCrlf(h, 0)
    case None =>
    case Some(i) =>
      var t := s[i + 2..];
      assert forall k | 0 <= k < |t| :: t[k] == s[i + 2 + k];
      assert t[..e - (i + 2)] == h[i + 2..];
      forall j | 0 <= j < e - (i + 2) ensures !BlankAt(t, j) {
        assert !BlankAt(s, j + i + 2);
      }
      assert BlankAt(t, e - (i + 2));
      SolidBeforeBlank(t, e - (i + 2));
      var rest := SplitCrlf(h[i + 2..]);
      assert CrlfAt(s, i) && !BlankAt(s, i);
      assert e != i + 2;
      assert FindCrlf(h[i + 2..], 0) != Some(0);
  }

  /** Replacing a CRLF-free first line moves the blank line by the change in length only. */
  lemma BlankAfterLine(line: Bytes, rest: Bytes)
    requires NoCrlf(line) && CrlfAt(rest, 0)
    ensures FindBlank(line + rest, 0) ==
            match FindBlank(rest, 0) case None => None case Some(i) => Some(|line| + i)
  {
    var s := line + rest;
    assert forall k | 0 <= k < |rest| :: s[|line| + k] == rest[k];
    forall j | 0 <= j < |line| ensures !CrlfAt(s, j) {
      assert !CrlfAt(line, j);
    }
    match FindBlank(rest, 0)
    case None =>
      forall j | |line| <= j ensures !BlankAt(s, j) { assert !BlankAt(rest, j - |line|); }
      assert FindBlank(s, 0).None?;
    case Some(i) =>
      forall j | |line| <= j < |line| + i ensures !BlankAt(s, j) { assert !BlankAt(rest, j - |line|); }
      assert BlankAt(s, |line| + i);
      FindBlankIs(s, 0, |line| + i);
  }

  // ---------------------------------------------------------------- splitting on one character

  /** `split(c)`. */
  function SplitChar(s: Bytes, c: char): (parts: seq<Bytes>)
    ensures |parts| >= 1
    ensures forall p | p in parts :: c !in p
    decreases |s|
  {
    match FindChar(s, c)
    case None => [s]
    case Some(i) => [s[..i]] + SplitChar(s[i + 1..], c)
  }

  function JoinChar(parts: seq<Bytes>, c: char): Bytes {
    if parts == [] then []
    else if |parts| == 1 then parts[0]
    else parts[0] + [c] + JoinChar(parts[1..], c)
  }

  lemma SplitCharCons(part: Bytes, c: char, rest: Bytes)
    requires c !in part
    ensures SplitChar(part + [c] + rest, c) == [part] + SplitChar(rest, c)
  {
    var s := part + [c] + rest;
    assert s[..|part|] == part;
    forall j | 0 <= j < |part| ensures s[j] != c { assert part[j] in part; }
    FindCharIs(s, c, |part|);
    assert s[|part| + 1..] == rest;
  }

  lemma {:induction false} SplitOfJoinChar(parts: seq<Bytes>, c: char)
    requires parts != [] && forall p | p in parts :: c !in p
    ensures SplitChar(JoinChar(parts, c), c) == parts
  {
    assert parts[0] in parts;
    if |parts| > 1 {
      SplitOfJoinChar(parts[1..], c);
      SplitCharCons(parts[0], c, JoinChar(parts[1..], c));
    } else {
      assert FindChar(parts[0], c).None?;
    }
  }

  /** `split(c).next()`: everything before the first `c`. */
  function Before(s: Bytes, c: char): (r: Bytes)
    ensures r <= s && c !in r && (r == s || s[|r|] == c)
  {
    match FindChar(s, c) case None => s case Some(i) => s[..i]
  }

  lemma BeforeIs(a: Bytes, c: char, rest: Bytes)
    requires c !in a && (rest == [] || rest[0] == c)
    ensures Before(a + rest, c) == a
  {
    hide FindChar;
    if rest == [] {
      assert a + rest == a;
      assert FindChar(a, c).None?;
    } else {
      forall j | 0 <= j < |a| ensures (a + rest)[j] != c { assert a[j] in a; }
      FindCharIs(a + rest, c, |a|);
    }
  }

  // ---------------------------------------------------------------- selecting lines

  /** `retain`: the elements that satisfy `p`, in order. */
  function Retain<T>(xs: seq<T>, p: T -> bool): (r: seq<T>)
    ensures forall x | x in r :: x in xs && p(x)
    ensures forall x | x in xs && p(x) :: x in r
    ensures |r| <= |xs|
  {
    if xs == [] then []
    else (if p(xs[0]) then [xs[0]] else []) + Retain(xs[1..], p)
  }

  lemma {:induction false} RetainAll<T>(xs: seq<T>, p: T -> bool)
    requires forall x | x in xs :: p(x)
    ensures Retain(xs, p) == xs
  {
    if xs != [] {
      assert xs[0] in xs;
      RetainAll(xs[1..], p);
    }
  }

  lemma {:induction false} RetainNone<T>(xs: seq<T>, p: T -> bool)
    requires |Retain(xs, p)| == |xs|
    ensures forall x | x in xs :: p(x)
  {
    if xs != [] {
      RetainNone(xs[1..], p);
    }
  }

  lemma {:induction false} RetainEmpty<T>(xs: seq<T>, p: T -> bool)
    requires forall x | x in xs :: !p(x)
    ensures Retain(xs, p) == []
  {
    if xs != [] {
      assert xs[0] in xs;
      RetainEmpty(xs[1..], p);
    }
  }

  lemma {:induction false} RetainConcat<T>(xs: seq<T>, ys: seq<T>, p: T -> bool)
    ensures Retain(xs + ys, p) == Retain(xs, p) + Retain(ys, p)
  {
    if xs == [] {
      assert xs + ys == ys;
    } else {
      assert (xs + ys)[1..] == xs[1..] + ys;
      RetainConcat(xs[1..], ys, p);
    }
  }

  lemma RetainSnoc<T>(xs: seq<T>, i: nat, p: T -> bool)
    requires i < |xs|
    ensures Retain(xs[..i + 1], p) == Retain(xs[..i], p) + (if p(xs[i]) then [xs[i]] else [])
  {
    assert xs[..i + 1] == xs[..i] + [xs[i]];
    RetainConcat(xs[..i], [xs[i]], p);
  }

  /** Dropping lines keeps the rest solid after the first. */
  lemma {:induction false} RetainSolid(lines: seq<Bytes>, p: Bytes -> bool)
    requires SolidAfterFirst(lines)
    ensures SolidAfterFirst(Retain(lines, p))
  {
    if lines != [] {
      forall l | l in Retain(lines[1..], p) ensures l != [] {
        assert l in lines[1..];
        var i :| 0 <= i < |lines[1..]| && lines[1..][i] == l;
        assert lines[i + 1] == l;
      }
      var tail := Retain(lines[1..], p);
      forall i | 0 <= i < |tail| ensures tail[i] != [] { assert tail[i] in tail; }
    }
  }

  // ---------------------------------------------------------------- ASCII case and white space

  function LowerChar(c: char): char {
    if 'A' <= c <= 'Z' then (c as int + 32) as char else c
  }

  const UPPER: Bytes := "ABCDEFGHIJKLMNOPQRSTUVWXYZ"
  const LOWER: Bytes := "abcdefghijklmnopqrstuvwxyz"

  /** Lowering maps the upper-case alphabet onto the lower-case one and nothing else. */
  lemma LowerCharMeaning(c: char)
    ensures c in UPPER ==> exists i | 0 <= i < 26 :: UPPER[i] == c && LOWER[i] == LowerChar(c)
    ensures c !in UPPER ==> LowerChar(c) == c
  {
    UpperLetters();
    if 'A' <= c <= 'Z' {
      var i := c as int - 'A' as int;
      assert UPPER[i] == c && LOWER[i] == LowerChar(c);
    }
  }

  lemma UpperLetters()
    ensures |UPPER| == |LOWER| == 26
    ensures forall i | 0 <= i < 26 :: UPPER[i] as int == 'A' as int + i && LOWER[i] as int == 'a' as int + i
  {
    var u, l := UPPER, LOWER;
    assert forall i | 0 <= i < 26 :: u[i] as int == 'A' as int + i;
    assert forall i | 0 <= i < 26 :: l[i] as int == 'a' as int + i;
  }

  /** `to_ascii_lowercase`. */
  function Lower(s: Bytes): (r: Bytes)
    ensures |r| == |s| && forall i | 0 <= i < |s| :: r[i] == LowerChar(s[i])
  {
    seq(|s|, i requires 0 <= i < |s| => LowerChar(s[i]))
  }

  /** `to_ascii_lowercase().starts_with(prefix)` for a prefix already in lower case. */
  predicate HasPrefixCI(s: Bytes, prefix: Bytes) {
    |prefix| <= |s| && forall i | 0 <= i < |prefix| :: LowerChar(s[i]) == prefix[i]
  }

  /** `eq_ignore_ascii_case`. */
  predicate EqCI(a: Bytes, b: Bytes) {
    Lower(a) == Lower(b)
  }

  /** ASCII white space as `str::trim` sees it. */
  predicate IsSpace(c: char) {
    c == ' ' || c == '\t' || c == '\n' || c == '\r' || c == '\U{0b}' || c == '\U{0c}'
  }

  /** The white-space characters by code: U+0009 to U+000D and U+0020. */
  lemma SpaceMeaning(c: char)
    ensures IsSpace(c) <==> 9 <= c as int <= 13 || c as int == 32
  {
  }

  function TrimStart(s: Bytes): Bytes {
    if s != [] && IsSpace(s[0]) then TrimStart(s[1..]) else s
  }

  function TrimEnd(s: Bytes): Bytes {
    if s != [] && IsSpace(s[|s| - 1]) then TrimEnd(s[..|s| - 1]) else s
  }

  function Trim(s: Bytes): Bytes {
    TrimEnd(TrimStart(s))
  }

  /** `trim_end_matches(c)`. */
  function TrimEndChar(s: Bytes, c: char): Bytes {
    if s != [] && s[|s| - 1] == c then TrimEndChar(s[..|s| - 1], c) else s
  }

  /** Trimmed text neither starts nor ends with white space. */
  predicate Trimmed(s: Bytes) {
    s != [] ==> !IsSpace(s[0]) && !IsSpace(s[|s| - 1])
  }

  lemma {:induction false} TrimEndKeepsStart(s: Bytes)
    requires s != [] ==> !IsSpace(s[0])
    ensures Trimmed(TrimEnd(s))
  {
    if s != [] && IsSpace(s[|s| - 1]) {
      TrimEndKeepsStart(s[..|s| - 1]);
    }
  }

  lemma {:induction false} TrimStartIsSolid(s: Bytes)
    ensures TrimStart(s) != [] ==> !IsSpace(TrimStart(s)[0])
  {
    if s != [] && IsSpace(s[0]) {
      TrimStartIsSolid(s[1..]);
    }
  }

  lemma TrimIsTrimmed(s: Bytes)
    ensures Trimmed(Trim(s))
    ensures Trim(Trim(s)) == Trim(s)
  {
    TrimStartIsSolid(s);
    TrimEndKeepsStart(TrimStart(s));
  }

  lemma TrimSolid(s: Bytes)
    requires s != [] && !IsSpace(s[0]) && !IsSpace(s[|s| - 1])
    ensures Trim(s) == s
  {
  }

  predicate AllSpace(s: Bytes) {
    forall c | c in s :: IsSpace(c)
  }

  lemma {:induction false} TrimStartParts(s: Bytes) returns (a: Bytes)
    ensures s == a + TrimStart(s) && AllSpace(a)
  {
    if s != [] && IsSpace(s[0]) {
      var b := TrimStartParts(s[1..]);
      a := [s[0]] + b;
      assert s == a + TrimStart(s[1..]);
    } else {
      a := [];
    }
  }

  lemma {:induction false} TrimEndParts(s: Bytes) returns (b: Bytes)
    ensures s == TrimEnd(s) + b && AllSpace(b)
  {
    if s != [] && IsSpace(s[|s| - 1]) {
      var a := TrimEndParts(s[..|s| - 1]);
      b := a + [s[|s| - 1]];
      assert s == TrimEnd(s[..|s| - 1]) + b;
    } else {
      b := [];
    }
  }

  /** What trimming takes away is white space on both sides, */
  lemma TrimParts(s: Bytes) returns (a: Bytes, b: Bytes)
    ensures s == a + Trim(s) + b && AllSpace(a) && AllSpace(b)
  {
    a := TrimStartParts(s);
    b := TrimEndParts(TrimStart(s));
    assert a + (Trim(s) + b) == a + Trim(s) + b;
  }

  lemma {:induction false} TrimStartSkips(a: Bytes, t: Bytes)
    requires AllSpace(a)
    ensures TrimStart(a + t) == TrimStart(t)
  {
    if a == [] {
      assert a + t == t;
    } else {
      assert a[0] in a;
      assert (a + t)[1..] == a[1..] + t;
      TrimStartSkips(a[1..], t);
    }
  }

  lemma {:induction false} TrimEndSkips(t: Bytes, b: Bytes)
    requires AllSpace(b)
    ensures TrimEnd(t + b) == TrimEnd(t)
    decreases |b|
  {
    if b == [] {
      assert t + b == t;
    } else {
      var n := |b| - 1;
      assert b[n] in b;
      assert (t + b)[..|t + b| - 1] == t + b[..n];
      TrimEndSkips(t, b[..n]);
    }
  }

  /** and what has white space on neither side is what is left. */
  lemma TrimOfParts(a: Bytes, t: Bytes, b: Bytes)
    requires AllSpace(a) && AllSpace(b) && Trimmed(t)
    ensures Trim(a + t + b) == t
  {
    assert a + t + b == a + (t + b);
    TrimStartSkips(a, t + b);
    if t == [] {
      assert t + b == b && b + [] == b;
      TrimStartSkips(b, []);
    } else {
      assert TrimStart(t + b) == t + b;
      TrimEndSkips(t, b);
    }
  }

  // ---------------------------------------------------------------- unsigned numbers

  function DigitValue(c: char, radix: nat): Option<nat> {
    var v := if '0' <= c <= '9' then c as int - '0' as int
             else if 'a' <= c <= 'z' then c as int - 'a' as int + 10
             else if 'A' <= c <= 'Z' then c as int - 'A' as int + 10
             else radix;
    if v < radix then Some(v) else None
  }

  function DigitsValue(s: Bytes, radix: nat): Option<nat> {
    if s == [] then Some(0)
    else
      match (DigitsValue(s[..|s| - 1], radix), DigitValue(s[|s| - 1], radix))
      case (Some(high), Some(low)) => Some(high * radix + low)
      case _ => None
  }

  /** `usize::from_str_radix`: an optional `+`, at least one digit, and no overflow. */
  function ParseUsize(s: Bytes, radix: nat): (r: Option<nat>)
    ensures r.Some? ==> r.value <= USIZE_MAX && s != []
  {
    var digits := if s != [] && s[0] == '+' then s[1..] else s;
    if digits == [] then None
    else
      match DigitsValue(digits, radix)
      case Some(n) => if n <= USIZE_MAX then Some(n) else None
      case None => None
  }

  const DIGITS: Bytes := "0123456789abcdef"

  function DigitChar(d: nat): (c: char)
    requires d < 16
    ensures c == DIGITS[d]
  {
    if d < 10 then ('0' as int + d) as char else ('a' as int + d - 10) as char
  }

  predicate Radix(radix: nat) {
    radix == 10 || radix == 16
  }

  function DivRem(n: nat, radix: nat): (r: (nat, nat))
    requires Radix(radix)
    ensures r.0 * radix + r.1 == n && r.1 < radix
    ensures n >= radix ==> r.0 < n
  {
    if radix == 10 then (n / 10, n % 10) else (n / 16, n % 16)
  }

  /** The canonical numeral of `n`, as formatting prints it. */
  function Numeral(n: nat, radix: nat): (r: Bytes)
    requires Radix(radix)
    ensures r != []
    ensures forall c | c in r :: '0' <= c <= '9' || 'a' <= c <= 'f'
    decreases n
  {
    if n < radix then [DigitChar(n)]
    else
      var (high, low) := DivRem(n, radix);
      Numeral(high, radix) + [DigitChar(low)]
  }

  lemma NumeralValue(n: nat, radix: nat)
    requires Radix(radix)
    ensures DigitsValue(Numeral(n, radix), radix) == Some(n)
  {
    hide Numeral;
    var s := Numeral(n, radix);
    forall i | 0 <= i < |s| ensures LowerChar(s[i]) == s[i] { assert s[i] in s; }
    assert Lower(s) == s == Zeros(0) + s;
    SpelledValue(s, radix, n);
  }

  /** Parsing undoes formatting, up to the largest `usize`. */
  lemma ParseNumeral(n: nat, radix: nat)
    requires Radix(radix)
    ensures ParseUsize(Numeral(n, radix), radix) == if n <= USIZE_MAX then Some(n) else None
  {
    NumeralValue(n, radix);
    assert Numeral(n, radix)[0] in Numeral(n, radix);
  }

  lemma NumeralTrim(n: nat, radix: nat)
    requires Radix(radix)
    ensures Trim(Numeral(n, radix)) == Numeral(n, radix)
    ensures Trim(" " + Numeral(n, radix)) == Numeral(n, radix)
  {
    hide Numeral, Trim;
    var s := Numeral(n, radix);
    assert s[0] in s && s[|s| - 1] in s;
    TrimOfParts([], s, []);
    TrimOfParts(" ", s, []);
    assert [] + s + [] == s && " " + s + [] == " " + s;
  }

  // ---------------------------------------------------------------- spellings of a number

  function Zeros(k: nat): (s: Bytes)
    ensures |s| == k && forall c | c in s :: c == '0'
  {
    seq(k, _ => '0')
  }

  /** `s` is the numeral of `n`, in any letter case and behind any number of zeros. */
  predicate Spells(s: Bytes, radix: nat, n: nat)
    requires Radix(radix)
  {
    |Numeral(n, radix)| <= |s| && Lower(s) == Zeros(|s| - |Numeral(n, radix)|) + Numeral(n, radix)
  }

  /** A character stands for a digit exactly when in lower case it is that digit's. */
  lemma DigitIff(c: char, radix: nat, d: nat)
    requires Radix(radix) && d < radix
    ensures DigitValue(c, radix) == Some(d) <==> LowerChar(c) == DigitChar(d)
  {
  }

  lemma {:induction false} ZerosSnoc(k: nat)
    ensures Zeros(k) + ['0'] == Zeros(k + 1)
  {
  }

  lemma DivRemIs(high: nat, low: nat, radix: nat)
    requires Radix(radix) && low < radix
    ensures DivRem(high * radix + low, radix) == (high, low)
    ensures high > 0 ==> high * radix + low >= radix
  {
    if radix == 10 {
      assert DivRem(high * 10 + low, 10) == (high, low);
    } else {
      assert DivRem(high * 16 + low, 16) == (high, low);
    }
  }

  lemma {:induction false} NumeralStep(n: nat, radix: nat)
    requires Radix(radix)
    ensures n < radix ==> Numeral(n, radix) == [DigitChar(n)]
    ensures n >= radix ==>
              Numeral(n, radix) == Numeral(DivRem(n, radix).0, radix) + [DigitChar(DivRem(n, radix).1)]
  {
    hide DivRem, DigitChar;
  }

  lemma NumeralSnoc(high: nat, low: nat, radix: nat)
    requires Radix(radix) && low < radix
    ensures Numeral(low, radix) == [DigitChar(low)]
    ensures high > 0 ==> Numeral(high * radix + low, radix) == Numeral(high, radix) + [DigitChar(low)]
  {
    hide Numeral, DivRem, DigitChar;
    NumeralStep(low, radix);
    NumeralStep(high * radix + low, radix);
    DivRemIs(high, low, radix);
  }

  /** One more digit. */
  lemma SpellsSnoc(s: Bytes, c: char, radix: nat, high: nat, low: nat)
    requires Radix(radix) && Spells(s, radix, high) && low < radix && LowerChar(c) == DigitChar(low)
    ensures Spells(s + [c], radix, high * radix + low)
  {
    hide Numeral, Zeros;
    var t := s + [c];
    assert Lower(t) == Lower(s) + [DigitChar(low)];
    NumeralSnoc(high, low, radix);
    if high == 0 {
      NumeralSnoc(0, 0, radix);
      ZerosSnoc(|s| - 1);
    }
  }

  /** The value of a string of digits is the number it spells, in both directions. */
  lemma {:induction false} DigitsValueIff(s: Bytes, radix: nat, n: nat)
    requires Radix(radix) && s != []
    ensures DigitsValue(s, radix) == Some(n) <==> Spells(s, radix, n)
  {
    if DigitsValue(s, radix) == Some(n) { DigitsSpell(s, radix); }
    if Spells(s, radix, n) { SpelledValue(s, radix, n); }
  }

  lemma {:induction false} DigitsSpell(s: Bytes, radix: nat)
    requires Radix(radix) && s != [] && DigitsValue(s, radix).Some?
    ensures Spells(s, radix, DigitsValue(s, radix).value)
  {
    hide DigitValue, Numeral, Zeros, Spells, DigitChar;
    var front, c := s[..|s| - 1], s[|s| - 1];
    var low := DigitValue(c, radix).value;
    DigitBelow(c, radix);
    DigitIff(c, radix, low);
    assert s == front + [c];
    if front == [] {
      OneDigitSpells(c, radix, low);
      assert s == [c];
    } else {
      DigitsSpell(front, radix);
      SpellsSnoc(front, c, radix, DigitsValue(front, radix).value, low);
    }
  }

  lemma DigitBelow(c: char, radix: nat)
    ensures DigitValue(c, radix).Some? ==> DigitValue(c, radix).value < radix
  {
  }

  lemma OneDigitSpells(c: char, radix: nat, d: nat)
    requires Radix(radix) && d < radix && LowerChar(c) == DigitChar(d)
    ensures Spells([c], radix, d)
  {
    NumeralSnoc(0, d, radix);
    assert Lower([c]) == [DigitChar(d)];
    assert Zeros(0) + [DigitChar(d)] == [DigitChar(d)];
  }

  lemma {:induction false} SpelledValue(s: Bytes, radix: nat, n: nat)
    requires Radix(radix) && s != [] && Spells(s, radix, n)
    ensures DigitsValue(s, radix) == Some(n)
  {
    hide DigitValue, Numeral, Zeros, DigitChar;
    var front, c := s[..|s| - 1], s[|s| - 1];
    var (high, low) := DivRem(n, radix);
    var k := |s| - |Numeral(n, radix)|;
    assert Lower(s) == Lower(front) + [LowerChar(c)];
    NumeralSnoc(high, low, radix);
    if high == 0 {
      assert n == low;
      assert LowerChar(c) == DigitChar(low) && Lower(front) == Zeros(k);
      DigitIff(c, radix, low);
      if front != [] {
        NumeralSnoc(0, 0, radix);
        ZerosSnoc(k - 1);
        SpelledValue(front, radix, 0);
      }
    } else {
      assert LowerChar(c) == DigitChar(low) && Lower(front) == Zeros(k) + Numeral(high, radix);
      DigitIff(c, radix, low);
      SpelledValue(front, radix, high);
    }
  }

  /** Exactly the texts `from_str_radix` accepts, and for which number. */
  lemma ParseUsizeIff(s: Bytes, radix: nat, n: nat)
    requires Radix(radix)
    ensures ParseUsize(s, radix) == Some(n) <==>
            n <= USIZE_MAX && Spells(if s != [] && s[0] == '+' then s[1..] else s, radix, n)
  {
    hide DigitsValue, Spells;
    var digits := if s != [] && s[0] == '+' then s[1..] else s;
    if digits == [] {
      NothingSpells(radix, n);
    } else {
      DigitsValueIff(digits, radix, n);
    }
  }

  lemma NothingSpells(radix: nat, n: nat)
    requires Radix(radix)
    ensures !Spells([], radix, n)
  {
  }
}
