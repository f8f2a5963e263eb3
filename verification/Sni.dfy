/** The server name in a TLS ClientHello (section 4.1.2 of RFC 8446, section 3 of RFC 6066). */
module Sni {
  import opened Text
  import opened Utf8

  type Octet = n: nat | n < 256
  type Octets = seq<Octet>

  /** Octets as text bytes. */
  function AsText(s: Octets): (t: Bytes)
    ensures |t| == |s| && forall i | 0 <= i < |s| :: t[i] as int == s[i]
  {
    seq(|s|, i requires 0 <= i < |s| => s[i] as char)
  }

  // ---------------------------------------------------------------- length-prefixed vectors

  function U16(hi: Octet, lo: Octet): (n: nat)
    ensures n < 65536
  {
    256 * hi + lo
  }

  /** A vector with a one-octet length, and what follows it. */
  function TakeVec8(s: Octets): Option<(Octets, Octets)> {
    if s == [] then None
    else
      var n: nat := s[0];
      if |s| < 1 + n then None else Some((s[1..1 + n], s[1 + n..]))
  }

  /** A vector with a two-octet length, and what follows it. */
  function TakeVec16(s: Octets): (r: Option<(Octets, Octets)>)
    ensures r.Some? ==> |r.value.0| + |r.value.1| + 2 == |s|
  {
    if |s| < 2 then None
    else
      var n := U16(s[0], s[1]);
      if |s| < 2 + n then None else Some((s[2..2 + n], s[2 + n..]))
  }

  function Vec8(d: Octets): Octets
    requires |d| < 256
  {
    [|d|] + d
  }

  function Vec16(d: Octets): Octets
    requires |d| < 65536
  {
    [|d| / 256, |d| % 256] + d
  }

  lemma TakeOfVec8(d: Octets, rest: Octets)
    requires |d| < 256
    ensures TakeVec8(Vec8(d) + rest) == Some((d, rest))
  {
    var s := Vec8(d) + rest;
    assert s[1..1 + |d|] == d && s[1 + |d|..] == rest;
  }

  lemma TakeOfVec16(d: Octets, rest: Octets)
    requires |d| < 65536
    ensures TakeVec16(Vec16(d) + rest) == Some((d, rest))
  {
    var s := Vec16(d) + rest;
    assert U16(s[0], s[1]) == |d|;
    assert s[2..2 + |d|] == d && s[2 + |d|..] == rest;
  }

  lemma VecOfTake8(s: Octets)
    requires TakeVec8(s).Some?
    ensures |TakeVec8(s).value.0| < 256 && Vec8(TakeVec8(s).value.0) + TakeVec8(s).value.1 == s
  {
  }

  lemma VecOfTake16(s: Octets)
    requires TakeVec16(s).Some?
    ensures |TakeVec16(s).value.0| < 65536 && Vec16(TakeVec16(s).value.0) + TakeVec16(s).value.1 == s
  {
    var d := TakeVec16(s).value.0;
    assert |d| == U16(s[0], s[1]);
    assert Vec16(d)[0] == s[0] && Vec16(d)[1] == s[1];
  }

  lemma TakeVec8Append(s: Octets, more: Octets)
    requires TakeVec8(s).Some?
    ensures TakeVec8(s + more) == Some((TakeVec8(s).value.0, TakeVec8(s).value.1 + more))
  {
    var n: nat := s[0];
    assert (s + more)[1..1 + n] == s[1..1 + n] && (s + more)[1 + n..] == s[1 + n..] + more;
  }

  lemma TakeVec16Append(s: Octets, more: Octets)
    requires TakeVec16(s).Some?
    ensures TakeVec16(s + more) == Some((TakeVec16(s).value.0, TakeVec16(s).value.1 + more))
  {
    var n := U16(s[0], s[1]);
    assert (s + more)[2..2 + n] == s[2..2 + n] && (s + more)[2 + n..] == s[2 + n..] + more;
  }

  // ---------------------------------------------------------------- the specification

  /** The first host_name entry of a server name list. */
  function NameScan(s: Octets): Option<Bytes>
    decreases |s|
  {
    if s == [] then None
    else
      match TakeVec16(s[1..])
      case None => None
      case Some((name, rest)) =>
        if s[0] == 0 then if ValidUtf8(AsText(name)) then Some(AsText(name)) else None
        else NameScan(rest)
  }

  /** The body of the server_name extension: one list that fills it exactly. */
  function SniExtension(data: Octets): Option<Bytes> {
    if |data| < 2 || U16(data[0], data[1]) != |data| - 2 then None else NameScan(data[2..])
  }

  /** The first extension of type server_name. */
  function ExtensionScan(s: Octets): Option<Bytes>
    decreases |s|
  {
    if |s| < 4 then None
    else
      match TakeVec16(s[2..])
      case None => None
      case Some((data, rest)) => if U16(s[0], s[1]) == 0 then SniExtension(data) else ExtensionScan(rest)
  }

  /** Record header, handshake header, version and random take 43 octets. */
  const FIXED: nat := 43

  function HelloBody(s: Octets): Option<Bytes> {
    match TakeVec8(s)
    case None => None
    case Some((_, afterSession)) =>
      match TakeVec16(afterSession)
      case None => None
      case Some((_, afterCiphers)) =>
        match TakeVec8(afterCiphers)
        case None => None
        case Some((_, afterCompression)) =>
          match TakeVec16(afterCompression)
          case None => None
          case Some((extensions, _)) => ExtensionScan(extensions)
  }

  /** `parse_sni`, as a function of the whole buffer. */
  function SniOf(buffer: Octets): Option<Bytes> {
    if |buffer| < FIXED || buffer[0] != 0x16 || buffer[5] != 0x01 then None else HelloBody(buffer[FIXED..])
  }

  // ---------------------------------------------------------------- the parser

  class Parser {
    const buffer: Octets
    var pos: nat

    ghost predicate Valid()
      reads this
    {
      pos <= |buffer|
    }

    /** What has not been read yet. */
    ghost function Rest(): Octets
      reads this
      requires Valid()
    {
      buffer[pos..]
    }

    constructor (buffer: Octets)
      ensures Valid() && this.buffer == buffer && Rest() == buffer
    {
      this.buffer := buffer;
      pos := 0;
    }

    function Remaining(): nat
      reads this
      requires Valid()
    {
      |buffer| - pos
    }

    method ReadU8() returns (r: Option<nat>)
      requires Valid()
      modifies this
      ensures Valid() && r.Some? == (old(Rest()) != [])
      ensures r.Some? ==> r.value == old(Rest())[0] && Rest() == old(Rest())[1..]
      ensures r.None? ==> Rest() == old(Rest())
    {
      if pos < |buffer| {
        r := Some(buffer[pos]);
        pos := pos + 1;
      } else {
        r := None;
      }
    }

    method ReadU16() returns (r: Option<nat>)
      requires Valid()
      modifies this
      ensures Valid() && r.Some? == (|old(Rest())| >= 2)
      ensures r.Some? ==> r.value == U16(old(Rest())[0], old(Rest())[1]) && Rest() == old(Rest())[2..]
      ensures r.None? ==> Rest() == old(Rest())
    {
      if Remaining() >= 2 {
        r := Some(U16(buffer[pos], buffer[pos + 1]));
        pos := pos + 2;
      } else {
        r := None;
      }
    }

    method Skip(n: nat) returns (ok: bool)
      requires Valid()
      modifies this
      ensures Valid() && ok == (n <= |old(Rest())|)
      ensures Rest() == if ok then old(Rest())[n..] else old(Rest())
    {
      ok := Remaining() >= n;
      if ok { pos := pos + n; }
    }

    method ReadSlice(n: nat) returns (r: Option<Octets>)
      requires Valid()
      modifies this
      ensures Valid() && r.Some? == (n <= |old(Rest())|)
      ensures r.Some? ==> r.value == old(Rest())[..n] && Rest() == old(Rest())[n..]
      ensures r.None? ==> Rest() == old(Rest())
    {
      if Remaining() >= n {
        r := Some(buffer[pos..pos + n]);
        pos := pos + n;
      } else {
        r := None;
      }
    }

    /** A vector with a one-octet length, skipped. */
    method SkipVec8() returns (ok: bool)
      requires Valid()
      modifies this
      ensures Valid() && ok == TakeVec8(old(Rest())).Some?
      ensures ok ==> Rest() == TakeVec8(old(Rest())).value.1
    {
      var n := ReadU8();
      if n.None? { return false; }
      ok := Skip(n.value);
    }

    /** A vector with a two-octet length. */
    method ReadVec16() returns (r: Option<Octets>)
      requires Valid()
      modifies this
      ensures Valid() && r.Some? == TakeVec16(old(Rest())).Some?
      ensures r.Some? ==> r.value == TakeVec16(old(Rest())).value.0 && Rest() == TakeVec16(old(Rest())).value.1
    {
      var n := ReadU16();
      if n.None? { return None; }
      r := ReadSlice(n.value);
    }
  }

  /** The record header, the handshake header, the legacy version and the random. */
  method ReadFixed(p: Parser) returns (ok: bool)
    requires p.Valid()
    modifies p
    ensures p.Valid()
    ensures ok == (|old(p.Rest())| >= FIXED && old(p.Rest())[0] == 0x16 && old(p.Rest())[5] == 0x01)
    ensures ok ==> p.Rest() == old(p.Rest())[FIXED..]
  {
    var recordType := p.ReadU8();
    if recordType.None? || recordType.value != 0x16 { return false; }
    ok := p.Skip(2);
    if !ok { return; }
    ok := p.Skip(2);
    if !ok { return; }
    var handshakeType := p.ReadU8();
    if handshakeType.None? || handshakeType.value != 0x01 { return false; }
    ok := p.Skip(3);
    if !ok { return; }
    ok := p.Skip(2);
    if !ok { return; }
    ok := p.Skip(32);
  }

  /** `parse_sni`. */
  method ParseSni(buffer: Octets) returns (r: Option<Bytes>)
    ensures r == SniOf(buffer)
  {
    hide HelloBody;
    var p := new Parser(buffer);
    var ok := ReadFixed(p);
    if !ok { return None; }
    r := ParseHelloBody(p);
  }

  /** Session, cipher suites, compression methods and extensions. */
  method ParseHelloBody(p: Parser) returns (r: Option<Bytes>)
    requires p.Valid()
    modifies p
    ensures r == HelloBody(old(p.Rest()))
  {
    hide ExtensionScan, TakeVec8, TakeVec16;
    var ok := p.SkipVec8();
    if !ok { return None; }
    var ciphers := p.ReadVec16();
    if ciphers.None? { return None; }
    ok := p.SkipVec8();
    if !ok { return None; }
    var extensions := p.ReadVec16();
    if extensions.None? { return None; }
    r := ScanExtensions(extensions.value);
  }

  /** The loop over extensions. */
  method ScanExtensions(bytes: Octets) returns (r: Option<Bytes>)
    ensures r == ExtensionScan(bytes)
  {
    hide SniExtension;
    var p := new Parser(bytes);
    while p.Remaining() >= 4
      invariant p.Valid() && fresh(p)
      invariant ExtensionScan(p.Rest()) == ExtensionScan(bytes)
      decreases |p.Rest()|
    {
      var extType := p.ReadU16();
      var data := p.ReadVec16();
      if data.None? { return None; }
      if extType.value == 0 {
        r := ParseSniExtension(data.value);
        return;
      }
    }
    r := None;
  }

  /** `parse_sni_extension`. */
  method ParseSniExtension(data: Octets) returns (r: Option<Bytes>)
    ensures r == SniExtension(data)
  {
    hide NameScan;
    var p := new Parser(data);
    var listLen := p.ReadU16();
    if listLen.None? || listLen.value != p.Remaining() { return None; }
    r := ScanNames(p);
  }

  /** The loop over the server name list. */
  method ScanNames(p: Parser) returns (r: Option<Bytes>)
    requires p.Valid()
    modifies p
    ensures r == NameScan(old(p.Rest()))
  {
    hide ValidUtf8, TakeVec16;
    ghost var list := p.Rest();
    while p.Remaining() > 0
      invariant p.Valid()
      invariant NameScan(p.Rest()) == NameScan(list)
      decreases |p.Rest()|
    {
      var nameType := p.ReadU8();
      var name := p.ReadVec16();
      if name.None? { return None; }
      if nameType.value == 0 {
        var text := AsText(name.value);
        return if ValidUtf8(text) then Some(text) else None;
      }
    }
    r := None;
  }

  // ---------------------------------------------------------------- the encoder

  /** An extension or a server name entry: its type and its contents. */
  datatype Entry = Entry(kind: nat, data: Octets)

  /** A ClientHello with a server name. Lengths in the record and handshake headers are not interpreted, and neither is
      anything behind the host name. */
  datatype Hello = Hello(
    record: Octets,
    fixed: Octets,
    session: Octets,
    ciphers: Octets,
    compression: Octets,
    before: seq<Entry>,
    names: seq<Entry>,
    host: Octets,
    listRest: Octets,
    extensionRest: Octets)

  predicate WellFormedEntries(es: seq<Entry>, limit: nat) {
    forall e | e in es :: 0 < e.kind < limit && |e.data| < 65536
  }

  function EncodeNames(es: seq<Entry>): Octets
    requires WellFormedEntries(es, 256)
  {
    if es == [] then [] else assert es[0] in es; [es[0].kind] + Vec16(es[0].data) + EncodeNames(es[1..])
  }

  function EncodeExtensions(es: seq<Entry>): Octets
    requires WellFormedEntries(es, 65536)
  {
    if es == [] then []
    else assert es[0] in es; [es[0].kind / 256, es[0].kind % 256] + Vec16(es[0].data) + EncodeExtensions(es[1..])
  }

  /** The server name list. */
  function NameList(h: Hello): Octets
    requires WellFormedEntries(h.names, 256) && |h.host| < 65536
  {
    EncodeNames(h.names) + ([0] + Vec16(h.host) + h.listRest)
  }

  /** The whole extension block; two octets of list length and two of extension length around the list. */
  function ExtensionBlock(h: Hello): Octets
    requires WellFormedEntries(h.names, 256) && |h.host| < 65536 && |NameList(h)| < 65534
    requires WellFormedEntries(h.before, 65536)
  {
    EncodeExtensions(h.before) + ([0, 0] + Vec16(Vec16(NameList(h))) + h.extensionRest)
  }

  predicate WellFormed(h: Hello) {
    && |h.record| == 4 && |h.fixed| == 37
    && |h.session| < 256 && |h.ciphers| < 65536 && |h.compression| < 256
    && WellFormedEntries(h.before, 65536) && WellFormedEntries(h.names, 256)
    && |h.host| < 65536 && ValidUtf8(AsText(h.host))
    && |NameList(h)| < 65534 && |ExtensionBlock(h)| < 65536
  }

  function Encode(h: Hello): Octets
    requires WellFormed(h)
  {
    [0x16] + h.record + [0x01] + h.fixed
    + (Vec8(h.session) + (Vec16(h.ciphers) + (Vec8(h.compression) + Vec16(ExtensionBlock(h)))))
  }

  lemma NameScanEntry(kind: Octet, data: Octets, tail: Octets)
    requires |data| < 65536 && kind != 0
    ensures NameScan([kind] + (Vec16(data) + tail)) == NameScan(tail)
  {
    hide TakeVec16, Vec16, ValidUtf8;
    var s := [kind] + (Vec16(data) + tail);
    assert s[1..] == Vec16(data) + tail && s[0] == kind;
    TakeOfVec16(data, tail);
  }

  lemma {:induction false} NameScanSkips(es: seq<Entry>, rest: Octets)
    requires WellFormedEntries(es, 256)
    ensures NameScan(EncodeNames(es) + rest) == NameScan(rest)
  {
    hide NameScan, Vec16;
    if es == [] {
      assert EncodeNames(es) + rest == rest;
    } else {
      var e := es[0];
      assert e in es;
      var tail := EncodeNames(es[1..]) + rest;
      var kind: Octets := [e.kind];
      assert EncodeNames(es) + rest == kind + (Vec16(e.data) + tail);
      NameScanEntry(e.kind, e.data, tail);
      NameScanSkips(es[1..], rest);
    }
  }

  lemma KindRoundTrip(kind: nat)
    requires kind < 65536
    ensures U16(kind / 256, kind % 256) == kind
  {
  }

  lemma ExtensionScanEntry(kind: nat, data: Octets, tail: Octets)
    requires |data| < 65536 && 0 < kind < 65536
    ensures ExtensionScan([kind / 256, kind % 256] + (Vec16(data) + tail)) == ExtensionScan(tail)
  {
    hide TakeVec16, Vec16, SniExtension, U16;
    var k: Octets := [kind / 256, kind % 256];
    var s := k + (Vec16(data) + tail);
    assert s[2..] == Vec16(data) + tail && s[0] == kind / 256 && s[1] == kind % 256;
    TakeOfVec16(data, tail);
    Vec16Length(data);
    KindRoundTrip(kind);
  }

  lemma {:induction false} ExtensionScanSkips(es: seq<Entry>, rest: Octets)
    requires WellFormedEntries(es, 65536)
    ensures ExtensionScan(EncodeExtensions(es) + rest) == ExtensionScan(rest)
  {
    hide ExtensionScan, Vec16;
    if es == [] {
      assert EncodeExtensions(es) + rest == rest;
    } else {
      var e := es[0];
      assert e in es;
      var tail := EncodeExtensions(es[1..]) + rest;
      var k: Octets := [e.kind / 256, e.kind % 256];
      assert EncodeExtensions(es) + rest == k + (Vec16(e.data) + tail);
      ExtensionScanEntry(e.kind, e.data, tail);
      ExtensionScanSkips(es[1..], rest);
    }
  }

  lemma Vec16Length(d: Octets)
    requires |d| < 65536
    ensures |Vec16(d)| == |d| + 2 && Vec16(d)[2..] == d
    ensures U16(Vec16(d)[0], Vec16(d)[1]) == |d|
  {
  }

  lemma NameListScans(h: Hello)
    requires WellFormedEntries(h.names, 256) && |h.host| < 65536 && ValidUtf8(AsText(h.host))
    ensures NameScan(NameList(h)) == Some(AsText(h.host))
  {
    hide TakeVec16, Vec16, ValidUtf8;
    var zero: Octets := [0];
    var rest := zero + Vec16(h.host) + h.listRest;
    NameScanSkips(h.names, rest);
    assert rest[1..] == Vec16(h.host) + h.listRest;
    TakeOfVec16(h.host, h.listRest);
  }

  lemma SniExtensionScans(list: Octets)
    requires |list| < 65534
    ensures SniExtension(Vec16(list)) == NameScan(list)
  {
    hide NameScan, Vec16, U16;
    Vec16Length(list);
  }

  lemma ExtensionBlockScans(h: Hello)
    requires WellFormed(h)
    ensures ExtensionScan(ExtensionBlock(h)) == Some(AsText(h.host))
  {
    hide TakeVec16, Vec16, ValidUtf8, NameList, SniExtension, NameScan;
    var list := NameList(h);
    Vec16Length(list);
    Vec16Length(Vec16(list));
    var zeros: Octets := [0, 0];
    var rest := zeros + Vec16(Vec16(list)) + h.extensionRest;
    ExtensionScanSkips(h.before, rest);
    assert rest[2..] == Vec16(Vec16(list)) + h.extensionRest;
    TakeOfVec16(Vec16(list), h.extensionRest);
    SniExtensionScans(list);
    NameListScans(h);
  }

  /** Round trip: every encoded ClientHello, followed by anything, yields its host name. */
  lemma SniRoundTrip(h: Hello, tail: Octets)
    requires WellFormed(h)
    ensures SniOf(Encode(h) + tail) == Some(AsText(h.host))
  {
    hide TakeVec8, TakeVec16, Vec8, Vec16, ValidUtf8, ExtensionBlock, ExtensionScan, WellFormedEntries;
    var buffer := Encode(h) + tail;
    var extensions := ExtensionBlock(h);
    var d := Vec16(extensions) + tail;
    var c := Vec8(h.compression) + d;
    var b := Vec16(h.ciphers) + c;
    var a := Vec8(h.session) + b;
    var first: Octets, second: Octets := [0x16], [0x01];
    var front := first + h.record + second + h.fixed;
    assert buffer == front + a;
    assert buffer[FIXED..] == a;
    TakeOfVec8(h.session, b);
    TakeOfVec16(h.ciphers, c);
    TakeOfVec8(h.compression, d);
    TakeOfVec16(extensions, tail);
    ExtensionBlockScans(h);
  }

  /** A successful parse is unchanged by whatever follows. */
  lemma SniStable(buffer: Octets, more: Octets)
    requires SniOf(buffer).Some?
    ensures SniOf(buffer + more) == SniOf(buffer)
  {
    hide TakeVec8, TakeVec16, ExtensionScan;
    var s := buffer[FIXED..];
    assert (buffer + more)[FIXED..] == s + more;
    TakeVec8Append(s, more);
    var afterSession := TakeVec8(s).value.1;
    TakeVec16Append(afterSession, more);
    var afterCiphers := TakeVec16(afterSession).value.1;
    TakeVec8Append(afterCiphers, more);
    TakeVec16Append(TakeVec8(afterCiphers).value.1, more);
  }

  // ---------------------------------------------------------------- and back

  lemma {:induction false} NamesFrom(s: Octets) returns (names: seq<Entry>, host: Octets, rest: Octets)
    requires NameScan(s).Some?
    ensures WellFormedEntries(names, 256) && |host| < 65536
    ensures s == EncodeNames(names) + ([0] + Vec16(host) + rest)
    ensures NameScan(s) == Some(AsText(host)) && ValidUtf8(AsText(host))
    decreases |s|
  {
    hide TakeVec16, Vec16, ValidUtf8;
    var (data, tail) := TakeVec16(s[1..]).value;
    VecOfTake16(s[1..]);
    Vec16Length(data);
    assert s == [s[0]] + (Vec16(data) + tail);
    if s[0] == 0 {
      names, host, rest := [], data, tail;
      var zero: Octets := [0];
      assert s == EncodeNames([]) + (zero + Vec16(host) + rest);
    } else {
      var more;
      more, host, rest := NamesFrom(tail);
      names := [Entry(s[0], data)] + more;
      assert names[1..] == more;
    }
  }

  lemma {:induction false} ExtensionsFrom(s: Octets) returns (before: seq<Entry>, data: Octets, rest: Octets)
    requires ExtensionScan(s).Some?
    ensures WellFormedEntries(before, 65536) && |data| < 65536
    ensures s == EncodeExtensions(before) + ([0, 0] + Vec16(data) + rest)
    ensures ExtensionScan(s) == SniExtension(data)
    decreases |s|
  {
    hide TakeVec16, Vec16, SniExtension;
    var (d, tail) := TakeVec16(s[2..]).value;
    VecOfTake16(s[2..]);
    Vec16Length(d);
    assert s == [s[0], s[1]] + (Vec16(d) + tail);
    if U16(s[0], s[1]) == 0 {
      before, data, rest := [], d, tail;
      var zeros: Octets := [0, 0];
      assert s == EncodeExtensions([]) + (zeros + Vec16(data) + rest);
    } else {
      var more;
      more, data, rest := ExtensionsFrom(tail);
      var e := Entry(U16(s[0], s[1]), d);
      before := [e] + more;
      assert before[1..] == more;
      var kind: Octets := [e.kind / 256, e.kind % 256];
      assert kind == [s[0], s[1]];
      assert EncodeExtensions(before) == kind + Vec16(d) + EncodeExtensions(more);
    }
  }

  lemma ListFrom(data: Octets)
    requires SniExtension(data).Some?
    ensures 2 <= |data| < 65538 && Vec16(data[2..]) == data && SniExtension(data) == NameScan(data[2..])
  {
    hide NameScan;
    assert |data[2..]| == U16(data[0], data[1]);
  }

  lemma HelloFrom(buffer: Octets) returns (h: Hello, tail: Octets)
    requires SniOf(buffer).Some?
    ensures WellFormed(h) && Encode(h) + tail == buffer && SniOf(buffer) == Some(AsText(h.host))
  {
    hide TakeVec8, TakeVec16, Vec8, Vec16, ExtensionScan, SniExtension, NameScan, ValidUtf8, EncodeNames, EncodeExtensions;
    var s := buffer[FIXED..];
    var (session, a) := TakeVec8(s).value;
    var (ciphers, b) := TakeVec16(a).value;
    var (compression, c) := TakeVec8(b).value;
    var (extensions, d) := TakeVec16(c).value;
    VecOfTake8(s);
    VecOfTake16(a);
    VecOfTake8(b);
    VecOfTake16(c);
    var before, data, extensionRest := ExtensionsFrom(extensions);
    ListFrom(data);
    var names, host, listRest := NamesFrom(data[2..]);
    h := Hello(buffer[1..5], buffer[6..FIXED], session, ciphers, compression, before, names, host, listRest, extensionRest);
    tail := d;
    assert NameList(h) == data[2..];
    assert ExtensionBlock(h) == extensions;
    EncodeParts(h, buffer, tail);
  }

  lemma EncodeParts(h: Hello, buffer: Octets, tail: Octets)
    requires WellFormed(h) && |buffer| >= FIXED && buffer[0] == 0x16 && buffer[5] == 0x01
    requires h.record == buffer[1..5] && h.fixed == buffer[6..FIXED]
    requires buffer[FIXED..] ==
             Vec8(h.session) + (Vec16(h.ciphers) + (Vec8(h.compression) + (Vec16(ExtensionBlock(h)) + tail)))
    ensures Encode(h) + tail == buffer
  {
    hide Vec8, Vec16, ExtensionBlock, WellFormedEntries;
    var first: Octets, second: Octets := [0x16], [0x01];
    assert buffer[..FIXED] == first + h.record + second + h.fixed;
    assert buffer == buffer[..FIXED] + buffer[FIXED..];
  }

  /** `name` holds exactly these octets. */
  predicate SameOctets(name: Bytes, host: Octets) {
    |name| == |host| && forall i | 0 <= i < |name| :: name[i] as int == host[i]
  }

  lemma SameOctetsIff(name: Bytes, host: Octets)
    ensures SameOctets(name, host) <==> name == AsText(host)
  {
    hide AsText;
    if SameOctets(name, host) {
      forall i | 0 <= i < |name| ensures name[i] == AsText(host)[i] {}
    }
  }

  /** The parser finds a name exactly when the buffer starts with an encoded ClientHello that carries its octets. */
  lemma SniIffEncoded(buffer: Octets, name: Bytes)
    ensures SniOf(buffer) == Some(name) <==>
            exists h, tail :: WellFormed(h) && Encode(h) + tail == buffer && SameOctets(name, h.host)
  {
    hide SniOf, WellFormed, Encode, AsText, SameOctets;
    if SniOf(buffer) == Some(name) {
      var h, tail := HelloFrom(buffer);
      SameOctetsIff(name, h.host);
    }
    if exists h, tail :: WellFormed(h) && Encode(h) + tail == buffer && SameOctets(name, h.host) {
      var h, tail :| WellFormed(h) && Encode(h) + tail == buffer && SameOctets(name, h.host);
      SniRoundTrip(h, tail);
      SameOctetsIff(name, h.host);
    }
  }
}
