/** Host names and the three parent-domain walks of the policy engine. */
module Domains {
  import opened Text

  /** `normalize_host`. */
  function NormalizeHost(host: Bytes): Bytes {
    Lower(TrimEndChar(Trim(host), '.'))
  }

  lemma {:induction false} TrimEndCharShape(s: Bytes, c: char)
    ensures TrimEndChar(s, c) <= s
    ensures TrimEndChar(s, c) != [] ==> TrimEndChar(s, c)[|TrimEndChar(s, c)| - 1] != c
    ensures s != [] && s[|s| - 1] != c ==> TrimEndChar(s, c) == s
  {
    if s != [] && s[|s| - 1] == c {
      TrimEndCharShape(s[..|s| - 1], c);
    }
  }

  lemma {:induction false} TrimShrinks(s: Bytes)
    ensures |TrimEnd(s)| <= |s| && |TrimStart(s)| <= |s|
    decreases |s|
  {
    if s != [] {
      TrimShrinks(s[1..]);
      TrimShrinks(s[..|s| - 1]);
    }
  }

  /** A white-space character with nothing but dots behind it. */
  predicate SpaceThenDots(s: Bytes) {
    exists k | 0 <= k < |s| :: IsSpace(s[k]) && forall j | k < j < |s| :: s[j] == '.'
  }

  lemma {:induction false} SpaceThenDotsIff(s: Bytes)
    ensures SpaceThenDots(s) <==>
            var bare := TrimEndChar(s, '.'); bare != [] && IsSpace(bare[|bare| - 1])
  {
    if s != [] {
      var n := |s| - 1;
      if s[n] == '.' {
        var front := s[..n];
        SpaceThenDotsIff(front);
        if SpaceThenDots(front) {
          var k :| 0 <= k < n && IsSpace(front[k]) && forall j | k < j < n :: front[j] == '.';
          assert IsSpace(s[k]) && forall j | k < j < |s| :: s[j] == '.';
        }
        if SpaceThenDots(s) {
          var k :| 0 <= k < |s| && IsSpace(s[k]) && forall j | k < j < |s| :: s[j] == '.';
          assert IsSpace(front[k]) && forall j | k < j < n :: front[j] == '.';
        }
      } else if IsSpace(s[n]) {
        assert IsSpace(s[n]);
      }
    }
  }

  /** Normalizing twice is normalizing once exactly when, in the trimmed host, no white space is followed by nothing but
      dots. */
  lemma NormalizeIdempotentIff(host: Bytes)
    ensures NormalizeHost(NormalizeHost(host)) == NormalizeHost(host) <==> !SpaceThenDots(Trim(host))
  {
    hide NormalizeHost, SpaceThenDots, TrimEndChar, Trim;
    NormalizeTwice(host);
    SpaceThenDotsIff(Trim(host));
  }

  lemma NormalizeTwice(host: Bytes)
    ensures var bare := TrimEndChar(Trim(host), '.');
            NormalizeHost(NormalizeHost(host)) == NormalizeHost(host)
            <==> (bare != [] ==> !IsSpace(bare[|bare| - 1]))
  {
    var trimmed := Trim(host);
    var bare := TrimEndChar(trimmed, '.');
    var low := Lower(bare);
    TrimIsTrimmed(host);
    TrimEndCharShape(trimmed, '.');
    if bare != [] {
      assert low[0] == LowerChar(bare[0]) && low[|low| - 1] == LowerChar(bare[|bare| - 1]);
      assert bare[0] == trimmed[0];
      if IsSpace(bare[|bare| - 1]) {
        assert TrimStart(low) == low;
        TrimShrinks(low[..|low| - 1]);
        TrimEndCharShape(Trim(low), '.');
        assert |Trim(low)| < |low|;
      } else {
        assert Trim(low) == low;
        TrimEndCharShape(low, '.');
        assert Lower(low) == low;
      }
    }
  }

  /** A host as it may be written: a name between white space, with any number of dots behind it. */
  datatype HostText = HostText(before: Bytes, name: Bytes, dots: Bytes, after: Bytes) {
    function Text(): Bytes {
      before + (name + dots) + after
    }

    predicate WellFormed() {
      && AllSpace(before) && AllSpace(after) && (forall c | c in dots :: c == '.')
      && (name != [] ==> name[|name| - 1] != '.')
      && Trimmed(name + dots)
    }
  }

  lemma {:induction false} TrimEndCharParts(s: Bytes, c: char) returns (b: Bytes)
    ensures s == TrimEndChar(s, c) + b && forall x | x in b :: x == c
  {
    if s != [] && s[|s| - 1] == c {
      var a := TrimEndCharParts(s[..|s| - 1], c);
      b := a + [c];
      assert s == TrimEndChar(s[..|s| - 1], c) + b;
    } else {
      b := [];
    }
  }

  lemma {:induction false} TrimEndCharSkips(t: Bytes, b: Bytes, c: char)
    requires (forall x | x in b :: x == c) && (t != [] ==> t[|t| - 1] != c)
    ensures TrimEndChar(t + b, c) == t
    decreases |b|
  {
    if b == [] {
      assert t + b == t;
    } else {
      var n := |b| - 1;
      assert b[n] in b && forall x | x in b[..n] :: x in b;
      assert (t + b)[..|t + b| - 1] == t + b[..n];
      TrimEndCharSkips(t, b[..n], c);
    }
  }

  /** What a host is normalized to: its name in lower case, for every way of writing it, and nothing else. */
  lemma NormalizeHostIff(host: Bytes, n: Bytes)
    ensures NormalizeHost(host) == n <==>
            exists t: HostText :: t.WellFormed() && t.Text() == host && Lower(t.name) == n
  {
    hide Trim, Lower, TrimEndChar;
    if NormalizeHost(host) == n {
      var a, b := TrimParts(host);
      var dots := TrimEndCharParts(Trim(host), '.');
      TrimEndCharShape(Trim(host), '.');
      TrimIsTrimmed(host);
      var t := HostText(a, TrimEndChar(Trim(host), '.'), dots, b);
      assert t.WellFormed() && t.Text() == host;
    }
    if exists t: HostText :: t.WellFormed() && t.Text() == host && Lower(t.name) == n {
      var t: HostText :| t.WellFormed() && t.Text() == host && Lower(t.name) == n;
      TrimOfParts(t.before, t.name + t.dots, t.after);
      TrimEndCharSkips(t.name, t.dots, '.');
    }
  }

  lemma NormalizeNotIdempotent()
    ensures NormalizeHost("x .") == "x " && NormalizeHost("x ") == "x"
  {
    var s: Bytes := "x .";
    assert Trim(s) == s;
    assert s[..2] == "x " && "x "[..1] == "x";
    assert TrimEndChar(s, '.') == TrimEndChar("x ", '.') == "x ";
    assert Lower("x ") == "x ";
    assert TrimEnd("x ") == TrimEnd("x") == "x";
    assert TrimEndChar("x", '.') == "x" && Lower("x") == "x";
  }

  // ---------------------------------------------------------------- suffixes

  /** `domain` is `host` itself or a parent domain of it. */
  predicate SuffixMatch(host: Bytes, domain: Bytes) {
    host == domain
    || (|domain| < |host| && host[|host| - |domain| - 1] == '.' && host[|host| - |domain|..] == domain)
  }

  lemma SuffixTransitive(host: Bytes, parent: Bytes, domain: Bytes)
    requires SuffixMatch(host, parent) && SuffixMatch(parent, domain)
    ensures SuffixMatch(host, domain)
  {
    if host != parent && parent != domain {
      assert parent[|parent| - |domain|..] == host[|host| - |domain|..];
    }
  }

  /** Dropping the first label drops exactly the host itself from its suffixes. */
  lemma SuffixStep(host: Bytes, domain: Bytes)
    ensures match FindChar(host, '.')
            case None => SuffixMatch(host, domain) <==> host == domain
            case Some(i) => SuffixMatch(host, domain) <==> host == domain || SuffixMatch(host[i + 1..], domain)
  {
    hide FindChar;
    match FindChar(host, '.')
    case None =>
    case Some(i) =>
      var rest := host[i + 1..];
      if SuffixMatch(rest, domain) {
        SuffixTransitive(host, rest, domain);
      }
      if SuffixMatch(host, domain) && host != domain {
        ProperSuffix(host, i, domain);
      }
  }

  /** A proper suffix is a suffix of what follows the first dot. */
  lemma ProperSuffix(host: Bytes, i: nat, domain: Bytes)
    requires i < |host| && forall j | 0 <= j < i :: host[j] != '.'
    requires SuffixMatch(host, domain) && host != domain
    ensures SuffixMatch(host[i + 1..], domain)
  {
    var rest := host[i + 1..];
    assert |domain| <= |rest|;
    assert rest[|rest| - |domain|..] == host[|host| - |domain|..];
  }

  /** The keys that are suffixes of `host`, most specific first. */
  function MatchingKeys(host: Bytes, keys: set<Bytes>): (ks: seq<Bytes>)
    ensures forall k | k in ks :: |k| <= |host|
    decreases |host|
  {
    (if host in keys then [host] else [])
    + match FindChar(host, '.') case None => [] case Some(i) => MatchingKeys(host[i + 1..], keys)
  }

  lemma {:induction false} MatchingKeysStep(host: Bytes, keys: set<Bytes>)
    ensures MatchingKeys(host, keys) ==
            (if host in keys then [host] else [])
            + match FindChar(host, '.') case None => [] case Some(i) => MatchingKeys(host[i + 1..], keys)
  {
    hide FindChar;
  }

  lemma {:induction false} MatchingKeysMembers(host: Bytes, keys: set<Bytes>, k: Bytes)
    ensures k in MatchingKeys(host, keys) <==> k in keys && SuffixMatch(host, k)
    decreases |host|
  {
    hide SuffixMatch, MatchingKeys;
    MatchingKeysStep(host, keys);
    SuffixStep(host, k);
    match FindChar(host, '.')
    case None =>
    case Some(i) => MatchingKeysMembers(host[i + 1..], keys, k);
  }

  lemma {:induction false} MatchingKeysOrder(host: Bytes, keys: set<Bytes>)
    ensures forall i, j | 0 <= i < j < |MatchingKeys(host, keys)| ::
              |MatchingKeys(host, keys)[i]| > |MatchingKeys(host, keys)[j]|
    decreases |host|
  {
    hide MatchingKeys;
    MatchingKeysStep(host, keys);
    match FindChar(host, '.')
    case None =>
    case Some(i) =>
      MatchingKeysOrder(host[i + 1..], keys);
      var rest := MatchingKeys(host[i + 1..], keys);
      forall j | 0 <= j < |rest| ensures |rest[j]| < |host| { assert rest[j] in rest; }
  }

  /** Exactly the matching suffixes, each once, in order of strictly decreasing length. */
  lemma MatchingKeysSpec(host: Bytes, keys: set<Bytes>)
    ensures forall k :: k in MatchingKeys(host, keys) <==> k in keys && SuffixMatch(host, k)
    ensures forall i, j | 0 <= i < j < |MatchingKeys(host, keys)| ::
              |MatchingKeys(host, keys)[i]| > |MatchingKeys(host, keys)[j]|
  {
    hide SuffixMatch, MatchingKeys;
    forall k ensures k in MatchingKeys(host, keys) <==> k in keys && SuffixMatch(host, k) {
      MatchingKeysMembers(host, keys, k);
    }
    MatchingKeysOrder(host, keys);
  }

  /** `host` is on the list: it is not empty and it or a parent domain is a member. */
  predicate Listed(host: Bytes, domains: set<Bytes>) {
    host != [] && exists d | d in domains :: SuffixMatch(host, d)
  }

  /** `domain_in_set_or_parent`. */
  method DomainInSetOrParent(host: Bytes, domains: set<Bytes>) returns (r: bool)
    ensures r <==> Listed(host, domains)
  {
    hide SuffixMatch;
    if host == [] { return false; }
    SuffixSelf(host);
    if host in domains { return true; }
    var remainder := host;
    while true
      invariant remainder !in domains
      invariant forall d | d in domains :: SuffixMatch(host, d) <==> SuffixMatch(remainder, d)
      decreases |remainder|
    {
      forall d | d in domains ensures SuffixMatch(remainder, d) <==>
          (FindChar(remainder, '.').Some? && SuffixMatch(remainder[FindChar(remainder, '.').value + 1..], d)) {
        SuffixStep(remainder, d);
      }
      match FindChar(remainder, '.') {
        case None => return false;
        case Some(i) =>
          remainder := remainder[i + 1..];
          SuffixSelf(remainder);
          if remainder in domains { return true; }
      }
    }
  }

  lemma SuffixSelf(host: Bytes)
    ensures SuffixMatch(host, host)
  {
  }

  /** A listed domain lists all its subdomains. */
  lemma ListedSubdomains(host: Bytes, parent: Bytes, domains: set<Bytes>)
    requires Listed(parent, domains) && SuffixMatch(host, parent)
    ensures Listed(host, domains)
  {
    var d :| d in domains && SuffixMatch(parent, d);
    SuffixTransitive(host, parent, d);
  }

  /** The value at the longest key that is a suffix of `host`. */
  function LongestMatch<V>(host: Bytes, m: map<Bytes, V>): Option<V>
  {
    var ks := MatchingKeys(host, m.Keys);
    MatchingKeysSpec(host, m.Keys);
    if ks == [] then None else assert ks[0] in ks; Some(m[ks[0]])
  }

  /** What the lookup finds, in terms of suffixes alone. */
  lemma LongestMatchSpec<V>(host: Bytes, m: map<Bytes, V>)
    ensures LongestMatch(host, m).None? <==> forall k | k in m :: !SuffixMatch(host, k)
    ensures forall k | k in m && SuffixMatch(host, k)
                       && (forall k' | k' in m && SuffixMatch(host, k') :: |k'| <= |k|) ::
              LongestMatch(host, m) == Some(m[k])
  {
    hide SuffixMatch, MatchingKeys;
    MatchingKeysSpec(host, m.Keys);
    var ks := MatchingKeys(host, m.Keys);
    forall k | k in m && SuffixMatch(host, k) && (forall k' | k' in m && SuffixMatch(host, k') :: |k'| <= |k|)
      ensures LongestMatch(host, m) == Some(m[k])
    {
      assert k in ks;
      assert ks[0] in ks;
      var i :| 0 <= i < |ks| && ks[i] == k;
      assert i == 0;
    }
    if ks != [] { assert ks[0] in ks; }
  }

  lemma {:induction false} LongestMatchStep<V>(host: Bytes, m: map<Bytes, V>)
    ensures LongestMatch(host, m) ==
            if host in m then Some(m[host])
            else match FindChar(host, '.') case None => None case Some(i) => LongestMatch(host[i + 1..], m)
  {
    hide MatchingKeys, FindChar, SuffixMatch;
    MatchingKeysStep(host, m.Keys);
  }

  /** The consent override walk: exact key first, then each parent domain, then the default. */
  method LookupOverride<V>(host: Bytes, overrides: map<Bytes, V>, default: V) returns (level: V)
    ensures level == match LongestMatch(host, overrides) case Some(v) => v case None => default
  {
    hide LongestMatch, FindChar;
    LongestMatchStep(host, overrides);
    if host in overrides { return overrides[host]; }
    var remainder := host;
    while true
      invariant remainder !in overrides
      invariant LongestMatch(remainder, overrides) == LongestMatch(host, overrides)
      decreases |remainder|
    {
      LongestMatchStep(remainder, overrides);
      match FindChar(remainder, '.') {
        case None => return default;
        case Some(i) =>
          remainder := remainder[i + 1..];
          LongestMatchStep(remainder, overrides);
          if remainder in overrides { return overrides[remainder]; }
      }
    }
  }

  /** The cosmetic selector lists that apply to `host`, most specific domain first. */
  function AllMatches<V>(host: Bytes, m: map<Bytes, V>): seq<V>
    decreases |host|
  {
    (if host in m then [m[host]] else [])
    + match FindChar(host, '.') case None => [] case Some(i) => AllMatches(host[i + 1..], m)
  }

  lemma {:induction false} AllMatchesStep<V>(host: Bytes, m: map<Bytes, V>)
    ensures AllMatches(host, m) ==
            (if host in m then [m[host]] else [])
            + match FindChar(host, '.') case None => [] case Some(i) => AllMatches(host[i + 1..], m)
  {
    hide FindChar;
  }

  /** The cosmetic selector walk. */
  method CosmeticWalk<V>(host: Bytes, m: map<Bytes, V>) returns (r: seq<V>)
    ensures r == AllMatches(host, m)
  {
    hide AllMatches, FindChar;
    r := [];
    var remainder := host;
    while true
      invariant r + AllMatches(remainder, m) == AllMatches(host, m)
      decreases |remainder|
    {
      AllMatchesStep(remainder, m);
      if remainder in m {
        r := r + [m[remainder]];
      }
      match FindChar(remainder, '.') {
        case None => return;
        case Some(i) => remainder := remainder[i + 1..];
      }
    }
  }

  lemma {:induction false} AllMatchesAreKeys<V>(host: Bytes, m: map<Bytes, V>)
    ensures |AllMatches(host, m)| == |MatchingKeys(host, m.Keys)|
    ensures forall i | 0 <= i < |MatchingKeys(host, m.Keys)| ::
              MatchingKeys(host, m.Keys)[i] in m && AllMatches(host, m)[i] == m[MatchingKeys(host, m.Keys)[i]]
    decreases |host|
  {
    hide AllMatches, MatchingKeys;
    AllMatchesStep(host, m);
    MatchingKeysStep(host, m.Keys);
    match FindChar(host, '.')
    case None =>
    case Some(i) => AllMatchesAreKeys(host[i + 1..], m);
  }

  /** The collected lists are those of exactly the matching domains, most specific first. */
  lemma AllMatchesSpec<V>(host: Bytes, m: map<Bytes, V>) returns (keys: seq<Bytes>)
    ensures forall k :: k in keys <==> k in m && SuffixMatch(host, k)
    ensures forall i, j | 0 <= i < j < |keys| :: |keys[i]| > |keys[j]|
    ensures |AllMatches(host, m)| == |keys|
    ensures forall i | 0 <= i < |keys| :: keys[i] in m && AllMatches(host, m)[i] == m[keys[i]]
  {
    hide SuffixMatch, MatchingKeys, AllMatches;
    MatchingKeysSpec(host, m.Keys);
    keys := MatchingKeys(host, m.Keys);
    AllMatchesAreKeys(host, m);
  }
}
