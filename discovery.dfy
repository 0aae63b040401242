/**
 * Candidate discovery of convert_pwc_to_arxiv.py (`find_paperswithcode_urls`):
 * the two `re.findall` scans, the stripping of trailing punctuation, and the
 * de-duplication through a `set`.
 */
module Discovery {
  import opened Wrappers
  import opened Seqs
  import opened PyStr
  import opened Hosts

  /** The hosts of the two patterns, in the order the patterns are scanned. */
  const PatternHosts: seq<string> := [Host, CsHost]

  function HttpsPrefix(host: string): string {
    "https://" + host + PaperPath
  }

  function HttpPrefix(host: string): string {
    "http://" + host + PaperPath
  }

  /** The class `[^\s\)\]\>\"\'\;]` that ends a URL in the patterns. */
  predicate IsTokenChar(c: char) {
    !IsSpace(c) && c != ')' && c != ']' && c != '>' && c != '"' && c != '\'' && c != ';'
  }

  /** The class `[\"\';\)\]\>\,\.\!]` whose trailing run is removed from a match. */
  predicate IsStripChar(c: char) {
    c == '"' || c == '\'' || c == ';' || c == ')' || c == ']' || c == '>' || c == ',' || c == '.' || c == '!'
  }

  /** Length of the longest run of token characters starting at `i`: what the
      greedy `[...]+` consumes. */
  function TokenLength(s: string, i: nat): (n: nat)
    requires i <= |s|
    ensures i + n <= |s|
    ensures forall k :: i <= k < i + n ==> IsTokenChar(s[k])
    ensures i + n < |s| ==> !IsTokenChar(s[i + n])
    decreases |s| - i
  {
    if i == |s| || !IsTokenChar(s[i]) then 0 else 1 + TokenLength(s, i + 1)
  }

  /** The pattern `https?://<host>/paper/[...]+` tried at index `i`, where `https` and
      `http` are its two literal prefixes: the end of the match, if there is one.
      `https?` tries the `s` first; when that fails, `http` followed by `://` cannot
      match where an `s` stands, so the two prefixes are simply tried in turn. */
  function MatchAt(s: string, i: nat, https: string, http: string): (r: Option<nat>)
    requires i <= |s|
    ensures r.Some? ==> i < r.value <= |s|
  {
    var p := if OccursAt(s, https, i) then https else http;
    if OccursAt(s, p, i) && TokenLength(s, i + |p|) > 0 then Some(i + |p| + TokenLength(s, i + |p|))
    else None
  }

  /** `re.findall` of that pattern on `s[from..]`: left to right, each search
      resuming where the previous match ended. */
  function FindAll(s: string, https: string, http: string, from: nat): seq<string>
    requires from <= |s|
    decreases |s| - from
  {
    if from == |s| then []
    else match MatchAt(s, from, https, http)
      case Some(e) => [s[from..e]] + FindAll(s, https, http, e)
      case None => FindAll(s, https, http, from + 1)
  }

  /** `re.findall` of the pattern of `host`. */
  function FindAllOf(s: string, host: string): seq<string> {
    FindAll(s, HttpsPrefix(host), HttpPrefix(host), 0)
  }

  /** `re.sub(r'[\"\';\)\]\>\,\.\!]+$', '', u)`: the whole trailing run of strip
      characters goes, and nothing else. */
  function StripTrailing(u: string): (r: string)
    ensures |r| <= |u| && r == u[..|r|]
    ensures forall k :: |r| <= k < |u| ==> IsStripChar(u[k])
    ensures |r| > 0 ==> !IsStripChar(r[|r| - 1])
    decreases |u|
  {
    if |u| > 0 && IsStripChar(u[|u| - 1]) then StripTrailing(u[..|u| - 1]) else u
  }

  /** The inner loop: every match of one pattern, stripped, in order. */
  function Cleaned(found: seq<string>): (r: seq<string>) {
    seq(|found|, k requires 0 <= k < |found| => StripTrailing(found[k]))
  }

  /** The list `urls` after the patterns of `hosts` have been scanned in turn. */
  function Scan(content: string, hosts: seq<string>): seq<string>
    decreases |hosts|
  {
    if |hosts| == 0 then []
    else Scan(content, hosts[..|hosts| - 1]) + Cleaned(FindAllOf(content, hosts[|hosts| - 1]))
  }

  /** Every stripped match of both patterns, before de-duplication. */
  function Discovered(content: string): seq<string> {
    Scan(content, PatternHosts)
  }

  /** `find_paperswithcode_urls`. `list(set(urls))` lists the distinct URLs in an
      order Python leaves unspecified; the element picked by `:|` stands for it,
      so the contract holds whatever that order is. */
  method FindPapersWithCodeUrls(content: string) returns (urls: seq<string>)
    ensures NoDuplicates(urls)
    ensures forall u :: u in urls <==> u in Discovered(content)
  {
    var all: seq<string> := [];
    for p := 0 to |PatternHosts|
      invariant all == Scan(content, PatternHosts[..p])
    {
      var foundUrls := FindAllOf(content, PatternHosts[p]);
      var cleanedUrls: seq<string> := [];
      for k := 0 to |foundUrls|
        invariant cleanedUrls == Cleaned(foundUrls[..k])
      {
        CleanedStep(foundUrls, k);
        var url := StripTrailing(foundUrls[k]);
        cleanedUrls := cleanedUrls + [url];
      }
      assert foundUrls[..|foundUrls|] == foundUrls;
      ScanStep(content, PatternHosts, p);
      all := all + cleanedUrls;
    }
    assert PatternHosts[..|PatternHosts|] == PatternHosts;
    var remaining := set u | u in all;
    urls := [];
    while remaining != {}
      invariant NoDuplicates(urls)
      invariant forall u :: u in urls ==> u in all && u !in remaining
      invariant forall u :: u in remaining ==> u in all
      invariant forall u :: u in all ==> u in urls || u in remaining
      decreases remaining
    {
      var u :| u in remaining;
      urls := urls + [u];
      remaining := remaining - {u};
    }
  }

  /** One more match cleaned by the inner loop. */
  lemma {:induction false} CleanedStep(found: seq<string>, k: nat)
    requires k < |found|
    ensures Cleaned(found[..k + 1]) == Cleaned(found[..k]) + [StripTrailing(found[k])]
  {
  }

  /** One more pattern scanned by the outer loop. */
  lemma {:induction false} ScanStep(content: string, hosts: seq<string>, p: nat)
    requires p < |hosts|
    ensures Scan(content, hosts[..p + 1]) == Scan(content, hosts[..p]) + Cleaned(FindAllOf(content, hosts[p]))
  {
    assert hosts[..p + 1][..p] == hosts[..p];
  }

  // ---------------------------------------------------------------- shape

  /** `u` is the pattern prefix `p` followed by at least one token character. */
  predicate PrefixThenTokens(u: string, p: string) {
    |p| < |u| && u[..|p|] == p && forall k :: |p| <= k < |u| ==> IsTokenChar(u[k])
  }

  /** What a match of the pattern with the prefixes `https` and `http` looks like. */
  predicate IsMatchOf(m: string, https: string, http: string) {
    PrefixThenTokens(m, https) || PrefixThenTokens(m, http)
  }

  /** What a discovered URL looks like: one of the four prefixes, token characters
      only (no whitespace and none of `)` `]` `>` `"` `'` `;`), and no trailing
      strip character, so in particular no final `,` `.` or `!`. */
  predicate IsCandidate(u: string) {
    && (StartsWith(u, HttpsPrefix(Host)) || StartsWith(u, HttpPrefix(Host))
        || StartsWith(u, HttpsPrefix(CsHost)) || StartsWith(u, HttpPrefix(CsHost)))
    && (forall k :: 0 <= k < |u| ==> IsTokenChar(u[k]))
    && |u| > 0 && !IsStripChar(u[|u| - 1])
  }

  /** `m` occurs in `s` at a place where the text ends right after it or goes on
      with a character that is no token character: a greedy match. */
  ghost predicate OccursMaximally(s: string, m: string) {
    exists j: nat | j <= |s| :: OccursAt(s, m, j) && (j + |m| == |s| || !IsTokenChar(s[j + |m|]))
  }

  /** Every match of `re.findall` is a match of the pattern and a substring of the
      text, and it is greedy: the text does not go on with a token character. */
  lemma {:induction false} FindAllMatches(s: string, https: string, http: string, from: nat, m: string)
    requires from <= |s| && m in FindAll(s, https, http, from)
    ensures IsMatchOf(m, https, http) && Contains(s, m)
    ensures OccursMaximally(s, m)
    decreases |s| - from
  {
    match MatchAt(s, from, https, http)
    case Some(e) =>
      if m == s[from..e] {
        MatchShape(s, from, https, http);
        assert from + |m| == e;
      } else {
        FindAllMatches(s, https, http, e, m);
      }
    case None =>
      FindAllMatches(s, https, http, from + 1, m);
  }

  /** A single match is a prefix of the pattern followed by token characters, found in
      the text, and ends where the run of token characters ends. */
  lemma {:induction false} MatchShape(s: string, i: nat, https: string, http: string)
    requires i <= |s| && MatchAt(s, i, https, http).Some?
    ensures var m := s[i..MatchAt(s, i, https, http).value];
      IsMatchOf(m, https, http) && OccursAt(s, m, i)
    ensures var e := MatchAt(s, i, https, http).value; e == |s| || !IsTokenChar(s[e])
  {
    var p := if OccursAt(s, https, i) then https else http;
    var n := TokenLength(s, i + |p|);
    PrefixThenRun(s, i, p, n);
  }

  /** The prefix `p` at `i` followed by a non-empty run of token characters. */
  lemma {:induction false} PrefixThenRun(s: string, i: nat, p: string, n: nat)
    requires OccursAt(s, p, i) && 0 < n && i + |p| + n <= |s|
    requires forall k :: i + |p| <= k < i + |p| + n ==> IsTokenChar(s[k])
    ensures var m := s[i..i + |p| + n]; PrefixThenTokens(m, p) && OccursAt(s, m, i)
  {
    var m := s[i..i + |p| + n];
    assert m[..|p|] == s[i..i + |p|];
    forall k | |p| <= k < |m| ensures IsTokenChar(m[k]) {
      assert m[k] == s[i + k];
    }
  }

  /** Every character of `s` is a token character. */
  predicate AllTokens(s: string) {
    forall k :: 0 <= k < |s| ==> IsTokenChar(s[k])
  }

  lemma {:induction false} AllTokensConcat(a: string, b: string)
    requires AllTokens(a) && AllTokens(b)
    ensures AllTokens(a + b)
  {
    forall k | 0 <= k < |a + b| ensures IsTokenChar((a + b)[k]) {
      if k >= |a| {
        assert (a + b)[k] == b[k - |a|];
      }
    }
  }

  /** The characters the fixed prefixes are written with. */
  predicate IsPlainUrlChar(c: char) {
    'a' <= c <= 'z' || c == '.' || c == ':' || c == '/'
  }

  /** A string written with those characters only is made of token characters. */
  lemma {:induction false} PlainTokens(s: string)
    requires forall k :: 0 <= k < |s| ==> IsPlainUrlChar(s[k])
    ensures AllTokens(s)
  {
  }

  lemma {:induction false} HttpsTokens()
    ensures AllTokens("https://")
  {
    PlainTokens("https://");
  }

  lemma {:induction false} HttpTokens()
    ensures AllTokens("http://")
  {
    PlainTokens("http://");
  }

  lemma {:induction false} HostTokens()
    ensures AllTokens(Host)
  {
    assert Host == "paperswith" + "code.com";
    PlainTokens("paperswith");
    PlainTokens("code.com");
    AllTokensConcat("paperswith", "code.com");
  }

  lemma {:induction false} CsHostTokens()
    ensures AllTokens(CsHost)
  {
    CsHostIsSubdomain();
    PlainTokens("cs.");
    HostTokens();
    AllTokensConcat("cs.", Host);
  }

  lemma {:induction false} PathTokens()
    ensures AllTokens(PaperPath) && PaperPath[|PaperPath| - 1] == '/'
  {
    PlainTokens(PaperPath);
  }

  /** The sibling host is the main host behind `cs.`. */
  lemma {:induction false} CsHostIsSubdomain()
    ensures CsHost == "cs." + Host
  {
  }

  /** The characters of the four prefixes are token characters, and the last one
      is `/`, which is no strip character: stripping never reaches into a prefix. */
  lemma {:induction false} PrefixCharacters(p: string)
    requires p in {HttpsPrefix(Host), HttpPrefix(Host), HttpsPrefix(CsHost), HttpPrefix(CsHost)}
    ensures forall k :: 0 <= k < |p| ==> IsTokenChar(p[k])
    ensures |p| > 0 && p[|p| - 1] == '/'
  {
    var scheme := if p == HttpsPrefix(Host) || p == HttpsPrefix(CsHost) then "https://" else "http://";
    var host := if p == HttpsPrefix(Host) || p == HttpPrefix(Host) then Host else CsHost;
    assert p == scheme + host + PaperPath;
    HttpsTokens();
    HttpTokens();
    HostTokens();
    CsHostTokens();
    PathTokens();
    AllTokensConcat(scheme, host);
    AllTokensConcat(scheme + host, PaperPath);
    assert p[|p| - 1] == PaperPath[|PaperPath| - 1];
  }

  /** Stripping a match keeps its prefix; the result has the candidate shape. */
  lemma {:induction false} StrippedMatch(m: string, p: string)
    requires p in {HttpsPrefix(Host), HttpPrefix(Host), HttpsPrefix(CsHost), HttpPrefix(CsHost)}
    requires PrefixThenTokens(m, p)
    ensures IsCandidate(StripTrailing(m))
  {
    PrefixCharacters(p);
    var r := StripTrailing(m);
    assert m[|p| - 1] == '/';
    assert |r| >= |p|;
    assert r[..|p|] == m[..|p|];
    forall k | 0 <= k < |r| ensures IsTokenChar(r[k]) {
      if k < |p| {
        assert r[k] == p[k];
      } else {
        assert r[k] == m[k];
      }
    }
  }

  /** A prefix of a substring is a substring. */
  lemma {:induction false} StrippedOccurs(content: string, m: string)
    requires Contains(content, m)
    ensures Contains(content, StripTrailing(m))
  {
    var u := StripTrailing(m);
    var j: nat :| j <= |content| && OccursAt(content, m, j);
    assert content[j..j + |u|] == content[j..j + |m|][..|u|];
    assert OccursAt(content, u, j);
  }

  /** A stripped match of either pattern has the candidate shape and occurs in the text. */
  lemma {:induction false} CleanedShape(content: string, host: string, u: string)
    requires host == Host || host == CsHost
    requires u in Cleaned(FindAllOf(content, host))
    ensures IsCandidate(u) && Contains(content, u)
  {
    var found := FindAllOf(content, host);
    var k :| 0 <= k < |found| && u == StripTrailing(found[k]);
    FindAllMatches(content, HttpsPrefix(host), HttpPrefix(host), 0, found[k]);
    if PrefixThenTokens(found[k], HttpsPrefix(host)) {
      StrippedMatch(found[k], HttpsPrefix(host));
    } else {
      StrippedMatch(found[k], HttpPrefix(host));
    }
    StrippedOccurs(content, found[k]);
  }

  /** Every element of a scan is a stripped match of one of the scanned hosts. */
  lemma {:induction false} ScanShape(content: string, hosts: seq<string>, u: string)
    requires forall h :: h in hosts ==> h == Host || h == CsHost
    requires u in Scan(content, hosts)
    ensures IsCandidate(u) && Contains(content, u)
    decreases |hosts|
  {
    var init := hosts[..|hosts| - 1];
    if u in Scan(content, init) {
      assert forall h :: h in init ==> h in hosts;
      ScanShape(content, init, u);
    } else {
      assert hosts[|hosts| - 1] in hosts;
      CleanedShape(content, hosts[|hosts| - 1], u);
    }
  }

  /** Every discovered URL has the candidate shape and occurs in the text. */
  lemma {:induction false} DiscoveredShape(content: string, u: string)
    requires u in Discovered(content)
    ensures IsCandidate(u) && Contains(content, u)
  {
    ScanShape(content, PatternHosts, u);
  }

  // ------------------------------------------------------- empty discovery

  /** Each prefix is a scheme, possibly a `cs.`, then `paperswithcode.com/paper/`. */
  lemma {:induction false} PrefixesEndWithPath()
    ensures HttpsPrefix(Host) == "https://" + (Host + PaperPath)
    ensures HttpPrefix(Host) == "http://" + (Host + PaperPath)
    ensures HttpsPrefix(CsHost) == "https://cs." + (Host + PaperPath)
    ensures HttpPrefix(CsHost) == "http://cs." + (Host + PaperPath)
  {
    CsHostIsSubdomain();
    assert "https://" + "cs." == "https://cs.";
    assert "http://" + "cs." == "http://cs.";
  }

  /** Where `paperswithcode.com/paper/` does not occur, no pattern matches. */
  lemma {:induction false} FindAllEmpty(s: string, host: string, from: nat)
    requires host == Host || host == CsHost
    requires from <= |s| && !Contains(s, Host + PaperPath)
    ensures FindAll(s, HttpsPrefix(host), HttpPrefix(host), from) == []
    decreases |s| - from
  {
    if from < |s| {
      PrefixesEndWithPath();
      if OccursAt(s, HttpsPrefix(host), from) {
        OccursOfSuffix(s, if host == Host then "https://" else "https://cs.", Host + PaperPath, from);
      }
      if OccursAt(s, HttpPrefix(host), from) {
        OccursOfSuffix(s, if host == Host then "http://" else "http://cs.", Host + PaperPath, from);
      }
      FindAllEmpty(s, host, from + 1);
    }
  }

  /** Text without `paperswithcode.com/paper/` (text already converted, say)
      yields no candidate. */
  lemma {:induction false} NoCandidatesWithoutPath(content: string)
    requires !Contains(content, Host + PaperPath)
    ensures Discovered(content) == []
  {
    FindAllEmpty(content, Host, 0);
    FindAllEmpty(content, CsHost, 0);
    assert PatternHosts[..1] == [Host];
    assert PatternHosts[..1][..0] == [];
    assert Cleaned([]) == [];
    assert Scan(content, [Host]) == Scan(content, []) + Cleaned(FindAllOf(content, Host));
    assert Scan(content, PatternHosts) == Scan(content, [Host]) + Cleaned(FindAllOf(content, CsHost));
  }

  // ---------------------------------------------------------------- completeness

  /** Position `i` lies strictly inside a match that `re.findall` from `from`
      returned, one that started at an earlier position `k`. */
  ghost predicate InsideFoundMatch(s: string, https: string, http: string, from: nat, i: nat) {
    exists k: nat :: from <= k < i <= |s| && MatchAt(s, k, https, http).Some? && i < MatchAt(s, k, https, http).value
      && s[k..MatchAt(s, k, https, http).value] in FindAll(s, https, http, from)
  }

  /** Wherever the pattern matches at a position `i` at or after `from`, `re.findall`
      from `from` returns that match, unless `i` lies inside an earlier match it
      returned. */
  lemma {:induction false} FindAllComplete(s: string, https: string, http: string, from: nat, i: nat)
    requires from <= i <= |s| && MatchAt(s, i, https, http).Some?
    ensures s[i..MatchAt(s, i, https, http).value] in FindAll(s, https, http, from)
      || InsideFoundMatch(s, https, http, from, i)
    decreases |s| - from
  {
    match MatchAt(s, from, https, http)
    case Some(e) =>
      var rest := FindAll(s, https, http, e);
      assert FindAll(s, https, http, from) == [s[from..e]] + rest;
      if i == from {
      } else if i < e {
        assert s[from..e] in FindAll(s, https, http, from);
        assert InsideFoundMatch(s, https, http, from, i);
      } else {
        FindAllComplete(s, https, http, e, i);
        if InsideFoundMatch(s, https, http, e, i) {
          var k: nat :| e <= k < i <= |s| && MatchAt(s, k, https, http).Some? && i < MatchAt(s, k, https, http).value
            && s[k..MatchAt(s, k, https, http).value] in rest;
          assert InsideFoundMatch(s, https, http, from, i);
        }
      }
    case None =>
      assert i != from;
      assert FindAll(s, https, http, from) == FindAll(s, https, http, from + 1);
      FindAllComplete(s, https, http, from + 1, i);
  }

  /** A match that does not lie inside an earlier match is returned by `re.findall`. */
  lemma {:induction false} FoundAt(s: string, https: string, http: string, i: nat, e: nat)
    requires i <= |s| && MatchAt(s, i, https, http) == Some(e)
    requires !InsideFoundMatch(s, https, http, 0, i)
    ensures s[i..e] in FindAll(s, https, http, 0)
  {
    FindAllComplete(s, https, http, 0, i);
  }

  /** At a position where one of the two prefixes of a host's pattern occurs, followed
      by at least one token character, the pattern matches, and the match runs to the
      end of the token characters. */
  lemma {:induction false} MatchAtPrefix(s: string, host: string, p: string, i: nat)
    requires host == Host || host == CsHost
    requires p == HttpsPrefix(host) || p == HttpPrefix(host)
    requires OccursAt(s, p, i) && TokenLength(s, i + |p|) > 0
    ensures MatchAt(s, i, HttpsPrefix(host), HttpPrefix(host)) == Some(i + |p| + TokenLength(s, i + |p|))
  {
    if p == HttpPrefix(host) {
      assert s[i + 4] == p[4] == ':';
      assert HttpsPrefix(host)[4] == 's';
    }
  }

  /** The stripped matches of a host's pattern are among the discovered URLs. */
  lemma {:induction false} CleanedDiscovered(content: string, host: string, m: string)
    requires host == Host || host == CsHost
    requires m in FindAllOf(content, host)
    ensures StripTrailing(m) in Discovered(content)
  {
    var found := FindAllOf(content, host);
    var k :| 0 <= k < |found| && found[k] == m;
    assert Cleaned(found)[k] == StripTrailing(m);
    assert PatternHosts[..1] == [Host];
    assert PatternHosts[..1][..0] == [];
    assert Scan(content, [Host]) == Scan(content, []) + Cleaned(FindAllOf(content, Host));
    assert Scan(content, PatternHosts) == Scan(content, [Host]) + Cleaned(FindAllOf(content, CsHost));
  }

  /** Discovery finds every link: wherever `http://` or `https://`, then
      `paperswithcode.com` or `cs.paperswithcode.com`, then `/paper/` is followed by
      a token character, the greedy match starting there, stripped, is discovered,
      unless that place lies inside an earlier match of the same pattern. */
  lemma {:induction false} DiscoveryComplete(content: string, host: string, p: string, i: nat)
    requires host == Host || host == CsHost
    requires p == HttpsPrefix(host) || p == HttpPrefix(host)
    requires OccursAt(content, p, i) && TokenLength(content, i + |p|) > 0
    requires !InsideFoundMatch(content, HttpsPrefix(host), HttpPrefix(host), 0, i)
    ensures StripTrailing(content[i..i + |p| + TokenLength(content, i + |p|)]) in Discovered(content)
  {
    var e := i + |p| + TokenLength(content, i + |p|);
    assert MatchAt(content, i, HttpsPrefix(host), HttpPrefix(host)) == Some(e) by {
      MatchAtPrefix(content, host, p, i);
    }
    DiscoveredAt(content, host, i, e);
  }

  /** A match of a host's pattern at a place not inside an earlier match is
      discovered, stripped. */
  lemma {:induction false} DiscoveredAt(content: string, host: string, i: nat, e: nat)
    requires host == Host || host == CsHost
    requires i <= |content| && MatchAt(content, i, HttpsPrefix(host), HttpPrefix(host)) == Some(e)
    requires !InsideFoundMatch(content, HttpsPrefix(host), HttpPrefix(host), 0, i)
    ensures StripTrailing(content[i..e]) in Discovered(content)
  {
    FoundAt(content, HttpsPrefix(host), HttpPrefix(host), i, e);
    CleanedDiscovered(content, host, content[i..e]);
  }

  // ---------------------------------------------------------------- no overlap

  /** No match that starts at or after `from` and before `i` runs past `i`. */
  ghost predicate NothingEarlierCrosses(s: string, https: string, http: string, from: nat, i: nat) {
    forall k: nat :: from <= k < i <= |s| && MatchAt(s, k, https, http).Some? ==> MatchAt(s, k, https, http).value <= i
  }

  /** With prefixes made of token characters, a match consists of token characters only. */
  lemma {:induction false} MatchTokens(s: string, i: nat, https: string, http: string)
    requires AllTokens(https) && AllTokens(http)
    requires i <= |s| && MatchAt(s, i, https, http).Some?
    ensures forall q :: i <= q < MatchAt(s, i, https, http).value ==> IsTokenChar(s[q])
  {
    var p := if OccursAt(s, https, i) then https else http;
    forall q | i <= q < MatchAt(s, i, https, http).value ensures IsTokenChar(s[q]) {
      if q < i + |p| {
        assert s[q] == s[i..i + |p|][q - i];
      }
    }
  }

  /** A match that starts inside another match ends no later than it: both end where
      the run of token characters ends. */
  lemma {:induction false} InnerMatchEnds(s: string, https: string, http: string, j: nat, k: nat)
    requires AllTokens(https) && AllTokens(http)
    requires j < k <= |s| && MatchAt(s, j, https, http).Some? && k < MatchAt(s, j, https, http).value
    requires MatchAt(s, k, https, http).Some?
    ensures MatchAt(s, k, https, http).value <= MatchAt(s, j, https, http).value
  {
    MatchShape(s, j, https, http);
    MatchTokens(s, k, https, http);
  }

  /** `re.findall` returns nothing but non-overlapping matches: each element of the
      result is the match at some position `i`, and no match that started earlier
      (at or after `from`) runs past `i`, so in particular `i` is not inside an
      earlier returned match. With `FindAllComplete`, this fixes the result. */
  lemma {:induction false} FindAllSound(s: string, https: string, http: string, from: nat, m: string)
    requires AllTokens(https) && AllTokens(http)
    requires from <= |s| && m in FindAll(s, https, http, from)
    ensures
      exists i: nat :: from <= i <= |s| && MatchAt(s, i, https, http).Some?
        && m == s[i..MatchAt(s, i, https, http).value]
        && NothingEarlierCrosses(s, https, http, from, i)
        && !InsideFoundMatch(s, https, http, from, i)
    decreases |s| - from
  {
    if from == |s| {
      assert false;
    }
    match MatchAt(s, from, https, http)
    case Some(e) =>
      if m == s[from..e] {
        assert NothingEarlierCrosses(s, https, http, from, from);
      } else {
        assert m in FindAll(s, https, http, e);
        FindAllSound(s, https, http, e, m);
        var i: nat :| e <= i <= |s| && MatchAt(s, i, https, http).Some?
          && m == s[i..MatchAt(s, i, https, http).value]
          && NothingEarlierCrosses(s, https, http, e, i)
          && !InsideFoundMatch(s, https, http, e, i);
        CrossesAfterMatch(s, https, http, from, e, i);
      }
    case None =>
      FindAllSound(s, https, http, from + 1, m);
      var i: nat :| from + 1 <= i <= |s| && MatchAt(s, i, https, http).Some?
        && m == s[i..MatchAt(s, i, https, http).value]
        && NothingEarlierCrosses(s, https, http, from + 1, i)
        && !InsideFoundMatch(s, https, http, from + 1, i);
      CrossesAfterNoMatch(s, https, http, from, i);
  }

  /** Past the match at `from`, which ends at `e`: no match that starts at or after
      `from` runs past a position `i >= e` that none starting at or after `e` runs past. */
  lemma {:induction false} CrossesAfterMatch(s: string, https: string, http: string, from: nat, e: nat, i: nat)
    requires AllTokens(https) && AllTokens(http)
    requires from < |s| && MatchAt(s, from, https, http) == Some(e) && e <= i <= |s|
    requires NothingEarlierCrosses(s, https, http, e, i)
    ensures NothingEarlierCrosses(s, https, http, from, i)
    ensures !InsideFoundMatch(s, https, http, from, i)
  {
    forall k: nat | from <= k < i <= |s| && MatchAt(s, k, https, http).Some?
      ensures MatchAt(s, k, https, http).value <= i
    {
      if from < k < e {
        InnerMatchEnds(s, https, http, from, k);
      }
    }
  }

  /** Past a position `from` where nothing matches, the same holds from `from + 1`. */
  lemma {:induction false} CrossesAfterNoMatch(s: string, https: string, http: string, from: nat, i: nat)
    requires from < |s| && MatchAt(s, from, https, http).None? && from + 1 <= i <= |s|
    requires NothingEarlierCrosses(s, https, http, from + 1, i)
    ensures NothingEarlierCrosses(s, https, http, from, i)
    ensures !InsideFoundMatch(s, https, http, from, i)
  {
  }

  /** The matches of a host's pattern are non-overlapping: each is the match at a
      position that no earlier match runs past. */
  lemma {:induction false} FindAllOfNonOverlapping(content: string, host: string, m: string)
    requires host == Host || host == CsHost
    requires m in FindAllOf(content, host)
    ensures var https, http := HttpsPrefix(host), HttpPrefix(host);
      exists i: nat :: i <= |content| && MatchAt(content, i, https, http).Some?
        && m == content[i..MatchAt(content, i, https, http).value]
        && NothingEarlierCrosses(content, https, http, 0, i)
        && !InsideFoundMatch(content, https, http, 0, i)
  {
    PrefixCharacters(HttpsPrefix(host));
    PrefixCharacters(HttpPrefix(host));
    FindAllSound(content, HttpsPrefix(host), HttpPrefix(host), 0, m);
  }

  /** `DiscoveryComplete` with a hypothesis on the text alone: when no match of the
      pattern that starts before `i` runs past `i`, the link at `i` is discovered. */
  lemma {:induction false} DiscoveryCompleteOnText(content: string, host: string, p: string, i: nat)
    requires host == Host || host == CsHost
    requires p == HttpsPrefix(host) || p == HttpPrefix(host)
    requires OccursAt(content, p, i) && TokenLength(content, i + |p|) > 0
    requires NothingEarlierCrosses(content, HttpsPrefix(host), HttpPrefix(host), 0, i)
    ensures StripTrailing(content[i..i + |p| + TokenLength(content, i + |p|)]) in Discovered(content)
  {
    DiscoveryComplete(content, host, p, i);
  }

  /** Skipping positions where the pattern does not match. */
  lemma {:induction false} FindAllSkip(s: string, https: string, http: string, from: nat, to: nat)
    requires from <= to <= |s|
    requires forall i :: from <= i < to ==> MatchAt(s, i, https, http).None?
    ensures FindAll(s, https, http, from) == FindAll(s, https, http, to)
    decreases |s| - from
  {
    if from < to {
      FindAllSkip(s, https, http, from + 1, to);
    }
  }
}
