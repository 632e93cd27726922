/**
 * The field extractors of `pdc_task1/utils.py`: the timestamp passthrough, the URL
 * shortener and the user-agent parser. Each regular expression is written as an
 * explicit scan that returns the span of its capture group, the way a regex match
 * object reports `start(1)` and `end(1)`; `None` is "no match".
 */
module Utils {
  import opened Wrappers
  import opened Text

  /** What `convert_timestamp` returns: the epoch seconds themselves, or a formatted local time. */
  datatype TimeValue = Unix(seconds: int) | Local(text: string)

  /**
   * `convert_timestamp(timestamp, keep_unix)`. The local-time formatting depends on the
   * host's clock settings, so it is the parameter `localTime`.
   */
  function ConvertTimestamp(timestamp: int, keepUnix: bool, localTime: int -> string): (r: TimeValue)
    ensures r.Unix? <==> keepUnix
    ensures keepUnix ==> r.seconds == timestamp
    ensures !keepUnix ==> r.text == localTime(timestamp)
  {
    if keepUnix then Unix(timestamp) else Local(localTime(timestamp))
  }

  /** The half-open range [start, end) of a capture group in the searched string. */
  datatype Span = Span(start: nat, end: nat)

  predicate StartsWith(s: string, prefix: string) {
    |prefix| <= |s| && s[..|prefix|] == prefix
  }

  // ---------------------------------------------------------------------------
  // shorten_url: the pattern ^(?:https?://)?(?:www\.)?([^/]+)
  // ---------------------------------------------------------------------------

  /** Every text the two optional groups can consume together, longest first. */
  const UrlPrefixes: seq<string> := ["https://www.", "https://", "http://www.", "http://", "www.", ""]

  /** Length of the `https?://` group when it matches at the start of `url`, else 0. */
  function SchemeLength(url: string): (n: nat)
    ensures n <= |url|
  {
    if StartsWith(url, "https://") then 8 else if StartsWith(url, "http://") then 7 else 0
  }

  /** Length of the `www\.` group when it matches at `from`, else 0. */
  function WwwLength(url: string, from: nat): (n: nat)
    requires from <= |url|
    ensures from + n <= |url|
  {
    if StartsWith(url[from..], "www.") then 4 else 0
  }

  /** `[^/]+` can start at `p`. */
  predicate HostStartsAt(url: string, p: nat) {
    p < |url| && url[p] != '/'
  }

  /** Where the greedy `[^/]+` that starts at `p` stops: the first `/` at or after `p`. */
  function HostEnd(url: string, p: nat): (q: nat)
    requires p <= |url|
    ensures p <= q <= |url|
    ensures forall k :: p <= k < q ==> url[k] != '/'
    ensures q == |url| || url[q] == '/'
    decreases |url| - p
  {
    if p == |url| || url[p] == '/' then p else HostEnd(url, p + 1)
  }

  /**
   * The span of group 1 of the URL pattern. The optional groups are greedy, so the
   * matcher tries scheme and `www.` first and gives them up, in that order, only when
   * `[^/]+` cannot take a character after them.
   */
  function UrlSpan(url: string): (m: Option<Span>)
    ensures m.None? <==> url == [] || url[0] == '/'
    ensures m.Some? ==>
              && m.value.start < m.value.end <= |url|
              && url[..m.value.start] in UrlPrefixes
              && (forall k :: m.value.start <= k < m.value.end ==> url[k] != '/')
              && (m.value.end == |url| || url[m.value.end] == '/')
    ensures m.Some? ==>
              forall i :: 0 <= i < |UrlPrefixes| && StartsWith(url, UrlPrefixes[i]) && m.value.start < |UrlPrefixes[i]|
                ==> !HostStartsAt(url, |UrlPrefixes[i]|)
  {
    var k := SchemeLength(url);
    var p := k + WwwLength(url, k);
    UrlPrefixLengths(url);
    if HostStartsAt(url, p) then Some(Span(p, HostEnd(url, p)))
    else if HostStartsAt(url, k) then Some(Span(k, HostEnd(url, k)))
    else if HostStartsAt(url, 0) then Some(Span(0, HostEnd(url, 0)))
    else None
  }

  /** `a + b` starts `s` exactly when `a` does and `b` starts what follows it. */
  lemma StartsWithConcat(s: string, a: string, b: string)
    ensures StartsWith(s, a + b) <==> StartsWith(s, a) && StartsWith(s[|a|..], b)
  {
    if |a| + |b| <= |s| {
      assert s[..|a| + |b|] == s[..|a|] + s[|a|..][..|b|];
    }
    if StartsWith(s, a + b) {
      assert (a + b)[..|a|] == a && (a + b)[|a|..] == b;
    }
  }

  /** The prefixes `url` starts with are exactly the ones the scheme and `www.` lengths pick out. */
  lemma UrlPrefixLengths(url: string)
    ensures var k := SchemeLength(url); var p := k + WwwLength(url, k);
      && url[..p] in UrlPrefixes && url[..k] in UrlPrefixes
      && forall i :: 0 <= i < |UrlPrefixes| && StartsWith(url, UrlPrefixes[i]) ==>
           |UrlPrefixes[i]| in {p, k, 0}
  {
    var k := SchemeLength(url);
    var p := k + WwwLength(url, k);
    var https, http, www := UrlPrefixes[1], UrlPrefixes[3], UrlPrefixes[4];
    assert UrlPrefixes[0] == https + www && UrlPrefixes[2] == http + www;
    StartsWithConcat(url, https, www);
    StartsWithConcat(url, http, www);
    assert StartsWith(url, https) ==> url[4] == 's';
    assert StartsWith(url, http) ==> url[4] == ':' && url[0] == 'h';
    assert StartsWith(url, www) ==> url[0] == 'w';
    assert url[..k] == UrlPrefixes[if k == 8 then 1 else if k == 7 then 3 else 5];
    assert url[..p] == url[..k] + url[k..][..p - k];
    assert url[..p] == UrlPrefixes[if p == 12 then 0 else if p == 8 then 1 else if p == 11 then 2
                                   else if p == 7 then 3 else if p == 4 then 4 else 5];
  }

  /** `shorten_url(url)`: group 1 of the URL pattern, or `url` itself when it does not match. */
  function ShortenUrl(url: string): (r: string)
    ensures url == [] || url[0] == '/' ==> r == url
    ensures url != [] && url[0] != '/' ==> r != [] && '/' !in r
  {
    match UrlSpan(url)
    case Some(sp) => url[sp.start..sp.end]
    case None => url
  }

  // ---------------------------------------------------------------------------
  // extract_browser_and_os, browser: the pattern ([^\s]+)/[\d.]+
  // ---------------------------------------------------------------------------

  /** A character of the class `[\d.]`. */
  predicate IsVersionChar(c: char) {
    IsDigit(c) || c == '.'
  }

  /** `/[\d.]+` can match at `e`. */
  predicate VersionSlashAt(s: string, e: nat) {
    e + 1 < |s| && s[e] == '/' && IsVersionChar(s[e + 1])
  }

  /** The browser pattern can match with its group spanning [i, e). */
  predicate BrowserMatchAt(s: string, i: nat, e: nat) {
    i < e && VersionSlashAt(s, e) && forall k :: i <= k < e ==> !IsSpace(s[k])
  }

  /** Where the greedy `[^\s]+` that starts at `i` stops. */
  function RunEnd(s: string, i: nat): (j: nat)
    requires i <= |s|
    ensures i <= j <= |s|
    ensures forall k :: i <= k < j ==> !IsSpace(s[k])
    ensures j == |s| || IsSpace(s[j])
    decreases |s| - i
  {
    if i == |s| || IsSpace(s[i]) then i else RunEnd(s, i + 1)
  }

  /** The last `e` with `i < e < j` at which `/[\d.]+` can match: the backtracking of `[^\s]+`. */
  function LastVersionSlash(s: string, i: nat, j: nat): (e: Option<nat>)
    requires j <= |s|
    ensures e.Some? ==> i < e.value < j && VersionSlashAt(s, e.value)
    ensures e.Some? ==> forall e' :: e.value < e' < j ==> !VersionSlashAt(s, e')
    ensures e.None? ==> forall e' :: i < e' < j ==> !VersionSlashAt(s, e')
    decreases j
  {
    if j <= i + 1 then None
    else if VersionSlashAt(s, j - 1) then Some(j - 1)
    else LastVersionSlash(s, i, j - 1)
  }

  /** The leftmost match of the browser pattern starting at or after `i`. */
  function BrowserSpanFrom(s: string, i: nat): (m: Option<Span>)
    requires i <= |s|
    ensures m.None? ==> forall i', e :: i <= i' ==> !BrowserMatchAt(s, i', e)
    ensures m.Some? ==> i <= m.value.start && BrowserMatchAt(s, m.value.start, m.value.end)
    ensures m.Some? ==> forall i', e :: i <= i' < m.value.start ==> !BrowserMatchAt(s, i', e)
    ensures m.Some? ==> forall e :: m.value.end < e ==> !BrowserMatchAt(s, m.value.start, e)
    decreases |s| - i
  {
    if i == |s| then None
    else
      var j := RunEnd(s, i);
      match LastVersionSlash(s, i, j)
      case Some(e) => Some(Span(i, e))
      case None => BrowserSpanFrom(s, i + 1)
  }

  /** The span of group 1 of `re.search(r'([^\s]+)\/[\d\.]+', s)`. */
  function BrowserSpan(s: string): (m: Option<Span>)
    ensures m.None? <==> forall e :: 1 <= e < |s| ==> IsSpace(s[e - 1]) || !VersionSlashAt(s, e)
    ensures m.Some? ==> BrowserMatchAt(s, m.value.start, m.value.end)
    ensures m.Some? ==> forall i: nat, e: nat :: i < m.value.start ==> !BrowserMatchAt(s, i, e)
    ensures m.Some? ==> forall e :: m.value.end < e ==> !BrowserMatchAt(s, m.value.start, e)
  {
    var m := BrowserSpanFrom(s, 0);
    assert m.None? ==> forall e :: 1 <= e < |s| ==> IsSpace(s[e - 1]) || !VersionSlashAt(s, e) by {
      if m.None? {
        forall e | 1 <= e < |s| && !IsSpace(s[e - 1])
          ensures !VersionSlashAt(s, e)
        {
          assert !BrowserMatchAt(s, e - 1, e);
        }
      }
    }
    m
  }

  /** The browser name of a user-agent string, `"Unknown"` when the pattern does not match. */
  function Browser(userAgent: string): (r: string)
    ensures BrowserSpan(userAgent).None? ==> r == "Unknown"
    ensures BrowserSpan(userAgent).Some? ==> r != [] && forall k :: 0 <= k < |r| ==> !IsSpace(r[k])
  {
    match BrowserSpan(userAgent)
    case Some(sp) => userAgent[sp.start..sp.end]
    case None => "Unknown"
  }

  // ---------------------------------------------------------------------------
  // extract_browser_and_os, operating system: the pattern \(([^)]+)\)
  // ---------------------------------------------------------------------------

  /** The OS pattern can match with its `(` at `i` and its `)` at `j`. */
  predicate OsMatchAt(s: string, i: nat, j: nat) {
    i + 1 < j < |s| && s[i] == '(' && s[j] == ')' && forall k :: i < k < j ==> s[k] != ')'
  }

  /** The first `)` at or after `k`, or `|s|` when there is none. */
  function CloseParen(s: string, k: nat): (j: nat)
    requires k <= |s|
    ensures k <= j <= |s|
    ensures forall q :: k <= q < j ==> s[q] != ')'
    ensures j == |s| || s[j] == ')'
    decreases |s| - k
  {
    if k == |s| || s[k] == ')' then k else CloseParen(s, k + 1)
  }

  /** The leftmost match of the OS pattern whose `(` is at or after `i`; the span is its group. */
  function OsSpanFrom(s: string, i: nat): (m: Option<Span>)
    requires i <= |s|
    ensures m.None? ==> forall i', j :: i <= i' ==> !OsMatchAt(s, i', j)
    ensures m.Some? ==> i < m.value.start && OsMatchAt(s, m.value.start - 1, m.value.end)
    ensures m.Some? ==> forall i', j :: i <= i' < m.value.start - 1 ==> !OsMatchAt(s, i', j)
    decreases |s| - i
  {
    if i == |s| then None
    else if s[i] == '(' && i + 1 < CloseParen(s, i + 1) < |s| then Some(Span(i + 1, CloseParen(s, i + 1)))
    else OsSpanFrom(s, i + 1)
  }

  /** The span of group 1 of `re.search(r'\(([^)]+)\)', s)`. */
  function OsSpan(s: string): (m: Option<Span>)
    ensures m.None? <==> forall i, j :: !OsMatchAt(s, i, j)
    ensures m.Some? ==> 0 < m.value.start && OsMatchAt(s, m.value.start - 1, m.value.end)
    ensures m.Some? ==> forall i: nat, j: nat :: i < m.value.start - 1 ==> !OsMatchAt(s, i, j)
  {
    OsSpanFrom(s, 0)
  }

  /** The operating system of a user-agent string, `"Unknown"` when the pattern does not match. */
  function OperatingSystem(userAgent: string): (r: string)
    ensures OsSpan(userAgent).None? ==> r == "Unknown"
    ensures OsSpan(userAgent).Some? ==> r != [] && ')' !in r
  {
    match OsSpan(userAgent)
    case Some(sp) => userAgent[sp.start..sp.end]
    case None => "Unknown"
  }

  /** `extract_browser_and_os(user_agent)`: the two searches run independently of each other. */
  function ExtractBrowserAndOs(userAgent: string): (r: (string, string))
    ensures BrowserSpan(userAgent).None? ==> r.0 == "Unknown"
    ensures BrowserSpan(userAgent).Some? ==>
              r.0 == userAgent[BrowserSpan(userAgent).value.start..BrowserSpan(userAgent).value.end]
    ensures OsSpan(userAgent).None? ==> r.1 == "Unknown"
    ensures OsSpan(userAgent).Some? ==>
              r.1 == userAgent[OsSpan(userAgent).value.start..OsSpan(userAgent).value.end]
  {
    (Browser(userAgent), OperatingSystem(userAgent))
  }

  /** `extract_browser_and_os("")` finds neither pattern. */
  lemma ExtractFromEmpty()
    ensures ExtractBrowserAndOs("") == ("Unknown", "Unknown")
  {
  }

  /** A user agent that opens with `<token>/<version>` names that token as its browser. */
  lemma {:induction false} BrowserOfLeadingToken(token: string, version: string, rest: string)
    requires token != [] && forall k :: 0 <= k < |token| ==> !IsSpace(token[k])
    requires version != [] && forall k :: 0 <= k < |version| ==> IsVersionChar(version[k])
    requires rest == [] || IsSpace(rest[0])
    ensures Browser(token + "/" + version + rest) == token
  {
    var s := token + "/" + version + rest;
    var n := |token|;
    assert s[n] == '/' && s[n + 1] == version[0];
    assert forall k :: 0 <= k < n ==> s[k] == token[k];
    assert BrowserMatchAt(s, 0, n);
    var sp := BrowserSpan(s).value;
    assert sp.start == 0;
    assert sp.end >= n;
    assert forall k :: n < k <= n + |version| ==> s[k] == version[k - n - 1];
    assert rest != [] ==> s[n + 1 + |version|] == rest[0];
    assert sp.end <= n;
    assert s[..n] == token;
  }

  /** A user agent whose first `(` opens a non-empty group names that group as its OS. */
  lemma {:induction false} OsOfFirstGroup(before: string, group: string, rest: string)
    requires forall k :: 0 <= k < |before| ==> before[k] != '('
    requires group != [] && forall k :: 0 <= k < |group| ==> group[k] != ')'
    ensures OperatingSystem(before + "(" + group + ")" + rest) == group
  {
    var s := before + "(" + group + ")" + rest;
    var n := |before|;
    assert forall k :: 0 <= k < n ==> s[k] == before[k];
    assert forall k :: n < k <= n + |group| ==> s[k] == group[k - n - 1];
    assert OsMatchAt(s, n, n + 1 + |group|);
    var sp := OsSpan(s).value;
    assert sp.start == n + 1;
    assert sp.end == n + 1 + |group|;
    assert s[sp.start..sp.end] == group;
  }

  /** The host run ends at `q` when no `/` lies between `p` and `q` and a `/` or the end follows. */
  lemma HostEndAt(url: string, p: nat, q: nat)
    requires p <= q <= |url|
    requires forall k :: p <= k < q ==> url[k] != '/'
    requires q == |url| || url[q] == '/'
    ensures HostEnd(url, p) == q
  {
  }

  /** A string with a `/` within its first four characters does not start with `www.`. */
  lemma NotWwwBeforeSlash(host: string, rest: string)
    requires '/' !in host && (rest == [] || rest[0] == '/')
    requires !StartsWith(host, "www.")
    ensures !StartsWith(host + rest, "www.")
  {
    if |host + rest| >= 4 {
      if |host| < 4 {
        assert (host + rest)[..4][|host|] == rest[0] == '/';
      } else {
        assert (host + rest)[..4] == host[..4];
      }
    }
  }

  /** When `[^/]+` can start right after both optional groups, group 1 starts there. */
  lemma ShortenUrlAfterGroups(url: string, p: nat)
    requires p == SchemeLength(url) + WwwLength(url, SchemeLength(url))
    requires HostStartsAt(url, p)
    ensures UrlSpan(url) == Some(Span(p, HostEnd(url, p)))
    ensures ShortenUrl(url) == url[p..HostEnd(url, p)]
  {
  }

  /** The scheme group takes exactly an `http://` or `https://` written at the start. */
  lemma SchemeLengthOf(scheme: string, tail: string)
    requires scheme == "https://" || scheme == "http://" || scheme == ""
    requires scheme == "" ==> !StartsWith(tail, "https://") && !StartsWith(tail, "http://")
    ensures SchemeLength(scheme + tail) == |scheme| && (scheme + tail)[|scheme|..] == tail
  {
    var url := scheme + tail;
    assert url[|scheme|..] == tail;
    if scheme == "https://" {
      assert url[..8] == scheme;
    } else if scheme == "http://" {
      assert url[..7] == scheme;
      assert url[4] == ':';
    } else {
      assert url == tail;
    }
  }

  /** The `www.` group takes exactly a `www.` written before the host, never part of the host. */
  lemma WwwLengthOf(url: string, k: nat, www: string, host: string, rest: string)
    requires k <= |url| && url[k..] == www + host + rest
    requires www == "www." || www == ""
    requires '/' !in host && (rest == [] || rest[0] == '/')
    requires www == "" ==> !StartsWith(host, "www.")
    ensures WwwLength(url, k) == |www|
    ensures url[k + |www|..] == host + rest
  {
    if www == "www." {
      assert url[k..][..4] == www;
    } else {
      assert url[k..] == host + rest;
      NotWwwBeforeSlash(host, rest);
    }
  }

  /**
   * `shorten_url` keeps exactly the host: for a URL made of an optional `http://` or
   * `https://`, an optional `www.`, a non-empty host without `/`, and nothing or a path
   * starting with `/`, the result is the host. The conditions make the optional groups
   * take exactly the parts given (no second `www.` and no scheme hidden in the host).
   */
  lemma ShortenUrlTakesHost(scheme: string, www: string, host: string, rest: string)
    requires scheme == "https://" || scheme == "http://" || scheme == ""
    requires www == "www." || www == ""
    requires host != [] && '/' !in host
    requires rest == [] || rest[0] == '/'
    requires www == "" ==> !StartsWith(host, "www.")
    requires scheme == "" ==> !StartsWith(www + host + rest, "https://") && !StartsWith(www + host + rest, "http://")
    ensures ShortenUrl(scheme + www + host + rest) == host
  {
    var url := scheme + (www + host + rest);
    assert url == scheme + www + host + rest;
    SchemeLengthOf(scheme, www + host + rest);
    ShortenUrlAfterScheme(url, |scheme|, www, host, rest);
  }

  /** Once the scheme group has taken its part, `www.` and the host are taken as given. */
  lemma ShortenUrlAfterScheme(url: string, k: nat, www: string, host: string, rest: string)
    requires k == SchemeLength(url) && url[k..] == www + host + rest
    requires www == "www." || www == ""
    requires host != [] && '/' !in host && (rest == [] || rest[0] == '/')
    requires www == "" ==> !StartsWith(host, "www.")
    ensures ShortenUrl(url) == host
  {
    WwwLengthOf(url, k, www, host, rest);
    HostAfterGroups(url, k + |www|, host, rest);
    ShortenUrlAfterGroups(url, k + |www|);
  }

  /** A host followed by nothing or a path is exactly what `[^/]+` takes from where it starts. */
  lemma HostAfterGroups(url: string, p: nat, host: string, rest: string)
    requires p <= |url| && url[p..] == host + rest
    requires host != [] && '/' !in host && (rest == [] || rest[0] == '/')
    ensures HostStartsAt(url, p) && HostEnd(url, p) == p + |host| && url[p..HostEnd(url, p)] == host
  {
    assert url[p] == host[0];
    assert forall k :: p <= k < p + |host| ==> url[k] == host[k - p];
    assert p + |host| < |url| ==> url[p + |host|] == rest[0];
    HostEndAt(url, p, p + |host|);
    assert url[p..p + |host|] == url[p..][..|host|];
  }
}
