/** Finding the quick-tunnel hostname in the child's output. */
module Hostname {
  import opened Results
  import opened Text

  const ESC := '\U{001B}'
  const BANNER := "Your quick Tunnel has been created!"
  const SCHEME := "https://"
  const SUFFIX := ".trycloudflare.com"

  predicate Contains(s: string, p: string)
  {
    exists i :: 0 <= i <= |s| && StartsWith(s[i..], p)
  }

  // ---- colour codes

  predicate ParameterChar(c: char)
  {
    '0' <= c <= '9' || c == ';'
  }

  function ParameterRun(s: string): (n: nat)
    ensures n <= |s|
  {
    if s != "" && ParameterChar(s[0]) then 1 + ParameterRun(s[1..]) else 0
  }

  /** The length of the escape sequence at the start, or 0. */
  function EscapeLength(s: string): (n: nat)
    ensures n <= |s|
  {
    if |s| >= 2 && s[0] == ESC && s[1] == '[' then
      var n := ParameterRun(s[2..]);
      if 2 + n < |s| && (s[2 + n] == 'm' || s[2 + n] == 'K') then 3 + n else 0
    else 0
  }

  function StripANSI(s: string): (r: string)
    decreases |s|
  {
    if s == "" then ""
    else if EscapeLength(s) > 0 then StripANSI(s[EscapeLength(s)..])
    else [s[0]] + StripANSI(s[1..])
  }

  lemma {:induction false} PlainTextKept(s: string)
    requires ESC !in s
    ensures StripANSI(s) == s
  {
    if s != "" {
      PlainTextKept(s[1..]);
    }
  }

  /** A colour code of length n: the escape character, an opening bracket, digits and semicolons, and m or K. */
  ghost predicate CodeAt(s: string, n: nat)
  {
    && 3 <= n <= |s| && s[0] == ESC && s[1] == '[' && (s[n - 1] == 'm' || s[n - 1] == 'K')
    && forall i :: 2 <= i < n - 1 ==> s[i] == ';' || '0' <= s[i] <= '9'
  }

  lemma {:induction false} ParameterRunIs(s: string)
    ensures forall i :: 0 <= i < ParameterRun(s) ==> ParameterChar(s[i])
    ensures ParameterRun(s) < |s| ==> !ParameterChar(s[ParameterRun(s)])
  {
    if s != "" && ParameterChar(s[0]) {
      ParameterRunIs(s[1..]);
    }
  }

  /** The scan finds a code where there is one, at its full length. */
  lemma EscapeLengthIs(s: string, n: nat)
    requires n > 0
    ensures EscapeLength(s) == n <==> CodeAt(s, n)
  {
    if |s| >= 2 {
      hide ParameterRun;
      var run := ParameterRun(s[2..]);
      ParameterRunIs(s[2..]);
      assert forall i :: 0 <= i < run ==> s[2 + i] == s[2..][i];
      if 2 + run < |s| {
        assert s[2 + run] == s[2..][run];
      }
    }
  }

  lemma CodeExtends(code: string, rest: string)
    requires CodeAt(code, |code|)
    ensures CodeAt(code + rest, |code|) && code != ""
  {
  }

  lemma NoCode(s: string)
    requires s != "" && s[0] != ESC
    ensures StripANSI(s) == [s[0]] + StripANSI(s[1..])
  {
  }

  lemma StripCode(s: string, n: nat)
    requires n > 0 && EscapeLength(s) == n
    ensures StripANSI(s) == StripANSI(s[n..])
  {
    hide EscapeLength;
  }

  /** Stripping takes out every colour code ... */
  lemma {:induction false} CodeRemoved(before: string, code: string, rest: string)
    requires ESC !in before && CodeAt(code, |code|)
    ensures StripANSI(before + code + rest) == before + StripANSI(rest)
    decreases |before|
  {
    hide StripANSI, EscapeLength, CodeAt;
    var s := before + code + rest;
    if before == "" {
      CodeExtends(code, rest);
      assert s == code + rest && s[|code|..] == rest;
      EscapeLengthIs(s, |code|);
      StripCode(s, |code|);
    } else {
      CodeRemoved(before[1..], code, rest);
      assert s[0] == before[0] && s[1..] == before[1..] + code + rest;
      NoCode(s);
    }
  }

  /** ... and nothing else. */
  lemma OtherKept(s: string)
    requires s != "" && forall n: nat :: !CodeAt(s, n)
    ensures StripANSI(s) == [s[0]] + StripANSI(s[1..])
  {
    hide EscapeLength, CodeAt;
    if EscapeLength(s) > 0 {
      EscapeLengthIs(s, EscapeLength(s));
    }
  }

  // ---- the URL pattern

  predicate LabelChar(c: char)
  {
    'a' <= c <= 'z' || 'A' <= c <= 'Z' || '0' <= c <= '9' || c == '-'
  }

  function LabelRun(s: string): (n: nat)
    ensures n <= |s|
    ensures forall i :: 0 <= i < n ==> LabelChar(s[i])
    ensures n < |s| ==> !LabelChar(s[n])
  {
    if s != "" && LabelChar(s[0]) then 1 + LabelRun(s[1..]) else 0
  }

  /** The length of the URL at the start, or 0. */
  function URLLength(s: string): (n: nat)
    ensures n <= |s|
  {
    if StartsWith(s, SCHEME) then
      var n := LabelRun(s[8..]);
      if n > 0 && StartsWith(s[8 + n..], SUFFIX) then 8 + n + |SUFFIX| else 0
    else 0
  }

  /** The leftmost match. */
  function FindURL(s: string): (r: string)
  {
    if s == "" then ""
    else if URLLength(s) > 0 then s[..URLLength(s)]
    else FindURL(s[1..])
  }

  /** The host part before the common suffix. */
  predicate IsLabel(host: string)
  {
    host != "" && forall i :: 0 <= i < |host| ==> LabelChar(host[i])
  }

  /** The pattern, without an order of search: a URL for this host stands at `i`. */
  ghost predicate URLAt(s: string, i: nat, host: string)
  {
    i <= |s| && IsLabel(host) && StartsWith(s[i..], SCHEME + host + SUFFIX)
  }

  ghost predicate HasURL(s: string)
  {
    exists i: nat, host :: URLAt(s, i, host)
  }

  lemma LabelRunIs(s: string, host: string)
    requires IsLabel(host) && StartsWith(s, host + SUFFIX)
    ensures LabelRun(s) == |host| && StartsWith(s[|host|..], SUFFIX)
  {
    var n := LabelRun(s);
    assert s[..|host + SUFFIX|] == host + SUFFIX;
    assert forall i :: 0 <= i < |host| ==> s[i] == (host + SUFFIX)[i] == host[i];
    assert s[|host|] == (host + SUFFIX)[|host|] == '.';
    assert s[|host|..][..|SUFFIX|] == SUFFIX by {
      assert s[|host|..][..|SUFFIX|] == s[..|host + SUFFIX|][|host|..];
    }
  }

  /** At one place the pattern fits in at most one way, which the greedy scan finds. */
  lemma URLHere(s: string, host: string)
    ensures URLAt(s, 0, host) <==>
      URLLength(s) == 8 + |host| + |SUFFIX| && URLLength(s) > 0 && s[..URLLength(s)] == SCHEME + host + SUFFIX
        && IsLabel(host)
  {
    assert s[0..] == s;
    if URLAt(s, 0, host) {
      var all := SCHEME + host + SUFFIX;
      assert s[..|all|] == all;
      assert s[..8] == all[..8] == SCHEME;
      assert s[8..][..|host + SUFFIX|] == s[..|all|][8..] == host + SUFFIX;
      LabelRunIs(s[8..], host);
      assert s[8..][|host|..] == s[8 + |host|..];
    }
  }

  lemma URLLater(s: string, i: nat, host: string)
    requires s != ""
    ensures URLAt(s, i + 1, host) <==> URLAt(s[1..], i, host)
  {
    if i + 1 <= |s| {
      assert s[i + 1..] == s[1..][i..];
    }
  }

  lemma URLSplits(s: string)
    requires URLLength(s) > 0
    ensures exists host :: URLAt(s, 0, host) && s[..URLLength(s)] == SCHEME + host + SUFFIX
  {
    var n := LabelRun(s[8..]);
    var host := s[8..][..n];
    var all := SCHEME + host + SUFFIX;
    assert s[8 + n..][..|SUFFIX|] == SUFFIX;
    assert s[..|all|] == s[..8] + host + s[8 + n..][..|SUFFIX|];
    assert s[0..] == s;
    assert URLAt(s, 0, host);
  }

  /** The search succeeds exactly when the pattern occurs, and returns its first occurrence. */
  lemma {:induction false} FindURLLeftmost(s: string)
    ensures FindURL(s) != "" <==> HasURL(s)
    ensures FindURL(s) != "" ==> exists i: nat, host ::
      URLAt(s, i, host) && FindURL(s) == SCHEME + host + SUFFIX
      && forall j: nat, other :: j < i ==> !URLAt(s, j, other)
  {
    hide URLAt, URLLength;
    if s == "" {
      assert !HasURL(s) by {
        forall i: nat, host: string ensures !URLAt(s, i, host) { EmptyHasNoURL(i, host); }
      }
    } else if URLLength(s) > 0 {
      URLSplits(s);
    } else {
      FindURLLeftmost(s[1..]);
      forall host: string ensures !URLAt(s, 0, host) { URLHere(s, host); }
      forall i: nat, host: string ensures URLAt(s, i + 1, host) <==> URLAt(s[1..], i, host) { URLLater(s, i, host); }
      if FindURL(s) != "" {
        var i: nat, host :| URLAt(s[1..], i, host) && FindURL(s) == SCHEME + host + SUFFIX
          && forall j: nat, other :: j < i ==> !URLAt(s[1..], j, other);
        assert URLAt(s, i + 1, host);
        forall j: nat, other: string | j < i + 1 ensures !URLAt(s, j, other) {
          if j > 0 {
            URLLater(s, j - 1, other);
          }
        }
      } else if HasURL(s) {
        var i: nat, host :| URLAt(s, i, host);
        URLLater(s, i - 1, host);
      }
    }
  }

  lemma EmptyHasNoURL(i: nat, host: string)
    ensures !URLAt("", i, host)
  {
  }

  // ---- the parser

  predicate IsBanner(rawLine: string)
  {
    Contains(StripANSI(rawLine), BANNER)
  }

  class HostnameParser {
    var sawBanner: bool

    constructor ()
      ensures !sawBanner
    {
      sawBanner := false;
    }

    method Feed(rawLine: string) returns (hostname: Option<string>)
      modifies this
      ensures hostname.Some? <==> old(sawBanner) && !IsBanner(rawLine) && HasURL(StripANSI(rawLine))
      ensures hostname.Some? ==> FindURL(StripANSI(rawLine)) == SCHEME + hostname.value
      ensures sawBanner == (IsBanner(rawLine) || (old(sawBanner) && hostname.None?))
    {
      hide URLAt;
      var line := StripANSI(rawLine);
      if Contains(line, BANNER) {
        sawBanner := true;
        return None;
      }
      if !sawBanner {
        return None;
      }
      var url := FindURL(line);
      FindURLLeftmost(line);
      if url != "" {
        sawBanner := false;
        return Some(url[|SCHEME|..]);
      }
      return None;
    }
  }

  /** A line that may carry the hostname. */
  ghost predicate Candidate(rawLine: string)
  {
    !IsBanner(rawLine) && HasURL(StripANSI(rawLine))
  }

  /** A banner among the first `k` lines has no candidate after it yet. */
  ghost predicate Pending(lines: seq<string>, k: nat)
    requires k <= |lines|
  {
    exists b :: 0 <= b < k && IsBanner(lines[b]) && forall j :: b < j < k ==> !Candidate(lines[j])
  }

  lemma PendingStep(lines: seq<string>, k: nat)
    requires k < |lines|
    ensures Pending(lines, k + 1) <==> IsBanner(lines[k]) || (Pending(lines, k) && !Candidate(lines[k]))
  {
    hide HasURL, StripANSI, Contains;
    if Pending(lines, k) && !Candidate(lines[k]) {
      var b :| 0 <= b < k && IsBanner(lines[b]) && forall j :: b < j < k ==> !Candidate(lines[j]);
      assert forall j :: b < j < k + 1 ==> !Candidate(lines[j]);
    }
  }

  /** The hostnames a quick tunnel's output reports: on a candidate line while a banner is pending,
      and on no other line. */
  ghost predicate Reports(lines: seq<string>, k: nat)
    requires k < |lines|
  {
    Pending(lines, k) && Candidate(lines[k])
  }

  /** Reports with the line they come from; a named tunnel reports none. */
  method StreamLines(named: bool, lines: seq<string>) returns (reported: seq<(nat, string)>)
    ensures forall r :: r in reported ==>
      !named && r.0 < |lines| && Reports(lines, r.0) && FindURL(StripANSI(lines[r.0])) == SCHEME + r.1
    ensures !named ==> forall k :: 0 <= k < |lines| && Reports(lines, k) ==> exists r :: r in reported && r.0 == k
    ensures forall a, b :: 0 <= a < b < |reported| ==> reported[a].0 < reported[b].0
  {
    hide StripANSI, Contains, HasURL, FindURL;
    reported := [];
    var parser := new HostnameParser();
    for i := 0 to |lines|
      invariant !named ==> parser.sawBanner == Pending(lines, i)
      invariant forall r :: r in reported ==>
        !named && r.0 < i && Reports(lines, r.0) && FindURL(StripANSI(lines[r.0])) == SCHEME + r.1
      invariant !named ==> forall k :: 0 <= k < i && Reports(lines, k) ==> exists r :: r in reported && r.0 == k
      invariant forall a, b :: 0 <= a < b < |reported| ==> reported[a].0 < reported[b].0
    {
      if !named {
        PendingStep(lines, i);
        var host := parser.Feed(lines[i]);
        if host.Some? {
          ghost var before := reported;
          reported := reported + [(i, host.value)];
          assert reported[|before|] == (i, host.value);
          assert forall r :: r in before ==> r in reported;
        }
      }
    }
  }

  /** Between two reports there is a fresh banner, so a banner is used at most once. */
  lemma OneReportPerBanner(lines: seq<string>, a: nat, b: nat)
    requires a < b < |lines| && Reports(lines, a) && Reports(lines, b)
    ensures exists c :: a < c < b && IsBanner(lines[c])
  {
    assert Candidate(lines[a]);
  }

  // ---- later lines

  /** A banner, then lines that are neither a banner nor a candidate, then a candidate. */
  ghost predicate LateURL(lines: seq<string>, b: nat, k: nat)
  {
    b + 1 < k < |lines| && IsBanner(lines[b]) && Candidate(lines[k])
    && forall j :: b < j < k ==> !IsBanner(lines[j]) && !Candidate(lines[j])
  }

  /** The nearest banner before a line, if there is one. */
  lemma {:induction false} NearestBanner(lines: seq<string>, b: nat, k: nat) returns (c: nat)
    requires b < k <= |lines| && IsBanner(lines[b])
    ensures b <= c < k && IsBanner(lines[c]) && forall j :: c < j < k ==> !IsBanner(lines[j])
  {
    hide IsBanner;
    c := k - 1;
    if !IsBanner(lines[k - 1]) {
      c := NearestBanner(lines, b, k - 1);
    }
  }

  /** Exactly when every report comes from the line right after a banner: no banner is followed by other
      lines and then, still before the next banner, by a URL. */
  lemma ReportsFollowBannerIff(lines: seq<string>)
    ensures (forall k: nat :: k < |lines| && Reports(lines, k) ==> k > 0 && IsBanner(lines[k - 1]))
      <==> forall b: nat, k: nat :: !LateURL(lines, b, k)
  {
    hide IsBanner, Candidate;
    forall b: nat, k: nat | LateURL(lines, b, k) ensures Reports(lines, k) && !IsBanner(lines[k - 1]) {
    }
    forall k: nat | k < |lines| && Reports(lines, k) && !(k > 0 && IsBanner(lines[k - 1]))
      ensures exists b: nat :: LateURL(lines, b, k)
    {
      var b :| 0 <= b < k && IsBanner(lines[b]) && forall j :: b < j < k ==> !Candidate(lines[j]);
      var c := NearestBanner(lines, b, k);
      assert LateURL(lines, c, k);
    }
  }

  lemma ContainsItself(s: string)
    ensures Contains(s, s)
  {
    assert s[0..] == s && s[..|s|] == s;
    assert StartsWith(s[0..], s);
  }

  lemma ShortIsNoBanner(line: string)
    requires ESC !in line && |line| < |BANNER|
    ensures !IsBanner(line)
  {
    PlainTextKept(line);
    hide StripANSI;
  }

  lemma PlainURLIsCandidate(line: string, host: string)
    requires ESC !in line && |line| < |BANNER| && line == SCHEME + host + SUFFIX && IsLabel(host)
    ensures Candidate(line)
  {
    ShortIsNoBanner(line);
    PlainTextKept(line);
    hide StripANSI, IsBanner, IsLabel;
    assert line[0..] == line && line[..|line|] == line;
    assert URLAt(line, 0, host);
  }

  lemma EmptyIsPlain()
    ensures !IsBanner("") && !Candidate("")
  {
    assert StripANSI("") == "";
    forall i: nat, host: string ensures !URLAt("", i, host) { EmptyHasNoURL(i, host); }
  }

  lemma BannerIsBanner(banner: string)
    requires ESC !in banner && banner == BANNER
    ensures IsBanner(banner)
  {
    PlainTextKept(banner);
    ContainsItself(banner);
    hide Contains, StripANSI;
  }

  lemma ThirdLine(banner: string, url: string)
    requires IsBanner(banner) && !IsBanner(url) && Candidate(url)
    ensures Reports([banner, "", url], 2) && LateURL([banner, "", url], 0, 2)
  {
    EmptyIsPlain();
    hide IsBanner, Candidate;
    var lines := [banner, "", url];
    assert lines[0] == banner && lines[1] == "" && lines[2] == url;
  }

  /** Such output exists: a URL on the second line after the banner is reported. */
  lemma SecondLineReported(banner: string, url: string, host: string)
    requires ESC !in banner && banner == BANNER
    requires ESC !in url && |url| < |BANNER| && url == SCHEME + host + SUFFIX && IsLabel(host)
    ensures Reports([banner, "", url], 2) && LateURL([banner, "", url], 0, 2)
  {
    hide IsBanner, Candidate, IsLabel;
    BannerIsBanner(banner);
    PlainURLIsCandidate(url, host);
    ShortIsNoBanner(url);
    ThirdLine(banner, url);
  }

  lemma SampleOutput()
    ensures Reports([BANNER, "", SCHEME + "ab" + SUFFIX], 2)
  {
    SecondLineReported(BANNER, SCHEME + "ab" + SUFFIX, "ab");
  }
}
