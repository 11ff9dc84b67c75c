/** Endpoint strings: parsing, printing, and the expansion of {a...b} patterns. */
module Endpoint {
  import opened Wrappers
  import opened Text

  datatype Endpoint = Url(scheme: string, host: string, port: nat, path: string) | Path(path: string)

  // ----- string searching -----

  /** First position of `c`; the length if it does not occur. */
  function IndexOf(s: string, c: char): (r: nat)
    ensures r <= |s| && (r < |s| ==> s[r] == c) && forall i :: 0 <= i < r ==> s[i] != c
  {
    if s == [] || s[0] == c then 0 else 1 + IndexOf(s[1..], c)
  }

  /** First position of the substring `w`; beyond the end if it does not occur. */
  function Search(s: string, w: string): (r: nat)
    ensures r <= |s| ==> w <= s[r..]
  {
    if w <= s then 0 else if s == [] then 1 else 1 + Search(s[1..], w)
  }

  predicate Contains(s: string, w: string) {
    Search(s, w) <= |s|
  }

  // ----- ports -----

  predicate IsSpace(c: char) {
    c in {' ', '\t', '\n', '\r', '\U{000b}', '\U{000c}'}
  }

  function DropSpaces(s: string): string {
    if s != [] && IsSpace(s[0]) then DropSpaces(s[1..]) else s
  }

  /** The conversion accepts leading white space and a sign, and must use up the string; a number from
      1 to 65535 is a port. */
  function ParsePort(s: string): Option<nat> {
    var t := DropSpaces(s);
    var negative := t != [] && t[0] == '-';
    var digits := if t != [] && (t[0] == '-' || t[0] == '+') then t[1..] else t;
    if digits == [] || !AllDigits(digits) || negative then None
    else if 1 <= Number(digits) <= 65535 then Some(Number(digits)) else None
  }

  // ----- parsing -----

  const HTTP := "http"
  const HTTPS := "https"

  /** The part between scheme and path, as host and port. */
  function ParseHostPort(hp: string): Option<(string, nat)> {
    if hp != [] && hp[0] == '[' then
      var close := IndexOf(hp, ']');
      if close == |hp| then None
      else
        var host := hp[1..close];
        if close + 1 < |hp| && hp[close + 1] == ':' then
          var port := ParsePort(hp[close + 2..]);
          if port.None? then None else Some((host, port.value))
        else Some((host, 0))
    else
      var colon := IndexOf(hp, ':');
      if colon < |hp| then
        var port := ParsePort(hp[colon + 1..]);
        if port.None? then None else Some((hp[..colon], port.value))
      else Some((hp, 0))
  }

  /** What follows "scheme://". */
  function ParseRest(scheme: string, rest: string): Option<Endpoint> {
    var slash := IndexOf(rest, '/');
    var path := if slash == |rest| then "/" else rest[slash..];
    var hp := ParseHostPort(rest[..slash]);
    if hp.None? || hp.value.0 == [] then None else Some(Url(scheme, hp.value.0, hp.value.1, path))
  }

  function Parse(s: string): Option<Endpoint> {
    if s == [] then None
    else if "https://" <= s then ParseRest(HTTPS, s[8..])
    else if "http://" <= s then ParseRest(HTTP, s[7..])
    else if Contains(s, "://") then None
    else if s == "/" || s == "\\" then None
    else Some(Path(s))
  }

  function Print(e: Endpoint): string {
    match e
    case Path(path) => path
    case Url(scheme, host, port, path) =>
      scheme + "://" + host + (if port > 0 then ":" + Decimal(port) else "") + path
  }

  // ----- printing and parsing back -----

  lemma IndexUnique(s: string, c: char, r: nat)
    requires r <= |s| && (r < |s| ==> s[r] == c) && forall i :: 0 <= i < r ==> s[i] != c
    ensures IndexOf(s, c) == r
  {
  }

  lemma PortRoundTrip(p: nat)
    requires 1 <= p <= 65535
    ensures ParsePort(Decimal(p)) == Some(p)
  {
    DecimalIsNumber(p);
    assert IsDigit(Decimal(p)[0]);
    assert DropSpaces(Decimal(p)) == Decimal(p);
  }

  /** A host that survives printing without brackets. */
  predicate Plain(host: string) {
    ':' !in host && !(host != [] && host[0] == '[')
  }

  /** What parsing guarantees. */
  ghost predicate Accepted(e: Endpoint) {
    match e
    case Path(path) =>
      && path != [] && path != "/" && path != "\\"
      && !("http://" <= path) && !("https://" <= path) && !Contains(path, "://")
    case Url(scheme, host, port, path) =>
      && scheme in {HTTP, HTTPS} && host != [] && '/' !in host && port <= 65535
      && path != [] && path[0] == '/' && (Plain(host) || ']' !in host)
  }

  lemma ParseHostPortAccepted(hp: string)
    requires '/' !in hp && ParseHostPort(hp).Some?
    ensures var (host, port) := ParseHostPort(hp).value;
            '/' !in host && port <= 65535 && (Plain(host) || ']' !in host)
  {
  }

  lemma ParseAccepts(s: string)
    ensures Parse(s).Some? ==> Accepted(Parse(s).value)
  {
    if "https://" <= s {
      RestAccepts(HTTPS, s[8..]);
    } else if "http://" <= s {
      RestAccepts(HTTP, s[7..]);
    }
  }

  lemma RestAccepts(scheme: string, rest: string)
    requires scheme in {HTTP, HTTPS}
    ensures ParseRest(scheme, rest).Some? ==> Accepted(ParseRest(scheme, rest).value)
  {
    var hp := rest[..IndexOf(rest, '/')];
    if ParseHostPort(hp).Some? {
      ParseHostPortAccepted(hp);
    }
  }

  function PortText(port: nat): string {
    if port > 0 then ":" + Decimal(port) else ""
  }

  lemma PortTextChars(port: nat)
    ensures '/' !in PortText(port) && ']' !in PortText(port)
    ensures forall i :: 1 <= i < |PortText(port)| ==> PortText(port)[i] != ':'
  {
    DecimalIsNumber(port);
    var text := PortText(port);
    if port > 0 {
      forall i | 1 <= i < |text|
        ensures IsDigit(text[i])
      {
        assert text[i] == Decimal(port)[i - 1];
      }
    }
  }

  /** Host and port are read back exactly from a plain host. */
  lemma HostPortRoundTrip(host: string, port: nat)
    requires host != [] && port <= 65535 && (host[0] == '[' ==> ']' !in host)
    ensures ParseHostPort(host + PortText(port)) == Some((host, port)) <==> Plain(host)
  {
    if host[0] == '[' {
      BracketFails(host, port);
    } else if ':' in host {
      ColonSplitsHost(host, port);
    } else {
      PlainHostPort(host, port);
    }
  }

  lemma BracketFails(host: string, port: nat)
    requires host != [] && host[0] == '[' && ']' !in host
    ensures ParseHostPort(host + PortText(port)) == None
  {
    var hp := host + PortText(port);
    PortTextChars(port);
    IndexUnique(hp, ']', |hp|);
  }

  lemma ColonSplitsHost(host: string, port: nat)
    requires host != [] && host[0] != '[' && ':' in host
    ensures var r := ParseHostPort(host + PortText(port)); r.Some? ==> |r.value.0| < |host|
  {
    var hp := host + PortText(port);
    var k := IndexOf(host, ':');
    assert k < |host|;
    assert forall i :: 0 <= i <= k ==> hp[i] == host[i];
    IndexUnique(hp, ':', k);
  }

  lemma PlainHostPort(host: string, port: nat)
    requires host != [] && host[0] != '[' && ':' !in host && port <= 65535
    ensures ParseHostPort(host + PortText(port)) == Some((host, port))
  {
    if port > 0 {
      PortFollows(host, Decimal(port));
      PortRoundTrip(port);
    } else {
      assert host + PortText(port) == host;
      IndexUnique(host, ':', |host|);
    }
  }

  lemma PortFollows(host: string, digits: string)
    requires ':' !in host
    ensures var hp := host + (":" + digits);
            IndexOf(hp, ':') == |host| && hp[..|host|] == host && hp[|host| + 1..] == digits
  {
    IndexUnique(host + (":" + digits), ':', |host|);
  }

  lemma RestRoundTrip(scheme: string, host: string, port: nat, path: string)
    requires host != [] && '/' !in host && port <= 65535 && path != [] && path[0] == '/'
    requires host[0] == '[' ==> ']' !in host
    ensures ParseRest(scheme, host + PortText(port) + path) == Some(Url(scheme, host, port, path)) <==> Plain(host)
  {
    PortTextChars(port);
    RestSplits(scheme, host + PortText(port), path);
    HostPortRoundTrip(host, port);
  }

  lemma RestSplits(scheme: string, hp: string, path: string)
    requires '/' !in hp && path != [] && path[0] == '/'
    ensures var r := ParseHostPort(hp);
            ParseRest(scheme, hp + path)
            == if r.None? || r.value.0 == [] then None else Some(Url(scheme, r.value.0, r.value.1, path))
  {
    IndexUnique(hp + path, '/', |hp|);
    assert (hp + path)[..|hp|] == hp && (hp + path)[|hp|..] == path;
  }

  /** Any host without ']' can be written in brackets. */
  lemma BracketedHostPort(host: string, port: nat)
    requires ']' !in host && port <= 65535
    ensures ParseHostPort("[" + host + "]" + PortText(port)) == Some((host, port))
  {
    BracketLayout(host, PortText(port));
    if port > 0 {
      TakeDrop(":", Decimal(port));
      PortRoundTrip(port);
    }
  }

  lemma BracketLayout(host: string, tail: string)
    requires ']' !in host
    ensures var hp := "[" + host + "]" + tail;
            && hp[0] == '[' && IndexOf(hp, ']') == |host| + 1 && hp[1..|host| + 1] == host
            && hp[|host| + 2..] == tail && (tail != [] ==> hp[|host| + 2] == tail[0] && hp[|host| + 3..] == tail[1..])
  {
    var hp := "[" + host + "]" + tail;
    IndexUnique(hp, ']', |host| + 1);
  }

  /** An endpoint written with its host in brackets. */
  function Bracketed(e: Endpoint): string
    requires e.Url?
  {
    e.scheme + "://" + ("[" + e.host + "]" + PortText(e.port) + e.path)
  }

  lemma BracketedParses(e: Endpoint)
    requires Accepted(e) && e.Url? && ']' !in e.host
    ensures Parse(Bracketed(e)) == Some(e)
  {
    var hp := "[" + e.host + "]" + PortText(e.port);
    BracketedHostPort(e.host, e.port);
    PortTextChars(e.port);
    RestSplits(e.scheme, hp, e.path);
    SchemeParses(e.scheme, hp + e.path);
  }

  lemma PlainParses(e: Endpoint)
    requires Accepted(e) && (e.Url? ==> Plain(e.host))
    ensures Parse(Print(e)) == Some(e)
  {
    if e.Url? {
      PrintedUrl(e);
      RestRoundTrip(e.scheme, e.host, e.port, e.path);
    }
  }

  /** The endpoints some text parses to are exactly the accepted ones. */
  lemma AcceptedExactly(e: Endpoint)
    ensures Accepted(e) <==> exists s :: Parse(s) == Some(e)
  {
    if s :| Parse(s) == Some(e) {
      ParseAccepts(s);
    }
    if Accepted(e) {
      if e.Url? && !Plain(e.host) {
        BracketedParses(e);
      } else {
        PlainParses(e);
      }
    }
  }

  /** Printing an accepted endpoint and parsing the text gives the endpoint back exactly when it is a
      path or its host is plain; a bracketed IPv6 host loses its brackets. */
  lemma PrintParse(s: string)
    requires Parse(s).Some?
    ensures var e := Parse(s).value; Parse(Print(e)) == Some(e) <==> (e.Url? ==> Plain(e.host))
  {
    ParseAccepts(s);
    var e := Parse(s).value;
    if e.Url? {
      PrintedUrl(e);
      RestRoundTrip(e.scheme, e.host, e.port, e.path);
    }
  }

  lemma PrintedUrl(e: Endpoint)
    requires e.Url? && e.scheme in {HTTP, HTTPS}
    ensures Parse(Print(e)) == ParseRest(e.scheme, e.host + PortText(e.port) + e.path)
  {
    Regrouped(e.scheme + "://", e.host, PortText(e.port), e.path);
    SchemeParses(e.scheme, e.host + PortText(e.port) + e.path);
  }

  lemma SchemeParses(scheme: string, rest: string)
    requires scheme in {HTTP, HTTPS}
    ensures Parse(scheme + "://" + rest) == ParseRest(scheme, rest)
  {
    if scheme == HTTPS {
      assert HTTPS + "://" == "https://";
      TakeDrop("https://", rest);
    } else {
      assert HTTP + "://" == "http://";
      TakeDrop("http://", rest);
      assert ("http://" + rest)[4] == ':';
    }
  }

  lemma Regrouped(a: string, b: string, c: string, d: string)
    ensures a + b + c + d == a + (b + c + d)
  {
  }

  lemma TakeDrop(a: string, b: string)
    ensures a <= a + b && (a + b)[|a|..] == b
  {
  }

  /** A URL with a plain host: with port and path, without port, and with neither. */
  lemma UrlParses(scheme: string, host: string, port: nat, path: string)
    requires scheme in {"http", "https"} && host != [] && '/' !in host && ':' !in host && host[0] != '['
    requires 1 <= port <= 65535 && path != [] && path[0] == '/'
    ensures Parse(scheme + "://" + host + ":" + Decimal(port) + path) == Some(Url(scheme, host, port, path))
    ensures Parse(scheme + "://" + host + path) == Some(Url(scheme, host, 0, path))
    ensures Parse(scheme + "://" + host) == Some(Url(scheme, host, 0, "/"))
  {
    PortedUrl(scheme, host, port, path);
    UnportedUrl(scheme, host, path);
    BareUrl(scheme, host);
  }

  lemma PortedUrl(scheme: string, host: string, port: nat, path: string)
    requires scheme in {HTTP, HTTPS} && host != [] && '/' !in host && Plain(host)
    requires 1 <= port <= 65535 && path != [] && path[0] == '/'
    ensures Parse(scheme + "://" + host + ":" + Decimal(port) + path) == Some(Url(scheme, host, port, path))
  {
    RestRoundTrip(scheme, host, port, path);
    PrintedUrl(Url(scheme, host, port, path));
    TextJoins(scheme + "://" + host, ":", Decimal(port), path);
  }

  lemma TextJoins(a: string, b: string, c: string, d: string)
    ensures a + b + c + d == a + (b + c) + d
  {
  }

  lemma UnportedUrl(scheme: string, host: string, path: string)
    requires scheme in {HTTP, HTTPS} && host != [] && '/' !in host && Plain(host) && path != [] && path[0] == '/'
    ensures Parse(scheme + "://" + host + path) == Some(Url(scheme, host, 0, path))
  {
    RestRoundTrip(scheme, host, 0, path);
    PrintedUrl(Url(scheme, host, 0, path));
    assert scheme + "://" + host + "" == scheme + "://" + host;
  }

  lemma BareUrl(scheme: string, host: string)
    requires scheme in {HTTP, HTTPS} && host != [] && '/' !in host && Plain(host)
    ensures Parse(scheme + "://" + host) == Some(Url(scheme, host, 0, "/"))
  {
    SchemeParses(scheme, host);
    IndexUnique(host, '/', |host|);
    IndexUnique(host, ':', |host|);
    assert host[..|host|] == host;
  }

  // ----- {a...b} patterns -----

  datatype Pattern =
    | Numeric(prefix: string, suffix: string, start: int, end: int)
    | Alpha(prefix: string, suffix: string, first: char, last: char)

  predicate IsLetter(c: char) {
    'a' <= c <= 'z' || 'A' <= c <= 'Z'
  }

  function LeadingDigits(s: string): (r: string)
    ensures AllDigits(r)
  {
    if s != [] && IsDigit(s[0]) then [s[0]] + LeadingDigits(s[1..]) else []
  }

  /** The number a string starts with, zero if it starts with none. */
  function LeadingNumber(s: string): int {
    var t := DropSpaces(s);
    if t != [] && t[0] == '-' then -(Number(LeadingDigits(t[1..])) as int)
    else if t != [] && t[0] == '+' then Number(LeadingDigits(t[1..]))
    else Number(LeadingDigits(t))
  }

  /** The first '}' comes after the dots. */
  lemma BraceAfterDots(t: string)
    requires "..." <= t
    ensures IndexOf(t, '}') >= 3
  {
    assert t[0] == '.' && t[1] == '.' && t[2] == '.';
  }

  /** With dots at a position and `tail` from there on: the position of the first '}' after them. */
  function BraceAt(tail: string, dots: nat): (r: Option<(nat, nat)>)
    requires "..." <= tail
    ensures r.Some? ==> r.value.0 == dots && dots + 3 <= r.value.1 < dots + |tail|
  {
    BraceAfterDots(tail);
    var brace := IndexOf(tail, '}');
    if brace == |tail| then None else Some((dots, dots + brace))
  }

  /** Positions of the first dots and of the first '}' after them, if both are there. */
  function DotsAt(s: string): (r: Option<(nat, nat)>)
    ensures r.Some? ==> r.value.0 + 3 <= r.value.1 < |s|
  {
    var dots := Search(s, "...");
    if dots > |s| then None else BraceAt(s[dots..], dots)
  }

  /** Positions of '{', of the dots after it and of '}' after those, if all are there. */
  function PatternAt(s: string): (r: Option<(nat, nat, nat)>)
    ensures r.Some? ==> r.value.0 < r.value.1 && r.value.1 + 3 <= r.value.2 < |s|
  {
    var open := IndexOf(s, '{');
    if open == |s| then None
    else
      var r := DotsAt(s[open + 1..]);
      if r.None? then None else Some((open, open + 1 + r.value.0, open + 1 + r.value.1))
  }

  /** The pattern with these ends, the first of which starts with `lead`. */
  function PatternOf(prefix: string, suffix: string, from: string, to: string, lead: char): (r: Option<Pattern>)
    ensures r.Some? ==> if r.value.Numeric? then r.value.start <= r.value.end else r.value.first <= r.value.last
  {
    if IsDigit(lead) || lead == '-' then
      var a, b := LeadingNumber(from), LeadingNumber(to);
      if a > b then None else Some(Numeric(prefix, suffix, a, b))
    else if |from| != 1 || |to| != 1 || !IsLetter(from[0]) || !IsLetter(to[0]) || from[0] > to[0] then None
    else Some(Alpha(prefix, suffix, from[0], to[0]))
  }

  function ParsePattern(s: string): (r: Option<Pattern>)
    ensures r.Some? ==> if r.value.Numeric? then r.value.start <= r.value.end else r.value.first <= r.value.last
  {
    var at := PatternAt(s);
    if at.None? then None
    else
      var (open, dots, close) := at.value;
      PatternOf(s[..open], s[close + 1..], s[open + 1..dots], s[dots + 3..close], s[open + 1])
  }

  ghost predicate Proper(p: Pattern) {
    if p.Numeric? then p.start <= p.end else p.first <= p.last && IsLetter(p.first) && IsLetter(p.last)
  }

  function Count(p: Pattern): nat
    requires Proper(p)
  {
    if p.Numeric? then p.end - p.start + 1 else (p.last - p.first) as nat + 1
  }

  function SignedDecimal(n: int): string {
    if n < 0 then "-" + Decimal(-n) else Decimal(n)
  }

  function Letter(first: char, i: nat): char
    requires first as nat + i < 128
  {
    (first as nat + i) as char
  }

  /** The text that replaces the braces in expansion number `i`. */
  function Middle(p: Pattern, i: nat): string
    requires Proper(p) && i < Count(p)
  {
    if p.Numeric? then SignedDecimal(p.start + i) else [Letter(p.first, i)]
  }

  function Expanded(p: Pattern): (r: seq<string>)
    requires Proper(p)
    ensures |r| == Count(p)
  {
    seq(Count(p), i requires 0 <= i < Count(p) => p.prefix + Middle(p, i) + p.suffix)
  }

  /** Different numbers print differently. */
  lemma SignedDecimalInjective(a: int, b: int)
    requires SignedDecimal(a) == SignedDecimal(b)
    ensures a == b
  {
    var x, y := Decimal(if a < 0 then -a else a), Decimal(if b < 0 then -b else b);
    DecimalIsNumber(if a < 0 then -a else a);
    DecimalIsNumber(if b < 0 then -b else b);
    assert IsDigit(x[0]) && IsDigit(y[0]);
    assert a < 0 ==> SignedDecimal(a)[0] == '-' && SignedDecimal(a)[1..] == x;
    assert b < 0 ==> SignedDecimal(b)[0] == '-' && SignedDecimal(b)[1..] == y;
  }

  lemma CommonEnds(prefix: string, x: string, y: string, suffix: string)
    requires prefix + x + suffix == prefix + y + suffix
    ensures x == y
  {
    var n := |prefix|;
    assert |x| == |y|;
    assert (prefix + x + suffix)[n..n + |x|] == x;
    assert (prefix + y + suffix)[n..n + |x|] == y;
  }

  /** Expansions are pairwise different. */
  lemma ExpansionsDiffer(p: Pattern, i: nat, j: nat)
    requires Proper(p) && i < Count(p) && j < Count(p) && Expanded(p)[i] == Expanded(p)[j]
    ensures i == j
  {
    CommonEnds(p.prefix, Middle(p, i), Middle(p, j), p.suffix);
    if p.Numeric? {
      SignedDecimalInjective(p.start + i, p.start + j);
    } else {
      assert [Letter(p.first, i)][0] == [Letter(p.first, j)][0];
      assert Letter(p.first, i) as nat == Letter(p.first, j) as nat;
    }
  }

  lemma ParsedIsProper(s: string)
    ensures ParsePattern(s).Some? ==> Proper(ParsePattern(s).value)
  {
  }

  // ----- writing a pattern and parsing it -----

  /** The text of a pattern from its parts. */
  function Written(prefix: string, from: string, to: string, suffix: string): string {
    prefix + "{" + from + "..." + to + "}" + suffix
  }

  lemma {:induction false} DotsFound(x: string, rest: string)
    requires '.' !in x && "..." <= rest
    ensures Search(x + rest, "...") == |x|
    decreases |x|
  {
    if x == [] {
      assert x + rest == rest;
    } else {
      assert (x + rest)[0] == x[0] && (x + rest)[1..] == x[1..] + rest;
      DotsFound(x[1..], rest);
    }
  }

  lemma BraceFound(to: string, suffix: string)
    requires '}' !in to
    ensures var t := "..." + to + "}" + suffix;
            "..." <= t && IndexOf(t, '}') == |to| + 3 && t[3..|to| + 3] == to && t[|to| + 4..] == suffix
  {
    var t := "..." + to + "}" + suffix;
    IndexUnique(t, '}', |to| + 3);
  }

  /** Position of the opening brace, and what follows it. */
  lemma OpenFound(prefix: string, rest: string)
    requires '{' !in prefix
    ensures var s := prefix + ("{" + rest); IndexOf(s, '{') == |prefix| < |s| && s[|prefix| + 1..] == rest
  {
    IndexUnique(prefix + ("{" + rest), '{', |prefix|);
  }

  lemma BraceAtFound(to: string, suffix: string, dots: nat)
    requires '}' !in to
    ensures BraceAt("..." + to + "}" + suffix, dots) == Some((dots, dots + 3 + |to|))
  {
    BraceFound(to, suffix);
  }

  lemma WrittenLayout(prefix: string, from: string, to: string, suffix: string)
    ensures Written(prefix, from, to, suffix) == prefix + ("{" + (from + ("..." + to + "}" + suffix)))
  {
  }

  lemma RestFound(from: string, to: string, suffix: string)
    requires '.' !in from && '}' !in to
    ensures DotsAt(from + ("..." + to + "}" + suffix)) == Some((|from|, |from| + 3 + |to|))
  {
    var t := "..." + to + "}" + suffix;
    BraceAtFound(to, suffix, |from|);
    DotsFound(from, t);
    TakeDrop(from, t);
  }

  /** The parts are found where they were written. */
  lemma WrittenFound(prefix: string, from: string, to: string, suffix: string)
    requires '{' !in prefix && '.' !in from && '}' !in to
    ensures var open, dots := |prefix|, |prefix| + 1 + |from|;
            PatternAt(Written(prefix, from, to, suffix)) == Some((open, dots, dots + 3 + |to|))
  {
    WrittenLayout(prefix, from, to, suffix);
    OpenFound(prefix, from + ("..." + to + "}" + suffix));
    RestFound(from, to, suffix);
  }

  /** The parts of a text around and between the marks. */
  ghost predicate Parts(s: string, at: (nat, nat, nat), prefix: string, from: string, to: string, suffix: string) {
    && at.0 < at.1 && at.1 + 3 <= at.2 < |s|
    && s[..at.0] == prefix && s[at.2 + 1..] == suffix && s[at.0 + 1..at.1] == from && s[at.1 + 3..at.2] == to
  }

  lemma WrittenParts(prefix: string, from: string, to: string, suffix: string)
    ensures var open, dots := |prefix|, |prefix| + 1 + |from|;
            Parts(Written(prefix, from, to, suffix), (open, dots, dots + 3 + |to|), prefix, from, to, suffix)
  {
  }

  lemma FromParts(s: string, at: (nat, nat, nat), prefix: string, from: string, to: string, suffix: string)
    requires PatternAt(s) == Some(at) && Parts(s, at, prefix, from, to, suffix) && from != []
    ensures ParsePattern(s) == PatternOf(prefix, suffix, from, to, from[0])
  {
    assert s[at.0 + 1] == s[at.0 + 1..at.1][0];
  }

  lemma {:induction false} DigitsLead(s: string)
    requires AllDigits(s)
    ensures LeadingDigits(s) == s
    decreases |s|
  {
    if s != [] {
      DigitsLead(s[1..]);
    }
  }

  lemma PlainNumber(d: string)
    requires AllDigits(d) && d != []
    ensures LeadingNumber(d) == Number(d)
  {
    DigitsLead(d);
    assert IsDigit(d[0]);
    assert DropSpaces(d) == d;
  }

  lemma NegativeNumber(d: string)
    requires AllDigits(d)
    ensures LeadingNumber("-" + d) == -(Number(d) as int)
  {
    DigitsLead(d);
    var s := "-" + d;
    assert DropSpaces(s) == s;
    assert s[1..] == d;
  }

  /** The number read back from its own text. */
  lemma NumberLeads(n: int)
    ensures LeadingNumber(SignedDecimal(n)) == n
  {
    DecimalIsNumber(if n < 0 then -n else n);
    if n < 0 {
      NegativeNumber(Decimal(-n));
    } else {
      PlainNumber(Decimal(n));
    }
  }

  lemma NumberText(n: int)
    ensures var s := SignedDecimal(n); s != [] && (IsDigit(s[0]) || s[0] == '-') && '.' !in s && '}' !in s
  {
    DecimalIsNumber(if n < 0 then -n else n);
  }

  /** A range of numbers between braces is read back with its surroundings, and refused when it runs
      backwards. */
  lemma NumericRoundTrip(prefix: string, a: int, b: int, suffix: string)
    requires '{' !in prefix
    ensures var s := prefix + "{" + SignedDecimal(a) + "..." + SignedDecimal(b) + "}" + suffix;
            PatternAt(s).Some? && ParsePattern(s) == if a <= b then Some(Numeric(prefix, suffix, a, b)) else None
  {
    var from, to := SignedDecimal(a), SignedDecimal(b);
    NumberLeads(a);
    NumberLeads(b);
    NumberText(a);
    NumberText(b);
    WrittenFound(prefix, from, to, suffix);
    WrittenParts(prefix, from, to, suffix);
    var s := Written(prefix, from, to, suffix);
    FromParts(s, PatternAt(s).value, prefix, from, to, suffix);
  }

  lemma LettersMake(prefix: string, first: char, last: char, suffix: string)
    requires IsLetter(first) && IsLetter(last)
    ensures PatternOf(prefix, suffix, [first], [last], first)
         == if first <= last then Some(Alpha(prefix, suffix, first, last)) else None
  {
  }

  /** The same for a range of letters. */
  lemma AlphaRoundTrip(prefix: string, first: char, last: char, suffix: string)
    requires '{' !in prefix && IsLetter(first) && IsLetter(last)
    ensures var s := prefix + "{" + [first] + "..." + [last] + "}" + suffix;
            && PatternAt(s).Some?
            && ParsePattern(s) == if first <= last then Some(Alpha(prefix, suffix, first, last)) else None
  {
    LettersMake(prefix, first, last, suffix);
    WrittenFound(prefix, [first], [last], suffix);
    WrittenParts(prefix, [first], [last], suffix);
    var s := Written(prefix, [first], [last], suffix);
    FromParts(s, PatternAt(s).value, prefix, [first], [last], suffix);
  }

  /** A range of numbers expands to its surroundings with each number in their middle, in order. */
  lemma NumericExpansion(prefix: string, suffix: string, a: int, b: int, i: nat)
    requires a + i <= b
    ensures var r := Expanded(Numeric(prefix, suffix, a, b));
            |r| == b - a + 1 && r[i] == prefix + SignedDecimal(a + i) + suffix
  {
  }

  /** The same for a range of letters. */
  lemma AlphaExpansion(prefix: string, suffix: string, first: char, last: char, i: nat)
    requires IsLetter(first) && IsLetter(last) && first as nat + i <= last as nat
    ensures var r := Expanded(Alpha(prefix, suffix, first, last));
            |r| == last as nat - first as nat + 1 && r[i] == prefix + [(first as nat + i) as char] + suffix
  {
  }

  // ----- argument lists -----

  /** The strings an argument stands for; None if it holds a bad pattern. */
  function ArgStrings(arg: string): Option<seq<string>> {
    if PatternAt(arg).None? then Some([arg])
    else
      ParsedIsProper(arg);
      var p := ParsePattern(arg);
      if p.None? then None else Some(Expanded(p.value))
  }

  /** All results of a partial function over a list, or None. */
  function Each<T, U>(f: T -> Option<U>, xs: seq<T>): (r: Option<seq<U>>)
    ensures r.Some? ==> |r.value| == |xs|
  {
    if xs == [] then Some([])
    else
      var n := |xs| - 1;
      var before, last := Each(f, xs[..n]), f(xs[n]);
      if before.None? || last.None? then None else Some(before.value + [last.value])
  }

  function Joined<U>(a: Option<seq<U>>, b: Option<seq<U>>): Option<seq<U>> {
    if a.None? || b.None? then None else Some(a.value + b.value)
  }

  lemma {:induction false} EachAppends<T, U>(f: T -> Option<U>, a: seq<T>, b: seq<T>)
    ensures Each(f, a + b) == Joined(Each(f, a), Each(f, b))
    decreases |b|
  {
    if b == [] {
      assert a + b == a;
      assert Each(f, a).Some? ==> Each(f, a).value + [] == Each(f, a).value;
    } else {
      var n := |b| - 1;
      assert (a + b)[..|a + b| - 1] == a + b[..n];
      EachAppends(f, a, b[..n]);
      var x, y, z := Each(f, a), Each(f, b[..n]), f(b[n]);
      if x.Some? && y.Some? && z.Some? {
        assert x.value + (y.value + [z.value]) == (x.value + y.value) + [z.value];
      }
    }
  }

  type Expansion = string -> Option<seq<string>>
  type Parser = string -> Option<Endpoint>

  /** The strings of the first `n` arguments. */
  function StringsUpTo(f: Expansion, args: seq<string>, n: nat): Option<seq<string>>
    requires n <= |args|
  {
    if n == 0 then Some([]) else Joined(StringsUpTo(f, args, n - 1), f(args[n - 1]))
  }

  /** The endpoints an argument list stands for, or None if a pattern or an endpoint is bad. */
  function EndpointsOf(f: Expansion, parse: Parser, args: seq<string>): Option<seq<Endpoint>> {
    var strings := StringsUpTo(f, args, |args|);
    if strings.None? then None else Each(parse, strings.value)
  }

  /** Slots the counting pass reserves for an argument. */
  function ArgCount(arg: string): Option<nat> {
    if PatternAt(arg).None? then Some(1)
    else
      ParsedIsProper(arg);
      var p := ParsePattern(arg);
      if p.None? then None else Some(Count(p.value))
  }

  ghost predicate Counts(count: string -> Option<nat>, f: Expansion) {
    forall arg :: count(arg) == if f(arg).None? then None else Some(|f(arg).value|)
  }

  lemma ArgCountCounts()
    ensures Counts(ArgCount, ArgStrings)
  {
  }

  /** The expansion loop. */
  method ExpandPattern(p: Pattern) returns (results: seq<string>)
    requires Proper(p)
    ensures results == Expanded(p)
  {
    ghost var target := Expanded(p);
    results := [];
    for i := 0 to Count(p)
      invariant results == target[..i]
    {
      results := results + [p.prefix + Middle(p, i) + p.suffix];
    }
  }

  /** Slots needed for all arguments, or None if one is bad. */
  method CountSlots(args: seq<string>, count: string -> Option<nat>, ghost f: Expansion) returns (total: Option<nat>)
    requires Counts(count, f)
    ensures var all := StringsUpTo(f, args, |args|); total == if all.None? then None else Some(|all.value|)
  {
    var n := 0;
    for i := 0 to |args|
      invariant StringsUpTo(f, args, i).Some? && n == |StringsUpTo(f, args, i).value|
    {
      var c := count(args[i]);
      if c.None? {
        BadArg(f, args, i + 1, |args|);
        return None;
      }
      n := n + c.value;
    }
    return Some(n);
  }

  /** Counts the slots, then fills them.  The filling pass writes exactly as many endpoints as the
      counting pass reserved, never past the end, and they are the parses of the expanded arguments
      in order; no arguments, a bad pattern or a bad endpoint fails the whole call. */
  method ParseAll(args: seq<string>) returns (r: Option<seq<Endpoint>>)
    ensures r == if args == [] then None else EndpointsOf(ArgStrings, Parse, args)
  {
    if |args| == 0 {
      return None;
    }
    ArgCountCounts();
    var total := CountSlots(args, ArgCount, ArgStrings);
    if total.None? {
      return None;
    }
    var slots := new Endpoint[total.value](_ => Path(""));
    var ok := FillAll(args, slots, ArgStrings, Parse);
    return if ok then Some(slots[..]) else None;
  }

  /** The filling pass. */
  method FillAll(args: seq<string>, slots: array<Endpoint>, f: Expansion, parse: Parser) returns (ok: bool)
    requires StringsUpTo(f, args, |args|).Some? && slots.Length == |StringsUpTo(f, args, |args|).value|
    modifies slots
    ensures ok <==> EndpointsOf(f, parse, args).Some?
    ensures ok ==> slots[..] == EndpointsOf(f, parse, args).value
  {
    var idx: nat := 0;
    for i := 0 to |args|
      invariant StringsUpTo(f, args, i).Some? && Filled(parse, StringsUpTo(f, args, i).value, slots[..], idx)
    {
      StringsGrow(f, args, i + 1, |args|);
      var strings := f(args[i]).value;
      ok := FillMore(parse, strings, slots, idx, StringsUpTo(f, args, i).value);
      if !ok {
        BadEndpoint(f, parse, args, i + 1, |args|);
        return false;
      }
      idx := idx + |strings|;
    }
    assert slots[..][..idx] == slots[..];
    return true;
  }

  /** The first `idx` slots hold the endpoints of `strings`. */
  ghost predicate Filled(parse: Parser, strings: seq<string>, slots: seq<Endpoint>, idx: nat) {
    idx == |strings| <= |slots| && Each(parse, strings) == Some(slots[..idx])
  }

  method FillMore(parse: Parser, strings: seq<string>, slots: array<Endpoint>, idx: nat,
                  ghost before: seq<string>) returns (ok: bool)
    requires Filled(parse, before, slots[..], idx) && idx + |strings| <= slots.Length
    modifies slots
    ensures if ok then Filled(parse, before + strings, slots[..], idx + |strings|)
            else Each(parse, before + strings).None?
  {
    EachAppends(parse, before, strings);
    ghost var done := slots[..idx];
    assert slots[..][..idx] == done;
    ok := FillSlots(parse, strings, slots, idx);
    assert slots[..][..idx + |strings|] == done + slots[idx..idx + |strings|];
  }

  /** Parses strings into consecutive slots. */
  method FillSlots(parse: Parser, strings: seq<string>, slots: array<Endpoint>, idx: nat) returns (ok: bool)
    requires idx + |strings| <= slots.Length
    modifies slots
    ensures ok <==> Each(parse, strings).Some?
    ensures slots[..idx] == old(slots[..idx])
    ensures ok ==> slots[idx..idx + |strings|] == Each(parse, strings).value
  {
    assert strings[..0] == [] && slots[idx..idx] == [];
    for j := 0 to |strings|
      invariant slots[..idx] == old(slots[..idx])
      invariant Each(parse, strings[..j]) == Some(slots[idx..idx + j])
    {
      assert strings[..j + 1][..j] == strings[..j];
      var e := parse(strings[j]);
      if e.None? {
        PrefixFails(parse, strings, j + 1);
        return false;
      }
      ghost var filled := slots[idx..idx + j];
      slots[idx + j] := e.value;
      assert slots[idx..idx + j + 1] == filled + [e.value];
    }
    assert strings[..|strings|] == strings;
    return true;
  }

  lemma {:induction false} PrefixFails<T, U>(f: T -> Option<U>, xs: seq<T>, j: nat)
    requires j <= |xs| && Each(f, xs[..j]).None?
    ensures Each(f, xs).None?
    decreases |xs| - j
  {
    if j == |xs| {
      assert xs[..j] == xs;
    } else {
      assert xs[..j + 1][..j] == xs[..j];
      PrefixFails(f, xs, j + 1);
    }
  }

  lemma {:induction false} BadArg(f: Expansion, args: seq<string>, i: nat, n: nat)
    requires i <= n <= |args| && StringsUpTo(f, args, i).None?
    ensures StringsUpTo(f, args, n).None?
    decreases n
  {
    if i < n {
      BadArg(f, args, i, n - 1);
    }
  }

  lemma {:induction false} StringsGrow(f: Expansion, args: seq<string>, i: nat, n: nat)
    requires i <= n <= |args| && StringsUpTo(f, args, n).Some?
    ensures StringsUpTo(f, args, i).Some? && |StringsUpTo(f, args, i).value| <= |StringsUpTo(f, args, n).value|
    decreases n
  {
    if i < n {
      StringsGrow(f, args, i, n - 1);
    }
  }

  lemma {:induction false} BadEndpoint(f: Expansion, parse: Parser, args: seq<string>, i: nat, n: nat)
    requires i <= n <= |args| && StringsUpTo(f, args, n).Some? && StringsUpTo(f, args, i).Some?
    requires Each(parse, StringsUpTo(f, args, i).value).None?
    ensures Each(parse, StringsUpTo(f, args, n).value).None?
    decreases n
  {
    if i < n {
      StringsGrow(f, args, n - 1, n);
      BadEndpoint(f, parse, args, i, n - 1);
      EachAppends(parse, StringsUpTo(f, args, n - 1).value, f(args[n - 1]).value);
    }
  }
}
