/**
 Normalization of target URLs (src/core/utils.cpp): scheme and host in lower case and default ports
 dropped, as sections 6.2.2.1 and 6.2.3 of RFC 3986 describe.
 */
module TargetUrl {
  import opened Text
  import opened Wrappers

  const AUTHORITY_END := {'/', '?', '#'}

  const LINE_ENDS := {'\n', '\r'}

  predicate IsScheme(s: string) {
    && s != "" && IsLetter(s[0])
    && forall i :: 0 <= i < |s| ==> IsAlnum(s[i]) || s[i] == '+' || s[i] == '.' || s[i] == '-'
  }

  /**
   The regular expression of splitUrl, as a relation: scheme, "://", a non-empty authority without
   '/', '?' or '#', and a rest in which '.' matches everything but line ends.
   */
  ghost predicate UrlRegex(s: string, scheme: string, authority: string, tail: string) {
    && s == scheme + ("://" + (authority + tail))
    && IsScheme(scheme)
    && authority != "" && NoneOf(authority, {'/', '?', '#'})
    && NoneOf(tail, {'\n', '\r'})
  }

  predicate HasLineEnd(s: string) {
    exists i :: 0 <= i < |s| && s[i] in LINE_ENDS
  }

  /** Scheme, and authority with everything after it. */
  function SplitUrl(s: string): Option<(string, string)> {
    var (scheme, after) := Cut(s, {':'});
    if !IsScheme(scheme) || !("://" <= after) then None else
      var rest := after[3..];
      var (authority, tail) := Cut(rest, AUTHORITY_END);
      if authority == "" || HasLineEnd(tail) then None else Some((scheme, rest))
  }

  lemma SchemeHasNoColon(scheme: string)
    requires IsScheme(scheme)
    ensures NoneOf(scheme, {':'})
  {
  }

  lemma {:induction false} SplitGiven(s: string, scheme: string, rest: string)
    requires IsScheme(scheme) && s == scheme + ("://" + rest)
    ensures var (authority, tail) := Cut(rest, AUTHORITY_END);
            SplitUrl(s) == if authority == "" || HasLineEnd(tail) then None else Some((scheme, rest))
  {
    SchemeHasNoColon(scheme);
    CutUnique(scheme, "://" + rest, {':'});
    assert ("://" + rest)[3..] == rest;
  }

  /** Taking more into the authority of a match leaves a match. */
  lemma {:induction false} AuthorityGrows(authority: string, tail: string, ends: set<char>, lines: set<char>)
    requires authority != "" && NoneOf(authority, ends) && NoneOf(tail, lines)
    ensures var (most, rest) := Cut(authority + tail, ends); most != "" && NoneOf(rest, lines)
  {
    var (t, u) := Cut(tail, ends);
    CutBehind(authority, t, u, ends);
    assert authority + tail == authority + (t + u);
    NoneOfConcat(t, u, lines);
  }

  lemma {:induction false} CutBehind(a: string, t: string, u: string, ends: set<char>)
    requires NoneOf(a, ends) && NoneOf(t, ends) && (u == "" || u[0] in ends)
    ensures Cut(a + (t + u), ends) == (a + t, u)
  {
    NoneOfConcat(a, t, ends);
    assert a + (t + u) == (a + t) + u;
    CutUnique(a + t, u, ends);
  }

  /** `regex_match` prefers the longest authority, but every match has the same scheme and rest. */
  lemma RegexSplits(s: string, scheme: string, authority: string, tail: string)
    requires UrlRegex(s, scheme, authority, tail)
    ensures SplitUrl(s) == Some((scheme, authority + tail))
  {
    SplitGiven(s, scheme, authority + tail);
    AuthorityGrows(authority, tail, AUTHORITY_END, LINE_ENDS);
  }

  lemma SplitMatches(s: string)
    requires SplitUrl(s).Some?
    ensures var (scheme, rest) := SplitUrl(s).value;
            var (authority, tail) := Cut(rest, AUTHORITY_END);
            UrlRegex(s, scheme, authority, tail)
  {
    var (scheme, after) := Cut(s, {':'});
    assert after == "://" + after[3..];
  }

  /** Splitting succeeds exactly when the expression matches, and any match gives these two parts. */
  lemma SplitUrlIsRegex(s: string)
    ensures SplitUrl(s).Some? <==> exists scheme, authority, tail :: UrlRegex(s, scheme, authority, tail)
    ensures forall scheme, authority, tail :: UrlRegex(s, scheme, authority, tail) ==>
              SplitUrl(s) == Some((scheme, authority + tail))
  {
    if SplitUrl(s).Some? {
      SplitMatches(s);
    }
    forall scheme, authority, tail | UrlRegex(s, scheme, authority, tail)
      ensures SplitUrl(s) == Some((scheme, authority + tail))
    {
      RegexSplits(s, scheme, authority, tail);
    }
  }

  predicate IsPrivateName(h: string) {
    || h == "localhost" || h == "::1" || h == "::" || h == "0.0.0.0" || h == "[::1]" || h == "[::]"
    || h == "internal" || h == "localhost.localdomain" || HasInfix(h, ".internal") || HasInfix(h, ".local")
  }

  predicate StartsIn172(h: string) {
    || HasPrefix(h, "172.16.") || HasPrefix(h, "172.17.") || HasPrefix(h, "172.18.") || HasPrefix(h, "172.19.")
    || HasPrefix(h, "172.20.") || HasPrefix(h, "172.21.") || HasPrefix(h, "172.22.") || HasPrefix(h, "172.23.")
    || HasPrefix(h, "172.24.") || HasPrefix(h, "172.25.") || HasPrefix(h, "172.26.") || HasPrefix(h, "172.27.")
    || HasPrefix(h, "172.28.") || HasPrefix(h, "172.29.") || HasPrefix(h, "172.30.") || HasPrefix(h, "172.31.")
  }

  predicate HasPrivatePrefix(h: string) {
    || HasPrefix(h, "127.") || HasPrefix(h, "10.") || HasPrefix(h, "192.168.") || HasPrefix(h, "169.254.") || StartsIn172(h)
    || HasPrefix(h, "fc") || HasPrefix(h, "fd") || HasPrefix(h, "fe80:")
  }

  /** An address in brackets counts as what is inside them. */
  function WithoutBrackets(h: string): string {
    if |h| >= 2 && h[0] == '[' && h[|h| - 1] == ']' then h[1..|h| - 1] else h
  }

  predicate IsPrivateHost(host: string) {
    var h := Lower(host);
    var effective := WithoutBrackets(h);
    IsPrivateName(h) || effective == "localhost" || effective == "::1" || HasPrivatePrefix(effective)
  }

  /** Hosts the configuration turns away; the results below hold for any such set. */
  function Blocked(allowPrivate: bool): string -> bool {
    (host: string) => !allowPrivate && IsPrivateHost(host)
  }

  predicate IsDefaultPort(scheme: string, port: string) {
    (scheme == "http" && port == "80") || (scheme == "https" && port == "443")
  }

  /**
   The port part of the output, from what follows the host in the authority: a default or empty
   port is left out.
   */
  function PortText(scheme: string, afterHost: string): string {
    if afterHost == "" || afterHost == ":" || IsDefaultPort(scheme, afterHost[1..]) then "" else afterHost
  }

  function Render(scheme: string, host: string, portText: string, tail: string): string {
    scheme + ("://" + ((host + portText) + tail))
  }

  /** Everything after the split, on the lower-case scheme. */
  function NormalizeParts(scheme: string, rest: string, blocked: string -> bool): Option<string> {
    var (authority, tail) := Cut(rest, AUTHORITY_END);
    var (host, afterHost) := Cut(authority, {':'});
    if (scheme != "http" && scheme != "https") || '@' in authority then None
    else if host == "" || blocked(Lower(host)) then None
    else Some(Render(scheme, Lower(host), PortText(scheme, afterHost), tail))
  }

  function Normalize(input: string, blocked: string -> bool): Option<string> {
    var split := SplitUrl(Trim(input));
    if split.None? then None else NormalizeParts(Lower(split.value.0), split.value.1, blocked)
  }

  /** The four texts behind a host that mean the default port. */
  predicate IsDroppedPort(scheme: string, afterHost: string) {
    afterHost == "" || afterHost == ":" || (scheme == "http" && afterHost == ":80") || (scheme == "https" && afterHost == ":443")
  }

  lemma {:induction false} PortTextExactly(scheme: string, afterHost: string)
    requires afterHost == "" || afterHost[0] == ':'
    ensures PortText(scheme, afterHost) == if IsDroppedPort(scheme, afterHost) then "" else afterHost
  {
    assert afterHost != "" ==> afterHost == ":" + afterHost[1..];
  }

  /**
   What normalization does to a URL given by its pieces: lower-case scheme and host, no default or
   empty port, everything after the authority verbatim.
   */
  lemma NormalizeMeaning(scheme: string, host: string, afterHost: string, tail: string, blocked: string -> bool)
    requires IsScheme(scheme) && (Lower(scheme) == "http" || Lower(scheme) == "https")
    requires host != "" && NoneOf(host, {'/', '?', '#'}) && NoneOf(host, {':', '@'})
    requires (afterHost == "" || afterHost[0] == ':') && NoneOf(afterHost, {'/', '?', '#'}) && NoneOf(afterHost, {'@'})
    requires (tail == "" || tail[0] in {'/', '?', '#'}) && NoneOf(tail, {'\n', '\r'})
    requires Trimmed(Render(scheme, host, afterHost, tail))
    ensures Normalize(Render(scheme, host, afterHost, tail), blocked)
         == if blocked(Lower(host)) then None
            else if IsDroppedPort(Lower(scheme), afterHost) then Some(Render(Lower(scheme), Lower(host), "", tail))
            else Some(Render(Lower(scheme), Lower(host), afterHost, tail))
  {
    var authority := host + afterHost;
    PortTextExactly(Lower(scheme), afterHost);
    TrimResult(Render(scheme, host, afterHost, tail));
    NoneOfConcat(host, afterHost, AUTHORITY_END);
    NoneOfConcat(host, afterHost, {'@'});
    RegexSplits(Render(scheme, host, afterHost, tail), scheme, authority, tail);
    CutUnique(authority, tail, AUTHORITY_END);
    CutUnique(host, afterHost, {':'});
  }

  // ----- a second pass -----

  /** What the pieces of a normalized URL look like. */
  ghost predicate Normal(scheme: string, host: string, portText: string, tail: string, blocked: string -> bool) {
    && (scheme == "http" || scheme == "https")
    && host != "" && Lower(host) == host && !blocked(host)
    && NoneOf(host, AUTHORITY_END) && NoneOf(host, {':', '@'})
    && (portText == "" || (portText[0] == ':' && !IsDroppedPort(scheme, portText)))
    && NoneOf(portText, AUTHORITY_END) && NoneOf(portText, {'@'})
    && (tail == "" || tail[0] in AUTHORITY_END) && NoneOf(tail, LINE_ENDS)
  }

  lemma LowerKeepsMarks(s: string, cs: set<char>)
    requires NoneOf(s, cs) && forall c :: c in cs ==> !IsLetter(c)
    ensures NoneOf(Lower(s), cs)
  {
  }

  lemma SchemeText(scheme: string)
    requires scheme == "http" || scheme == "https"
    ensures IsScheme(scheme) && Lower(scheme) == scheme
  {
  }

  /** The result of normalization is in normal form. */
  lemma {:induction false} PartsGiveNormal(scheme: string, rest: string, blocked: string -> bool)
    requires NormalizeParts(scheme, rest, blocked).Some?
    requires NoneOf(Cut(rest, AUTHORITY_END).1, LINE_ENDS)
    ensures var (authority, tail) := Cut(rest, AUTHORITY_END);
            var (host, afterHost) := Cut(authority, {':'});
            Normal(scheme, Lower(host), PortText(scheme, afterHost), tail, blocked)
  {
    var (authority, tail) := Cut(rest, AUTHORITY_END);
    var (host, afterHost) := Cut(authority, {':'});
    NoneOfConcat(host, afterHost, AUTHORITY_END);
    assert NoneOf(authority, {'@'});
    NoneOfConcat(host, afterHost, {'@'});
    LowerTwice(host);
    PortTextExactly(scheme, afterHost);
    LowerKeepsMarks(host, AUTHORITY_END);
    LowerKeepsMarks(host, {':', '@'});
  }

  /** A URL in normal form. */
  ghost predicate IsNormalUrl(url: string, blocked: string -> bool) {
    exists scheme, host, portText, tail :: url == Render(scheme, host, portText, tail) && Normal(scheme, host, portText, tail, blocked)
  }

  lemma NormalizeGivesNormal(input: string, blocked: string -> bool)
    requires Normalize(input, blocked).Some?
    ensures IsNormalUrl(Normalize(input, blocked).value, blocked)
  {
    var (scheme0, rest) := SplitUrl(Trim(input)).value;
    SplitMatches(Trim(input));
    PartsGiveNormal(Lower(scheme0), rest, blocked);
  }

  /** A normalized URL is split into its own pieces again. */
  lemma NormalSplits(scheme: string, host: string, portText: string, tail: string, blocked: string -> bool)
    requires Normal(scheme, host, portText, tail, blocked)
    ensures SplitUrl(Render(scheme, host, portText, tail)) == Some((scheme, (host + portText) + tail))
    ensures NormalizeParts(scheme, (host + portText) + tail, blocked) == Some(Render(scheme, host, portText, tail))
  {
    var authority := host + portText;
    PortTextExactly(scheme, portText);
    NoneOfConcat(host, portText, AUTHORITY_END);
    NoneOfConcat(host, portText, {'@'});
    SchemeText(scheme);
    RegexSplits(Render(scheme, host, portText, tail), scheme, authority, tail);
    CutUnique(authority, tail, AUTHORITY_END);
    CutUnique(host, portText, {':'});
  }

  /** A result that is already trimmed is a fixed point. */
  lemma SecondPass(scheme: string, host: string, portText: string, tail: string, blocked: string -> bool)
    requires Normal(scheme, host, portText, tail, blocked)
    requires Trimmed(Render(scheme, host, portText, tail))
    ensures Normalize(Render(scheme, host, portText, tail), blocked) == Some(Render(scheme, host, portText, tail))
  {
    TrimResult(Render(scheme, host, portText, tail));
    NormalSplits(scheme, host, portText, tail, blocked);
    SchemeText(scheme);
  }

  lemma NormalizeShortens(input: string, blocked: string -> bool)
    requires Normalize(input, blocked).Some?
    ensures |Normalize(input, blocked).value| <= |Trim(input)|
  {
    SplitMatches(Trim(input));
  }

  /** The family on which a second pass changes the result: a dropped port after a host that ends in a blank. */
  predicate BlankBeforeDroppedPort(input: string) {
    var split := SplitUrl(Trim(input));
    split.Some? &&
    var (authority, tail) := Cut(split.value.1, AUTHORITY_END);
    var (host, afterHost) := Cut(authority, {':'});
    && tail == "" && host != "" && IsBlank(host[|host| - 1])
    && afterHost != "" && IsDroppedPort(Lower(split.value.0), afterHost)
  }

  function Last(s: string): char
    requires s != ""
  {
    s[|s| - 1]
  }

  lemma LastOfConcat(a: string, b: string)
    requires b != ""
    ensures Last(a + b) == Last(b)
  {
  }

  /** The last character of the output. */
  lemma LastOfRender(scheme: string, host: string, portText: string, tail: string)
    requires host != ""
    ensures Last(Render(scheme, host, portText, tail))
         == if tail != "" then Last(tail) else if portText != "" then Last(portText) else Last(host)
  {
    if tail != "" {
      LastOfConcat(host + portText, tail);
    } else {
      assert (host + portText) + tail == host + portText;
      if portText != "" {
        LastOfConcat(host, portText);
      } else {
        assert host + portText == host;
      }
    }
    LastOfConcat("://", (host + portText) + tail);
    LastOfConcat(scheme, "://" + ((host + portText) + tail));
  }

  /** Only the family above ends in a blank. */
  lemma ResultTrimmed(input: string, blocked: string -> bool)
    requires Normalize(input, blocked).Some?
    ensures Trimmed(Normalize(input, blocked).value) <==> !BlankBeforeDroppedPort(input)
  {
    var trimmed := Trim(input);
    TrimResult(input);
    SplitMatches(trimmed);
    var (scheme, rest) := SplitUrl(trimmed).value;
    var (authority, tail) := Cut(rest, AUTHORITY_END);
    var (host, afterHost) := Cut(authority, {':'});
    var portText := PortText(Lower(scheme), afterHost);
    PortTextExactly(Lower(scheme), afterHost);
    assert Render(scheme, host, afterHost, tail) == trimmed;
    RenderedTrimmed(scheme, host, afterHost, portText, tail);
  }

  /** Whether the output ends in a blank, from the pieces of a trimmed input. */
  lemma {:induction false} RenderedTrimmed(scheme: string, host: string, afterHost: string, portText: string, tail: string)
    requires Lower(scheme) == "http" || Lower(scheme) == "https"
    requires host != "" && Trimmed(Render(scheme, host, afterHost, tail))
    requires portText == if IsDroppedPort(Lower(scheme), afterHost) then "" else afterHost
    ensures Trimmed(Render(Lower(scheme), Lower(host), portText, tail)) <==>
              !(tail == "" && IsBlank(host[|host| - 1]) && afterHost != "" && IsDroppedPort(Lower(scheme), afterHost))
  {
    LastOfRender(Lower(scheme), Lower(host), portText, tail);
    LastOfRender(scheme, host, afterHost, tail);
    assert Render(Lower(scheme), Lower(host), portText, tail)[0] == 'h';
  }

  /**
   Normalizing twice gives the same string exactly outside that family; in particular it always
   does when the authority holds no blank.
   */
  lemma NormalizeIdempotentExactly(input: string, blocked: string -> bool)
    requires Normalize(input, blocked).Some?
    ensures var y := Normalize(input, blocked).value;
            Normalize(y, blocked) == Some(y) <==> !BlankBeforeDroppedPort(input)
  {
    var (scheme0, rest) := SplitUrl(Trim(input)).value;
    var (authority, tail) := Cut(rest, AUTHORITY_END);
    var (host, afterHost) := Cut(authority, {':'});
    var scheme := Lower(scheme0);
    var y := Normalize(input, blocked).value;
    SplitMatches(Trim(input));
    PartsGiveNormal(scheme, rest, blocked);
    ResultTrimmed(input, blocked);
    if Trimmed(y) {
      SecondPass(scheme, Lower(host), PortText(scheme, afterHost), tail, blocked);
    } else {
      TrimResult(y);
      if Normalize(y, blocked).Some? {
        NormalizeShortens(y, blocked);
      }
    }
  }

  lemma {:induction false} BlankHostFirstPass(input: string, host: string, blocked: string -> bool)
    requires host != "" && IsBlank(Last(host)) && NoneOf(host, {':', '@'}) && !blocked(Lower(host))
    requires Trim(input) == input && SplitUrl(input) == Some(("http", host + ":80"))
    requires Cut(host + ":80", AUTHORITY_END) == (host + ":80", "")
    ensures Normalize(input, blocked) == Some(Render("http", Lower(host), "", "")) && BlankBeforeDroppedPort(input)
  {
    SchemeText("http");
    CutUnique(host, ":80", {':'});
    NoneOfConcat(host, ":80", {'@'});
    PortTextExactly("http", ":80");
    assert NormalizeParts("http", host + ":80", blocked) == Some(Render("http", Lower(host), "", ""));
  }

  /** A host ending in a blank with port 80: the first pass leaves the blank last, the second strips it. */
  lemma BlankHostFails(host: string, blocked: string -> bool)
    requires host != "" && IsBlank(Last(host)) && NoneOf(host, AUTHORITY_END) && NoneOf(host, {':', '@'})
    requires !blocked(Lower(host))
    ensures var input := Render("http", host, ":80", "");
            var once := Render("http", Lower(host), "", "");
            Normalize(input, blocked) == Some(once) && Normalize(once, blocked) != Some(once)
  {
    var input := Render("http", host, ":80", "");
    LastOfRender("http", host, ":80", "");
    TrimResult(input);
    SchemeText("http");
    NoneOfConcat(host, ":80", AUTHORITY_END);
    RegexSplits(input, "http", host + ":80", "");
    CutUnique(host + ":80", "", AUTHORITY_END);
    assert (host + ":80") + "" == host + ":80";
    BlankHostFirstPass(input, host, blocked);
    NormalizeIdempotentExactly(input, blocked);
  }

  /** One input of the family: http://a :80 */
  lemma NormalizeNotIdempotent(blocked: string -> bool)
    requires !blocked("a ")
    ensures Normalize(Render("http", "a ", ":80", ""), blocked) == Some(Render("http", "a ", "", ""))
    ensures Normalize(Render("http", "a ", "", ""), blocked) != Some(Render("http", "a ", "", ""))
  {
    assert Lower("a ") == "a ";
    BlankHostFails("a ", blocked);
  }
}
