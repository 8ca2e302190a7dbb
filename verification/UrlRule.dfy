/**
  The URL rule of the text sanitizer: every URL match is answered by `sanitizeUrl`, which may
  print the parsed origin anew. What that can bring back, for every parser that prints
  origins the way URL parsing does.
 */
module UrlRule {
  import opened Strings
  import opened Redaction
  import opened Urls
  import opened Passes

  function UrlAnswer(parse: Parser, internalOrigins: seq<string>, keepNetwork: bool): string -> string {
    raw => SanitizeUrl(raw, parse, internalOrigins, keepNetwork)
  }

  // ---------------------------------------------------------------- what patterns and parsers do

  const SCHEMES := ["http://", "https://", "ws://", "wss://"]

  lemma SchemeShape(p: string)
    requires p in SCHEMES
    ensures 5 <= |p| <= 8 && p[|p| - 3..] == "://" && (p[0] == 'h' || p[0] == 'w')
    ensures forall k :: 0 <= k < |p| - 3 ==> IsLowerLetter(p[k])
  {
  }

  predicate StartsWith(t: string, m: string) { |t| >= |m| && t[..|m|] == m }

  /** What the URL pattern requires of a match: one of four schemes, in any case. */
  predicate IsWebUrl(c: string) {
    exists p :: p in SCHEMES && StartsWith(Lower(c), p)
  }

  ghost predicate WebHits(m: Matches) {
    m.Hit? ==> IsWebUrl(m.hit) && WebHits(m.next)
  }

  /**
    The characters that URL parsing leaves in a domain: visible ASCII without capitals and
    without the forbidden `#`, `%`, `/`, `:`, `<`, `>`, `?`, `@`, brackets, backslash, `^` and bar.
   */
  predicate IsHostChar(c: char) {
    || c == '!' || c == '\"' || c == '$' || '&' <= c <= '.' || IsDigit(c) || c == ';' || c == '='
    || '_' <= c <= '{' || c == '}' || c == '~'
  }

  /** From `n` on a domain, and after a colon nothing but digits. */
  predicate IsDomainAndPort(o: string, n: nat) {
    && n < |o| && IsHostChar(o[n])
    && (forall k :: n <= k < |o| ==> IsHostChar(o[k]) || o[k] == ':')
    && (forall j, k :: n <= j < k < |o| && o[j] == ':' ==> IsDigit(o[k]))
  }

  predicate IsIpv6Char(c: char) { IsDigit(c) || 'a' <= c <= 'f' || c == ':' }

  /** From `n` on an IPv6 address in brackets, and its port. */
  predicate IsIpv6AndPort(o: string, n: nat) {
    && n < |o| && o[n] == '['
    && forall k :: n <= k < |o| ==> IsIpv6Char(o[k]) || o[k] == '[' || o[k] == ']'
  }

  predicate IsOriginOf(o: string, scheme: string) {
    StartsWith(o, scheme) && (IsDomainAndPort(o, |scheme|) || IsIpv6AndPort(o, |scheme|))
  }

  /** What URL parsing prints as the origin of such a URL: scheme, host and port. */
  predicate IsWebOrigin(o: string) {
    exists p :: p in SCHEMES && IsOriginOf(o, p)
  }

  /** The law of `new URL(c).origin` on http, https, ws and wss URLs. */
  ghost predicate PrintsWebOrigins(parse: Parser) {
    forall c :: IsWebUrl(c) && parse(c).Some? ==> IsWebOrigin(parse(c).value.origin)
  }

  /** Printing the origin and the inserted text in place of a URL never introduces `s`. */
  ghost predicate ReprintsAreQuiet(s: string, parse: Parser) {
    forall c :: IsWebUrl(c) && parse(c).Some? ==> Replaceable(s, c, parse(c).value.origin + "/[redacted]")
  }

  /** Cutting the trailing text leaves the scheme. */
  lemma KeptIsWeb(raw: string)
    requires IsWebUrl(raw)
    ensures IsWebUrl(Kept(raw))
  {
    var p :| p in SCHEMES && StartsWith(Lower(raw), p);
    SchemeShape(p);
    KeptStarts(raw, p);
  }

  lemma KeptStarts(raw: string, scheme: string)
    requires StartsWith(Lower(raw), scheme) && scheme != "" && scheme[|scheme| - 1] == '/'
    ensures StartsWith(Lower(Kept(raw)), scheme)
  {
    var n := |scheme|;
    KeptEnds(raw);
    assert LowerChar(raw[n - 1]) == Lower(raw)[..n][n - 1] == '/';
    assert raw[..n][n - 1] == raw[n - 1] && !EndsStrippable(raw[..n]);
    assert |Kept(raw)| >= n;
    assert Lower(Kept(raw))[..n] == Lower(raw)[..n];
  }

  // ---------------------------------------------------------------- the rule keeps secrets out

  lemma UrlAnswerIsSafe(s: string, raw: string, parse: Parser, origins: seq<string>, keepNetwork: bool)
    requires s != "" && !Touches(s, "[redacted-url]") && !Touches(s, "[internal-url]")
    requires IsWebUrl(raw) && ReprintsAreQuiet(s, parse)
    ensures SafeAnswer(s, raw, UrlAnswer(parse, origins, keepNetwork)(raw))
  {
    var c := Kept(raw);
    var z := raw[|c|..];
    KeptIsWeb(raw);
    assert raw == c + z;
    match parse(c)
    case None =>
      UntouchedIsReplaceable(s, c, "[redacted-url]");
      CutIsSafe(s, c, "[redacted-url]", z);
    case Some(url) =>
      if !keepNetwork && IsInternal(url, origins) {
        UntouchedIsReplaceable(s, c, "[internal-url]");
        CutIsSafe(s, c, "[internal-url]", z);
      } else if CarriesSecrets(url) {
        CutIsSafe(s, c, url.origin + "/[redacted]", z);
      }
  }

  lemma {:induction false} WebHitsAreSafe(s: string, m: Matches, parse: Parser, origins: seq<string>, keepNetwork: bool)
    requires s != "" && !Touches(s, "[redacted-url]") && !Touches(s, "[internal-url]")
    requires WebHits(m) && ReprintsAreQuiet(s, parse)
    ensures AllSafe(s, m, UrlAnswer(parse, origins, keepNetwork))
  {
    if m.Hit? {
      UrlAnswerIsSafe(s, m.hit, parse, origins, keepNetwork);
      WebHitsAreSafe(s, m.next, parse, origins, keepNetwork);
    }
  }

  lemma UrlRuleKeepsOut(text: string, find: Matcher, parse: Parser, origins: seq<string>, keepNetwork: bool, s: string)
    requires s != "" && !Touches(s, "[redacted-url]") && !Touches(s, "[internal-url]")
    requires ReprintsAreQuiet(s, parse)
    requires Source(find(text)) == text && WebHits(find(text)) && !Contains(text, s)
    ensures !Contains(Rewrite(find(text), UrlAnswer(parse, origins, keepNetwork)), s)
  {
    WebHitsAreSafe(s, find(text), parse, origins, keepNetwork);
    PassKeepsOut(text, find, UrlAnswer(parse, origins, keepNetwork), s);
  }

  // ---------------------------------------------------------------- the exact condition

  /** `s` touches no origin with the text that is inserted after it. */
  ghost predicate MissesOrigins(s: string) {
    forall o :: IsWebOrigin(o) ==> !Touches(s, o + "/[redacted]")
  }

  /** The URL rule brings `s` into no text that lacks it, for every URL pattern, every parser and both modes. */
  ghost predicate UrlRuleNeverIntroduces(s: string) {
    forall find: Matcher, text, parse: Parser, origins, keepNetwork ::
      Source(find(text)) == text && WebHits(find(text)) && PrintsWebOrigins(parse) && !Contains(text, s) ==>
        !Contains(Rewrite(find(text), UrlAnswer(parse, origins, keepNetwork)), s)
  }

  lemma MissesOriginsIsQuiet(s: string, parse: Parser)
    requires s != "" && MissesOrigins(s) && PrintsWebOrigins(parse)
    ensures ReprintsAreQuiet(s, parse)
  {
    forall c | IsWebUrl(c) && parse(c).Some? ensures Replaceable(s, c, parse(c).value.origin + "/[redacted]") {
      UntouchedIsReplaceable(s, c, parse(c).value.origin + "/[redacted]");
    }
  }

  /** A part of "://" is in every text that holds a URL, so the rule cannot introduce it. */
  lemma SchemePartIsQuiet(s: string, parse: Parser)
    requires Contains("://", s)
    ensures ReprintsAreQuiet(s, parse)
  {
    forall c | IsWebUrl(c) && parse(c).Some? ensures Replaceable(s, c, parse(c).value.origin + "/[redacted]") {
      forall a: string ensures Contains(a + c, s) { WebUrlHoldsSchemePart(a, c, s); }
    }
  }

  lemma WebUrlHoldsSchemePart(a: string, c: string, s: string)
    requires IsWebUrl(c) && Contains("://", s)
    ensures Contains(a + c, s)
  {
    var p :| p in SCHEMES && StartsWith(Lower(c), p);
    SchemeShape(p);
    var n := |p| - 3;
    SchemeMarkAt(c, n);
    HoldsPartOfMark(a, c, n, s);
  }

  lemma HoldsPartOfMark(a: string, c: string, n: nat, s: string)
    requires n + 3 <= |c| && c[n..n + 3] == "://" && Contains("://", s)
    ensures Contains(a + c, s)
  {
    assert a + c == (a + c[..n]) + c[n..n + 3] + c[n + 3..];
    if !Contains(a + c, s) { AbsentFromPart(a + c[..n], c[n..n + 3], c[n + 3..], s); }
  }

  lemma SchemeMarkAt(c: string, n: nat)
    requires n + 3 <= |c| && Lower(c)[n..n + 3] == "://"
    ensures c[n..n + 3] == "://"
  {
    assert forall k :: n <= k < n + 3 ==> LowerChar(c[k]) == Lower(c)[n..n + 3][k - n];
  }

  lemma SchemePartMissesAnswers(s: string)
    requires s != "" && Contains("://", s)
    ensures !Touches(s, "[redacted-url]") && !Touches(s, "[internal-url]")
  {
    SchemePartIsMarks(s);
    assert "[redacted-url]" == "[" + "redacted-url" + "]" && "[internal-url]" == "[" + "internal-url" + "]";
    AbsentByChar("redacted-url", s, 0);
    AbsentByChar("internal-url", s, 0);
    BracketFreeTouchesIff(s, "redacted-url");
    BracketFreeTouchesIff(s, "internal-url");
  }

  lemma SchemePartIsMarks(s: string)
    requires Contains("://", s)
    ensures forall k :: 0 <= k < |s| ==> s[k] == ':' || s[k] == '/'
  {
    var i :| 0 <= i <= 3 && OccursAt("://", s, i);
    assert forall k :: 0 <= k < |s| ==> s[k] == "://"[i..i + |s|][k] == "://"[i + k];
  }

  /** The exact condition for the URL rule. */
  lemma UrlPassIsSafeIff(s: string)
    requires s != ""
    ensures UrlRuleNeverIntroduces(s) <==>
            Contains("://", s) || (!Touches(s, "[redacted-url]") && !Touches(s, "[internal-url]") && MissesOrigins(s))
  {
    if Contains("://", s) {
      SchemePartMissesAnswers(s);
      forall parse: Parser ensures ReprintsAreQuiet(s, parse) { SchemePartIsQuiet(s, parse); }
      UrlRuleIsSafe(s);
    } else if Touches(s, "[redacted-url]") {
      UrlRuleIntroduces(s, "[redacted-url]", _ => None, true);
    } else if Touches(s, "[internal-url]") {
      var url := Url("http://localhost", "localhost", "localhost", "", "", "", "", "/");
      LocalhostIsPrivate();
      UrlRuleIntroduces(s, "[internal-url]", _ => Some(url), false);
    } else if !MissesOrigins(s) {
      var o :| IsWebOrigin(o) && Touches(s, o + "/[redacted]");
      UrlRuleIntroduces(s, o + "/[redacted]", _ => Some(QueryUrl(o)), true);
    } else {
      forall parse: Parser | PrintsWebOrigins(parse) ensures ReprintsAreQuiet(s, parse) {
        MissesOriginsIsQuiet(s, parse);
      }
      UrlRuleIsSafe(s);
    }
  }

  lemma UrlRuleIsSafe(s: string)
    requires s != "" && !Touches(s, "[redacted-url]") && !Touches(s, "[internal-url]")
    requires forall parse: Parser :: PrintsWebOrigins(parse) ==> ReprintsAreQuiet(s, parse)
    ensures UrlRuleNeverIntroduces(s)
  {
    forall find: Matcher, text, parse: Parser, origins, keepNetwork
      | Source(find(text)) == text && WebHits(find(text)) && PrintsWebOrigins(parse) && !Contains(text, s)
      ensures !Contains(Rewrite(find(text), UrlAnswer(parse, origins, keepNetwork)), s)
    {
      UrlRuleKeepsOut(text, find, parse, origins, keepNetwork, s);
    }
  }

  /** A URL with this origin that carries a query. */
  function QueryUrl(origin: string): Url {
    Url(origin, "host.example", "host.example", "", "", "?k", "", "/")
  }

  lemma LocalhostIsPrivate()
    ensures IsPrivateHostname("localhost")
    ensures IsWebOrigin("http://localhost")
  {
    assert Lower("localhost") == "localhost" && StripBrackets("localhost") == "localhost";
    assert "http://" in SCHEMES && "http://localhost" == "http://" + "localhost";
    DomainIsOrigin("http://", "localhost");
  }

  lemma DomainIsOrigin(p: string, host: string)
    requires p in SCHEMES && host != "" && forall k :: 0 <= k < |host| ==> IsHostChar(host[k])
    ensures IsWebOrigin(p + host)
  {
    var o := p + host;
    assert o[..|p|] == p;
    forall k | |p| <= k < |o| ensures IsHostChar(o[k]) { assert o[k] == host[k - |p|]; }
    assert IsOriginOf(o, p);
  }

  lemma LettersAreKept(t: string)
    requires t != "" && 'a' <= t[|t| - 1] <= 'z'
    ensures Kept(t) == t
  {
  }

  /** A text without `s` that one URL, answered by the marker `m`, turns into one with it. */
  lemma UrlRuleIntroduces(s: string, m: string, parse: Parser, keepNetwork: bool)
    requires s != "" && !Contains("://", s) && m != "" && Touches(s, m) && PrintsWebOrigins(parse)
    requires forall hit :: Kept(hit) == hit ==> UrlAnswer(parse, [], keepNetwork)(hit) == m
    ensures !UrlRuleNeverIntroduces(s)
  {
    var d :| -|s| < d < |m| && Agrees(s, m, d);
    var head, tail := if d < 0 then s[..-d] else "", Overhang(s, m, d);
    var hit := WebHit(head, tail, s);
    var text := head + hit + tail;
    var find := MatchOnce(text, head, hit, tail);
    var f := UrlAnswer(parse, [], keepNetwork);
    RebuiltByMarker(head, tail, s, m, d);
    ReplaceOnce(text, head, hit, tail, m);
    assert Rewrite(find(text), f) == head + m + tail;
    assert WebHits(find(text));
  }

  // ---------------------------------------------------------------- a URL that does not complete s

  /** A URL to put between two stretches without making `s` of them. */
  lemma WebHit(head: string, tail: string, s: string) returns (hit: string)
    requires |head| < |s| && |tail| < |s| && !Contains("://", s)
    ensures IsWebUrl(hit) && Kept(hit) == hit && !Contains(head + hit + tail, s) && |hit| == 7 + |s|
  {
    var w := Spacer(s, s);
    hit := "http://" + w;
    if Contains(head + hit + tail, s) {
      var j :| 0 <= j <= |head + hit + tail| && OccursAt(head + hit + tail, s, j);
      var q := EndsInScheme(head, "http://", w, tail, s, j);
      hit := "HTTP://" + w;
      forall k: nat | k <= |head + hit + tail| ensures !OccursAt(head + hit + tail, s, k) {
        if OccursAt(head + hit + tail, s, k) {
          var r := EndsInScheme(head, "HTTP://", w, tail, s, k);
          NotBothSchemes(s, q, r);
          assert false;
        }
      }
    }
    SchemeIsWeb(w);
    assert hit[|hit| - 1] == w[|w| - 1] == w[0];
    LettersAreKept(hit);
  }

  lemma SchemeIsWeb(w: string)
    ensures IsWebUrl("http://" + w) && IsWebUrl("HTTP://" + w)
  {
    assert "http://" in SCHEMES;
    assert Lower("http://" + w)[..7] == "http://";
    assert Lower("HTTP://" + w)[..7] == "http://";
  }

  /** The last characters of `s`, as many as there are, are those of `scheme` up to place `q`. */
  ghost predicate EndsAt(s: string, scheme: string, q: nat) {
    q < |scheme| && forall p :: 0 <= p < |s| && |s| - 1 - p <= q ==> s[p] == scheme[q - (|s| - 1 - p)]
  }

  lemma EndsInScheme(head: string, scheme: string, w: string, tail: string, s: string, j: nat) returns (q: nat)
    requires |head| < |s| && |tail| < |s| && w == Spacer(s, s) && |scheme| == 7
    requires OccursAt(head + (scheme + w) + tail, s, j)
    ensures EndsAt(s, scheme, q)
  {
    var t := head + (scheme + w) + tail;
    var last := j + |s| - 1;
    forall k | 0 <= k < |s| ensures t[j + k] == s[k] { assert t[j..j + |s|][k] == t[j + k]; }
    SpacerAt(head, scheme, w, tail, last);
    SpacerAt(head, scheme, w, tail, j);
    assert last < |head| + 7;
    q := last - |head|;
    forall p | 0 <= p < |s| && |s| - 1 - p <= q ensures s[p] == scheme[q - (|s| - 1 - p)] {
      assert t[j + p] == s[p];
    }
  }

  lemma SpacerAt(head: string, scheme: string, w: string, tail: string, k: nat)
    requires |scheme| == 7 && w != "" && forall i :: 0 <= i < |w| ==> w[i] == w[0]
    ensures |head| + 7 <= k < |head| + 7 + |w| ==> (head + (scheme + w) + tail)[k] == w[0]
  {
  }

  /** The two spellings differ in every letter. */
  lemma SchemesMeet(q: nat, r: nat)
    ensures q < 7 && r < 7 && "http://"[q] == "HTTP://"[r] ==> q >= 4 && r >= 4
  {
  }

  /** So an end that fits both lies in "://". */
  lemma NotBothSchemes(s: string, q: nat, r: nat)
    requires s != "" && EndsAt(s, "http://", q) && EndsAt(s, "HTTP://", r)
    ensures Contains("://", s)
  {
    var n := |s|;
    assert s[n - 1] == "http://"[q] == "HTTP://"[r];
    SchemesMeet(q, r);
    if n > 1 {
      assert s[n - 2] == "http://"[q - 1] == "HTTP://"[r - 1];
      SchemesMeet(q - 1, r - 1);
    }
    if n > 2 {
      assert s[n - 3] == "http://"[q - 2] == "HTTP://"[r - 2];
      SchemesMeet(q - 2, r - 2);
    }
    if n > 3 {
      assert s[n - 4] == "http://"[q - 3] == "HTTP://"[r - 3];
      SchemesMeet(q - 3, r - 3);
      assert false;
    }
    var i := q - 3 - n;
    forall k | 0 <= k < n ensures "://"[i + k] == s[k] {
      assert s[k] == "http://"[q - (n - 1 - k)];
    }
    assert "://"[i..i + n] == s;
    assert OccursAt("://", s, i);
  }

  // ---------------------------------------------------------------- the condition on the value

  /**
    `y` can start like `p`, a scheme or its end, and go on as domain and port, up to the
    slash that is printed after them.
   */
  predicate Fits(y: string, p: string) {
    && (forall k :: 0 <= k < |y| && k < |p| ==> y[k] == p[k])
    && (0 < |p| < |y| ==> IsHostChar(y[|p|]))
    && (forall k :: |p| <= k < |y| ==> IsHostChar(y[k]) || y[k] == ':' || (y[k] == '/' && k == |y| - 1))
    && (forall j, k :: |p| <= j < k < |y| && y[j] == ':' ==> IsDigit(y[k]) || (y[k] == '/' && k == |y| - 1))
  }

  predicate IsIpv6Part(s: string) {
    forall k :: 0 <= k < |s| ==> IsIpv6Char(s[k]) || (s[k] == '/' && k == |s| - 1)
  }

  /** An end of `s` can start an origin of this scheme, or `s` can lie inside one. */
  predicate MeetsOrigin(s: string, p: string) {
    || (exists i :: 0 <= i < |s| && Fits(s[i..], p))
    || (exists j :: 0 <= j <= |p| && Fits(s, p[j..]))
    || IsIpv6Part(s)
  }

  /** What an operator can check. */
  predicate IsOriginSafe(s: string) {
    forall p :: p in SCHEMES ==> !MeetsOrigin(s, p)
  }

  predicate IsBracketFree(s: string) {
    forall k :: 0 <= k < |s| ==> s[k] != '[' && s[k] != ']'
  }

  /** What no origin and no slash after it holds outside brackets: capitals, `@`, `%`, `?`, `#`, spaces and more. */
  predicate IsForeignChar(c: char) { !IsHostChar(c) && c != ':' && c != '/' }

  /** A quick check: some foreign character, and neither an `h` nor a `w` after it. */
  lemma ForeignCharIsSafe(s: string, n: nat)
    requires n < |s| && IsForeignChar(s[n])
    requires forall i :: n < i < |s| ==> s[i] != 'h' && s[i] != 'w'
    ensures IsOriginSafe(s)
  {
    forall p | p in SCHEMES ensures !MeetsOrigin(s, p) {
      SchemeShape(p);
      forall i | 0 <= i < |s| ensures !Fits(s[i..], p) {
        if i <= n { ForeignDoesNotFit(s[i..], n - i, p, 0); } else { assert s[i..][0] == s[i]; }
      }
      forall j | 0 <= j <= |p| ensures !Fits(s, p[j..]) { ForeignDoesNotFit(s, n, p, j); }
      assert !IsIpv6Char(s[n]);
    }
  }

  lemma ForeignDoesNotFit(y: string, n: nat, p: string, j: nat)
    requires n < |y| && IsForeignChar(y[n]) && p in SCHEMES && j <= |p|
    ensures !Fits(y, p[j..])
    ensures j == 0 ==> !Fits(y, p)
  {
    SchemeShape(p);
    assert p[0..] == p;
    if j + n < |p| {
      assert p[j..][n] == p[j + n];
      assert j + n >= |p| - 3 ==> p[j + n] == p[|p| - 3..][j + n - (|p| - 3)];
      assert !IsForeignChar(p[j + n]);
    }
  }

  /** A connection string in lower case, for instance. */
  lemma ConnectionStringIsSafe()
    ensures IsOriginSafe("postgres://u:p@db")
  {
    assert "postgres://u:p@db"[14] == '@';
    ForeignCharIsSafe("postgres://u:p@db", 14);
  }

  /** For values without brackets this is the condition of the URL rule on reprinted origins. */
  lemma OriginSafeIff(s: string)
    requires s != "" && IsBracketFree(s)
    ensures MissesOrigins(s) <==> IsOriginSafe(s)
  {
    if IsOriginSafe(s) {
      forall o | IsWebOrigin(o) ensures !Touches(s, o + "/[redacted]") {
        var p :| p in SCHEMES && IsOriginOf(o, p);
        SafeMissesOrigin(s, o, p);
      }
    } else {
      var o, i, a := TouchedOrigin(s);
      OriginRebuilds(s, o, i, a);
    }
  }

  lemma SafeMissesOrigin(s: string, o: string, p: string)
    requires s != "" && IsBracketFree(s) && !MeetsOrigin(s, p) && IsOriginOf(o, p)
    ensures !Touches(s, o + "/[redacted]")
  {
    var m := o + "/[redacted]";
    forall d | -|s| < d < |m| ensures !Agrees(s, m, d) {
      if d < 0 {
        MetEnd(s, o, p, -d);
      } else if d <= |o| {
        MetInside(s, o, p, d);
      } else {
        MetWord(s, o, p, d);
      }
    }
  }

  /** The end of `s` that meets an origin from its start. */
  lemma MetEnd(s: string, o: string, p: string, i: nat)
    requires 0 < i < |s| && IsBracketFree(s) && IsOriginOf(o, p)
    ensures Agrees(s, o + "/[redacted]", -(i as int)) ==> MeetsOrigin(s, p)
  {
    var m, y := o + "/[redacted]", s[i..];
    AgreesAt(s, m, -(i as int), i + |o| + 1);
    AgreesAt(s, m, -(i as int), i + |p|);
    if Agrees(s, m, -(i as int)) {
      forall k | 0 <= k < |y| ensures y[k] == m[k] { AgreesAt(s, m, -(i as int), i + k); }
      FitsByMatch(y, o, p, 0);
      assert p[0..] == p;
    }
  }

  lemma MetInside(s: string, o: string, p: string, d: nat)
    requires s != "" && IsBracketFree(s) && IsOriginOf(o, p) && d <= |o|
    ensures Agrees(s, o + "/[redacted]", d) ==> MeetsOrigin(s, p)
  {
    var m := o + "/[redacted]";
    AgreesAt(s, m, d, |o| + 1 - d);
    AgreesAt(s, m, d, |p| - d);
    if Agrees(s, m, d) {
      forall k | 0 <= k < |s| ensures s[k] == m[d + k] { AgreesAt(s, m, d, k); }
      if IsDomainAndPort(o, |p|) || d + |s| <= |p| {
        FitsByMatch(s, o, p, d);
      } else {
        InsideIpv6(s, o, p, d);
      }
    }
  }

  lemma InsideIpv6(s: string, o: string, p: string, d: nat)
    requires s != "" && IsBracketFree(s) && |p| <= |o| && IsIpv6AndPort(o, |p|)
    requires |p| < d && d + |s| <= |o| + 1
    requires forall k :: 0 <= k < |s| ==> s[k] == (o + "/[redacted]")[d + k]
    ensures IsIpv6Part(s)
  {
    var m := o + "/[redacted]";
    forall k | 0 <= k < |s| ensures IsIpv6Char(s[k]) || (s[k] == '/' && k == |s| - 1) {
      assert s[k] == m[d + k] == if d + k < |o| then o[d + k] else '/';
    }
  }

  /** A stretch of an origin and the slash after it, from place `d` on. */
  lemma FitsByMatch(y: string, o: string, p: string, d: nat)
    requires IsBracketFree(y) && IsOriginOf(o, p) && d + |y| <= |o| + 1
    requires IsDomainAndPort(o, |p|) || d + |y| <= |p|
    requires forall k :: 0 <= k < |y| ==> y[k] == (o + "/[redacted]")[d + k]
    ensures var j := if d <= |p| then d else |p|; Fits(y, p[j..])
  {
    var m, j := o + "/[redacted]", if d <= |p| then d else |p|;
    var q := p[j..];
    assert forall k :: 0 <= k < |y| ==> y[k] == if d + k < |o| then o[d + k] else '/';
    assert forall k :: 0 <= k < |p| ==> o[k] == p[k] by { assert o[..|p|] == p; }
  }

  /** Behind the slash only the word of the inserted text is left to a value without brackets. */
  lemma MetWord(s: string, o: string, p: string, d: nat)
    requires s != "" && IsBracketFree(s) && |o| < d < |o| + 11
    ensures Agrees(s, o + "/[redacted]", d) ==> MeetsOrigin(s, p)
  {
    var m := o + "/[redacted]";
    AgreesAt(s, m, d, 0);
    AgreesAt(s, m, d, |m| - 1 - d);
    if Agrees(s, m, d) {
      forall k | 0 <= k < |s| ensures IsHostChar(s[k]) {
        AgreesAt(s, m, d, k);
        assert s[k] == "/[redacted]"[d + k - |o|];
      }
      HostCharsMeet(s, p);
    }
  }

  lemma HostCharsMeet(s: string, p: string)
    requires forall k :: 0 <= k < |s| ==> IsHostChar(s[k])
    ensures MeetsOrigin(s, p)
  {
    assert p[|p|..] == "";
    assert Fits(s, p[|p|..]);
  }

  lemma HostCharsAreUnsafe(s: string)
    requires forall k :: 0 <= k < |s| ==> IsHostChar(s[k])
    ensures !IsOriginSafe(s)
  {
    assert "http://" in SCHEMES;
    HostCharsMeet(s, "http://");
  }

  /** An origin that starts with `a` and the end of `s` from `i` on, the slash after it included. */
  lemma TouchedOrigin(s: string) returns (o: string, i: nat, a: string)
    requires s != "" && !IsOriginSafe(s)
    ensures IsWebOrigin(o) && i < |s| && (i > 0 ==> a == "") && a + s[i..] <= o + "/"
    ensures i + |o| <= |s| + 9
  {
    var p :| p in SCHEMES && MeetsOrigin(s, p);
    SchemeShape(p);
    i := 0;
    assert s[0..] == s;
    if IsIpv6Part(s) {
      o, a := Ipv6From(s, p);
    } else if j :| 0 <= j <= |p| && Fits(s, p[j..]) {
      o, a := OriginFrom(s, p, j);
    } else {
      i :| 0 <= i < |s| && Fits(s[i..], p);
      assert p[0..] == p;
      o, a := OriginFrom(s[i..], p, 0);
    }
  }

  lemma Ipv6From(s: string, p: string) returns (o: string, a: string)
    requires s != "" && IsIpv6Part(s) && |p| <= 8
    ensures IsOriginOf(o, p) && a + s <= o + "/" && |o| <= |s| + 9
  {
    a := p + "[";
    var t := if s[|s| - 1] == '/' then s[..|s| - 1] else s;
    o := a + t;
    assert o[..|p|] == p && o[|p|] == '[';
    forall k | |p| <= k < |o| ensures IsIpv6Char(o[k]) || o[k] == '[' {
      assert k > |p| ==> o[k] == s[k - |p| - 1];
    }
    assert s == t || s == t + "/";
    assert a + s <= o + "/";
  }

  lemma OriginFrom(y: string, p: string, j: nat) returns (o: string, a: string)
    requires y != "" && 0 < |p| <= 8 && j <= |p| && Fits(y, p[j..])
    ensures IsOriginOf(o, p) && a + y <= o + "/" && |o| <= |y| + 9 && (j == 0 ==> a == "")
  {
    a := p[..j] + if j == |p| then "h" else "";
    if j + |y| <= |p| {
      o := p + "h";
      assert forall k :: 0 <= k < |y| ==> y[k] == p[j..][k];
      assert a + y == p[..j + |y|] && o[..|p|] == p;
      assert a + y <= o + "/";
    } else {
      var t := if y[|y| - 1] == '/' then y[..|y| - 1] else y;
      o := a + t;
      assert y == t || y == t + "/";
      assert a + y <= o + "/";
      DomainFrom(y, t, p, j, a);
    }
  }

  lemma DomainFrom(y: string, t: string, p: string, j: nat, a: string)
    requires y != "" && j <= |p| < j + |y| && 0 < |p| && Fits(y, p[j..])
    requires t == if y[|y| - 1] == '/' then y[..|y| - 1] else y
    requires a == p[..j] + if j == |p| then "h" else ""
    ensures IsOriginOf(a + t, p)
  {
    var o, n := a + t, |p| - j;
    assert forall k :: 0 <= k < n ==> y[k] == p[j..][k] == p[j + k];
    assert j < |p| ==> IsHostChar(y[n]) && |t| > n;
    assert o[..|p|] == p;
    forall k | |p| <= k < |o| ensures o[k] == if k < |a| then 'h' else y[k - |a|] {}
    assert IsHostChar(o[|p|]);
    forall i, k | |p| <= i < k < |o| && o[i] == ':' ensures IsDigit(o[k]) {
      assert y[i - |a|] == ':' && y[k - |a|] == o[k];
    }
    assert IsDomainAndPort(o, |p|);
  }

  lemma OriginRebuilds(s: string, o: string, i: nat, a: string)
    requires i < |s| && (i > 0 ==> a == "") && a + s[i..] <= o + "/"
    ensures Contains(s[..i] + o + "/[redacted]", s) && Touches(s, o + "/[redacted]")
  {
    var m, y := o + "/[redacted]", s[i..];
    var rest := (o + "/")[|a + y|..] + "[redacted]";
    assert m == o + "/" + "[redacted]";
    assert o + "/" == (a + y) + (o + "/")[|a + y|..];
    assert m == a + y + rest;
    assert s[..i] + o + "/[redacted]" == s[..i] + m;
    if i == 0 {
      assert s[..i] + m == m && y == s;
      ContainsByParts(a, s, rest);
      TouchesInside(a, s, rest, m);
    } else {
      TouchesByEnd(s, i, rest, m);
    }
  }

  lemma TouchesInside(a: string, s: string, rest: string, m: string)
    requires s != "" && m == a + s + rest
    ensures Touches(s, m)
  {
    assert Agrees(s, m, |a|);
  }

  lemma TouchesByEnd(s: string, i: nat, rest: string, m: string)
    requires 0 < i < |s| && m == "" + s[i..] + rest
    ensures Touches(s, m) && Contains(s[..i] + m, s)
  {
    assert m == s[i..] + rest;
    assert s[..i] + m == "" + s + rest;
    ContainsByParts("", s, rest);
    assert Agrees(s, m, -(i as int));
  }
}
