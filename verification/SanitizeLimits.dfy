/**
  How far the guarantee of the text pipeline reaches: inputs on which it fails, and the
  exact condition for bare secrets.
 */
module SanitizeLimits {
  import opened Strings
  import opened Redaction
  import opened Urls
  import opened Passes
  import opened UrlRule
  import opened SanitizeText

  // ---------------------------------------------------------------- only the URL rule matches

  function Nothing(t: string): Matches { Rest(t) }

  /** The rules of a pipeline in which no pattern but the URL pattern ever matches. */
  function UrlRulesOnly(find: Matcher, parse: Parser): Rules {
    Rules(Nothing, Nothing, Nothing, Nothing, Nothing, Nothing, Nothing, find, _ => Nothing, Nothing,
          Nothing, Nothing, Nothing, Nothing, Nothing, _ => false, parse)
  }

  lemma UrlRulesAreLawful(find: Matcher, parse: Parser)
    requires Lawful(find) && forall t :: WebHits(find(t))
    ensures LawfulRules(UrlRulesOnly(find, parse))
  {
    assert forall t :: Source(Nothing(t)) == t;
  }

  lemma NothingReplaced(t: string, find: Matcher, marker: string)
    requires find(t) == Rest(t)
    ensures Replace(t, find, marker) == t
  {
  }

  lemma QuietSecretStage(t: string, ctx: Context, find: Matcher, parse: Parser)
    requires RedactAll(t, ctx.secrets) == t && |t| <= MAX_INPUT_CHARS
    ensures Unsecret(t, ctx, UrlRulesOnly(find, parse)) == t
  {
    NothingReplaced(t, UrlRulesOnly(find, parse).stackFrame, "");
  }

  lemma QuietCredentialStage(t: string, find: Matcher, parse: Parser)
    ensures CredentialPasses(t, UrlRulesOnly(find, parse)) == t
  {
    var r := UrlRulesOnly(find, parse);
    NothingReplaced(t, r.apiKey, "[redacted-api-key]");
    NothingReplaced(t, r.authToken, " [redacted]");
    NothingReplaced(t, r.labelledSecret, REDACTED);
    NothingReplaced(t, r.keyShapedHex, "[redacted-key]");
  }

  lemma UrlStage(t: string, ctx: Context, keepNetwork: bool, find: Matcher, parse: Parser)
    ensures UrlPasses(t, ctx, keepNetwork, UrlRulesOnly(find, parse))
            == Rewrite(find(t), UrlAnswer(parse, ctx.internalOrigins, keepNetwork))
  {
    var r := UrlRulesOnly(find, parse);
    NothingReplaced(t, r.fileUrl, PATH);
    NothingReplaced(t, r.credentialUrl, "[redacted-url]");
  }

  lemma {:induction false} QuietHostLoop(t: string, hosts: seq<string>, find: Matcher, parse: Parser)
    ensures HostLoop(t, hosts, UrlRulesOnly(find, parse)) == t
    decreases |hosts|
  {
    if hosts != [] {
      NothingReplaced(t, UrlRulesOnly(find, parse).internalHost(hosts[0]), INTERNAL_HOST);
      QuietHostLoop(t, hosts[1..], find, parse);
    }
  }

  lemma QuietNetworkStage(t: string, ctx: Context, find: Matcher, parse: Parser)
    ensures NetworkPasses(t, ctx, UrlRulesOnly(find, parse)) == t
  {
    var r := UrlRulesOnly(find, parse);
    QuietHostLoop(t, ctx.internalHosts, find, parse);
    NothingReplaced(t, r.suffixHost, INTERNAL_HOST);
    NothingReplaced(t, r.privateIpv4, INTERNAL_HOST);
    NothingReplaced(t, r.ipv6Loopback, INTERNAL_HOST);
    NothingReplaced(t, r.localhost, INTERNAL_HOST);
  }

  lemma {:induction false} NoNewlineRuns(t: string, keep: string)
    requires '\n' !in t
    ensures NewlineRuns(t, keep) == Rest(keep + t)
    decreases |t|
  {
    if t != "" {
      assert t[0] in t;
      NoNewlineRuns(t[1..], keep + [t[0]]);
      assert keep + [t[0]] + t[1..] == keep + t;
    } else {
      assert keep + t == keep;
    }
  }

  /** One line that starts and ends with something visible and is not too long. */
  predicate IsTidyLine(u: string) {
    u != "" && |u| <= MAX_OUTPUT_CHARS && '\n' !in u && !IsSpace(u[0]) && !IsSpace(u[|u| - 1])
  }

  lemma LineIsCollapsed(u: string)
    requires '\n' !in u
    ensures Collapse(u) == u
  {
    NoNewlineRuns(u, "");
    assert "" + u == u;
  }

  lemma TidyLineStays(u: string, find: Matcher, parse: Parser)
    requires IsTidyLine(u)
    ensures Shorten(Trim(Collapse(PathPasses(u, UrlRulesOnly(find, parse))))) == u
  {
    assert PathPasses(u, UrlRulesOnly(find, parse)) == u by {
      NothingReplaced(u, UrlRulesOnly(find, parse).windowsPath, PATH);
    }
    LineIsCollapsed(u);
    TrimTight(u);
  }

  /** What such a pipeline prints for a text without secrets. */
  lemma UrlRuleDecides(t: string, ctx: Context, keepNetwork: bool, find: Matcher, parse: Parser, u: string)
    requires RedactAll(t, ctx.secrets) == t && |t| <= MAX_INPUT_CHARS && IsTidyLine(u)
    requires Rewrite(find(t), UrlAnswer(parse, ctx.internalOrigins, keepNetwork)) == u
    ensures Sanitized(t, ctx, keepNetwork, UrlRulesOnly(find, parse)) == u
  {
    QuietSecretStage(t, ctx, find, parse);
    QuietCredentialStage(t, find, parse);
    UrlStage(t, ctx, keepNetwork, find, parse);
    assert AfterUrls(t, ctx, keepNetwork, UrlRulesOnly(find, parse)) == u;
    QuietNetworkStage(u, ctx, find, parse);
    TidyLineStays(u, find, parse);
  }

  function ParseOne(candidate: string, url: Url): Parser {
    c => if c == candidate then Some(url) else None
  }

  /** One pattern that finds one URL in one text, and a parser that knows that URL. */
  function OneUrlRules(text: string, front: string, hit: string, url: Url): Rules {
    UrlRulesOnly(MatchOnce(text, front, hit, ""), ParseOne(hit, url))
  }

  lemma OneUrlRulesAreLawful(text: string, front: string, hit: string, url: Url)
    requires text == front + hit && IsWebUrl(hit) && IsWebOrigin(url.origin)
    ensures var r := OneUrlRules(text, front, hit, url); LawfulRules(r) && PrintsWebOrigins(r.parse)
  {
    var find := MatchOnce(text, front, hit, "");
    forall t ensures WebHits(find(t)) {
      assert WebHits(Rest(t)) && WebHits(Rest(""));
    }
    assert front + (hit + "") == text;
    assert Lawful(find);
    UrlRulesAreLawful(find, ParseOne(hit, url));
  }

  /** The URL is answered by its origin and the inserted text. */
  predicate IsReprinted(url: Url, origins: seq<string>, keepNetwork: bool) {
    CarriesSecrets(url) && (keepNetwork || !IsInternal(url, origins))
  }

  lemma OneUrlIsRewritten(
    text: string, front: string, hit: string, url: Url, origins: seq<string>, keepNetwork: bool, out: string)
    requires out == front + (url.origin + "/[redacted]")
    requires Kept(hit) == hit && IsReprinted(url, origins, keepNetwork)
    ensures Rewrite(MatchOnce(text, front, hit, "")(text), UrlAnswer(ParseOne(hit, url), origins, keepNetwork)) == out
  {
    var f := UrlAnswer(ParseOne(hit, url), origins, keepNetwork);
    assert hit[|hit|..] == "" && f(hit) == url.origin + "/[redacted]" + "" == url.origin + "/[redacted]";
    assert Rewrite(Hit(front, hit, Rest("")), f) == front + f(hit) + "" == out;
  }

  /** What the pipeline prints for a text that is free of the secret and ends in one URL. */
  lemma OneUrlPrints(
    text: string, front: string, hit: string, url: Url, ctx: Context, keepNetwork: bool, s: string, out: string)
    requires text == front + hit && out == front + (url.origin + "/[redacted]")
    requires ctx.secrets == [s] && !Contains(text, s) && Kept(hit) == hit && |text| <= MAX_INPUT_CHARS
    requires IsReprinted(url, ctx.internalOrigins, keepNetwork) && IsTidyLine(out)
    ensures Sanitized(text, ctx, keepNetwork, OneUrlRules(text, front, hit, url)) == out
  {
    RedactAbsent(text, s);
    OnePass(text, s);
    OneUrlIsRewritten(text, front, hit, url, ctx.internalOrigins, keepNetwork, out);
    UrlRuleDecides(text, ctx, keepNetwork, MatchOnce(text, front, hit, ""), ParseOne(hit, url), out);
  }

  // ---------------------------------------------------------------- three inputs

  /** A text that is one URL with a query `?k`, and the secret its printed origin brings up. */
  datatype Example = Example(secret: string, input: string, host: string) {
    function Parsed(): Url {
      Url("https://" + host, host, host, "", "", "?k", "", "/")
    }

    function Output(): string {
      "https://" + host + "/[redacted]"
    }

    function Pipeline(): Rules {
      OneUrlRules(input, "", input, Parsed())
    }

    ghost predicate PrintsSecret(ctx: Context, keepNetwork: bool) {
      ctx.secrets == [secret] && (keepNetwork || Lower(Parsed().origin) !in ctx.internalOrigins) ==>
        Sanitized(input, ctx, keepNetwork, Pipeline()) == Output()
    }

    ghost predicate IsLawful() {
      LawfulRules(Pipeline()) && PrintsWebOrigins(Pipeline().parse)
    }

    /** The input lacks the secret and the output holds it, in both modes, unless the origin is an internal one. */
    ghost predicate Fails() {
      && !Contains(input, secret) && Contains(Output(), secret) && IsLawful()
      && forall ctx: Context, keepNetwork: bool :: PrintsSecret(ctx, keepNetwork)
    }
  }

  lemma ExampleFails(e: Example)
    requires !Contains(e.input, e.secret) && Contains(e.Output(), e.secret)
    requires IsLoneUrl(e.input) && IsPublicName(e.host)
    ensures e.Fails()
  {
    ExampleIsLawful(e);
    forall ctx: Context, keepNetwork: bool ensures e.PrintsSecret(ctx, keepNetwork) {
      if ctx.secrets == [e.secret] && (keepNetwork || Lower(e.Parsed().origin) !in ctx.internalOrigins) {
        ExamplePrints(e, ctx, keepNetwork);
      }
    }
  }

  lemma ExampleIsLawful(e: Example)
    requires IsLoneUrl(e.input) && IsPublicName(e.host)
    ensures e.IsLawful()
  {
    HttpsUrl(e.input);
    HostOrigin(e.host);
    LoneRulesAreLawful(e.input, e.Parsed());
  }

  lemma LoneRulesAreLawful(input: string, url: Url)
    requires IsWebUrl(input) && IsWebOrigin(url.origin)
    ensures var r := OneUrlRules(input, "", input, url); LawfulRules(r) && PrintsWebOrigins(r.parse)
  {
    assert input == "" + input;
    OneUrlRulesAreLawful(input, "", input, url);
  }

  lemma ExamplePrints(e: Example, ctx: Context, keepNetwork: bool)
    requires IsLoneUrl(e.input) && IsPublicName(e.host) && !Contains(e.input, e.secret)
    requires ctx.secrets == [e.secret] && (keepNetwork || Lower(e.Parsed().origin) !in ctx.internalOrigins)
    ensures Sanitized(e.input, ctx, keepNetwork, e.Pipeline()) == e.Output()
  {
    HostOrigin(e.host);
    LettersAreKept(e.input);
    PublicNameIsPublic(e.host);
    LonePrints(e.input, e.Parsed(), ctx, keepNetwork, e.secret, e.Output());
  }

  lemma LonePrints(input: string, url: Url, ctx: Context, keepNetwork: bool, s: string, out: string)
    requires ctx.secrets == [s] && !Contains(input, s) && Kept(input) == input && |input| <= MAX_INPUT_CHARS
    requires IsReprinted(url, ctx.internalOrigins, keepNetwork)
    requires out == url.origin + "/[redacted]" && IsTidyLine(out)
    ensures Sanitized(input, ctx, keepNetwork, OneUrlRules(input, "", input, url)) == out
  {
    assert input == "" + input && out == "" + (url.origin + "/[redacted]");
    OneUrlPrints(input, "", input, url, ctx, keepNetwork, s, out);
  }

  predicate IsLoneUrl(input: string) {
    StartsWith(input, "https://") && input[|input| - 1] == 'k' && |input| <= 100
  }

  /** A name of lower-case letters, digits and dots, one dot at least, under a domain that ends in `e` or `o`. */
  predicate IsPublicName(host: string) {
    && 0 < |host| <= 100 && '.' in host && (host[|host| - 1] == 'e' || host[|host| - 1] == 'o')
    && forall i :: 0 <= i < |host| ==> IsLowerLetter(host[i]) || IsDigit(host[i]) || host[i] == '.'
  }

  lemma PublicNameIsPublic(host: string)
    requires IsPublicName(host)
    ensures !IsPrivateHostname(host)
  {
    assert Lower(host) == host && StripBrackets(host) == host;
    if IsPrivateQuadText(host) { QuadEndsInDigit(host); }
    EndsAlike(host);
  }

  lemma QuadEndsInDigit(h: string)
    requires IsPrivateQuadText(h)
    ensures h != "" && IsDigit(h[|h| - 1])
  {
    var labels := Split(h, ".");
    SplitJoin(h, ".");
    assert labels == [labels[0], labels[1], labels[2], labels[3]];
    var end := labels[3];
    assert end[|end| - 1] in end;
    assert Join(labels[3..], ".") == end;
    assert Join(labels[2..], ".") == labels[2] + "." + end;
    assert Join(labels[1..], ".") == labels[1] + "." + (labels[2] + "." + end);
    assert h == labels[0] + "." + (labels[1] + "." + (labels[2] + "." + end));
  }

  /** No private name ends in `e` or `o`. */
  lemma EndsAlike(h: string)
    requires h != "" && (h[|h| - 1] == 'e' || h[|h| - 1] == 'o')
    ensures !HasPrivateSuffix(h) && !EndsWith(h, ".localhost") && h != "localhost" && h != "::1" && h != "0.0.0.0"
  {
    LastOfSuffix(h, ".internal");
    LastOfSuffix(h, ".local");
    LastOfSuffix(h, ".lan");
    LastOfSuffix(h, ".svc");
    LastOfSuffix(h, ".cluster.local");
    LastOfSuffix(h, ".localhost");
  }

  lemma LastOfSuffix(h: string, suffix: string)
    requires suffix != ""
    ensures EndsWith(h, suffix) ==> h != "" && h[|h| - 1] == suffix[|suffix| - 1]
  {
  }

  lemma HttpsUrl(input: string)
    requires StartsWith(input, "https://")
    ensures IsWebUrl(input)
  {
    assert "https://" in SCHEMES;
    assert Lower(input)[..8] == Lower(input[..8]) == "https://";
  }

  lemma HostOrigin(host: string)
    requires IsPublicName(host)
    ensures IsWebOrigin("https://" + host) && IsTidyLine("https://" + host + "/[redacted]")
  {
    assert "https://" in SCHEMES;
    assert forall i :: 0 <= i < |host| ==> IsHostChar(host[i]);
    DomainIsOrigin("https://", host);
    MarksAreBare("/");
    BareLineIsTidy("/", "", "https://" + host);
    assert "" + ("https://" + host) + "/[redacted]" == "https://" + host + "/[redacted]";
  }

  /** A configured RPC URL that ends in a slash: origin and inserted text spell it. */
  const SLASH := Example("https://rpc.example/", "https://rpc.example?k", "rpc.example")

  /** A hex value met in capitals: parsing lower-cases hosts. */
  const CAPITALS := Example("deadbeef", "https://DEADBEEF.io?k", "deadbeef.io")

  /** A value of digits met with one of them percent-encoded: parsing decodes hosts. */
  const ENCODED := Example("12345678", "https://12%3345678.io?k", "12345678.io")

  lemma TrailingSlashSecretReturns()
    ensures SLASH.Fails()
  {
    SlashAbsent();
    assert SLASH.secret == "https://" + SLASH.host + "/";
    OriginPrinted(SLASH);
    SlashIsUrl();
    ExampleFails(SLASH);
  }

  lemma SlashIsUrl()
    ensures IsLoneUrl(SLASH.input) && IsPublicName(SLASH.host)
  {
    assert SLASH.input[20] == 'k' && SLASH.input[..8] == "https://";
    assert SLASH.host[3] == '.';
  }

  lemma OriginPrinted(e: Example)
    requires e.secret == "https://" + e.host + "/"
    ensures Contains(e.Output(), e.secret)
  {
    assert "/[redacted]" == "/" + "[redacted]";
    assert e.Output() == "" + e.secret + "[redacted]";
    ContainsByParts("", e.secret, "[redacted]");
  }

  lemma SlashAbsent()
    ensures !Contains(SLASH.input, SLASH.secret)
  {
    assert SLASH.secret[19] == '/' && SLASH.secret[0] == 'h' && |SLASH.secret| == 20;
    assert SLASH.input[19] == '?' && SLASH.input[1] == 't' && |SLASH.input| == 21;
    forall j: nat | j <= |SLASH.input| ensures !OccursAt(SLASH.input, SLASH.secret, j) {
      if j == 0 {
        assert SLASH.input[0..20][19] == SLASH.input[19];
      } else if j == 1 {
        assert SLASH.input[1..21][0] == SLASH.input[1];
      }
    }
  }

  lemma HostPrinted(e: Example, suffix: string)
    requires e.host == e.secret + suffix
    ensures Contains(e.Output(), e.secret)
  {
    assert e.Output() == "https://" + e.secret + (suffix + "/[redacted]");
    ContainsByParts("https://", e.secret, suffix + "/[redacted]");
  }

  lemma UpperCaseHostReturns()
    ensures CAPITALS.Fails() && IsPlain(CAPITALS.secret)
  {
    HexIsPlain();
    CapitalsAbsent();
    HostPrinted(CAPITALS, ".io");
    CapitalsIsUrl();
    ExampleFails(CAPITALS);
  }

  lemma CapitalsIsUrl()
    ensures IsLoneUrl(CAPITALS.input) && IsPublicName(CAPITALS.host)
  {
    assert CAPITALS.input[20] == 'k' && CAPITALS.input[..8] == "https://";
    assert CAPITALS.host[8] == '.';
  }

  lemma CapitalsAbsent()
    ensures !Contains(CAPITALS.input, CAPITALS.secret)
  {
    assert CAPITALS.secret[7] == 'f';
    AbsentByChar(CAPITALS.input, CAPITALS.secret, 7);
  }

  lemma EncodedHostReturns()
    ensures ENCODED.Fails() && IsPlain(ENCODED.secret)
  {
    DigitsArePlain();
    EncodedAbsent();
    HostPrinted(ENCODED, ".io");
    EncodedIsUrl();
    ExampleFails(ENCODED);
  }

  lemma EncodedIsUrl()
    ensures IsLoneUrl(ENCODED.input) && IsPublicName(ENCODED.host)
  {
    assert ENCODED.input[22] == 'k' && ENCODED.input[..8] == "https://";
    assert ENCODED.host[8] == '.';
  }

  /** The only `1` is followed by a `2` and a percent sign. */
  lemma EncodedAbsent()
    ensures !Contains(ENCODED.input, ENCODED.secret)
  {
    var t, s := ENCODED.input, ENCODED.secret;
    assert t == "https://12%3345678.io?k" && s == "12345678" && |t| == 23;
    assert forall j :: 0 <= j < 23 && j != 8 ==> t[j] != '1';
    assert t[10] == '%' && s[2] == '3' && s[0] == '1';
    forall j: nat | j <= |t| ensures !OccursAt(t, s, j) {
      if j + 8 <= |t| {
        assert t[j..j + 8][0] == t[j] && t[j..j + 8][2] == t[j + 2];
      }
    }
  }

  lemma HexIsPlain()
    ensures IsPlain("deadbeef")
  {
    assert "deadbeef"[7] == 'f';
    AbsentFromWords("deadbeef", 7);
  }

  lemma DigitsArePlain()
    ensures IsPlain("12345678")
  {
    assert "12345678"[0] == '1';
    AbsentFromWords("12345678", 0);
  }

  /** None of the inserted words has an `f` or a `1`. */
  lemma AbsentFromWords(s: string, k: nat)
    requires IsBare(s) && k < |s| && (s[k] == 'f' || s[k] == '1')
    ensures IsPlain(s)
  {
    AbsentByChar("redacted", s, k);
    AbsentByChar("redacted-api-key", s, k);
    AbsentByChar("redacted-key", s, k);
    AbsentByChar("path", s, k);
    AbsentByChar("redacted-url", s, k);
    AbsentByChar("internal-url", s, k);
    AbsentByChar("internal-host", s, k);
    AbsentByChar("truncated", s, k);
  }

  // ---------------------------------------------------------------- the exact condition for bare secrets

  /** `s` is in no output of the pipeline, for all patterns and all parsers that print origins as URL parsing does. */
  ghost predicate NeverShown(s: string) {
    forall ctx: Context, r: Rules, input: string, keepNetwork: bool ::
      LawfulRules(r) && PrintsWebOrigins(r.parse) && s in ctx.secrets ==>
        !Contains(Sanitized(input, ctx, keepNetwork, r), s)
  }

  /** The longest secret that fits an output line with a scheme and the inserted text around it. */
  const MAX_SHOWN := MAX_OUTPUT_CHARS - 20

  /**
    The end-to-end guarantee, exactly: a secret without brackets, white space and ellipsis
    that fits an output line is in no output iff it is safe from origins or a part of "://".
   */
  lemma BareSecretNeverShownIff(s: string)
    requires IsBare(s)
    ensures IsOriginSafe(s) || Contains("://", s) ==> NeverShown(s)
    ensures |s| <= MAX_SHOWN ==> (NeverShown(s) <==> IsOriginSafe(s) || Contains("://", s))
  {
    if IsOriginSafe(s) || Contains("://", s) {
      forall ctx: Context, r: Rules, input: string, keepNetwork: bool
        | LawfulRules(r) && PrintsWebOrigins(r.parse) && s in ctx.secrets
        ensures !Contains(Sanitized(input, ctx, keepNetwork, r), s)
      {
        if IsOriginSafe(s) { OriginSafeIsQuiet(s, r.parse); } else { SchemePartIsQuietSecret(s, r.parse); }
        SecretsNeverInOutput(input, ctx, keepNetwork, r, s);
      }
    } else if |s| <= MAX_SHOWN {
      var o, i, a := TouchedOrigin(s);
      OriginRebuilds(s, o, i, a);
      PrintedByOrigin(s, o, i);
    }
  }

  lemma PrintedByOrigin(s: string, o: string, i: nat)
    requires IsBare(s) && |s| <= MAX_SHOWN && !Contains("://", s) && i < |s|
    requires IsWebOrigin(o) && i + |o| <= |s| + 9
    requires Contains(s[..i] + o + "/[redacted]", s)
    ensures !NeverShown(s)
  {
    var front, url := s[..i], QueryUrl(o);
    var hit := WebHit(front, "", s);
    var text, out := front + hit, front + (o + "/[redacted]");
    assert front + hit + "" == text && front + o + "/[redacted]" == out;
    BareLineIsTidy(s, front, o);
    OneUrlRulesAreLawful(text, front, hit, url);
    OneUrlPrints(text, front, hit, url, Context([s], [], []), true, s, out);
    ShownOnce(s, Context([s], [], []), OneUrlRules(text, front, hit, url), text);
  }

  lemma ShownOnce(s: string, ctx: Context, r: Rules, input: string)
    requires s in ctx.secrets && Contains(Sanitized(input, ctx, true, r), s)
    ensures LawfulRules(r) && PrintsWebOrigins(r.parse) ==> !NeverShown(s)
  {
  }

  lemma BareLineIsTidy(s: string, front: string, o: string)
    requires IsBare(s) && front <= s && |front| + |o| + 11 <= MAX_OUTPUT_CHARS && IsWebOrigin(o)
    ensures IsTidyLine(front + o + "/[redacted]")
  {
    var u := front + o + "/[redacted]";
    OriginIsVisible(o);
    forall k | 0 <= k < |u| ensures !IsSpace(u[k]) {
      if k < |front| {
        assert u[k] == s[k];
      } else if k < |front| + |o| {
        assert u[k] == o[k - |front|];
      } else {
        NoSpaceInserted(k - |front| - |o|);
        assert u[k] == "/[redacted]"[k - |front| - |o|];
      }
    }
    assert IsSpace('\n');
  }

  lemma OriginIsVisible(o: string)
    requires IsWebOrigin(o)
    ensures o != "" && forall k :: 0 <= k < |o| ==> !IsSpace(o[k])
  {
    var p :| p in SCHEMES && IsOriginOf(o, p);
    SchemeShape(p);
    forall k | 0 <= k < |o| ensures !IsSpace(o[k]) {
      if k < |p| {
        assert o[k] == o[..|p|][k] == p[k];
        assert k >= |p| - 3 ==> p[k] == p[|p| - 3..][k - (|p| - 3)];
      }
      VisibleIsNoSpace(o[k]);
    }
  }

  lemma VisibleIsNoSpace(c: char)
    ensures '!' <= c <= '~' ==> !IsSpace(c)
  {
  }

  lemma NoSpaceInserted(k: nat)
    requires k < 11
    ensures !IsSpace("/[redacted]"[k])
  {
  }
}
