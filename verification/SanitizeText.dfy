/**
  `sanitizeText` as a function of its input: truncation, stack frames, the secret loop, the
  pattern passes, newline collapsing, trimming and the final cap. A regular expression is any function that cuts
  its text into kept stretches and hits.
 */
module SanitizeText {
  import opened Strings
  import opened Redaction
  import opened Urls
  import opened Passes
  import opened UrlRule

  // ---------------------------------------------------------------- rules

  const INTERNAL_HOST := "[internal-host]"
  const PATH := "[path]"
  const TRUNCATED := "\U{2026} [truncated]"
  const MAX_INPUT_CHARS := 20_000
  const MAX_OUTPUT_CHARS := 4_000

  /**
    The patterns of the file. Where a replacement keeps a captured prefix, the hit starts
    after that prefix.
   */
  datatype Rules = Rules(
    stackFrame: Matcher, apiKey: Matcher, authToken: Matcher, labelledSecret: Matcher,
    keyShapedHex: Matcher, fileUrl: Matcher, credentialUrl: Matcher, url: Matcher,
    internalHost: string -> Matcher, suffixHost: Matcher, privateIpv4: Matcher,
    ipv6Loopback: Matcher, localhost: Matcher, windowsPath: Matcher, unixPath: Matcher,
    isFilePath: string -> bool, parse: Parser)

  ghost predicate LawfulRules(r: Rules) {
    && Lawful(r.stackFrame) && Lawful(r.apiKey) && Lawful(r.authToken) && Lawful(r.labelledSecret)
    && Lawful(r.keyShapedHex) && Lawful(r.fileUrl) && Lawful(r.credentialUrl) && Lawful(r.url)
    && (forall host :: Lawful(r.internalHost(host)))
    && Lawful(r.suffixHost) && Lawful(r.privateIpv4) && Lawful(r.ipv6Loopback)
    && Lawful(r.localhost) && Lawful(r.windowsPath) && Lawful(r.unixPath)
    && forall t :: WebHits(r.url(t))
  }

  datatype Context = Context(secrets: seq<string>, internalOrigins: seq<string>, internalHosts: seq<string>)

  // ---------------------------------------------------------------- the stages

  function Capped(input: string): string {
    if |input| > MAX_INPUT_CHARS then input[..MAX_INPUT_CHARS] else input
  }

  function CredentialPasses(text: string, r: Rules): string {
    var t1 := Replace(text, r.apiKey, "[redacted-api-key]");
    var t2 := Replace(t1, r.authToken, " [redacted]");
    var t3 := Replace(t2, r.labelledSecret, REDACTED);
    Replace(t3, r.keyShapedHex, "[redacted-key]")
  }

  function UrlPasses(text: string, ctx: Context, keepNetwork: bool, r: Rules): string {
    var t1 := Replace(text, r.fileUrl, PATH);
    var t2 := Replace(t1, r.credentialUrl, "[redacted-url]");
    Rewrite(r.url(t2), UrlAnswer(r.parse, ctx.internalOrigins, keepNetwork))
  }

  function HostLoop(text: string, hosts: seq<string>, r: Rules): string
    decreases |hosts|
  {
    if hosts == [] then text
    else HostLoop(Replace(text, r.internalHost(hosts[0]), INTERNAL_HOST), hosts[1..], r)
  }

  function NetworkPasses(text: string, ctx: Context, r: Rules): string {
    var t1 := HostLoop(text, ctx.internalHosts, r);
    var t2 := Replace(t1, r.suffixHost, INTERNAL_HOST);
    var t3 := Replace(t2, r.privateIpv4, INTERNAL_HOST);
    var t4 := Replace(t3, r.ipv6Loopback, INTERNAL_HOST);
    Replace(t4, r.localhost, INTERNAL_HOST)
  }

  function FileAnswer(r: Rules): string -> string {
    path => if r.isFilePath(path) then PATH else path
  }

  function PathPasses(text: string, r: Rules): string {
    Rewrite(r.unixPath(Replace(text, r.windowsPath, PATH)), FileAnswer(r))
  }

  function LeadingNewlines(t: string): (n: nat)
    ensures n <= |t| && forall i :: 0 <= i < n ==> t[i] == '\n'
    ensures n < |t| ==> t[n] != '\n'
  {
    if t != "" && t[0] == '\n' then 1 + LeadingNewlines(t[1..]) else 0
  }

  /** The maximal runs of three or more newlines. */
  function NewlineRuns(t: string, keep: string := ""): Matches
    decreases |t|
  {
    var n := LeadingNewlines(t);
    if t == "" then Rest(keep)
    else if n >= 3 then Hit(keep, t[..n], NewlineRuns(t[n..], ""))
    else NewlineRuns(t[1..], keep + [t[0]])
  }

  function Collapse(text: string): string {
    Replace(text, t => NewlineRuns(t), "\n\n")
  }

  function Shorten(text: string): (r: string)
    ensures |r| <= MAX_OUTPUT_CHARS + |TRUNCATED|
  {
    if |text| > MAX_OUTPUT_CHARS then text[..MAX_OUTPUT_CHARS] + TRUNCATED else text
  }

  /** The text after the secret loop. */
  function Unsecret(input: string, ctx: Context, r: Rules): string {
    RedactAll(Replace(Capped(input), r.stackFrame, ""), ctx.secrets)
  }

  function AfterUrls(input: string, ctx: Context, keepNetwork: bool, r: Rules): string {
    UrlPasses(CredentialPasses(Unsecret(input, ctx, r), r), ctx, keepNetwork, r)
  }

  /** What `sanitizeText` returns. */
  function Sanitized(input: string, ctx: Context, keepNetwork: bool, r: Rules): string {
    var t := AfterUrls(input, ctx, keepNetwork, r);
    var u := if keepNetwork then t else NetworkPasses(t, ctx, r);
    Shorten(Trim(Collapse(PathPasses(u, r))))
  }

  // ---------------------------------------------------------------- the end-to-end theorem

  /** `s` touches none of the fixed texts the passes insert. */
  ghost predicate Untouched(s: string) {
    && s != ""
    && !Touches(s, REDACTED) && !Touches(s, "[redacted-api-key]") && !Touches(s, " [redacted]")
    && !Touches(s, "[redacted-key]") && !Touches(s, PATH) && !Touches(s, "[redacted-url]")
    && !Touches(s, "[internal-url]") && !Touches(s, INTERNAL_HOST) && !Touches(s, "\n\n")
    && !Touches(s, TRUNCATED)
  }

  /** Nor does printing an origin anew introduce it. */
  ghost predicate Quiet(s: string, parse: Parser) {
    Untouched(s) && ReprintsAreQuiet(s, parse)
  }

  lemma CredentialPassesKeepOut(text: string, r: Rules, s: string)
    requires LawfulRules(r) && Untouched(s) && !Contains(text, s)
    ensures !Contains(CredentialPasses(text, r), s)
  {
    var t1 := Replace(text, r.apiKey, "[redacted-api-key]");
    ReplaceKeepsOut(text, r.apiKey, "[redacted-api-key]", s);
    var t2 := Replace(t1, r.authToken, " [redacted]");
    ReplaceKeepsOut(t1, r.authToken, " [redacted]", s);
    var t3 := Replace(t2, r.labelledSecret, REDACTED);
    ReplaceKeepsOut(t2, r.labelledSecret, REDACTED, s);
    ReplaceKeepsOut(t3, r.keyShapedHex, "[redacted-key]", s);
  }

  lemma UrlPassesKeepOut(text: string, ctx: Context, keepNetwork: bool, r: Rules, s: string)
    requires LawfulRules(r) && Quiet(s, r.parse) && !Contains(text, s)
    ensures !Contains(UrlPasses(text, ctx, keepNetwork, r), s)
  {
    var t1 := Replace(text, r.fileUrl, PATH);
    ReplaceKeepsOut(text, r.fileUrl, PATH, s);
    var t2 := Replace(t1, r.credentialUrl, "[redacted-url]");
    ReplaceKeepsOut(t1, r.credentialUrl, "[redacted-url]", s);
    UrlRuleKeepsOut(t2, r.url, r.parse, ctx.internalOrigins, keepNetwork, s);
  }

  lemma {:induction false} HostLoopKeepsOut(text: string, hosts: seq<string>, r: Rules, s: string)
    requires LawfulRules(r) && Untouched(s) && !Contains(text, s)
    ensures !Contains(HostLoop(text, hosts, r), s)
    decreases |hosts|
  {
    if hosts != [] {
      ReplaceKeepsOut(text, r.internalHost(hosts[0]), INTERNAL_HOST, s);
      HostLoopKeepsOut(Replace(text, r.internalHost(hosts[0]), INTERNAL_HOST), hosts[1..], r, s);
    }
  }

  lemma NetworkPassesKeepOut(text: string, ctx: Context, r: Rules, s: string)
    requires LawfulRules(r) && Untouched(s) && !Contains(text, s)
    ensures !Contains(NetworkPasses(text, ctx, r), s)
  {
    var t1 := HostLoop(text, ctx.internalHosts, r);
    HostLoopKeepsOut(text, ctx.internalHosts, r, s);
    var t2 := Replace(t1, r.suffixHost, INTERNAL_HOST);
    ReplaceKeepsOut(t1, r.suffixHost, INTERNAL_HOST, s);
    var t3 := Replace(t2, r.privateIpv4, INTERNAL_HOST);
    ReplaceKeepsOut(t2, r.privateIpv4, INTERNAL_HOST, s);
    var t4 := Replace(t3, r.ipv6Loopback, INTERNAL_HOST);
    ReplaceKeepsOut(t3, r.ipv6Loopback, INTERNAL_HOST, s);
    ReplaceKeepsOut(t4, r.localhost, INTERNAL_HOST, s);
  }

  lemma PathPassesKeepOut(text: string, r: Rules, s: string)
    requires LawfulRules(r) && Untouched(s) && !Contains(text, s)
    ensures !Contains(PathPasses(text, r), s)
  {
    var t1 := Replace(text, r.windowsPath, PATH);
    ReplaceKeepsOut(text, r.windowsPath, PATH, s);
    var f := FileAnswer(r);
    forall x ensures SafeAnswer(s, x, f(x)) {
      if f(x) != x { MarkerIsSafe(s, x, PATH); }
    }
    EverySafe(s, r.unixPath(t1), f);
    PassKeepsOut(t1, r.unixPath, f, s);
  }

  lemma {:induction false} NewlineRunsLawful(t: string, keep: string)
    ensures Source(NewlineRuns(t, keep)) == keep + t
    decreases |t|
  {
    var n := LeadingNewlines(t);
    if t == "" {
    } else if n >= 3 {
      NewlineRunsLawful(t[n..], "");
    } else {
      NewlineRunsLawful(t[1..], keep + [t[0]]);
    }
  }

  lemma CollapseKeepsOut(text: string, s: string)
    requires Untouched(s) && !Contains(text, s)
    ensures !Contains(Collapse(text), s)
  {
    NewlineRunsLawful(text, "");
    ReplaceKeepsOut(text, t => NewlineRuns(t), "\n\n", s);
  }

  lemma TrimKeepsOut(text: string, s: string)
    requires !Contains(text, s)
    ensures !Contains(Trim(text), s)
  {
    var l := TrimStart(text);
    AbsentFromSlice(text, |text| - |l|, |text|, s);
    assert text[|text| - |l|..|text|] == l;
    AbsentFromSlice(l, 0, |TrimEnd(l)|, s);
    assert l[0..|TrimEnd(l)|] == TrimEnd(l);
  }

  lemma ShortenKeepsOut(text: string, s: string)
    requires Untouched(s) && !Contains(text, s)
    ensures !Contains(Shorten(text), s)
  {
    if |text| > MAX_OUTPUT_CHARS {
      var head := text[..MAX_OUTPUT_CHARS];
      AbsentFromSlice(text, 0, MAX_OUTPUT_CHARS, s);
      assert text[0..MAX_OUTPUT_CHARS] == head;
      TooShort("", s);
      NoSeam(head, TRUNCATED, "", s);
      assert head + TRUNCATED + "" == head + TRUNCATED;
    }
  }

  /** No listed secret that is quiet occurs in the output of the whole pipeline. */
  lemma SecretsNeverInOutput(input: string, ctx: Context, keepNetwork: bool, r: Rules, s: string)
    requires LawfulRules(r) && Quiet(s, r.parse) && s in ctx.secrets
    ensures !Contains(Unsecret(input, ctx, r), s)
    ensures !Contains(Sanitized(input, ctx, keepNetwork, r), s)
  {
    RedactAllKeepsOut(Replace(Capped(input), r.stackFrame, ""), ctx.secrets, s);
    var t0 := Unsecret(input, ctx, r);
    CredentialPassesKeepOut(t0, r, s);
    UrlPassesKeepOut(CredentialPasses(t0, r), ctx, keepNetwork, r, s);
    var t := AfterUrls(input, ctx, keepNetwork, r);
    NetworkPassesKeepOut(t, ctx, r, s);
    var u := if keepNetwork then t else NetworkPasses(t, ctx, r);
    PathPassesKeepOut(u, r, s);
    var v := PathPasses(u, r);
    CollapseKeepsOut(v, s);
    TrimKeepsOut(Collapse(v), s);
    ShortenKeepsOut(Trim(Collapse(v)), s);
  }

  // ---------------------------------------------------------------- which secrets qualify

  /** No bracket, white space or ellipsis: what the inserted texts consist of beside words and "/". */
  predicate IsBare(s: string) {
    s != "" && forall i :: 0 <= i < |s| ==> s[i] != '[' && s[i] != ']' && s[i] != '\U{2026}' && !IsSpace(s[i])
  }

  /** Nor in the words of an inserted text: what an operator can check about a value. */
  predicate IsPlain(s: string) {
    && IsBare(s)
    && !Contains("redacted", s) && !Contains("redacted-api-key", s) && !Contains("redacted-key", s)
    && !Contains("path", s) && !Contains("redacted-url", s) && !Contains("internal-url", s)
    && !Contains("internal-host", s) && !Contains("truncated", s)
  }

  lemma PlainIsUntouched(s: string)
    requires IsPlain(s)
    ensures Untouched(s)
  {
    PlainMissesWords(s);
    PlainMissesLeads(s);
    NewlinesAreNotTouched(s);
  }

  lemma PlainMissesWords(s: string)
    requires IsPlain(s)
    ensures !Touches(s, REDACTED) && !Touches(s, "[redacted-api-key]") && !Touches(s, "[redacted-key]")
    ensures !Touches(s, PATH) && !Touches(s, "[redacted-url]") && !Touches(s, "[internal-url]")
    ensures !Touches(s, INTERNAL_HOST)
  {
    WordIsNotTouched(s, "redacted", REDACTED);
    WordIsNotTouched(s, "redacted-api-key", "[redacted-api-key]");
    WordIsNotTouched(s, "redacted-key", "[redacted-key]");
    WordIsNotTouched(s, "path", PATH);
    WordIsNotTouched(s, "redacted-url", "[redacted-url]");
    WordIsNotTouched(s, "internal-url", "[internal-url]");
    WordIsNotTouched(s, "internal-host", INTERNAL_HOST);
  }

  lemma PlainMissesLeads(s: string)
    requires IsPlain(s)
    ensures !Touches(s, " [redacted]") && !Touches(s, TRUNCATED)
  {
    WordIsNotTouched(s, "redacted", REDACTED);
    WordIsNotTouched(s, "truncated", "[truncated]");
    LeadIsNotTouched(s, " ", REDACTED, " [redacted]");
    LeadIsNotTouched(s, "\U{2026} ", "[truncated]", TRUNCATED);
  }

  lemma WordIsNotTouched(s: string, word: string, m: string)
    requires s != "" && (forall i :: 0 <= i < |s| ==> s[i] != '[' && s[i] != ']')
    requires !Contains(word, s) && m == "[" + word + "]"
    ensures !Touches(s, m)
  {
    BracketFreeTouchesIff(s, word);
  }

  lemma NewlinesAreNotTouched(s: string)
    requires s != "" && forall i :: 0 <= i < |s| ==> s[i] != '\n'
    ensures !Touches(s, "\n\n")
  {
    forall d | -|s| < d < 2 ensures !Agrees(s, "\n\n", d) {
      AgreesAt(s, "\n\n", d, if d < 0 then -d else 0);
    }
  }

  /** A lead-in that cannot end `s` adds no contact, since the bracket after it is not in `s`. */
  lemma LeadIsNotTouched(s: string, lead: string, m: string, whole: string)
    requires s != "" && forall i :: 0 <= i < |s| ==> s[i] != '['
    requires m != "" && m[0] == '[' && !Touches(s, m) && whole == lead + m
    requires forall j :: 0 <= j < |lead| ==> lead[j] != s[|s| - 1]
    ensures !Touches(s, whole)
  {
    forall d | -|s| < d < |whole| ensures !Agrees(s, whole, d) {
      AgreesAt(s, whole, d, |s| - 1);
      AgreesAt(s, whole, d, |lead| - d);
      if d > |lead| && Agrees(s, whole, d) {
        assert Agrees(s, m, d - |lead|) by {
          forall i | 0 <= i < |s| && 0 <= i + d - |lead| < |m| ensures s[i] == m[i + d - |lead|] {
            AgreesAt(s, whole, d, i);
          }
        }
      }
    }
  }

  /** Each inserted word could be part of a host name. */
  lemma SafeIsPlain(s: string)
    requires IsBare(s) && IsOriginSafe(s)
    ensures IsPlain(s)
  {
    AbsentFromWord("redacted", s);
    AbsentFromWord("redacted-api-key", s);
    AbsentFromWord("redacted-key", s);
    AbsentFromWord("path", s);
    AbsentFromWord("redacted-url", s);
    AbsentFromWord("internal-url", s);
    AbsentFromWord("internal-host", s);
    AbsentFromWord("truncated", s);
  }

  lemma AbsentFromWord(word: string, s: string)
    requires IsOriginSafe(s) && forall i :: 0 <= i < |word| ==> IsLowerLetter(word[i]) || word[i] == '-'
    ensures !Contains(word, s)
  {
    if Contains(word, s) {
      var i :| 0 <= i <= |word| && OccursAt(word, s, i);
      assert forall k :: 0 <= k < |s| ==> s[k] == word[i..i + |s|][k] == word[i + k];
      HostCharsAreUnsafe(s);
    }
  }

  /** A bare value that is safe from origins is quiet for every parser. */
  lemma OriginSafeIsQuiet(s: string, parse: Parser)
    requires IsBare(s) && IsOriginSafe(s) && PrintsWebOrigins(parse)
    ensures Quiet(s, parse)
  {
    SafeIsPlain(s);
    PlainIsUntouched(s);
    OriginSafeIff(s);
    MissesOriginsIsQuiet(s, parse);
  }

  /** So is a part of "://", which no text with a URL lacks. */
  lemma SchemePartIsQuietSecret(s: string, parse: Parser)
    requires s != "" && Contains("://", s)
    ensures Quiet(s, parse)
  {
    SchemePartIsMarks(s);
    AbsentMark("redacted", s);
    AbsentMark("redacted-api-key", s);
    AbsentMark("redacted-key", s);
    AbsentMark("path", s);
    AbsentMark("redacted-url", s);
    AbsentMark("internal-url", s);
    AbsentMark("internal-host", s);
    AbsentMark("truncated", s);
    MarksAreBare(s);
    PlainIsUntouched(s);
    SchemePartIsQuiet(s, parse);
  }

  lemma MarksAreBare(s: string)
    requires s != "" && forall k :: 0 <= k < |s| ==> s[k] == ':' || s[k] == '/'
    ensures IsBare(s)
  {
  }

  lemma AbsentMark(word: string, s: string)
    requires s != "" && (s[0] == ':' || s[0] == '/')
    requires forall i :: 0 <= i < |word| ==> IsLowerLetter(word[i]) || word[i] == '-'
    ensures !Contains(word, s)
  {
    AbsentByChar(word, s, 0);
  }
}
