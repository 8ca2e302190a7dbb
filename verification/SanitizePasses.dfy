/**
  `sanitizeText` statement by statement, and what each of its passes does, in which order.
 */
module SanitizePasses {
  import opened Strings
  import opened Redaction
  import opened Urls
  import opened Passes
  import opened UrlRule
  import opened SanitizeText

  // ---------------------------------------------------------------- the passes, as documented

  datatype Pass =
    | StackFrame | ExactSecrets
    | ApiKey | AuthToken | LabelledSecret | KeyShapedHex
    | FileUrl | CredentialUrl | WebUrl
    | InternalHost(k: nat) | SuffixHost | PrivateIpv4 | Ipv6Loopback | Localhost
    | WindowsPath | UnixPath

  function Rank(p: Pass): nat {
    match p
    case StackFrame => 0
    case ExactSecrets => 1
    case ApiKey => 2
    case AuthToken => 3
    case LabelledSecret => 4
    case KeyShapedHex => 5
    case FileUrl => 6
    case CredentialUrl => 7
    case WebUrl => 8
    case InternalHost(_) => 9
    case SuffixHost => 10
    case PrivateIpv4 => 11
    case Ipv6Loopback => 12
    case Localhost => 13
    case WindowsPath => 14
    case UnixPath => 15
  }

  /** The order of the passes; internal hosts go in the order of their list. */
  predicate Precedes(p: Pass, q: Pass) {
    Rank(p) < Rank(q) || (p.InternalHost? && q.InternalHost? && p.k < q.k)
  }

  /** Host and address passes run only when network locations are not kept. */
  predicate Runs(p: Pass, ctx: Context, keepNetwork: bool) {
    && (p.InternalHost? ==> p.k < |ctx.internalHosts|)
    && (9 <= Rank(p) <= 13 ==> !keepNetwork)
  }

  function Find(p: Pass, r: Rules, ctx: Context): Matcher
    requires p.InternalHost? ==> p.k < |ctx.internalHosts|
  {
    match p
    case StackFrame => r.stackFrame
    case ExactSecrets => t => Rest(t)
    case ApiKey => r.apiKey
    case AuthToken => r.authToken
    case LabelledSecret => r.labelledSecret
    case KeyShapedHex => r.keyShapedHex
    case FileUrl => r.fileUrl
    case CredentialUrl => r.credentialUrl
    case WebUrl => r.url
    case InternalHost(k) => r.internalHost(ctx.internalHosts[k])
    case SuffixHost => r.suffixHost
    case PrivateIpv4 => r.privateIpv4
    case Ipv6Loopback => r.ipv6Loopback
    case Localhost => r.localhost
    case WindowsPath => r.windowsPath
    case UnixPath => r.unixPath
  }

  /** What stands in the place of a hit. */
  function Inserted(p: Pass, r: Rules, ctx: Context, keepNetwork: bool): string -> string {
    hit =>
      match p
      case StackFrame => ""
      case ExactSecrets => hit
      case ApiKey => "[redacted-api-key]"
      case AuthToken => " [redacted]"
      case LabelledSecret => "[redacted]"
      case KeyShapedHex => "[redacted-key]"
      case FileUrl => "[path]"
      case CredentialUrl => "[redacted-url]"
      case WebUrl => SanitizeUrl(hit, r.parse, ctx.internalOrigins, keepNetwork)
      case InternalHost(_) => "[internal-host]"
      case SuffixHost => "[internal-host]"
      case PrivateIpv4 => "[internal-host]"
      case Ipv6Loopback => "[internal-host]"
      case Localhost => "[internal-host]"
      case WindowsPath => "[path]"
      case UnixPath => if r.isFilePath(hit) then "[path]" else hit
  }

  /** The first 20000 characters. */
  function Start(input: string): string {
    if |input| > 20000 then input[..20000] else input
  }

  /** Runs of newlines collapsed, white space trimmed, and at most 4000 characters before the note. */
  function Finish(t: string): string {
    var x := Trim(Collapse(t));
    if |x| > 4000 then x[..4000] + "\U{2026} [truncated]" else x
  }

  predicate Silent(find: Matcher, t: string) {
    find(t) == Rest(t)
  }

  /** What pass `p` alone makes of `t`. */
  function Applied(p: Pass, t: string, r: Rules, ctx: Context, keepNetwork: bool): string
    requires p.InternalHost? ==> p.k < |ctx.internalHosts|
  {
    if p.ExactSecrets? then RedactAll(t, ctx.secrets)
    else Rewrite(Find(p, r, ctx)(t), Inserted(p, r, ctx, keepNetwork))
  }

  ghost predicate IsIdle(q: Pass, t: string, r: Rules, ctx: Context)
    requires q.InternalHost? ==> q.k < |ctx.internalHosts|
  {
    if q.ExactSecrets? then forall s :: s in ctx.secrets && s != "" ==> !Contains(t, s)
    else Silent(Find(q, r, ctx), t)
  }

  /** Of the passes that run, those before `p` find nothing in `text` and those after it nothing in `out`. */
  ghost predicate OnlyActs(p: Pass, text: string, out: string, r: Rules, ctx: Context, keepNetwork: bool) {
    && Runs(p, ctx, keepNetwork)
    && (forall q :: Runs(q, ctx, keepNetwork) && Precedes(q, p) ==> IsIdle(q, text, r, ctx))
    && (forall q :: Runs(q, ctx, keepNetwork) && Precedes(p, q) ==> IsIdle(q, out, r, ctx))
  }

  /** `p` decides the output: it turns the input into `out`, and no other pass finds anything on the way. */
  ghost predicate Decides(p: Pass, input: string, out: string, r: Rules, ctx: Context, keepNetwork: bool) {
    && OnlyActs(p, Start(input), out, r, ctx, keepNetwork)
    && out == Applied(p, Start(input), r, ctx, keepNetwork)
  }

  // ---------------------------------------------------------------- the text on its way

  /** The text that pass `q` is given, when only `p` acts. */
  function Given(q: Pass, p: Pass, text: string, out: string): string {
    if Precedes(p, q) then out else text
  }

  function Left(q: Pass, p: Pass, text: string, out: string): string {
    if Precedes(q, p) then text else out
  }

  lemma RewriteNothing(t: string, find: Matcher, f: string -> string)
    requires Silent(find, t)
    ensures Rewrite(find(t), f) == t
  {
  }

  lemma OnePassStep(q: Pass, p: Pass, text: string, out: string, r: Rules, ctx: Context, keepNetwork: bool)
    requires OnlyActs(p, text, out, r, ctx, keepNetwork) && out == Applied(p, text, r, ctx, keepNetwork)
    requires Runs(q, ctx, keepNetwork)
    ensures Applied(q, Given(q, p, text, out), r, ctx, keepNetwork) == Left(q, p, text, out)
  {
    OneGoesFirst(p, q);
    if Precedes(q, p) {
      IdleStep(q, text, r, ctx, keepNetwork);
    } else if Precedes(p, q) {
      IdleStep(q, out, r, ctx, keepNetwork);
    }
  }

  lemma OneGoesFirst(p: Pass, q: Pass)
    ensures p == q || Precedes(p, q) || Precedes(q, p)
    ensures !(Precedes(p, q) && Precedes(q, p)) && !Precedes(p, p)
  {
  }

  lemma IdleStep(q: Pass, t: string, r: Rules, ctx: Context, keepNetwork: bool)
    requires q.InternalHost? ==> q.k < |ctx.internalHosts|
    requires IsIdle(q, t, r, ctx)
    ensures Applied(q, t, r, ctx, keepNetwork) == t
  {
    if q.ExactSecrets? {
      RedactAllAbsent(t, ctx.secrets);
    } else {
      RewriteNothing(t, Find(q, r, ctx), Inserted(q, r, ctx, keepNetwork));
    }
  }

  /** What one pass leaves, the next is given. */
  lemma NextIsGiven(a: Pass, b: Pass, p: Pass, text: string, out: string)
    requires Rank(a) < Rank(b) && !(Rank(a) < Rank(p) < Rank(b))
    requires (p.InternalHost? ==> !a.InternalHost? && !b.InternalHost?) || Rank(a) + 1 == Rank(b)
    requires a.InternalHost? ==> !p.InternalHost?
    requires b.InternalHost? ==> b.k == 0
    ensures Left(a, p, text, out) == Given(b, p, text, out)
  {
  }

  /** A pass with one marker, as the stages write it. */
  lemma MarkerStep(
    q: Pass, marker: string, p: Pass, text: string, out: string, r: Rules, ctx: Context, keepNetwork: bool)
    requires OnlyActs(p, text, out, r, ctx, keepNetwork) && out == Applied(p, text, r, ctx, keepNetwork)
    requires Runs(q, ctx, keepNetwork) && !q.ExactSecrets?
    requires forall hit :: Inserted(q, r, ctx, keepNetwork)(hit) == marker
    ensures Replace(Given(q, p, text, out), Find(q, r, ctx), marker) == Left(q, p, text, out)
  {
    OnePassStep(q, p, text, out, r, ctx, keepNetwork);
    ConstantRewrite(Find(q, r, ctx)(Given(q, p, text, out)), Inserted(q, r, ctx, keepNetwork), _ => marker, marker);
  }

  lemma SecretStage(p: Pass, input: string, out: string, r: Rules, ctx: Context, keepNetwork: bool)
    requires Decides(p, input, out, r, ctx, keepNetwork)
    ensures Unsecret(input, ctx, r) == Left(ExactSecrets, p, Start(input), out)
  {
    MarkerStep(StackFrame, "", p, Start(input), out, r, ctx, keepNetwork);
    OnePassStep(ExactSecrets, p, Start(input), out, r, ctx, keepNetwork);
  }

  lemma CredentialStage(p: Pass, text: string, out: string, r: Rules, ctx: Context, keepNetwork: bool)
    requires OnlyActs(p, text, out, r, ctx, keepNetwork) && out == Applied(p, text, r, ctx, keepNetwork)
    ensures CredentialPasses(Given(ApiKey, p, text, out), r) == Left(KeyShapedHex, p, text, out)
  {
    MarkerStep(ApiKey, "[redacted-api-key]", p, text, out, r, ctx, keepNetwork);
    MarkerStep(AuthToken, " [redacted]", p, text, out, r, ctx, keepNetwork);
    MarkerStep(LabelledSecret, "[redacted]", p, text, out, r, ctx, keepNetwork);
    MarkerStep(KeyShapedHex, "[redacted-key]", p, text, out, r, ctx, keepNetwork);
  }

  lemma UrlStage(p: Pass, text: string, out: string, r: Rules, ctx: Context, keepNetwork: bool)
    requires OnlyActs(p, text, out, r, ctx, keepNetwork) && out == Applied(p, text, r, ctx, keepNetwork)
    ensures UrlPasses(Given(FileUrl, p, text, out), ctx, keepNetwork, r) == Left(WebUrl, p, text, out)
  {
    MarkerStep(FileUrl, "[path]", p, text, out, r, ctx, keepNetwork);
    MarkerStep(CredentialUrl, "[redacted-url]", p, text, out, r, ctx, keepNetwork);
    OnePassStep(WebUrl, p, text, out, r, ctx, keepNetwork);
    SameAnswers(r.url(Given(WebUrl, p, text, out)), Inserted(WebUrl, r, ctx, keepNetwork),
                UrlAnswer(r.parse, ctx.internalOrigins, keepNetwork));
  }

  lemma {:induction false} SameAnswers(m: Matches, f: string -> string, g: string -> string)
    requires forall x :: f(x) == g(x)
    ensures Rewrite(m, f) == Rewrite(m, g)
  {
    if m.Hit? { SameAnswers(m.next, f, g); }
  }

  lemma {:induction false} HostStage(k: nat, p: Pass, text: string, out: string, r: Rules, ctx: Context)
    requires OnlyActs(p, text, out, r, ctx, false) && out == Applied(p, text, r, ctx, false)
    requires k <= |ctx.internalHosts|
    ensures HostLoop(Given(InternalHost(k), p, text, out), ctx.internalHosts[k..], r)
            == Given(InternalHost(|ctx.internalHosts|), p, text, out)
    decreases |ctx.internalHosts| - k
  {
    if k < |ctx.internalHosts| {
      MarkerStep(InternalHost(k), "[internal-host]", p, text, out, r, ctx, false);
      HostStage(k + 1, p, text, out, r, ctx);
      assert ctx.internalHosts[k..][1..] == ctx.internalHosts[k + 1..];
    }
  }

  lemma NetworkStage(p: Pass, text: string, out: string, r: Rules, ctx: Context)
    requires OnlyActs(p, text, out, r, ctx, false) && out == Applied(p, text, r, ctx, false)
    ensures NetworkPasses(Given(InternalHost(0), p, text, out), ctx, r) == Left(Localhost, p, text, out)
  {
    HostStage(0, p, text, out, r, ctx);
    assert ctx.internalHosts[0..] == ctx.internalHosts;
    AddressStage(p, text, out, r, ctx);
  }

  lemma AddressStage(p: Pass, text: string, out: string, r: Rules, ctx: Context)
    requires OnlyActs(p, text, out, r, ctx, false) && out == Applied(p, text, r, ctx, false)
    ensures var t1 := Replace(Given(InternalHost(|ctx.internalHosts|), p, text, out), r.suffixHost, "[internal-host]");
            var t2 := Replace(t1, r.privateIpv4, "[internal-host]");
            var t3 := Replace(t2, r.ipv6Loopback, "[internal-host]");
            Replace(t3, r.localhost, "[internal-host]") == Left(Localhost, p, text, out)
  {
    GivenAfterHosts(p, text, out, r, ctx);
    MarkerStep(SuffixHost, "[internal-host]", p, text, out, r, ctx, false);
    MarkerStep(PrivateIpv4, "[internal-host]", p, text, out, r, ctx, false);
    MarkerStep(Ipv6Loopback, "[internal-host]", p, text, out, r, ctx, false);
    MarkerStep(Localhost, "[internal-host]", p, text, out, r, ctx, false);
  }

  lemma GivenAfterHosts(p: Pass, text: string, out: string, r: Rules, ctx: Context)
    requires OnlyActs(p, text, out, r, ctx, false)
    ensures Given(InternalHost(|ctx.internalHosts|), p, text, out) == Given(SuffixHost, p, text, out)
  {
  }

  lemma PathStage(p: Pass, text: string, out: string, r: Rules, ctx: Context, keepNetwork: bool)
    requires OnlyActs(p, text, out, r, ctx, keepNetwork) && out == Applied(p, text, r, ctx, keepNetwork)
    ensures PathPasses(Given(WindowsPath, p, text, out), r) == out
  {
    MarkerStep(WindowsPath, "[path]", p, text, out, r, ctx, keepNetwork);
    OnePassStep(UnixPath, p, text, out, r, ctx, keepNetwork);
    SameAnswers(r.unixPath(Given(UnixPath, p, text, out)), Inserted(UnixPath, r, ctx, keepNetwork), FileAnswer(r));
  }

  /**
    The passes, one by one and in order: when one pass decides, whatever its pattern found, the
    output is the input with each of its hits replaced by its own text, then finished. The
    patterns of earlier passes may match the result, those of later ones the input.
   */
  lemma DecidingPassIsApplied(p: Pass, input: string, out: string, r: Rules, ctx: Context, keepNetwork: bool)
    requires Decides(p, input, out, r, ctx, keepNetwork)
    ensures Sanitized(input, ctx, keepNetwork, r) == Finish(out)
  {
    var text := Start(input);
    UrlsLeave(p, input, out, r, ctx, keepNetwork);
    if keepNetwork {
      NextIsGiven(WebUrl, WindowsPath, p, text, out);
    } else {
      NextIsGiven(WebUrl, InternalHost(0), p, text, out);
      NetworkStage(p, text, out, r, ctx);
      NextIsGiven(Localhost, WindowsPath, p, text, out);
    }
    PathStage(p, text, out, r, ctx, keepNetwork);
    FinishIsTidy(out);
  }

  lemma UrlsLeave(p: Pass, input: string, out: string, r: Rules, ctx: Context, keepNetwork: bool)
    requires Decides(p, input, out, r, ctx, keepNetwork)
    ensures AfterUrls(input, ctx, keepNetwork, r) == Left(WebUrl, p, Start(input), out)
  {
    var text := Start(input);
    SecretStage(p, input, out, r, ctx, keepNetwork);
    NextIsGiven(ExactSecrets, ApiKey, p, text, out);
    CredentialStage(p, text, out, r, ctx, keepNetwork);
    NextIsGiven(KeyShapedHex, FileUrl, p, text, out);
    UrlStage(p, text, out, r, ctx, keepNetwork);
  }

  lemma FinishIsTidy(t: string)
    ensures Shorten(Trim(Collapse(t))) == Finish(t)
  {
  }

  /** One hit of one pass: the stretches around it stay, and its text stands between them. */
  lemma OneHitIsReplaced(
    p: Pass, input: string, front: string, hit: string, back: string, r: Rules, ctx: Context, keepNetwork: bool)
    requires Runs(p, ctx, keepNetwork) && !p.ExactSecrets? && |input| <= 20000
    requires Find(p, r, ctx)(input) == Hit(front, hit, Rest(back))
    requires OnlyActs(p, input, front + Inserted(p, r, ctx, keepNetwork)(hit) + back, r, ctx, keepNetwork)
    ensures Sanitized(input, ctx, keepNetwork, r) == Finish(front + Inserted(p, r, ctx, keepNetwork)(hit) + back)
  {
    var f := Inserted(p, r, ctx, keepNetwork);
    assert Rewrite(Hit(front, hit, Rest(back)), f) == front + f(hit) + back;
    DecidingPassIsApplied(p, input, front + f(hit) + back, r, ctx, keepNetwork);
  }

  /**
    A text in which nothing that runs finds anything is only finished; with network locations
    kept, the patterns for hosts and addresses do not count.
   */
  lemma NothingFoundNothingReplaced(input: string, r: Rules, ctx: Context, keepNetwork: bool)
    requires forall q :: Runs(q, ctx, keepNetwork) ==> IsIdle(q, Start(input), r, ctx)
    ensures Sanitized(input, ctx, keepNetwork, r) == Finish(Start(input))
  {
    assert IsIdle(StackFrame, Start(input), r, ctx);
    RewriteNothing(Start(input), r.stackFrame, Inserted(StackFrame, r, ctx, keepNetwork));
    DecidingPassIsApplied(StackFrame, input, Start(input), r, ctx, keepNetwork);
  }

  // ---------------------------------------------------------------- newlines

  function Newlines(n: nat): (r: string)
    ensures |r| == n && forall i :: 0 <= i < n ==> r[i] == '\n'
  {
    seq(n, _ => '\n')
  }

  /** Newline collapsing by its steps. */
  function Shrunk(t: string): string
    decreases |t|
  {
    if t == "" then ""
    else if LeadingNewlines(t) >= 3 then "\n\n" + Shrunk(t[LeadingNewlines(t)..])
    else [t[0]] + Shrunk(t[1..])
  }

  lemma {:induction false} KeepComesFirst(t: string, keep: string, f: string -> string)
    requires forall x :: f(x) == "\n\n"
    ensures Rewrite(NewlineRuns(t, keep), f) == keep + Shrunk(t)
    decreases |t|
  {
    var n := LeadingNewlines(t);
    if t == "" {
      assert keep + "" == keep;
    } else if n >= 3 {
      KeepComesFirst(t[n..], "", f);
      assert "" + Shrunk(t[n..]) == Shrunk(t[n..]);
      Associate(keep, "\n\n", Shrunk(t[n..]));
    } else {
      KeepComesFirst(t[1..], keep + [t[0]], f);
      Associate(keep, [t[0]], Shrunk(t[1..]));
    }
  }

  lemma CollapseIsShrunk(t: string)
    ensures Collapse(t) == Shrunk(t)
  {
    var f := (x: string) => "\n\n";
    KeepComesFirst(t, "", f);
    ConstantRewrite(NewlineRuns(t, ""), f, _ => "\n\n", "\n\n");
    assert "" + Shrunk(t) == Shrunk(t);
  }

  lemma {:induction false} LeadingRun(n: nat, b: string)
    requires b == "" || b[0] != '\n'
    ensures LeadingNewlines(Newlines(n) + b) == n
  {
    if n > 0 {
      LeadingRun(n - 1, b);
      assert (Newlines(n) + b)[1..] == Newlines(n - 1) + b;
    }
  }

  lemma ShrunkRun(n: nat, b: string)
    requires b == "" || b[0] != '\n'
    ensures Shrunk(Newlines(n) + b) == Newlines(if n > 2 then 2 else n) + Shrunk(b)
    decreases n
  {
    LeadingRun(n, b);
    var t := Newlines(n) + b;
    if n == 0 {
      assert t == b;
    } else if n >= 3 {
      assert t[n..] == b && Newlines(2) == "\n\n";
    } else {
      ShrunkRun(n - 1, b);
      ShortRun(n, b, Shrunk(b));
    }
  }

  lemma ShortRun(n: nat, b: string, rest: string)
    requires 0 < n < 3
    ensures (Newlines(n) + b)[1..] == Newlines(n - 1) + b && (Newlines(n) + b)[0] == '\n'
    ensures ['\n'] + (Newlines(n - 1) + rest) == Newlines(n) + rest
  {
  }

  /** Every maximal run of newlines is cut to two, and the text between runs stays. */
  lemma CollapseBetween(a: string, n: nat, b: string)
    requires (a == "" || a[|a| - 1] != '\n') && (b == "" || b[0] != '\n')
    ensures Collapse(a + Newlines(n) + b) == Collapse(a) + Newlines(if n > 2 then 2 else n) + Collapse(b)
  {
    CollapseIsShrunk(a + Newlines(n) + b);
    CollapseIsShrunk(a);
    CollapseIsShrunk(b);
    ShrunkBetween(a, Newlines(n), b);
    ShrunkRun(n, b);
    assert Shrunk(a) + (Newlines(if n > 2 then 2 else n) + Shrunk(b))
           == Shrunk(a) + Newlines(if n > 2 then 2 else n) + Shrunk(b);
  }

  lemma ShrunkBetween(a: string, m: string, b: string)
    requires a == "" || a[|a| - 1] != '\n'
    ensures Shrunk(a + m + b) == Shrunk(a) + Shrunk(m + b)
  {
    ShrunkFront(a, m + b);
    assert a + m + b == a + (m + b);
  }

  lemma BehindFront(a: string, rest: string, k: nat)
    requires 0 < k <= |a|
    ensures (a + rest)[k..] == a[k..] + rest && (a + rest)[0] == a[0]
  {
  }

  lemma {:induction false} ShrunkFront(a: string, rest: string)
    requires a == "" || a[|a| - 1] != '\n'
    ensures Shrunk(a + rest) == Shrunk(a) + Shrunk(rest)
    decreases |a|
  {
    if a == "" {
      assert a + rest == rest;
    } else {
      SameLead(a, rest);
      var n := LeadingNewlines(a);
      var k := if n >= 3 then n else 1;
      BehindFront(a, rest, k);
      ShrunkFront(a[k..], rest);
      Associate(if n >= 3 then "\n\n" else [a[0]], Shrunk(a[k..]), Shrunk(rest));
      ShrunkStep(a);
      ShrunkStep(a + rest);
    }
  }

  lemma ShrunkStep(t: string)
    requires t != ""
    ensures var n := LeadingNewlines(t);
            Shrunk(t) == if n >= 3 then "\n\n" + Shrunk(t[n..]) else [t[0]] + Shrunk(t[1..])
  {
  }

  lemma {:induction false} SameLead(a: string, rest: string)
    requires a != "" && a[|a| - 1] != '\n'
    ensures LeadingNewlines(a + rest) == LeadingNewlines(a) < |a|
  {
    if a[0] == '\n' {
      assert (a + rest)[1..] == a[1..] + rest;
      SameLead(a[1..], rest);
    }
  }

  // ---------------------------------------------------------------- the statements

  /** `for (const secret of ctx.secrets) if (secret) text = text.split(secret).join('[redacted]')` */
  method RunSecretLoop(input: string, secrets: seq<string>) returns (text: string)
    ensures text == RedactAll(input, secrets)
  {
    text := input;
    for i := 0 to |secrets|
      invariant RedactAll(text, secrets[i..]) == RedactAll(input, secrets)
    {
      var secret := secrets[i];
      if secret != "" {
        text := Join(Split(text, secret), REDACTED);
      }
      assert secrets[i..][1..] == secrets[i + 1..];
    }
  }

  method RunHostLoop(input: string, hosts: seq<string>, r: Rules) returns (text: string)
    ensures text == HostLoop(input, hosts, r)
  {
    text := input;
    for i := 0 to |hosts|
      invariant HostLoop(text, hosts[i..], r) == HostLoop(input, hosts, r)
    {
      text := Replace(text, r.internalHost(hosts[i]), INTERNAL_HOST);
      assert hosts[i..][1..] == hosts[i + 1..];
    }
  }

  /** The statements of `sanitizeText`, which reassign `text`; the passes run in the source's order. */
  method Sanitize(input: string, ctx: Context, keepNetwork: bool, r: Rules) returns (text: string)
    ensures text == Sanitized(input, ctx, keepNetwork, r)
    ensures |text| <= MAX_OUTPUT_CHARS + |TRUNCATED|
    ensures forall p, out :: Decides(p, input, out, r, ctx, keepNetwork) ==> text == Finish(out)
  {
    forall p, out | Decides(p, input, out, r, ctx, keepNetwork)
      ensures Sanitized(input, ctx, keepNetwork, r) == Finish(out)
    {
      DecidingPassIsApplied(p, input, out, r, ctx, keepNetwork);
    }
    text := if |input| > MAX_INPUT_CHARS then input[..MAX_INPUT_CHARS] else input;
    text := Replace(text, r.stackFrame, "");
    text := RunSecretLoop(text, ctx.secrets);
    ghost var unsecret := text;
    assert unsecret == Unsecret(input, ctx, r);
    text := Replace(text, r.apiKey, "[redacted-api-key]");
    text := Replace(text, r.authToken, " [redacted]");
    text := Replace(text, r.labelledSecret, REDACTED);
    text := Replace(text, r.keyShapedHex, "[redacted-key]");
    assert text == CredentialPasses(unsecret, r);
    text := Replace(text, r.fileUrl, PATH);
    text := Replace(text, r.credentialUrl, "[redacted-url]");
    text := Rewrite(r.url(text), UrlAnswer(r.parse, ctx.internalOrigins, keepNetwork));
    ghost var urls := text;
    assert urls == AfterUrls(input, ctx, keepNetwork, r);
    if !keepNetwork {
      text := RunHostLoop(text, ctx.internalHosts, r);
      text := Replace(text, r.suffixHost, INTERNAL_HOST);
      text := Replace(text, r.privateIpv4, INTERNAL_HOST);
      text := Replace(text, r.ipv6Loopback, INTERNAL_HOST);
      text := Replace(text, r.localhost, INTERNAL_HOST);
    }
    ghost var hosts := text;
    assert hosts == if keepNetwork then urls else NetworkPasses(urls, ctx, r);
    text := Replace(text, r.windowsPath, PATH);
    text := Rewrite(r.unixPath(text), FileAnswer(r));
    assert text == PathPasses(hosts, r);
    text := Trim(Collapse(text));
    if |text| > MAX_OUTPUT_CHARS {
      text := text[..MAX_OUTPUT_CHARS] + TRUNCATED;
    }
  }
}
