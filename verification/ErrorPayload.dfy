/**
  `buildToolErrorPayload` and `toolErrorResult`: the fields of a described error, sanitized
  with the network rules relaxed only for refusals of the agent's own target, and printed.
 */
module ErrorPayload {
  import opened Strings
  import opened Redaction
  import opened UrlRule
  import opened SanitizeContext
  import opened SanitizeText
  import opened SanitizePasses
  import opened JsonText
  import opened JsonReader
  import opened ValuePaths
  import V = SanitizeValue

  datatype Described =
    Described(message: string, code: Option<string>, status: Option<int>, details: Option<V.Value>)

  datatype Payload = Payload(
    error: string, code: Option<string>, status: Option<int>, details: Option<V.Json>,
    tool: string, traceId: string, recommendation: string)

  /** What the thrown error, the process and the caller give. */
  datatype Call = Call(d: Described, tool: string, traceId: string, h: V.Heap, ctx: Context, r: Rules, keys: V.Policy)

  /** `TARGET_REFUSAL_CODES` */
  predicate IsTargetRefusal(code: Option<string>) {
    code == Some("INVALID_URL") || code == Some("REDIRECT_REFUSED")
  }

  function TextPolicy(ctx: Context, keepNetwork: bool, r: Rules, keys: V.Policy): V.Policy {
    keys.(clean := t => Sanitized(t, ctx, keepNetwork, r))
  }

  datatype Advice =
    | FixInput | ApiKeyRejected | PolicyRefused | NotFound | Conflicting | RateLimited | RequestRefused | Unexpected

  function AdviceFor(d: Described): Advice {
    if d.code == Some("INVALID_INPUT") || d.status == Some(400) || d.status == Some(422) then FixInput
    else if d.status == Some(401) then ApiKeyRejected
    else if d.status == Some(403) then PolicyRefused
    else if d.status == Some(404) then NotFound
    else if d.status == Some(409) then Conflicting
    else if d.status == Some(429) then RateLimited
    else if d.status.Some? && d.status.value < 500 then RequestRefused
    else Unexpected
  }

  function AdviceText(a: Advice, traceId: string): string {
    match a
    case FixInput => "Fix the input parameters (see error and details) and try again."
    case ApiKeyRejected =>
      "The AgentFi API key was rejected. Check the AGENTFI_API_KEY configured for this server."
    case PolicyRefused =>
      "Refused by the agent policy or permissions. "
      + "Do not retry unchanged; ask the operator if limits must change."
    case NotFound => "The referenced resource was not found. Check the id and try again."
    case Conflicting =>
      "The request conflicts with the current state (see code and details). Resolve that before retrying."
    case RateLimited => "A rate or tier limit was reached. Wait before retrying."
    case RequestRefused => "The request was refused (see code and details). Do not retry unchanged."
    case Unexpected =>
      "Unexpected error. Retry later; if it persists, contact the AgentFi operator and quote traceId "
      + traceId + "."
  }

  /** `recommendationFor` */
  function RecommendationFor(d: Described, traceId: string): string {
    AdviceText(AdviceFor(d), traceId)
  }

  /** Which errors get which advice; a bad input is named before any status. */
  lemma AdviceIff(d: Described)
    ensures var input := d.code == Some("INVALID_INPUT");
            var known := {400, 401, 403, 404, 409, 422, 429};
            && (AdviceFor(d) == FixInput <==> input || d.status in {Some(400), Some(422)})
            && (AdviceFor(d) == ApiKeyRejected <==> !input && d.status == Some(401))
            && (AdviceFor(d) == PolicyRefused <==> !input && d.status == Some(403))
            && (AdviceFor(d) == NotFound <==> !input && d.status == Some(404))
            && (AdviceFor(d) == Conflicting <==> !input && d.status == Some(409))
            && (AdviceFor(d) == RateLimited <==> !input && d.status == Some(429))
            && (AdviceFor(d) == RequestRefused <==>
                !input && d.status.Some? && d.status.value < 500 && d.status.value !in known)
            && (AdviceFor(d) == Unexpected <==> !input && (d.status == None || d.status.value >= 500))
  {
  }

  function Build(c: Call): Payload {
    var keep := IsTargetRefusal(c.d.code);
    var message := Sanitized(c.d.message, c.ctx, keep, c.r);
    Payload(
      if message == "" then "Unknown error" else message,
      if c.d.code.Some? then Some(Sanitized(c.d.code.value, c.ctx, false, c.r)) else None,
      c.d.status,
      if c.d.details.Some? then
        var clean := V.Sanitize(c.h, TextPolicy(c.ctx, keep, c.r, c.keys), c.d.details.value, 0);
        if clean == V.JUndefined then None else Some(clean)
      else None,
      c.tool,
      c.traceId,
      RecommendationFor(c.d, c.traceId))
  }

  /** The payload as a value to print; what it lacks is undefined. */
  function ToJson(p: Payload): V.Json {
    V.JObj([
      V.Member("error", V.JStr(p.error)),
      V.Member("code", if p.code.Some? then V.JStr(p.code.value) else V.JUndefined),
      V.Member("status", if p.status.Some? then V.JPlain(V.IntText(p.status.value)) else V.JUndefined),
      V.Member("details", if p.details.Some? then p.details.value else V.JUndefined),
      V.Member("tool", V.JStr(p.tool)),
      V.Member("traceId", V.JStr(p.traceId)),
      V.Member("recommendation", V.JStr(p.recommendation))])
  }

  /** The text content of `toolErrorResult`. */
  function ToolErrorText(c: Call): string {
    Print(ToJson(Build(c)), "")
  }

  /** The string rule of a context is one that removes each of its quiet secrets. */
  lemma TextPolicyRemoves(ctx: Context, keepNetwork: bool, r: Rules, keys: V.Policy, s: string)
    requires LawfulRules(r) && Quiet(s, r.parse) && s in ctx.secrets
    ensures V.Removes(TextPolicy(ctx, keepNetwork, r, keys), s)
  {
    forall t ensures !Contains(Sanitized(t, ctx, keepNetwork, r), s) {
      SecretsNeverInOutput(t, ctx, keepNetwork, r, s);
    }
    UntouchedIsAbsent(REDACTED, s);
    UntouchedIsAbsent(TRUNCATED, s);
    assert TRUNCATED == "\U{2026} " + "[truncated]" + "";
    AbsentFromPart("\U{2026} ", "[truncated]", "", s);
  }

  lemma UntouchedIsAbsent(m: string, s: string)
    requires s != "" && m != "" && !Touches(s, m)
    ensures !Contains(m, s)
  {
    TooShort("", s);
    NoSeam("", m, "", s);
    assert "" + m + "" == m;
  }

  lemma TextsHideSecrets(c: Call, s: string)
    requires LawfulRules(c.r) && Quiet(s, c.r.parse) && s in c.ctx.secrets
    ensures var out := Build(c);
            && (Contains(out.error, s) ==> out.error == "Unknown error")
            && (out.code.Some? ==> !Contains(out.code.value, s))
  {
    SecretsNeverInOutput(c.d.message, c.ctx, IsTargetRefusal(c.d.code), c.r, s);
    if c.d.code.Some? { SecretsNeverInOutput(c.d.code.value, c.ctx, false, c.r, s); }
  }

  lemma DetailsShowIff(v: V.Value, h: V.Heap, ctx: Context, keep: bool, r: Rules, keys: V.Policy, s: string)
    requires LawfulRules(r) && Quiet(s, r.parse) && s in ctx.secrets
    ensures var p := TextPolicy(ctx, keep, r, keys);
            V.Shows(V.Sanitize(h, p, v, 0), s) <==> V.Exposes(p, V.Unfold(h, v, V.MAX_DEPTH), s)
  {
    TextPolicyRemoves(ctx, keep, r, keys, s);
    V.SecretShowsIff(h, TextPolicy(ctx, keep, r, keys), v, s);
  }

  /** The thrown details expose `s` by key, number, digits or note. */
  ghost predicate DetailsExpose(c: Call, s: string) {
    c.d.details.Some? &&
    V.Exposes(TextPolicy(c.ctx, IsTargetRefusal(c.d.code), c.r, c.keys),
              V.Unfold(c.h, c.d.details.value, V.MAX_DEPTH), s)
  }

  /** The name of a field that is there holds `s`. */
  ghost predicate NameShows(p: Payload, s: string) {
    || Contains("error", s) || Contains("tool", s) || Contains("traceId", s) || Contains("recommendation", s)
    || (p.code.Some? && Contains("code", s))
    || (p.status.Some? && Contains("status", s))
    || (p.details.Some? && Contains("details", s))
  }

  /** What is passed through or fixed: field names, the default message, status, tool, trace id, advice. */
  ghost predicate FixedTextShows(p: Payload, s: string) {
    || NameShows(p, s) || (p.error == "Unknown error" && Contains("Unknown error", s))
    || (p.status.Some? && Contains(V.IntText(p.status.value), s))
    || Contains(p.tool, s) || Contains(p.traceId, s) || Contains(p.recommendation, s)
  }

  lemma FieldsShowIff(p: Payload, s: string)
    requires p.details != Some(V.JUndefined)
    ensures V.Shows(ToJson(p), s) <==>
            || NameShows(p, s) || Contains(p.error, s) || (p.code.Some? && Contains(p.code.value, s))
            || (p.status.Some? && Contains(V.IntText(p.status.value), s))
            || (p.details.Some? && V.Shows(p.details.value, s))
            || Contains(p.tool, s) || Contains(p.traceId, s) || Contains(p.recommendation, s)
  {
    var fields := ToJson(p).fields;
    assert V.Shows(ToJson(p), s) <==> exists i :: 0 <= i < 7 && MemberShows(fields[i], s);
    TextMembersShowIff(p, s);
    OptionalMembersShowIff(p, s);
  }

  ghost predicate MemberShows(m: V.Member, s: string) {
    m.value != V.JUndefined && (Contains(m.key, s) || V.Shows(m.value, s))
  }

  lemma TextMembersShowIff(p: Payload, s: string)
    ensures var fields := ToJson(p).fields;
            && (MemberShows(fields[0], s) <==> Contains("error", s) || Contains(p.error, s))
            && (MemberShows(fields[4], s) <==> Contains("tool", s) || Contains(p.tool, s))
            && (MemberShows(fields[5], s) <==> Contains("traceId", s) || Contains(p.traceId, s))
            && (MemberShows(fields[6], s) <==> Contains("recommendation", s) || Contains(p.recommendation, s))
  {
  }

  lemma OptionalMembersShowIff(p: Payload, s: string)
    requires p.details != Some(V.JUndefined)
    ensures var fields := ToJson(p).fields;
            && (MemberShows(fields[1], s) <==> p.code.Some? && (Contains("code", s) || Contains(p.code.value, s)))
            && (MemberShows(fields[2], s) <==>
                p.status.Some? && (Contains("status", s) || Contains(V.IntText(p.status.value), s)))
            && (MemberShows(fields[3], s) <==>
                p.details.Some? && (Contains("details", s) || V.Shows(p.details.value, s)))
  {
  }

  /**
    End to end: the payload shows a quiet secret of the context iff the thrown details expose
    it or one of the texts that are not sanitized holds it.
   */
  lemma PayloadHidesSecrets(c: Call, s: string)
    requires LawfulRules(c.r) && Quiet(s, c.r.parse) && s in c.ctx.secrets
    ensures V.Shows(ToJson(Build(c)), s) <==> DetailsExpose(c, s) || FixedTextShows(Build(c), s)
  {
    TextsHideSecrets(c, s);
    DetailsOfPayload(c, s);
    ShowsByParts(Build(c), DetailsExpose(c, s), s);
  }

  lemma DetailsOfPayload(c: Call, s: string)
    requires LawfulRules(c.r) && Quiet(s, c.r.parse) && s in c.ctx.secrets
    ensures var details := Build(c).details;
            details != Some(V.JUndefined) && (details.Some? && V.Shows(details.value, s) <==> DetailsExpose(c, s))
  {
    if c.d.details.Some? {
      DetailsShowIff(c.d.details.value, c.h, c.ctx, IsTargetRefusal(c.d.code), c.r, c.keys, s);
    }
  }

  lemma ShowsByParts(p: Payload, exposed: bool, s: string)
    requires p.details != Some(V.JUndefined) && (p.details.Some? && V.Shows(p.details.value, s) <==> exposed)
    requires Contains(p.error, s) ==> p.error == "Unknown error"
    requires p.code.Some? ==> !Contains(p.code.value, s)
    ensures V.Shows(ToJson(p), s) <==> exposed || FixedTextShows(p, s)
  {
    FieldsShowIff(p, s);
  }

  /** The same of the text that leaves the process, for secrets that no escape sequence completes. */
  lemma ToolErrorTextShowsIff(c: Call, s: string)
    requires LawfulRules(c.r) && Quiet(s, c.r.parse) && s in c.ctx.secrets
    requires IsToken(s) && MissesEscapes(s)
    ensures Contains(ToolErrorText(c), s) <==> DetailsExpose(c, s) || FixedTextShows(Build(c), s)
  {
    PayloadHidesSecrets(c, s);
    PrintShowsIff(ToJson(Build(c)), "", s);
  }

  // ---------------------------------------------------------------- the text read back

  /** Numbers, booleans and null are spelled as such, in all nodes the details can reach. */
  ghost predicate IsSpelled(v: V.Value) {
    v.Plain? ==> IsLiteral(v.text)
  }

  ghost predicate IsSpelledHeap(h: V.Heap) {
    forall id ::
      match h(id)
      case Items(items) => forall i :: 0 <= i < |items| ==> IsSpelled(items[i])
      case Entries(entries) => forall i :: 0 <= i < |entries| ==> IsSpelled(entries[i].1)
  }

  lemma {:induction false} SanitizedIsSpelled(h: V.Heap, p: V.Policy, v: V.Value, depth: nat)
    requires IsSpelledHeap(h) && IsSpelled(v) && depth <= V.MAX_DEPTH
    ensures HasLiterals(V.Sanitize(h, p, v, depth))
    decreases V.MAX_DEPTH - depth, 1, 0
  {
    if v.Ref? && depth < V.MAX_DEPTH {
      match h(v.id)
      case Items(items) => ItemsAreSpelled(h, p, V.Prefix(items, V.MAX_ARRAY_ITEMS), depth);
      case Entries(entries) => FieldsAreSpelled(h, p, entries, depth);
    }
  }

  lemma {:induction false} ItemsAreSpelled(h: V.Heap, p: V.Policy, items: seq<V.Value>, depth: nat)
    requires IsSpelledHeap(h) && depth < V.MAX_DEPTH && forall i :: 0 <= i < |items| ==> IsSpelled(items[i])
    ensures forall x :: x in V.SanitizeItems(h, p, items, depth) ==> HasLiterals(x)
    decreases V.MAX_DEPTH - depth, 0, |items|
  {
    if items != [] {
      SanitizedIsSpelled(h, p, items[0], depth + 1);
      ItemsAreSpelled(h, p, items[1..], depth);
    }
  }

  lemma {:induction false} FieldsAreSpelled(h: V.Heap, p: V.Policy, entries: seq<(string, V.Value)>, depth: nat)
    requires IsSpelledHeap(h) && depth < V.MAX_DEPTH && forall i :: 0 <= i < |entries| ==> IsSpelled(entries[i].1)
    ensures forall m :: m in V.SanitizeFields(h, p, entries, depth) ==> HasLiterals(m.value)
    decreases V.MAX_DEPTH - depth, 0, |entries|
  {
    if entries != [] {
      SanitizedIsSpelled(h, p, entries[0].1, depth + 1);
      FieldsAreSpelled(h, p, entries[1..], depth);
    }
  }

  lemma IntIsLiteral(n: int)
    ensures IsLiteral(V.IntText(n))
  {
    var digits := Decimal(if n < 0 then -n else n);
    assert forall i :: 0 <= i < |digits| ==> digits[i] in digits;
  }

  lemma PayloadIsSpelled(p: Payload)
    requires p.details.Some? ==> HasLiterals(p.details.value)
    ensures HasLiterals(ToJson(p))
  {
    if p.status.Some? { IntIsLiteral(p.status.value); }
  }

  /** Each field of the read text, by name. */
  ghost predicate ReadsAs(fields: seq<V.Member>, p: Payload) {
    && FieldOf(fields, "error") == Some(V.JStr(p.error))
    && FieldOf(fields, "code") == (if p.code.Some? then Some(V.JStr(p.code.value)) else None)
    && (if p.status.Some? then IsNumber(FieldOf(fields, "status"), p.status.value)
        else FieldOf(fields, "status") == None)
    && FieldOf(fields, "details") == (if p.details.Some? then Some(Canon(p.details.value)) else None)
    && FieldOf(fields, "tool") == Some(V.JStr(p.tool))
    && FieldOf(fields, "traceId") == Some(V.JStr(p.traceId))
    && FieldOf(fields, "recommendation") == Some(V.JStr(p.recommendation))
  }

  ghost predicate IsNumber(j: Option<V.Json>, n: int) {
    j.Some? && j.value.JPlain? && V.IsIntText(j.value.text) && V.ParseInt(j.value.text) == n
  }

  /** The field of a name after canonical printing. */
  lemma {:induction false} CanonField(fields: seq<V.Member>, i: nat)
    requires i < |fields| && forall k :: 0 <= k < i ==> fields[k].key != fields[i].key
    requires forall k :: i < k < |fields| ==> fields[k].key != fields[i].key
    ensures FieldOf(CanonFields(fields), fields[i].key) ==
              if fields[i].value == V.JUndefined then None else Some(Canon(fields[i].value))
  {
    if i == 0 {
      CanonMissing(fields[1..], fields[0].key);
    } else {
      CanonField(fields[1..], i - 1);
    }
    CanonStep(fields, fields[i].key);
  }

  lemma CanonStep(fields: seq<V.Member>, key: string)
    requires fields != []
    ensures FieldOf(CanonFields(fields), key) ==
              if fields[0].key == key && fields[0].value != V.JUndefined then Some(Canon(fields[0].value))
              else FieldOf(CanonFields(fields[1..]), key)
  {
    var rest := CanonFields(fields[1..]);
    if fields[0].value != V.JUndefined {
      assert CanonFields(fields)[0] == V.Member(fields[0].key, Canon(fields[0].value));
      assert CanonFields(fields)[1..] == rest;
    } else {
      assert CanonFields(fields) == rest;
    }
  }

  lemma {:induction false} CanonMissing(fields: seq<V.Member>, key: string)
    requires forall k :: 0 <= k < |fields| ==> fields[k].key != key
    ensures FieldOf(CanonFields(fields), key) == None
  {
    if fields != [] {
      CanonMissing(fields[1..], key);
      CanonStep(fields, key);
    }
  }

  lemma PayloadReadsAs(p: Payload)
    requires p.details != Some(V.JUndefined)
    ensures ReadsAs(CanonFields(ToJson(p).fields), p)
  {
    var fields := ToJson(p).fields;
    NamesDiffer(p);
    CanonField(fields, 0);
    CanonField(fields, 1);
    CanonField(fields, 2);
    CanonField(fields, 3);
    CanonField(fields, 4);
    CanonField(fields, 5);
    CanonField(fields, 6);
    if p.status.Some? { StatusReads(p.status.value); }
  }

  lemma NamesDiffer(p: Payload)
    ensures var fields := ToJson(p).fields;
            && |fields| == 7 && forall i, k :: 0 <= i < k < 7 ==> fields[i].key != fields[k].key
  {
    var fields := ToJson(p).fields;
    assert |"error"| == 5 && |"code"| == 4 && |"status"| == 6 && |"details"| == 7 && |"tool"| == 4;
    assert |"traceId"| == 7 && |"recommendation"| == 14;
    assert "code"[0] != "tool"[0] && "details"[0] != "traceId"[0];
  }

  lemma StatusReads(n: int)
    ensures var t := V.IntText(n);
            V.IsIntText(t) && V.ParseInt(t) == n && Canon(V.JPlain(t)) == V.JPlain(t)
  {
    var t := V.IntText(n);
    V.IntTextIff(n, t);
    assert t[|t| - 1] in Decimal(if n < 0 then -n else n);
    assert "NaN"[2] == 'N' && "Infinity"[7] == 'y' && "-Infinity"[8] == 'y';
  }

  /** Which fields there are, and what is passed through. */
  lemma PayloadIsComplete(c: Call)
    ensures var p := Build(c);
            && p.tool == c.tool && p.traceId == c.traceId && p.status == c.d.status
            && p.recommendation == AdviceText(AdviceFor(c.d), c.traceId) && p.error != ""
            && (p.code.Some? <==> c.d.code.Some?)
            && (p.details.Some? <==> c.d.details.Some? && c.d.details.value != V.Undefined)
  {
    if c.d.details.Some? {
      DefinedStays(c.h, TextPolicy(c.ctx, IsTargetRefusal(c.d.code), c.r, c.keys), c.d.details.value);
    }
  }

  lemma DefinedStays(h: V.Heap, p: V.Policy, v: V.Value)
    ensures V.Sanitize(h, p, v, 0) == V.JUndefined <==> v.Undefined?
  {
  }

  /**
    The text of a tool error is a JSON object, and reading it gives back the payload: each
    field under its name, those that are not set missing, and the status as a number.
   */
  lemma ToolErrorReadsBack(c: Call)
    requires IsSpelledHeap(c.h) && (c.d.details.Some? ==> IsSpelled(c.d.details.value))
    ensures var r := ReadValue(ToolErrorText(c));
            && r.Some? && r.value.1 == "" && r.value.0.JObj? && ReadsAs(r.value.0.fields, Build(c))
  {
    var p := Build(c);
    if c.d.details.Some? {
      SanitizedIsSpelled(c.h, TextPolicy(c.ctx, IsTargetRefusal(c.d.code), c.r, c.keys), c.d.details.value, 0);
    }
    PayloadIsSpelled(p);
    TextReadsBack(p);
    PayloadReadsAs(p);
  }

  lemma TextReadsBack(p: Payload)
    requires HasLiterals(ToJson(p))
    ensures ReadValue(Print(ToJson(p), "")) == Some((V.JObj(CanonFields(ToJson(p).fields)), ""))
  {
    PrintReadsBack(ToJson(p), "", "");
    assert Print(ToJson(p), "") + "" == Print(ToJson(p), "");
  }

  /**
    A host in the message is kept in refusals of the agent's own target and in no other error:
    `hidden` is the message with its local host replaced, and nothing else in it is found.
   */
  lemma HostsStayInTargetRefusals(c: Call, hidden: string)
    requires Decides(Localhost, c.d.message, hidden, c.r, c.ctx, false) && Finish(hidden) != ""
    requires forall q :: Runs(q, c.ctx, true) ==> IsIdle(q, Start(c.d.message), c.r, c.ctx)
    requires Finish(Start(c.d.message)) != ""
    ensures Build(c).error ==
              if c.d.code == Some("INVALID_URL") || c.d.code == Some("REDIRECT_REFUSED")
              then Finish(Start(c.d.message)) else Finish(hidden)
  {
    DecidingPassIsApplied(Localhost, c.d.message, hidden, c.r, c.ctx, false);
    NothingFoundNothingReplaced(c.d.message, c.r, c.ctx, true);
  }

  /** In the code a host never stays. */
  lemma HostsNeverStayInCode(c: Call, hidden: string)
    requires c.d.code.Some? && Decides(Localhost, c.d.code.value, hidden, c.r, c.ctx, false)
    ensures Build(c).code == Some(Finish(hidden))
  {
    DecidingPassIsApplied(Localhost, c.d.code.value, hidden, c.r, c.ctx, false);
  }

  /** Every string in the details is sanitized where it stands, in the mode of the message. */
  lemma DetailsStringAt(c: Call, path: seq<Step>, s: string, depth: nat)
    requires WellNamed(c.h) && c.d.details.Some? && c.d.details.value != V.Undefined
    requires FateOf(c.h, c.keys, c.d.details.value, 0, path) == Kept(V.Str(s), depth)
    ensures var keep := c.d.code == Some("INVALID_URL") || c.d.code == Some("REDIRECT_REFUSED");
            && Build(c).details.Some?
            && At(Build(c).details.value, path) == Some(V.JStr(Sanitized(s, c.ctx, keep, c.r)))
  {
    var p := TextPolicy(c.ctx, IsTargetRefusal(c.d.code), c.r, c.keys);
    SameFate(c.h, c.keys, p, c.d.details.value, 0, path);
    EveryPlaceMeetsItsFate(c.h, p, c.d.details.value, 0, path);
  }

  /** What becomes of a place does not depend on the rule for strings. */
  lemma {:induction false} SameFate(h: V.Heap, p: V.Policy, q: V.Policy, v: V.Value, depth: nat, path: seq<Step>)
    requires p.isDropped == q.isDropped && p.isSecretKey == q.isSecretKey
    ensures FateOf(h, p, v, depth, path) == FateOf(h, q, v, depth, path)
    decreases |path|
  {
    if path != [] && v.Ref? && depth < 8 {
      match (h(v.id), path[0])
      case (Items(items), Index(i)) =>
        if i < |items| { SameFate(h, p, q, items[i], depth + 1, path[1..]); }
      case (Entries(entries), Name(key)) =>
        var inner := EntryOf(entries, key);
        if inner.Some? { SameFate(h, p, q, inner.value, depth + 1, path[1..]); }
      case _ =>
    }
  }

  /**
    `sanitizeText(input)` with its default context, from the environment to the text: no quiet
    value that the environment scan treats as secret is in the result. For every parser that
    prints origins as URL parsing does, those are all bare values that are safe from origins.
   */
  method SanitizeWithEnv(env: Env, input: string, keepNetwork: bool, r: Rules) returns (text: string)
    requires LawfulRules(r)
    ensures forall s :: IsSecret(env, r.parse, s) && Quiet(s, r.parse) ==> !Contains(text, s)
    ensures PrintsWebOrigins(r.parse) ==>
              forall s :: IsSecret(env, r.parse, s) && IsBare(s) && IsOriginSafe(s) ==> !Contains(text, s)
    ensures |text| <= MAX_OUTPUT_CHARS + |TRUNCATED|
  {
    var ctx := FromEnv(env, r.parse);
    text := Sanitize(input, ctx, keepNetwork, r);
    forall s | IsSecret(env, r.parse, s) && Quiet(s, r.parse) ensures !Contains(text, s) {
      SecretsNeverInOutput(input, ctx, keepNetwork, r, s);
    }
    if PrintsWebOrigins(r.parse) {
      forall s | IsBare(s) && IsOriginSafe(s) ensures Quiet(s, r.parse) { OriginSafeIsQuiet(s, r.parse); }
    }
  }

  /** A secret of digits is printed as a number, whatever the context, the patterns and the parser are. */
  lemma NumericPasswordShows(ctx: Context, r: Rules, keys: V.Policy, digits: string)
    requires !keys.isDropped("pin") && !keys.isSecretKey("pin")
    ensures var h: V.Heap := _ => V.Entries([("pin", V.Plain(digits))]);
            var out := V.Sanitize(h, TextPolicy(ctx, false, r, keys), V.Ref(0), 0);
            out == V.JObj([V.Member("pin", V.JPlain(digits))]) && V.Shows(out, digits)
  {
    V.SecretNumberIsKept(TextPolicy(ctx, false, r, keys), "pin", digits);
  }
}
