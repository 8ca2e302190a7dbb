/**
  `sanitizeContextFromEnv`: which values of the environment become exact secrets, and the
  longest-first order in which the secret loop removes them.
 */
module SanitizeContext {
  import opened Strings
  import opened Redaction
  import opened Urls
  import opened SanitizeText

  /** `Object.entries(process.env)`: the names and values, in order. */
  type Env = seq<(string, string)>

  function Lookup(env: Env, name: string): (r: Option<string>)
    ensures r.Some? ==> (name, r.value) in env
  {
    if env == [] then None else if env[0].0 == name then Some(env[0].1) else Lookup(env[1..], name)
  }

  const SENSITIVE_WORDS := ["KEY", "SECRET", "TOKEN", "PASSWORD", "PASSWD", "PRIVATE", "CREDENTIAL", "MNEMONIC",
                            "SEED", "AUTH", "DATABASE_URL", "REDIS_URL", "RPC_URL", "DSN"]

  function Upper(s: string): string {
    seq(|s|, i requires 0 <= i < |s| => UpperChar(s[i]))
  }

  predicate IsSensitiveName(name: string) {
    exists k :: 0 <= k < |SENSITIVE_WORDS| && Contains(Upper(name), SENSITIVE_WORDS[k])
  }

  /** A variable whose value counts as secret by its name. */
  predicate IsSecretEntry(entry: (string, string)) {
    entry.1 != "" && IsSensitiveName(entry.0) && |entry.1| >= 8
  }

  function ApiKeySecret(env: Env): Option<string> {
    match Lookup(env, "AGENTFI_API_KEY")
    case Some(v) => if |v| >= 4 then Some(v) else None
    case None => None
  }

  /** An API URL that does not parse is a secret; one that parses names the internal origin and host. */
  function ApiUrlSecret(env: Env, parse: Parser): Option<string> {
    match Lookup(env, "AGENTFI_API_URL")
    case Some(v) => if parse(v).None? && |v| >= 4 then Some(v) else None
    case None => None
  }

  predicate HasSecretEntry(env: Env, n: nat, s: string)
    requires n <= |env|
  {
    exists i :: 0 <= i < n && env[i].1 == s && IsSecretEntry(env[i])
  }

  predicate IsSecret(env: Env, parse: Parser, s: string) {
    || HasSecretEntry(env, |env|, s)
    || ApiKeySecret(env) == Some(s)
    || ApiUrlSecret(env, parse) == Some(s)
  }

  /** The name spells the word somewhere, in any case. */
  predicate NameSpells(name: string, word: string) {
    exists i :: 0 <= i <= |name| && NameSpellsAt(name, word, i)
  }

  predicate NameSpellsAt(name: string, word: string, i: nat) {
    i + |word| <= |name| && forall k :: 0 <= k < |word| ==> word[k] == UpperChar(name[i + k])
  }

  lemma NameSpellsIff(name: string, word: string)
    ensures NameSpells(name, word) <==> Contains(Upper(name), word)
  {
    forall i: nat ensures NameSpellsAt(name, word, i) <==> OccursAt(Upper(name), word, i) {
      ReadsAtIff(Upper(name), word, i);
    }
  }

  predicate IsTellingName(name: string) {
    || NameSpells(name, "KEY") || NameSpells(name, "SECRET") || NameSpells(name, "TOKEN")
    || NameSpells(name, "PASSWORD") || NameSpells(name, "PASSWD") || NameSpells(name, "PRIVATE")
    || NameSpells(name, "CREDENTIAL") || NameSpells(name, "MNEMONIC") || NameSpells(name, "SEED")
    || NameSpells(name, "AUTH") || NameSpells(name, "DATABASE_URL") || NameSpells(name, "REDIS_URL")
    || NameSpells(name, "RPC_URL") || NameSpells(name, "DSN")
  }

  lemma TellingNameIff(name: string)
    ensures IsSensitiveName(name) <==> IsTellingName(name)
  {
    forall k | 0 <= k < |SENSITIVE_WORDS|
      ensures NameSpells(name, SENSITIVE_WORDS[k]) <==> Contains(Upper(name), SENSITIVE_WORDS[k])
    {
      NameSpellsIff(name, SENSITIVE_WORDS[k]);
    }
    EachWord(name);
  }

  lemma EachWord(name: string)
    ensures (exists k :: 0 <= k < |SENSITIVE_WORDS| && NameSpells(name, SENSITIVE_WORDS[k])) <==> IsTellingName(name)
  {
    var w := SENSITIVE_WORDS;
    assert w[0] == "KEY" && w[1] == "SECRET" && w[2] == "TOKEN" && w[3] == "PASSWORD" && w[4] == "PASSWD";
    assert w[5] == "PRIVATE" && w[6] == "CREDENTIAL" && w[7] == "MNEMONIC" && w[8] == "SEED" && w[9] == "AUTH";
    assert w[10] == "DATABASE_URL" && w[11] == "REDIS_URL" && w[12] == "RPC_URL" && w[13] == "DSN" && |w| == 14;
  }

  /**
    A value is secret iff it has at least eight characters and a telling name, or at least
    four and is the API key, or an API URL that does not parse.
   */
  lemma SecretIff(env: Env, parse: Parser, s: string)
    ensures IsSecret(env, parse, s) <==>
            || (|s| >= 8 && exists i :: 0 <= i < |env| && env[i].1 == s && IsTellingName(env[i].0))
            || (|s| >= 4 && Lookup(env, "AGENTFI_API_KEY") == Some(s))
            || (|s| >= 4 && Lookup(env, "AGENTFI_API_URL") == Some(s) && parse(s) == None)
  {
    forall i | 0 <= i < |env| ensures IsSensitiveName(env[i].0) <==> IsTellingName(env[i].0) {
      TellingNameIff(env[i].0);
    }
  }

  /** `Set.add` on a set kept in insertion order. */
  function Add(xs: seq<string>, x: string): (r: seq<string>)
    requires NoDuplicates(xs)
    ensures NoDuplicates(r) && forall y :: y in r <==> y in xs || y == x
  {
    if x in xs then xs else xs + [x]
  }

  /** `sort((a, b) => b.length - a.length)`, which is stable. */
  function Insert(xs: seq<string>, x: string): (r: seq<string>)
    ensures multiset(r) == multiset(xs) + multiset{x}
  {
    if xs == [] || |x| > |xs[0]| then [x] + xs
    else
      assert xs == [xs[0]] + xs[1..];
      [xs[0]] + Insert(xs[1..], x)
  }

  lemma {:induction false} InsertKeepsOrder(xs: seq<string>, x: string)
    requires LongestFirst(xs)
    ensures LongestFirst(Insert(xs, x))
  {
    if xs != [] && |x| <= |xs[0]| {
      InsertKeepsOrder(xs[1..], x);
      var tail := Insert(xs[1..], x);
      forall k | 0 <= k < |tail| ensures |tail[k]| <= |xs[0]| {
        assert tail[k] in multiset(tail);
        assert tail[k] in multiset(xs[1..]) || tail[k] == x;
      }
    }
  }

  function SortByLength(xs: seq<string>): (r: seq<string>)
    ensures multiset(r) == multiset(xs)
  {
    if xs == [] then []
    else
      assert xs == xs[..|xs| - 1] + [xs[|xs| - 1]];
      Insert(SortByLength(xs[..|xs| - 1]), xs[|xs| - 1])
  }

  lemma {:induction false} SortIsLongestFirst(xs: seq<string>)
    ensures LongestFirst(SortByLength(xs))
  {
    if xs != [] {
      SortIsLongestFirst(xs[..|xs| - 1]);
      InsertKeepsOrder(SortByLength(xs[..|xs| - 1]), xs[|xs| - 1]);
    }
  }

  lemma SameElements(xs: seq<string>, ys: seq<string>)
    requires multiset(xs) == multiset(ys) && NoDuplicates(xs)
    ensures NoDuplicates(ys) && forall y :: y in xs <==> y in ys
  {
    forall y ensures y in xs <==> y in ys {
      assert y in multiset(xs) <==> y in xs;
      assert y in multiset(ys) <==> y in ys;
    }
    forall i, j | 0 <= i < j < |ys| ensures ys[i] != ys[j] {
      if ys[i] == ys[j] {
        OnceOnly(xs, ys[i]);
        TwiceThere(ys, i, j);
        assert false;
      }
    }
  }

  lemma {:induction false} OnceOnly(xs: seq<string>, x: string)
    requires NoDuplicates(xs)
    ensures multiset(xs)[x] <= 1
  {
    if xs != [] {
      assert xs == [xs[0]] + xs[1..];
      OnceOnly(xs[1..], x);
      if xs[0] == x { assert x !in xs[1..]; }
    }
  }

  lemma TwiceThere(ys: seq<string>, i: nat, j: nat)
    requires i < j < |ys| && ys[i] == ys[j]
    ensures multiset(ys)[ys[i]] >= 2
  {
    assert ys == ys[..j] + [ys[j]] + ys[j + 1..];
    assert ys[i] in ys[..j];
  }

  /** The loop over the environment. */
  method CollectByName(env: Env) returns (secrets: seq<string>)
    ensures NoDuplicates(secrets)
    ensures forall s :: s in secrets <==> HasSecretEntry(env, |env|, s)
  {
    secrets := [];
    for i := 0 to |env|
      invariant NoDuplicates(secrets)
      invariant forall s :: s in secrets <==> HasSecretEntry(env, i, s)
    {
      if env[i].1 == "" { continue; }
      if IsSensitiveName(env[i].0) && |env[i].1| >= 8 { secrets := Add(secrets, env[i].1); }
    }
  }

  /** The function: the loop, the two special cases, and the sort. */
  method FromEnv(env: Env, parse: Parser) returns (ctx: Context)
    ensures NoDuplicates(ctx.secrets) && LongestFirst(ctx.secrets)
    ensures forall s :: s in ctx.secrets <==> IsSecret(env, parse, s)
    ensures var api := Lookup(env, "AGENTFI_API_URL");
            if api.Some? && api.value != "" && parse(api.value).Some?
            then ctx.internalOrigins == [Lower(parse(api.value).value.origin)]
                 && ctx.internalHosts == [Lower(parse(api.value).value.host)]
            else ctx.internalOrigins == [] && ctx.internalHosts == []
  {
    var secrets := CollectByName(env);
    var apiKey := Lookup(env, "AGENTFI_API_KEY");
    if apiKey.Some? && apiKey.value != "" && |apiKey.value| >= 4 { secrets := Add(secrets, apiKey.value); }
    assert forall s :: s in secrets <==> HasSecretEntry(env, |env|, s) || ApiKeySecret(env) == Some(s);

    var origins, hosts := [], [];
    var apiUrl := Lookup(env, "AGENTFI_API_URL");
    if apiUrl.Some? && apiUrl.value != "" {
      var parsed := parse(apiUrl.value);
      if parsed.Some? {
        origins, hosts := [Lower(parsed.value.origin)], [Lower(parsed.value.host)];
      } else if |apiUrl.value| >= 4 {
        secrets := Add(secrets, apiUrl.value);
      }
    }
    assert forall s :: s in secrets <==> IsSecret(env, parse, s);
    SortIsLongestFirst(secrets);
    SameElements(secrets, SortByLength(secrets));
    ctx := Context(SortByLength(secrets), origins, hosts);
  }
}
