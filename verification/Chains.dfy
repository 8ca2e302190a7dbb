/**
  RPC candidates of a chain and the fallback loop over them.
 */
module Chains {
  import opened Strings

  type EnvSource = map<string, string>

  /** The built-in URLs of one chain: Alchemy, Infura, public. */
  datatype Providers = Providers(alchemy: Option<string>, infura: Option<string>, public: Option<string>)

  predicate IsUsableRpcUrl(url: Option<string>) {
    url.Some? && url.value != "" && !Contains(url.value, "undefined") && !Contains(url.value, "null")
  }

  function RpcOverrideVar(chainId: nat): string { "RPC_URL_" + Decimal(chainId) }

  function RpcOverride(chainId: nat, source: EnvSource): Option<string> {
    var name := RpcOverrideVar(chainId);
    if name !in source || Trim(source[name]) == "" then None else Some(Trim(source[name]))
  }

  /** The four places a URL can come from, in order of preference. */
  function Places(chainId: nat, source: EnvSource, built: Providers): seq<Option<string>> {
    [RpcOverride(chainId, source), built.alchemy, built.infura, built.public]
  }

  /** The first place that holds `url`. */
  function PlaceOf(places: seq<Option<string>>, url: string): (r: nat)
    ensures r <= |places| && (r < |places| ==> places[r] == Some(url))
    ensures forall i :: 0 <= i < r ==> places[i] != Some(url)
  {
    if places == [] || places[0] == Some(url) then 0 else 1 + PlaceOf(places[1..], url)
  }

  /** `urls` are the usable URLs among the first `n` places, each once, by first place. */
  ghost predicate Collected(places: seq<Option<string>>, n: nat, urls: seq<string>)
    requires n <= |places|
  {
    && (forall k :: 0 <= k < |urls| ==> PlaceOf(places, urls[k]) < n && IsUsableRpcUrl(Some(urls[k])))
    && (forall i :: 0 <= i < n && IsUsableRpcUrl(places[i]) ==> places[i].value in urls)
    && (forall j, k :: 0 <= j < k < |urls| ==> PlaceOf(places, urls[j]) < PlaceOf(places, urls[k]))
  }

  /** `getRpcCandidates`; `None` stands for the error it throws. */
  method GetRpcCandidates(chainId: nat, source: EnvSource, built: Providers) returns (r: Option<seq<string>>)
    ensures var places := [RpcOverride(chainId, source), built.alchemy, built.infura, built.public];
            && (r.None? <==> forall i :: 0 <= i < 4 ==> !IsUsableRpcUrl(places[i]))
            && (r.Some? ==> r.value != [] && Collected(places, 4, r.value))
  {
    var places := Places(chainId, source, built);
    var unique: seq<string> := [];
    for i := 0 to |places|
      invariant Collected(places, i, unique)
    {
      if IsUsableRpcUrl(places[i]) && places[i].value !in unique {
        PlaceIsCollected(places, i, unique, places[i].value);
        unique := unique + [places[i].value];
      }
    }
    if |unique| == 0 { return None; }
    assert unique[0] in unique;
    return Some(unique);
  }

  lemma PlaceIsNew(places: seq<Option<string>>, i: nat, unique: seq<string>)
    requires i < |places| && Collected(places, i, unique)
    requires IsUsableRpcUrl(places[i]) && places[i].value !in unique
    ensures PlaceOf(places, places[i].value) == i
  {
  }

  lemma PlaceIsCollected(places: seq<Option<string>>, i: nat, unique: seq<string>, url: string)
    requires i < |places| && Collected(places, i, unique) && places[i] == Some(url)
    requires IsUsableRpcUrl(Some(url)) && url !in unique
    ensures Collected(places, i + 1, unique + [url])
  {
    PlaceIsNew(places, i, unique);
    var next := unique + [url];
    forall k | 0 <= k < |next| ensures PlaceOf(places, next[k]) < i + 1 && IsUsableRpcUrl(Some(next[k])) {
      if k < |unique| { PlaceBound(places, i, unique, k); }
    }
    forall j, k | 0 <= j < k < |next| ensures PlaceOf(places, next[j]) < PlaceOf(places, next[k]) {
      if k < |unique| { PlacesRise(places, i, unique, j, k); } else { PlaceBound(places, i, unique, j); }
    }
  }

  /** The collected list is determined by the places. */
  lemma {:induction false} CollectedIsUnique(places: seq<Option<string>>, n: nat, xs: seq<string>, ys: seq<string>)
    requires n <= |places| && Collected(places, n, xs) && Collected(places, n, ys)
    ensures xs == ys
    decreases n
  {
    if n == 0 {
      NothingCollected(places, xs);
      NothingCollected(places, ys);
    } else {
      var xs' := DropLast(places, n, xs);
      var ys' := DropLast(places, n, ys);
      CollectedIsUnique(places, n - 1, xs', ys');
    }
  }

  lemma NothingCollected(places: seq<Option<string>>, xs: seq<string>)
    requires Collected(places, 0, xs)
    ensures xs == []
  {
    PlaceBound(places, 0, xs, 0);
  }

  lemma PlaceBound(places: seq<Option<string>>, n: nat, xs: seq<string>, k: int)
    requires n <= |places| && Collected(places, n, xs)
    ensures 0 <= k < |xs| ==> PlaceOf(places, xs[k]) < n
  {
  }

  lemma PlacesRise(places: seq<Option<string>>, n: nat, xs: seq<string>, j: int, k: int)
    requires n <= |places| && Collected(places, n, xs)
    ensures 0 <= j < k < |xs| ==> PlaceOf(places, xs[j]) < PlaceOf(places, xs[k]) < n
  {
  }

  lemma DropLast(places: seq<Option<string>>, n: nat, xs: seq<string>) returns (front: seq<string>)
    requires 0 < n <= |places| && Collected(places, n, xs)
    ensures Collected(places, n - 1, front)
    ensures xs == if IsUsableRpcUrl(places[n - 1]) && PlaceOf(places, places[n - 1].value) == n - 1
                  then front + [places[n - 1].value] else front
  {
    if IsUsableRpcUrl(places[n - 1]) && PlaceOf(places, places[n - 1].value) == n - 1 {
      assert places[n - 1].value in xs;
      var k :| 0 <= k < |xs| && xs[k] == places[n - 1].value;
      PlacesRise(places, n, xs, k, |xs| - 1);
      front := xs[..|xs| - 1];
      assert xs == front + [xs[k]];
      FrontIsCollected(places, n, front, xs[k]);
    } else {
      front := xs;
    }
  }

  lemma FrontIsCollected(places: seq<Option<string>>, n: nat, front: seq<string>, last: string)
    requires 0 < n <= |places| && Collected(places, n, front + [last])
    requires PlaceOf(places, last) == n - 1
    ensures Collected(places, n - 1, front)
  {
    var xs := front + [last];
    forall k | 0 <= k < |front| ensures PlaceOf(places, front[k]) < n - 1 && IsUsableRpcUrl(Some(front[k])) {
      assert front[k] == xs[k];
      PlacesRise(places, n, xs, k, |front|);
    }
    forall i | 0 <= i < n - 1 && IsUsableRpcUrl(places[i]) ensures places[i].value in front {
      assert places[i].value in xs;
      assert PlaceOf(places, places[i].value) <= i;
    }
    forall j, k | 0 <= j < k < |front| ensures PlaceOf(places, front[j]) < PlaceOf(places, front[k]) {
      PlacesRise(places, n, xs, j, k);
    }
  }

  /**
    A configured override is the primary exactly when it is usable; one that merely holds
    "null" or "undefined" is dropped without an error.
   */
  lemma OverrideIsPrimaryIff(chainId: nat, source: EnvSource, built: Providers, urls: seq<string>)
    requires RpcOverride(chainId, source).Some?
    requires urls != []
    requires Collected([RpcOverride(chainId, source), built.alchemy, built.infura, built.public], 4, urls)
    ensures var own := RpcOverride(chainId, source);
            && (urls[0] == own.value <==> IsUsableRpcUrl(own))
            && (own.value in urls <==> IsUsableRpcUrl(own))
  {
    var places := Places(chainId, source, built);
    var own := RpcOverride(chainId, source);
    assert places[0] == own;
    if IsUsableRpcUrl(own) {
      assert own.value in urls;
      var k :| 0 <= k < |urls| && urls[k] == own.value;
      assert PlaceOf(places, own.value) == 0;
      PlacesRise(places, 4, urls, 0, k);
    }
  }

  /** A URL that is set and reads neither "undefined" nor "null" anywhere. */
  lemma UsableIff(url: Option<string>)
    ensures IsUsableRpcUrl(url) <==>
            && url.Some? && |url.value| > 0
            && forall i: nat :: !ReadsAt(url.value, "undefined", i) && !ReadsAt(url.value, "null", i)
  {
    if url.Some? {
      ContainsIff(url.value, "undefined");
      ContainsIff(url.value, "null");
    }
  }

  /** The override is the chain's own variable without the white space around it; a blank one counts as unset. */
  lemma OverrideIff(chainId: nat, source: EnvSource, url: string)
    ensures RpcOverride(chainId, source) == Some(url) <==>
            var name := "RPC_URL_" + Decimal(chainId);
            && name in source && url != ""
            && exists x, y :: IsMiddle(source[name], x, url, y)
  {
    var name := "RPC_URL_" + Decimal(chainId);
    if name in source { TrimIff(source[name], url); }
  }

  lemma OverrideRead(chainId: nat, url: string)
    requires url != "" && Trim(url) == url
    ensures RpcOverride(chainId, map[RpcOverrideVar(chainId) := url]) == Some(url)
  {
  }

  /** Any override that reads "null" somewhere is configured and yet not used. */
  lemma NullInOverrideIsDropped(chainId: nat, url: string, a: string, b: string)
    requires url == a + "null" + b && Trim(url) == url
    ensures RpcOverride(chainId, map[RpcOverrideVar(chainId) := url]) == Some(url)
    ensures !IsUsableRpcUrl(Some(url))
  {
    assert |url| >= 4;
    OverrideRead(chainId, url);
    ContainsByParts(a, "null", b);
  }

  // ---------------------------------------------------------------- supported chains

  /** `PUBLIC_RPC_URLS`, for the ids in `CHAIN_IDS`. */
  const PUBLIC_RPC_URLS: map<nat, string> := map[
    1 := "https://eth.llamarpc.com",
    8453 := "https://mainnet.base.org",
    42161 := "https://arb1.arbitrum.io/rpc",
    137 := "https://polygon-rpc.com",
    84532 := "https://sepolia.base.org"]

  /** A URL is usable when it lacks one letter of each of the two words. */
  lemma UsableByLetters(url: string, j: nat, k: nat)
    requires url != "" && j < 9 && "undefined"[j] !in url && k < 4 && "null"[k] !in url
    ensures IsUsableRpcUrl(Some(url))
  {
    AbsentByChar(url, "undefined", j);
    AbsentByChar(url, "null", k);
  }

  lemma NoLetterU(url: string)
    requires url != "" && 'u' !in url
    ensures IsUsableRpcUrl(Some(url))
  {
    assert "undefined"[0] == 'u' && "null"[1] == 'u';
    UsableByLetters(url, 0, 1);
  }

  lemma ArbitrumUrlIsUsable()
    ensures IsUsableRpcUrl(Some("https://arb1.arbitrum.io/rpc"))
  {
    assert "undefined"[4] == 'f' && "null"[2] == 'l';
    UsableByLetters("https://arb1.arbitrum.io/rpc", 4, 2);
  }

  lemma EthereumUrlIsUsable()
    ensures IsUsableRpcUrl(Some("https://eth.llamarpc.com"))
  {
    NoLetterU("https://eth.llamarpc.com");
  }

  lemma BaseUrlIsUsable()
    ensures IsUsableRpcUrl(Some("https://mainnet.base.org"))
  {
    NoLetterU("https://mainnet.base.org");
  }

  lemma PolygonUrlIsUsable()
    ensures IsUsableRpcUrl(Some("https://polygon-rpc.com"))
  {
    NoLetterU("https://polygon-rpc.com");
  }

  lemma BaseSepoliaUrlIsUsable()
    ensures IsUsableRpcUrl(Some("https://sepolia.base.org"))
  {
    NoLetterU("https://sepolia.base.org");
  }

  lemma PublicUrlIsUsable(chainId: nat)
    requires chainId in PUBLIC_RPC_URLS
    ensures IsUsableRpcUrl(Some(PUBLIC_RPC_URLS[chainId]))
  {
    EthereumUrlIsUsable();
    BaseUrlIsUsable();
    ArbitrumUrlIsUsable();
    PolygonUrlIsUsable();
    BaseSepoliaUrlIsUsable();
  }

  // ---------------------------------------------------------------- fallback

  /** What one call of the client function does. */
  datatype Answer<+T> = Returned(value: T) | Threw(isError: bool, message: string)

  datatype Outcome<+T> = Answered(answer: Answer<T>) | NoCandidates | Exhausted

  predicate IsNetworkOrRateLimitError<T>(a: Answer<T>) {
    && a.Threw? && a.isError
    && var m := Lower(a.message);
       Contains(m, "429") || Contains(m, "rate limit") || Contains(m, "network")
       || Contains(m, "fetch failed") || Contains(m, "econnrefused") || Contains(m, "etimedout")
  }

  /** The message spells the word somewhere, in any case. */
  predicate Spells(message: string, word: string) {
    exists i :: 0 <= i <= |message| && SpellsAt(message, word, i)
  }

  predicate SpellsAt(message: string, word: string, i: nat) {
    i + |word| <= |message| && forall k :: 0 <= k < |word| ==> word[k] == LowerChar(message[i + k])
  }

  lemma SpellsIff(message: string, word: string)
    ensures Spells(message, word) <==> Contains(Lower(message), word)
  {
    forall i: nat ensures SpellsAt(message, word, i) <==> OccursAt(Lower(message), word, i) {
      ReadsAtIff(Lower(message), word, i);
    }
  }

  /** The next URL is tried after exactly these failures. */
  lemma FallsThroughIff<T>(a: Answer<T>)
    ensures IsNetworkOrRateLimitError(a) <==>
            && a.Threw? && a.isError
            && (|| Spells(a.message, "429") || Spells(a.message, "rate limit") || Spells(a.message, "network")
                || Spells(a.message, "fetch failed") || Spells(a.message, "econnrefused")
                || Spells(a.message, "etimedout"))
  {
    if a.Threw? {
      SpellsIff(a.message, "429");
      SpellsIff(a.message, "rate limit");
      SpellsIff(a.message, "network");
      SpellsIff(a.message, "fetch failed");
      SpellsIff(a.message, "econnrefused");
      SpellsIff(a.message, "etimedout");
    }
  }

  /**
    The calls are an initial stretch of `urls`, every answer but the last was a network
    failure, and the last is `answer`; it is a network failure only if no URL is left.
   */
  ghost predicate IsFallbackRun<T>(
    urls: seq<string>, fn: (nat, string) -> Answer<T>, calls: seq<string>, answer: Answer<T>) {
    && calls != [] && calls <= urls
    && var k := |calls| - 1;
       && answer == fn(k, urls[k])
       && (forall i :: 0 <= i < k ==> IsNetworkOrRateLimitError(fn(i, urls[i])))
       && (k == |urls| - 1 || !IsNetworkOrRateLimitError(answer))
  }

  /** The loop of `withFallbackRpc`; its trailing throw is never reached. */
  method TryInOrder<T>(urls: seq<string>, fn: (nat, string) -> Answer<T>)
    returns (calls: seq<string>, outcome: Outcome<T>)
    requires urls != []
    ensures outcome.Answered? && IsFallbackRun(urls, fn, calls, outcome.answer)
  {
    calls := [];
    for index := 0 to |urls|
      invariant calls == urls[..index] && (index > 0 ==> index < |urls|)
      invariant forall i :: 0 <= i < index ==> IsNetworkOrRateLimitError(fn(i, urls[i]))
    {
      var url := urls[index];
      calls := calls + [url];
      var answer := fn(index, url);
      outcome := Answered(answer);
      if answer.Returned? { return; }
      var isLastCandidate := index == |urls| - 1;
      if isLastCandidate || !IsNetworkOrRateLimitError(answer) { return; }
    }
    assert false;
    outcome := Exhausted;
  }

  /**
    `withFallbackRpc`. The client function may answer differently on each call: `fn(i, url)`
    is its answer to call number `i`. On a supported chain it is always called.
   */
  method WithFallbackRpc<T>(chainId: nat, source: EnvSource, built: Providers, fn: (nat, string) -> Answer<T>)
    returns (urls: seq<string>, calls: seq<string>, outcome: Outcome<T>)
    ensures outcome != Exhausted
    ensures outcome.NoCandidates? ==> calls == []
    ensures var places := [RpcOverride(chainId, source), built.alchemy, built.infura, built.public];
            && (outcome.NoCandidates? <==> forall i :: 0 <= i < 4 ==> !IsUsableRpcUrl(places[i]))
            && (outcome.Answered? ==> Collected(places, 4, urls) && IsFallbackRun(urls, fn, calls, outcome.answer))
    ensures chainId in PUBLIC_RPC_URLS && built.public == Some(PUBLIC_RPC_URLS[chainId]) ==> outcome.Answered?
  {
    var candidates := GetRpcCandidates(chainId, source, built);
    if chainId in PUBLIC_RPC_URLS { PublicUrlIsUsable(chainId); }
    assert Places(chainId, source, built)[3] == built.public;
    if candidates.None? { return [], [], NoCandidates; }
    urls := candidates.value;
    calls, outcome := TryInOrder(urls, fn);
  }
}
