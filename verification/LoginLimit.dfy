/**
  The admin login limiter as a pure step function: what one attempt does to the entry of
  its key, and what a run of attempts does to the table of all keys.
 */
module LoginLimit {
  import opened Strings

  /** `ADMIN_AUTH_MAX_ATTEMPTS`, `ADMIN_AUTH_WINDOW_MS`, `ADMIN_AUTH_LOCKOUT_MS`. */
  datatype Config = Config(maxAttempts: nat, windowMs: nat, lockoutMs: nat) {
    /** `parsePositiveInt` never yields zero. */
    predicate Valid() { maxAttempts >= 1 && windowMs >= 1 && lockoutMs >= 1 }
  }

  /** `lockedUntil` zero means not locked. */
  datatype Entry = Entry(count: nat, windowStart: nat, lockedUntil: nat)

  type Slot = Option<Entry>

  /** The clock is read once by the check and once by the failure it may lead to. */
  datatype Attempt = Attempt(key: string, checkedAt: nat, comparedAt: nat, correct: bool)

  datatype Outcome =
    | Blocked(retryAfter: nat)
    | Failed(locked: bool, failRetryAfter: nat, remaining: nat)
    | LoggedIn

  // ---------------------------------------------------------------- keys

  /** `buildAttemptKey`, for any case mapping `lower`. */
  function Identity(lower: string -> string, username: string): string {
    var name := lower(Trim(username));
    if name == "" then "unknown-user" else name
  }

  function AttemptKey(lower: string -> string, username: string, ip: string): string {
    Identity(lower, username) + "|" + ip
  }

  /** `u + "|" + m` against `"|"`-joined `m + "|" + i`: the only way two pairs can share a key. */
  ghost predicate Shifted(u: string, i: string, v: string, j: string) {
    exists m :: u == v + "|" + m && j == m + "|" + i
  }

  /**
    Two attempts share a key iff identity and ip agree, or one ip carries, after a bar,
    the other ip and the bar's left side belongs to the other identity.
   */
  lemma SharedKeyIff(lower: string -> string, u: string, i: string, v: string, j: string)
    ensures AttemptKey(lower, u, i) == AttemptKey(lower, v, j) <==>
            || (Identity(lower, u) == Identity(lower, v) && i == j)
            || Shifted(Identity(lower, u), i, Identity(lower, v), j)
            || Shifted(Identity(lower, v), j, Identity(lower, u), i)
  {
    BarSplits(Identity(lower, u), i, Identity(lower, v), j);
  }

  lemma BarSplits(a: string, i: string, b: string, j: string)
    ensures a + "|" + i == b + "|" + j <==> (a == b && i == j) || Shifted(a, i, b, j) || Shifted(b, j, a, i)
  {
    if a + "|" + i == b + "|" + j {
      if |a| > |b| {
        ShiftFound(a, i, b, j);
      } else if |a| < |b| {
        ShiftFound(b, j, a, i);
      } else {
        assert a == (a + "|" + i)[..|a|] == b;
        assert i == (a + "|" + i)[|a| + 1..] == j;
      }
    }
    if Shifted(a, i, b, j) { ShiftJoins(a, i, b, j); }
    if Shifted(b, j, a, i) { ShiftJoins(b, j, a, i); }
  }

  lemma ShiftFound(a: string, i: string, b: string, j: string)
    requires a + "|" + i == b + "|" + j && |a| > |b|
    ensures Shifted(a, i, b, j)
  {
    var k := a + "|" + i;
    var m := a[|b| + 1..];
    assert a == k[..|a|] && b == k[..|b|] && k[|b|] == '|';
    assert a == b + "|" + m;
    assert j == k[|b| + 1..] == m + "|" + i;
  }

  lemma ShiftJoins(a: string, i: string, b: string, j: string)
    requires Shifted(a, i, b, j)
    ensures a + "|" + i == b + "|" + j
  {
    var m :| a == b + "|" + m && j == m + "|" + i;
  }

  /** Without a bar in either ip, the key determines identity and ip whatever the username holds. */
  lemma KeyIsInjective(lower: string -> string, u: string, i: string, v: string, j: string)
    requires '|' !in i && '|' !in j
    ensures AttemptKey(lower, u, i) == AttemptKey(lower, v, j) <==>
            Identity(lower, u) == Identity(lower, v) && i == j
  {
    SharedKeyIff(lower, u, i, v, j);
    assert forall m: string, x: string :: (m + "|" + x)[|m|] == '|';
  }

  /** Two attempts from different names and addresses that are counted together. */
  lemma TwoPairsShareKey(lower: string -> string)
    requires lower("a|b") == "a|b" && lower("a") == "a"
    ensures Identity(lower, "a|b") == "a|b" && Identity(lower, "a") == "a"
    ensures AttemptKey(lower, "a|b", "c") == AttemptKey(lower, "a", "b|c")
  {
    NamesStandForThemselves(lower);
    SameText();
  }

  lemma NamesStandForThemselves(lower: string -> string)
    requires lower("a|b") == "a|b" && lower("a") == "a"
    ensures Identity(lower, "a|b") == "a|b" && Identity(lower, "a") == "a"
  {
    LettersAreNoSpace('a');
    LettersAreNoSpace('b');
    IdentityOfTight(lower, "a|b");
    IdentityOfTight(lower, "a");
  }

  lemma SameText()
    ensures "a|b" + "|" + "c" == "a" + "|" + "b|c"
  {
  }

  lemma IdentityOfTight(lower: string -> string, name: string)
    requires name != "" && !IsSpace(name[0]) && !IsSpace(name[|name| - 1]) && lower(name) == name
    ensures Identity(lower, name) == name
  {
    TrimTight(name);
  }

  // ---------------------------------------------------------------- one attempt

  /** `isLoginBlocked`: the entry after the check, and the time left when blocked. */
  function Check(slot: Slot, now: nat): (Slot, Option<nat>) {
    match slot
    case None => (None, None)
    case Some(e) =>
      if e.lockedUntil > now then (slot, Some(e.lockedUntil - now))
      else if e.lockedUntil != 0 then (Some(Entry(0, now, 0)), None)
      else (slot, None)
  }

  function MinusFloor(a: nat, b: nat): nat { if a > b then a - b else 0 }

  /** `registerLoginFailure` */
  function Register(cfg: Config, slot: Slot, now: nat): (Slot, Outcome) {
    if slot.None? || now - slot.value.windowStart > cfg.windowMs then
      (Some(Entry(1, now, 0)), Failed(false, 0, MinusFloor(cfg.maxAttempts, 1)))
    else
      var e := slot.value;
      var next := e.count + 1;
      if next >= cfg.maxAttempts then
        (Some(Entry(0, e.windowStart, now + cfg.lockoutMs)), Failed(true, cfg.lockoutMs, 0))
      else
        (Some(Entry(next, e.windowStart, e.lockedUntil)), Failed(false, 0, MinusFloor(cfg.maxAttempts, next)))
  }

  /** `authorize` past its configuration checks: check, compare, register or clear. */
  function Step(cfg: Config, slot: Slot, a: Attempt): (Slot, Outcome) {
    var (checked, left) := Check(slot, a.checkedAt);
    if left.Some? then (checked, Blocked(left.value))
    else if a.correct then (None, LoggedIn)
    else Register(cfg, checked, a.comparedAt)
  }

  // ---------------------------------------------------------------- runs

  function Run(cfg: Config, slot: Slot, run: seq<Attempt>): Slot
    decreases |run|
  {
    if run == [] then slot else Run(cfg, Step(cfg, slot, run[0]).0, run[1..])
  }

  function Outcomes(cfg: Config, slot: Slot, run: seq<Attempt>): (r: seq<Outcome>)
    ensures |r| == |run|
    decreases |run|
  {
    if run == [] then []
    else
      var (next, outcome) := Step(cfg, slot, run[0]);
      [outcome] + Outcomes(cfg, next, run[1..])
  }

  /** The clock never goes back, from `now` on. */
  ghost predicate Ordered(run: seq<Attempt>, now: nat) {
    run == [] || (now <= run[0].checkedAt <= run[0].comparedAt && Ordered(run[1..], run[0].comparedAt))
  }

  // ---------------------------------------------------------------- all keys

  type Table = map<string, Entry>

  function Get(table: Table, key: string): Slot {
    if key in table then Some(table[key]) else None
  }

  function Put(table: Table, key: string, slot: Slot): (r: Table)
    ensures Get(r, key) == slot && forall k :: k != key ==> Get(r, k) == Get(table, k)
  {
    match slot
    case None => table - {key}
    case Some(e) => table[key := e]
  }

  lemma PutTwice(table: Table, key: string, first: Slot, second: Slot)
    ensures Put(Put(table, key, first), key, second) == Put(table, key, second)
  {
  }

  function TableStep(cfg: Config, table: Table, a: Attempt): (Table, Outcome) {
    var (slot, outcome) := Step(cfg, Get(table, a.key), a);
    (Put(table, a.key, slot), outcome)
  }

  function TableRun(cfg: Config, table: Table, run: seq<Attempt>): Table
    decreases |run|
  {
    if run == [] then table else TableRun(cfg, TableStep(cfg, table, run[0]).0, run[1..])
  }

  function TableOutcomes(cfg: Config, table: Table, run: seq<Attempt>): (r: seq<Outcome>)
    ensures |r| == |run|
    decreases |run|
  {
    if run == [] then []
    else
      var (next, outcome) := TableStep(cfg, table, run[0]);
      [outcome] + TableOutcomes(cfg, next, run[1..])
  }

  /** The attempts of one key, in order. */
  function Own(run: seq<Attempt>, key: string): seq<Attempt> {
    if run == [] then []
    else (if run[0].key == key then [run[0]] else []) + Own(run[1..], key)
  }

  /** The outcomes that go with `Own(run, key)`. */
  function OwnOutcomes(run: seq<Attempt>, outcomes: seq<Outcome>, key: string): seq<Outcome>
    requires |run| == |outcomes|
  {
    if run == [] then []
    else (if run[0].key == key then [outcomes[0]] else []) + OwnOutcomes(run[1..], outcomes[1..], key)
  }

  /**
    Per-key refinement: the entry and every answer of a key are those of a limiter that
    only ever saw the attempts of that key.
   */
  lemma {:induction false} KeysAreIndependent(cfg: Config, table: Table, run: seq<Attempt>, key: string)
    ensures Get(TableRun(cfg, table, run), key) == Run(cfg, Get(table, key), Own(run, key))
    ensures OwnOutcomes(run, TableOutcomes(cfg, table, run), key) == Outcomes(cfg, Get(table, key), Own(run, key))
    decreases |run|
  {
    if run != [] {
      var next := TableStep(cfg, table, run[0]).0;
      KeysAreIndependent(cfg, next, run[1..], key);
      assert TableOutcomes(cfg, table, run)[1..] == TableOutcomes(cfg, next, run[1..]);
      if run[0].key == key {
        assert Own(run, key)[0] == run[0] && Own(run, key)[1..] == Own(run[1..], key);
      } else {
        assert Own(run, key) == Own(run[1..], key);
      }
    }
  }

  lemma {:induction false} OwnIsOrdered(run: seq<Attempt>, now: nat, key: string)
    requires Ordered(run, now)
    ensures Ordered(Own(run, key), now)
  {
    if run != [] {
      OwnIsOrdered(run[1..], run[0].comparedAt, key);
      var rest := Own(run[1..], key);
      if run[0].key == key {
        assert Own(run, key)[1..] == rest;
      } else {
        assert Own(run, key) == rest;
      }
    }
  }

  // ---------------------------------------------------------------- composition

  lemma {:induction false} RunAppend(cfg: Config, slot: Slot, xs: seq<Attempt>, ys: seq<Attempt>)
    ensures Run(cfg, slot, xs + ys) == Run(cfg, Run(cfg, slot, xs), ys)
    ensures Outcomes(cfg, slot, xs + ys) == Outcomes(cfg, slot, xs) + Outcomes(cfg, Run(cfg, slot, xs), ys)
    decreases |xs|
  {
    if xs == [] {
      assert xs + ys == ys;
    } else {
      assert (xs + ys)[1..] == xs[1..] + ys;
      RunAppend(cfg, Step(cfg, slot, xs[0]).0, xs[1..], ys);
    }
  }
}
