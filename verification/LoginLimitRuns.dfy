/**
  What the login limiter guarantees over whole runs of attempts.
 */
module LoginLimitRuns {
  import opened Strings
  import opened LoginLimit

  // ---------------------------------------------------------------- reachable states

  function Max(a: int, b: int): int { if a > b then a else b }

  /** The failures one window admits: the branch that opens a window never locks. */
  function PerWindow(cfg: Config): nat { Max(2, cfg.maxAttempts) }

  /** What every reachable entry satisfies at time `now`. */
  ghost predicate Inv(cfg: Config, slot: Slot, now: nat) {
    slot.Some? ==>
      var e := slot.value;
      && e.windowStart <= now
      && if e.lockedUntil == 0 then 1 <= e.count < PerWindow(cfg)
         else e.count == 0 && e.windowStart + cfg.lockoutMs <= e.lockedUntil <= now + cfg.lockoutMs
  }

  lemma StepKeepsInv(cfg: Config, slot: Slot, a: Attempt, now: nat)
    requires cfg.Valid() && Inv(cfg, slot, now) && now <= a.checkedAt <= a.comparedAt
    ensures Inv(cfg, Step(cfg, slot, a).0, a.comparedAt)
  {
  }

  function EndOf(run: seq<Attempt>, now: nat): nat {
    if run == [] then now else run[|run| - 1].comparedAt
  }

  lemma {:induction false} RunKeepsInv(cfg: Config, slot: Slot, run: seq<Attempt>, now: nat)
    requires cfg.Valid() && Inv(cfg, slot, now) && Ordered(run, now)
    ensures Inv(cfg, Run(cfg, slot, run), EndOf(run, now))
    decreases |run|
  {
    if run != [] {
      StepKeepsInv(cfg, slot, run[0], now);
      RunKeepsInv(cfg, Step(cfg, slot, run[0]).0, run[1..], run[0].comparedAt);
    }
  }

  lemma {:induction false} OrderedAppend(xs: seq<Attempt>, ys: seq<Attempt>, now: nat)
    ensures Ordered(xs + ys, now) <==> Ordered(xs, now) && Ordered(ys, EndOf(xs, now))
  {
    if xs == [] {
      assert xs + ys == ys;
    } else {
      assert (xs + ys)[1..] == xs[1..] + ys;
      OrderedAppend(xs[1..], ys, xs[0].comparedAt);
    }
  }

  /**
    The entry a key can have after any run on any keys: its count stays below the failures a
    window admits (below the limit itself when that is at least two), and a locked entry has
    a count of zero and a lock that outlasts its window start by the lockout.
   */
  lemma ReachableEntry(cfg: Config, run: seq<Attempt>, key: string)
    requires cfg.Valid() && Ordered(run, 0)
    ensures var table := TableRun(cfg, map[], run);
            key in table ==>
              && table[key].count < PerWindow(cfg)
              && (cfg.maxAttempts >= 2 ==> table[key].count < cfg.maxAttempts)
              && (table[key].lockedUntil != 0 <==> table[key].count == 0)
              && (table[key].lockedUntil != 0 ==> table[key].lockedUntil >= table[key].windowStart + cfg.lockoutMs)
  {
    KeysAreIndependent(cfg, map[], run, key);
    OwnIsOrdered(run, 0, key);
    RunKeepsInv(cfg, None, Own(run, key), 0);
  }

  // ---------------------------------------------------------------- rate bound

  /** Failed comparisons whose failure is registered in `[lo, hi]`. */
  function Failures(cfg: Config, slot: Slot, run: seq<Attempt>, lo: nat, hi: nat): nat
    decreases |run|
  {
    if run == [] then 0
    else
      var (next, outcome) := Step(cfg, slot, run[0]);
      (if outcome.Failed? && lo <= run[0].comparedAt <= hi then 1 else 0) + Failures(cfg, next, run[1..], lo, hi)
  }

  function Successes(cfg: Config, slot: Slot, run: seq<Attempt>, lo: nat, hi: nat): nat
    decreases |run|
  {
    if run == [] then 0
    else
      var (next, outcome) := Step(cfg, slot, run[0]);
      (if outcome.LoggedIn? && lo <= run[0].comparedAt <= hi then 1 else 0) + Successes(cfg, next, run[1..], lo, hi)
  }

  /** The least time between two window starts: an expired window or a served lockout. */
  function Spacing(cfg: Config): nat {
    if cfg.windowMs + 1 < cfg.lockoutMs then cfg.windowMs + 1 else cfg.lockoutMs
  }

  /** Failures admitted by windows that start in `[from, hi]`. */
  function Allowance(cfg: Config, from: nat, hi: nat): nat
    requires cfg.Valid()
    decreases hi + 1 - from
  {
    if from > hi then 0 else PerWindow(cfg) + Allowance(cfg, from + Spacing(cfg), hi)
  }

  lemma {:induction false} AllowanceMonotone(cfg: Config, from: nat, later: nat, hi: nat)
    requires cfg.Valid() && from <= later
    ensures Allowance(cfg, later, hi) <= Allowance(cfg, from, hi)
    decreases hi + 1 - from
  {
    if later <= hi { AllowanceMonotone(cfg, from + Spacing(cfg), later + Spacing(cfg), hi); }
  }

  lemma {:induction false} AllowanceClosed(cfg: Config, from: nat, hi: nat)
    requires cfg.Valid() && from <= hi
    ensures Allowance(cfg, from, hi) == PerWindow(cfg) * ((hi - from) / Spacing(cfg) + 1)
    decreases hi - from
  {
    var d, b := Spacing(cfg), PerWindow(cfg);
    if from + d <= hi {
      AllowanceClosed(cfg, from + d, hi);
      DivStep(hi - from - d, d);
      OneMore(b, (hi - from - d) / d + 1);
    } else {
      DivUnique(hi - from, d, 0, hi - from);
    }
  }

  lemma DivStep(x: nat, d: nat)
    requires d > 0
    ensures (x + d) / d == x / d + 1
  {
    var q, m := x / d, x % d;
    assert x == d * q + m && d * (q + 1) == d * q + d;
    DivUnique(x + d, d, q + 1, m);
  }

  lemma DivUnique(x: nat, d: nat, q: nat, m: nat)
    requires d > 0 && x == d * q + m && m < d
    ensures x / d == q
  {
    var q', m' := x / d, x % d;
    assert x == d * q' + m';
    if q' > q { TimesMonotone(d, q + 1, q'); }
    if q' < q { TimesMonotone(d, q' + 1, q); }
  }

  lemma TimesMonotone(d: nat, a: nat, b: nat)
    requires a <= b
    ensures d * a <= d * b
  {
    assert d * b == d * a + d * (b - a);
  }

  /** Failures still to come in the current window, plus those of later windows. */
  function Potential(cfg: Config, slot: Slot, now: nat, hi: nat): nat
    requires cfg.Valid() && Inv(cfg, slot, now)
  {
    if now > hi then 0
    else match slot
      case None => Allowance(cfg, now, hi)
      case Some(e) =>
        (if e.lockedUntil != 0 then 0 else PerWindow(cfg) - e.count)
        + Allowance(cfg, Max(now, e.windowStart + Spacing(cfg)), hi)
  }

  /** A window that starts no earlier than `from` is paid for by the allowance from there. */
  lemma WindowPays(cfg: Config, from: nat, start: nat, t: nat, hi: nat)
    requires cfg.Valid() && from <= start <= t <= hi
    ensures PerWindow(cfg) + Allowance(cfg, Max(t, start + Spacing(cfg)), hi) <= Allowance(cfg, from, hi)
  {
    AllowanceMonotone(cfg, from, start, hi);
    AllowanceMonotone(cfg, start + Spacing(cfg), Max(t, start + Spacing(cfg)), hi);
  }

  lemma LoginPays(cfg: Config, slot: Slot, now: nat, t: nat, hi: nat)
    requires cfg.Valid() && Inv(cfg, slot, now) && now <= t <= hi
    ensures Allowance(cfg, t, hi) <= Potential(cfg, slot, now, hi) + PerWindow(cfg)
  {
    AllowanceMonotone(cfg, now, t, hi);
    if slot.Some? {
      AllowanceMonotone(cfg, Max(now, slot.value.windowStart + Spacing(cfg)), now + Spacing(cfg), hi);
    }
  }

  lemma FailurePays(cfg: Config, slot: Slot, a: Attempt, now: nat, hi: nat)
    requires cfg.Valid() && Inv(cfg, slot, now) && now <= a.checkedAt <= a.comparedAt <= hi
    requires Inv(cfg, Step(cfg, slot, a).0, a.comparedAt) && Step(cfg, slot, a).1.Failed?
    ensures 1 + Potential(cfg, Step(cfg, slot, a).0, a.comparedAt, hi) <= Potential(cfg, slot, now, hi)
  {
    var t := a.comparedAt;
    var next := Step(cfg, slot, a).0.value;
    if slot.None? {
      WindowPays(cfg, now, t, t, hi);
    } else {
      var from := Max(now, slot.value.windowStart + Spacing(cfg));
      if slot.value.lockedUntil != 0 || next.windowStart != slot.value.windowStart
         || t - slot.value.windowStart > cfg.windowMs
      {
        WindowPays(cfg, from, next.windowStart, t, hi);
      } else {
        AllowanceMonotone(cfg, from, Max(t, slot.value.windowStart + Spacing(cfg)), hi);
      }
    }
  }

  lemma BlockedPays(cfg: Config, slot: Slot, t: nat, now: nat, hi: nat)
    requires cfg.Valid() && Inv(cfg, slot, now) && now <= t
    ensures Inv(cfg, slot, t) && Potential(cfg, slot, t, hi) <= Potential(cfg, slot, now, hi)
  {
    if t <= hi {
      if slot.None? {
        AllowanceMonotone(cfg, now, t, hi);
      } else {
        var s := slot.value.windowStart + Spacing(cfg);
        AllowanceMonotone(cfg, Max(now, s), Max(t, s), hi);
      }
    }
  }

  /** One attempt pays for its failure out of the potential; a success may refill one window. */
  lemma StepPays(cfg: Config, slot: Slot, a: Attempt, now: nat, hi: nat)
    requires cfg.Valid() && Inv(cfg, slot, now) && now <= a.checkedAt <= a.comparedAt
    ensures var (next, outcome) := Step(cfg, slot, a);
            && Inv(cfg, next, a.comparedAt)
            && (if outcome.Failed? && a.comparedAt <= hi then 1 else 0) + Potential(cfg, next, a.comparedAt, hi)
               <= Potential(cfg, slot, now, hi)
                  + (if outcome.LoggedIn? && a.comparedAt <= hi then PerWindow(cfg) else 0)
  {
    StepKeepsInv(cfg, slot, a, now);
    var (next, outcome) := Step(cfg, slot, a);
    if a.comparedAt <= hi {
      match outcome
      case Blocked(_) => BlockedPays(cfg, slot, a.comparedAt, now, hi);
      case LoggedIn => LoginPays(cfg, slot, now, a.comparedAt, hi);
      case Failed(_, _, _) => FailurePays(cfg, slot, a, now, hi);
    }
  }

  lemma {:induction false} RunPays(cfg: Config, slot: Slot, run: seq<Attempt>, now: nat, lo: nat, hi: nat)
    requires cfg.Valid() && Inv(cfg, slot, now) && Ordered(run, now) && lo <= now
    ensures Failures(cfg, slot, run, lo, hi)
            <= Potential(cfg, slot, now, hi) + PerWindow(cfg) * Successes(cfg, slot, run, lo, hi)
    decreases |run|
  {
    if run != [] {
      var next := Step(cfg, slot, run[0]).0;
      StepPays(cfg, slot, run[0], now, hi);
      RunPays(cfg, next, run[1..], run[0].comparedAt, lo, hi);
      OneMore(PerWindow(cfg), Successes(cfg, next, run[1..], lo, hi));
    }
  }

  lemma OneMore(b: nat, s: nat)
    ensures b * (s + 1) == b * s + b
  {
  }

  lemma Collect(b: nat, k: nat, s: nat)
    ensures b + b * (k + 1) + b * s == b * (k + 2 + s)
  {
  }

  /** Whatever the state at a time from `lo` on, its potential is one window short of two ends. */
  lemma PotentialBound(cfg: Config, slot: Slot, now: nat, lo: nat, hi: nat)
    requires cfg.Valid() && Inv(cfg, slot, now) && lo <= now && lo <= hi
    ensures Potential(cfg, slot, now, hi) <= PerWindow(cfg) - 1 + PerWindow(cfg) * ((hi - lo) / Spacing(cfg) + 1)
  {
    AllowanceClosed(cfg, lo, hi);
    AllowanceMonotone(cfg, lo, now, hi);
    if slot.Some? { AllowanceMonotone(cfg, lo, Max(now, slot.value.windowStart + Spacing(cfg)), hi); }
  }

  /**
    Over any run, with any start state that can be reached, the failed comparisons in
    `[lo, hi]` are at most one window's worth for each spacing that fits, two more for the
    ends, and one more for each successful login in between.
   */
  lemma {:induction false} RateBound(cfg: Config, slot: Slot, run: seq<Attempt>, now: nat, lo: nat, hi: nat)
    requires cfg.Valid() && Inv(cfg, slot, now) && Ordered(run, now) && lo <= hi
    ensures Failures(cfg, slot, run, lo, hi)
            <= PerWindow(cfg) * ((hi - lo) / Spacing(cfg) + 2 + Successes(cfg, slot, run, lo, hi))
    decreases |run|
  {
    if run != [] {
      var t := run[0].comparedAt;
      var next := Step(cfg, slot, run[0]).0;
      StepKeepsInv(cfg, slot, run[0], now);
      if t < lo {
        RateBound(cfg, next, run[1..], t, lo, hi);
      } else {
        var s := Successes(cfg, next, run[1..], lo, hi);
        var k := (hi - lo) / Spacing(cfg);
        RunPays(cfg, next, run[1..], t, lo, hi);
        PotentialBound(cfg, next, t, lo, hi);
        Collect(PerWindow(cfg), k, s);
        OneMore(PerWindow(cfg), k + 2 + s);
        assert k + 2 + (s + 1) == k + 2 + s + 1;
      }
    }
  }

  /** Failed comparisons on `key` in `[lo, hi]`, among attempts on all keys. */
  function KeyFailures(run: seq<Attempt>, outcomes: seq<Outcome>, key: string, lo: nat, hi: nat): nat
    requires |run| == |outcomes|
  {
    if run == [] then 0
    else
      (if run[0].key == key && outcomes[0].Failed? && lo <= run[0].comparedAt <= hi then 1 else 0)
      + KeyFailures(run[1..], outcomes[1..], key, lo, hi)
  }

  function KeySuccesses(run: seq<Attempt>, outcomes: seq<Outcome>, key: string, lo: nat, hi: nat): nat
    requires |run| == |outcomes|
  {
    if run == [] then 0
    else
      (if run[0].key == key && outcomes[0].LoggedIn? && lo <= run[0].comparedAt <= hi then 1 else 0)
      + KeySuccesses(run[1..], outcomes[1..], key, lo, hi)
  }

  lemma {:induction false} KeyCounts(cfg: Config, table: Table, run: seq<Attempt>, key: string, lo: nat, hi: nat)
    ensures KeyFailures(run, TableOutcomes(cfg, table, run), key, lo, hi)
            == Failures(cfg, Get(table, key), Own(run, key), lo, hi)
    ensures KeySuccesses(run, TableOutcomes(cfg, table, run), key, lo, hi)
            == Successes(cfg, Get(table, key), Own(run, key), lo, hi)
    decreases |run|
  {
    if run != [] {
      var next := TableStep(cfg, table, run[0]).0;
      KeyCounts(cfg, next, run[1..], key, lo, hi);
      assert TableOutcomes(cfg, table, run)[1..] == TableOutcomes(cfg, next, run[1..]);
      if run[0].key == key {
        assert Own(run, key)[0] == run[0] && Own(run, key)[1..] == Own(run[1..], key);
      } else {
        assert Own(run, key) == Own(run[1..], key);
      }
    }
  }

  /** The rate bound of a key in a run of attempts on any keys, from an empty table. */
  lemma KeyRateBound(cfg: Config, run: seq<Attempt>, key: string, lo: nat, hi: nat)
    requires cfg.Valid() && Ordered(run, 0) && lo <= hi
    ensures var outcomes := TableOutcomes(cfg, map[], run);
            KeyFailures(run, outcomes, key, lo, hi)
            <= PerWindow(cfg) * ((hi - lo) / Spacing(cfg) + 2 + KeySuccesses(run, outcomes, key, lo, hi))
  {
    KeyCounts(cfg, map[], run, key, lo, hi);
    OwnIsOrdered(run, 0, key);
    RateBound(cfg, None, Own(run, key), 0, lo, hi);
  }

  // ---------------------------------------------------------------- lock safety

  /** While the lock lasts, every attempt is turned away and the entry stays as it is. */
  lemma {:induction false} LockHolds(cfg: Config, e: Entry, run: seq<Attempt>)
    requires forall i :: 0 <= i < |run| ==> run[i].checkedAt < e.lockedUntil
    ensures Run(cfg, Some(e), run) == Some(e)
    ensures forall i :: 0 <= i < |run| ==>
              Outcomes(cfg, Some(e), run)[i] == Blocked(e.lockedUntil - run[i].checkedAt)
  {
    if run != [] { LockHolds(cfg, e, run[1..]); }
  }

  /** The answer to attempt `x` after the run `before`, from an empty table. */
  function AnswerAfter(cfg: Config, before: seq<Attempt>, x: Attempt): Outcome {
    TableStep(cfg, TableRun(cfg, map[], before), x).1
  }

  lemma {:induction false} OwnAppend(xs: seq<Attempt>, ys: seq<Attempt>, key: string)
    ensures Own(xs + ys, key) == Own(xs, key) + Own(ys, key)
  {
    if xs == [] {
      assert xs + ys == ys;
    } else {
      var head := if xs[0].key == key then [xs[0]] else [];
      assert (xs + ys)[0] == xs[0] && (xs + ys)[1..] == xs[1..] + ys;
      OwnAppend(xs[1..], ys, key);
      assert Own(xs + ys, key) == head + (Own(xs[1..], key) + Own(ys, key));
    }
  }

  /** The entry of the key after the lock and whatever came in `mid`. */
  lemma LockedAfter(cfg: Config, before: seq<Attempt>, lock: Attempt, mid: seq<Attempt>)
    requires AnswerAfter(cfg, before, lock).Failed? && AnswerAfter(cfg, before, lock).locked
    requires forall y :: y in Own(mid, lock.key) ==> y.checkedAt < lock.comparedAt + cfg.lockoutMs
    ensures AnswerAfter(cfg, before, lock).failRetryAfter == cfg.lockoutMs
    ensures var slot := Get(TableRun(cfg, map[], before + [lock] + mid), lock.key);
            slot.Some? && slot.value.count == 0 && slot.value.lockedUntil == lock.comparedAt + cfg.lockoutMs
  {
    var key := lock.key;
    var slot := Get(TableRun(cfg, map[], before), key);
    KeysAreIndependent(cfg, map[], before, key);
    var locked := Step(cfg, slot, lock).0;
    assert locked.Some? && locked.value.lockedUntil == lock.comparedAt + cfg.lockoutMs && locked.value.count == 0;
    LockHolds(cfg, locked.value, Own(mid, key));
    OwnAppend(before + [lock], mid, key);
    OwnAppend(before, [lock], key);
    OwnOfOne(cfg, slot, lock);
    RunAppend(cfg, None, Own(before, key) + [lock], Own(mid, key));
    RunAppend(cfg, None, Own(before, key), [lock]);
    KeysAreIndependent(cfg, map[], before + [lock] + mid, key);
  }

  lemma OwnOfOne(cfg: Config, slot: Slot, a: Attempt)
    ensures Own([a], a.key) == [a] && Run(cfg, slot, [a]) == Step(cfg, slot, a).0
  {
    assert [a][1..] == [];
  }

  /** How an attempt on a locked entry is answered, before and after the end of the lock. */
  lemma AnswerOnLocked(cfg: Config, e: Entry, x: Attempt)
    requires cfg.Valid() && e.lockedUntil != 0
    ensures Step(cfg, Some(e), x).1 ==
              if x.checkedAt < e.lockedUntil then Blocked(e.lockedUntil - x.checkedAt)
              else if x.correct then LoggedIn
              else if cfg.maxAttempts == 1 && x.comparedAt - x.checkedAt <= cfg.windowMs
              then Failed(true, cfg.lockoutMs, 0)
              else Failed(false, 0, cfg.maxAttempts - 1)
  {
  }

  /**
    Lock safety. `lock` is a failure that locked its key, `mid` any attempts on any keys of
    which those on this key come before the end of the lock, and `x` an attempt on the key.
    Before the end `x` is turned away with exactly the time left, right password or not;
    from the end on it is compared and judged in a fresh window.
   */
  lemma LockSafety(cfg: Config, before: seq<Attempt>, lock: Attempt, mid: seq<Attempt>, x: Attempt)
    requires cfg.Valid() && x.key == lock.key
    requires AnswerAfter(cfg, before, lock).Failed? && AnswerAfter(cfg, before, lock).locked
    requires forall y :: y in Own(mid, lock.key) ==> y.checkedAt < lock.comparedAt + cfg.lockoutMs
    ensures AnswerAfter(cfg, before, lock).failRetryAfter == cfg.lockoutMs
    ensures var end := lock.comparedAt + cfg.lockoutMs;
            AnswerAfter(cfg, before + [lock] + mid, x) ==
              if x.checkedAt < end then Blocked(end - x.checkedAt)
              else if x.correct then LoggedIn
              else if cfg.maxAttempts == 1 && x.comparedAt - x.checkedAt <= cfg.windowMs
              then Failed(true, cfg.lockoutMs, 0)
              else Failed(false, 0, cfg.maxAttempts - 1)
  {
    LockedAfter(cfg, before, lock, mid);
    AnswerOnLocked(cfg, Get(TableRun(cfg, map[], before + [lock] + mid), x.key).value, x);
  }

  lemma {:induction false} OrderedBounds(run: seq<Attempt>, x: Attempt, now: nat)
    requires Ordered(run + [x], now)
    ensures forall y :: y in run ==> y.checkedAt <= x.checkedAt
    ensures now <= x.checkedAt
  {
    if run != [] {
      assert (run + [x])[1..] == run[1..] + [x];
      OrderedBounds(run[1..], x, run[0].comparedAt);
    }
  }

  lemma {:induction false} OwnIsPart(run: seq<Attempt>, key: string)
    ensures forall y :: y in Own(run, key) ==> y in run
  {
    if run != [] { OwnIsPart(run[1..], key); }
  }

  /** In a run with a nondecreasing clock, nothing on the key is compared while its lock lasts. */
  lemma NoComparisonDuringLock(cfg: Config, before: seq<Attempt>, lock: Attempt, mid: seq<Attempt>, x: Attempt)
    requires cfg.Valid() && x.key == lock.key && Ordered(before + [lock] + mid + [x], 0)
    requires AnswerAfter(cfg, before, lock).Failed? && AnswerAfter(cfg, before, lock).locked
    requires x.checkedAt < lock.comparedAt + cfg.lockoutMs
    ensures AnswerAfter(cfg, before + [lock] + mid, x) == Blocked(lock.comparedAt + cfg.lockoutMs - x.checkedAt)
  {
    OrderedBounds(before + [lock] + mid, x, 0);
    OwnIsPart(mid, lock.key);
    LockSafety(cfg, before, lock, mid, x);
  }

  /**
    After a served lockout a key is judged like one never seen, except that with a limit of
    one the very next failure locks it again.
   */
  lemma ServedLockIsFreshIff(cfg: Config, e: Entry, x: Attempt)
    requires cfg.Valid() && e.lockedUntil != 0 && e.lockedUntil <= x.checkedAt <= x.comparedAt
    ensures Step(cfg, Some(e), x).1 == Step(cfg, None, x).1 <==>
            x.correct || cfg.maxAttempts >= 2 || x.comparedAt - x.checkedAt > cfg.windowMs
  {
  }

  // ---------------------------------------------------------------- countdown

  /** Wrong attempts registered no later than `end`. */
  ghost predicate WrongUntil(run: seq<Attempt>, end: int) {
    forall i :: 0 <= i < |run| ==> !run[i].correct && run[i].comparedAt <= end
  }

  lemma {:induction false} CountdownFrom(cfg: Config, e: Entry, run: seq<Attempt>, now: nat)
    requires cfg.Valid() && Inv(cfg, Some(e), now) && e.lockedUntil == 0 && cfg.maxAttempts >= 2
    requires Ordered(run, now) && WrongUntil(run, e.windowStart + cfg.windowMs)
    requires |run| <= cfg.maxAttempts - e.count
    ensures forall i :: 0 <= i < |run| ==>
              Outcomes(cfg, Some(e), run)[i] ==
                if i == cfg.maxAttempts - e.count - 1 then Failed(true, cfg.lockoutMs, 0)
                else Failed(false, 0, cfg.maxAttempts - e.count - 1 - i)
    decreases |run|
  {
    if run != [] {
      var next := Step(cfg, Some(e), run[0]).0;
      StepKeepsInv(cfg, Some(e), run[0], now);
      if e.count + 1 < cfg.maxAttempts {
        CountdownFrom(cfg, next.value, run[1..], run[0].comparedAt);
      }
    }
  }

  /**
    After a failure that answers "not locked, r remaining", the next r failures in the same
    window count down to zero and exactly the r-th of them locks.
   */
  lemma CountdownIsExact(cfg: Config, slot: Slot, a: Attempt, run: seq<Attempt>, now: nat)
    requires cfg.Valid() && cfg.maxAttempts >= 2 && Inv(cfg, slot, now)
    requires now <= a.checkedAt <= a.comparedAt && Ordered(run, a.comparedAt)
    requires Step(cfg, slot, a).1.Failed? && !Step(cfg, slot, a).1.locked
    requires |run| == Step(cfg, slot, a).1.remaining
    requires WrongUntil(run, Step(cfg, slot, a).0.value.windowStart + cfg.windowMs)
    ensures |run| >= 1
    ensures forall i :: 0 <= i < |run| ==>
              Outcomes(cfg, Step(cfg, slot, a).0, run)[i] ==
                if i == |run| - 1 then Failed(true, cfg.lockoutMs, 0) else Failed(false, 0, |run| - 1 - i)
  {
    StepKeepsInv(cfg, slot, a, now);
    CountdownFrom(cfg, Step(cfg, slot, a).0.value, run, a.comparedAt);
  }

  /**
    The answer to a first failure tells the truth about the next ones iff the limit is at
    least two: with a limit of one it says none is left, and yet does not lock.
   */
  lemma FirstFailureIsHonestIff(cfg: Config, a: Attempt)
    requires cfg.Valid() && !a.correct
    ensures var (next, outcome) := Step(cfg, None, a);
            && outcome == Failed(false, 0, cfg.maxAttempts - 1)
            && (outcome.locked <==> outcome.remaining == 0) == (cfg.maxAttempts >= 2)
  {
  }

  // ---------------------------------------------------------------- the window is not sliding

  predicate NoneLocked(outcomes: seq<Outcome>) {
    forall i :: 0 <= i < |outcomes| ==> outcomes[i].Failed? && !outcomes[i].locked
  }

  /** How many failures can still follow by time `hi` without a lock. */
  function Unlocked(cfg: Config, slot: Slot, lo: nat): nat
    requires cfg.maxAttempts >= 2 && Inv(cfg, slot, lo)
  {
    if slot.None? || slot.value.lockedUntil != 0 then cfg.maxAttempts - 1
    else (cfg.maxAttempts - 1 - slot.value.count) + (cfg.maxAttempts - 1)
  }

  lemma {:induction false} UnlockedInWindow(cfg: Config, e: Entry, run: seq<Attempt>, now: nat, lo: nat)
    requires cfg.Valid() && cfg.maxAttempts >= 2 && Inv(cfg, Some(e), now) && e.lockedUntil == 0
    requires lo <= e.windowStart && Ordered(run, now) && EndOf(run, now) <= lo + cfg.windowMs
    requires NoneLocked(Outcomes(cfg, Some(e), run))
    ensures |run| <= cfg.maxAttempts - 1 - e.count
    decreases |run|
  {
    if run != [] {
      EndIsLast(run, now);
      StepKeepsInv(cfg, Some(e), run[0], now);
      var (next, outcome) := Step(cfg, Some(e), run[0]);
      assert Outcomes(cfg, Some(e), run)[0] == outcome;
      assert Outcomes(cfg, Some(e), run)[1..] == Outcomes(cfg, next, run[1..]);
      UnlockedInWindow(cfg, next.value, run[1..], run[0].comparedAt, lo);
    }
  }

  lemma {:induction false} EndIsLast(run: seq<Attempt>, now: nat)
    requires Ordered(run, now)
    ensures now <= EndOf(run, now)
    ensures run != [] ==> run[0].comparedAt <= EndOf(run, now) == EndOf(run[1..], run[0].comparedAt)
  {
    if run != [] { EndIsLast(run[1..], run[0].comparedAt); }
  }

  /**
    Failures on one key that all fall within one window length: 2 * limit - 2 of them
    cannot all pass without a lock.
   */
  lemma {:induction false} UnlockedBound(cfg: Config, slot: Slot, run: seq<Attempt>, lo: nat, now: nat)
    requires cfg.Valid() && cfg.maxAttempts >= 2 && Inv(cfg, slot, now) && lo <= now
    requires Ordered(run, now) && EndOf(run, now) <= lo + cfg.windowMs
    requires NoneLocked(Outcomes(cfg, slot, run))
    ensures |run| <= Unlocked(cfg, slot, now) <= 2 * cfg.maxAttempts - 3
    decreases |run|
  {
    if run != [] {
      EndIsLast(run, now);
      StepKeepsInv(cfg, slot, run[0], now);
      var (next, outcome) := Step(cfg, slot, run[0]);
      assert Outcomes(cfg, slot, run)[0] == outcome;
      assert Outcomes(cfg, slot, run)[1..] == Outcomes(cfg, next, run[1..]);
      if next.value.windowStart >= lo {
        UnlockedInWindow(cfg, next.value, run[1..], run[0].comparedAt, lo);
      } else {
        UnlockedBound(cfg, next, run[1..], lo, run[0].comparedAt);
      }
    }
  }

  /** `n` wrong attempts at time `t`. */
  function Burst(key: string, n: nat, t: nat): (r: seq<Attempt>)
    ensures |r| == n && forall i :: 0 <= i < n ==> r[i] == Attempt(key, t, t, false)
  {
    if n == 0 then [] else [Attempt(key, t, t, false)] + Burst(key, n - 1, t)
  }

  lemma {:induction false} BurstCounts(cfg: Config, e: Entry, key: string, n: nat, t: nat)
    requires cfg.Valid() && e.lockedUntil == 0 && e.count + n < cfg.maxAttempts
    requires e.windowStart <= t <= e.windowStart + cfg.windowMs
    ensures Run(cfg, Some(e), Burst(key, n, t)) == Some(Entry(e.count + n, e.windowStart, 0))
    ensures NoneLocked(Outcomes(cfg, Some(e), Burst(key, n, t)))
    decreases n
  {
    if n > 0 {
      assert Burst(key, n, t)[1..] == Burst(key, n - 1, t);
      BurstCounts(cfg, Entry(e.count + 1, e.windowStart, 0), key, n - 1, t);
    }
  }

  lemma {:induction false} BurstIsOrdered(key: string, n: nat, t: nat, now: nat)
    requires now <= t
    ensures Ordered(Burst(key, n, t), now)
    decreases n
  {
    if n > 0 {
      assert Burst(key, n, t)[1..] == Burst(key, n - 1, t);
      BurstIsOrdered(key, n - 1, t, t);
    }
  }

  /** The failures of the next lemma: the end of one window and the start of the next. */
  function Straddle(cfg: Config, key: string): (r: seq<Attempt>)
    requires cfg.maxAttempts >= 2
    ensures |r| == 2 * cfg.maxAttempts - 3
  {
    Burst(key, cfg.maxAttempts - 2, cfg.windowMs) + Burst(key, cfg.maxAttempts - 1, cfg.windowMs + 1)
  }

  /** The bound is reached: 2 * limit - 3 failures within one millisecond, none of which locks. */
  lemma UnlockedBoundIsTight(cfg: Config, key: string)
    requires cfg.Valid() && cfg.maxAttempts >= 2
    ensures var first := Attempt(key, 0, 0, false);
            var slot := Step(cfg, None, first).0;
            && Inv(cfg, slot, 0) && Ordered([first] + Straddle(cfg, key), 0)
            && NoneLocked(Outcomes(cfg, slot, Straddle(cfg, key)))
            && forall a :: a in Straddle(cfg, key) ==> cfg.windowMs <= a.checkedAt <= a.comparedAt <= cfg.windowMs + 1
  {
    var first := Attempt(key, 0, 0, false);
    assert Step(cfg, None, first).0 == Some(Entry(1, 0, 0));
    StraddleIsUnlocked(cfg, key);
    StraddleIsOrdered(cfg, key);
    assert ([first] + Straddle(cfg, key))[1..] == Straddle(cfg, key);
  }

  lemma StraddleIsUnlocked(cfg: Config, key: string)
    requires cfg.Valid() && cfg.maxAttempts >= 2
    ensures NoneLocked(Outcomes(cfg, Some(Entry(1, 0, 0)), Straddle(cfg, key)))
  {
    var w, m := cfg.windowMs, cfg.maxAttempts;
    var xs := Burst(key, m - 2, w);
    BurstCounts(cfg, Entry(1, 0, 0), key, m - 2, w);
    RunAppend(cfg, Some(Entry(1, 0, 0)), xs, Burst(key, m - 1, w + 1));
    NewWindowBurst(cfg, Entry(m - 1, 0, 0), key);
  }

  lemma NewWindowBurst(cfg: Config, e: Entry, key: string)
    requires cfg.Valid() && cfg.maxAttempts >= 2 && e.windowStart == 0 && e.lockedUntil == 0
    ensures NoneLocked(Outcomes(cfg, Some(e), Burst(key, cfg.maxAttempts - 1, cfg.windowMs + 1)))
  {
    var t, n := cfg.windowMs + 1, cfg.maxAttempts - 1;
    var ys := Burst(key, n, t);
    assert ys[0] == Attempt(key, t, t, false) && ys[1..] == Burst(key, n - 1, t);
    assert Step(cfg, Some(e), ys[0]) == (Some(Entry(1, t, 0)), Failed(false, 0, n));
    BurstCounts(cfg, Entry(1, t, 0), key, n - 1, t);
  }

  lemma StraddleIsOrdered(cfg: Config, key: string)
    requires cfg.maxAttempts >= 2
    ensures Ordered(Straddle(cfg, key), 0)
  {
    var w, m := cfg.windowMs, cfg.maxAttempts;
    var xs := Burst(key, m - 2, w);
    BurstIsOrdered(key, m - 2, w, 0);
    BurstIsOrdered(key, m - 1, w + 1, EndOf(xs, 0));
    OrderedAppend(xs, Burst(key, m - 1, w + 1), 0);
  }
}
