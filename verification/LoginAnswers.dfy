/**
  Which of its three answers the limiter gives to an attempt, told from the attempts that
  came before it: blocked exactly during a lock, and otherwise as the password says.
 */
module LoginAnswers {
  import opened Strings
  import opened LoginLimit
  import opened LoginLimitRuns

  lemma {:induction false} TableRunAppend(cfg: Config, table: Table, run: seq<Attempt>, x: Attempt)
    ensures TableRun(cfg, table, run + [x]) == TableStep(cfg, TableRun(cfg, table, run), x).0
    decreases |run|
  {
    if run == [] {
      assert run + [x] == [x] && [x][1..] == [];
    } else {
      assert (run + [x])[1..] == run[1..] + [x];
      TableRunAppend(cfg, TableStep(cfg, table, run[0]).0, run[1..], x);
    }
  }

  // ---------------------------------------------------------------- locks

  /** In `run`, `lock` locked the key, and nothing on the key was checked at or after the end of the lock. */
  ghost predicate LockedBy(
    cfg: Config, run: seq<Attempt>, key: string, before: seq<Attempt>, lock: Attempt, mid: seq<Attempt>) {
    && run == before + [lock] + mid && lock.key == key
    && AnswerAfter(cfg, before, lock).Failed? && AnswerAfter(cfg, before, lock).locked
    && forall y :: y in Own(mid, key) ==> y.checkedAt < lock.comparedAt + cfg.lockoutMs
  }

  /** Some attempt of `run` locked the key until after `t`. */
  ghost predicate IsLockedAt(cfg: Config, run: seq<Attempt>, key: string, t: nat) {
    exists before, lock, mid ::
      LockedBy(cfg, run, key, before, lock, mid) && t < lock.comparedAt + cfg.lockoutMs
  }

  /** A lock in the table comes from a failure that locked. */
  lemma {:induction false} LockHasCause(cfg: Config, run: seq<Attempt>, key: string)
    returns (before: seq<Attempt>, lock: Attempt, mid: seq<Attempt>)
    requires key in TableRun(cfg, map[], run) && TableRun(cfg, map[], run)[key].lockedUntil != 0
    ensures LockedBy(cfg, run, key, before, lock, mid)
    ensures TableRun(cfg, map[], run)[key].lockedUntil == lock.comparedAt + cfg.lockoutMs
    decreases |run|
  {
    var front, y := run[..|run| - 1], run[|run| - 1];
    assert run == front + [y];
    TableRunAppend(cfg, map[], front, y);
    var outcome := AnswerAfter(cfg, front, y);
    if y.key == key && outcome.Failed? && outcome.locked {
      before, lock, mid := front, y, [];
      assert run == before + [lock] + mid;
    } else {
      EntryIsOlder(cfg, TableRun(cfg, map[], front), y, key);
      before, lock, mid := LockHasCause(cfg, front, key);
      OwnAppend(mid, [y], key);
      assert [y][1..] == [];
      mid := mid + [y];
      assert run == before + [lock] + mid;
    }
  }

  /** A lock that an attempt did not set was there before, and if the attempt is on the key, later than its check. */
  lemma EntryIsOlder(cfg: Config, table: Table, y: Attempt, key: string)
    requires var (next, outcome) := TableStep(cfg, table, y);
             key in next && next[key].lockedUntil != 0 && !(y.key == key && outcome.Failed? && outcome.locked)
    ensures key in table && table[key] == TableStep(cfg, table, y).0[key]
    ensures y.key == key ==> y.checkedAt < table[key].lockedUntil
  {
    assert Get(TableStep(cfg, table, y).0, key)
           == if y.key == key then Step(cfg, Get(table, key), y).0 else Get(table, key);
  }

  // ---------------------------------------------------------------- the three answers

  /**
    In every table that a run can lead to, an attempt is turned away iff its key is locked,
    and otherwise it is let in with the right credentials and charged with wrong ones.
   */
  lemma AnswerIsDecided(cfg: Config, run: seq<Attempt>, x: Attempt)
    requires cfg.Valid()
    ensures var answer := AnswerAfter(cfg, run, x);
            && (answer.Blocked? <==> IsLockedAt(cfg, run, x.key, x.checkedAt))
            && (answer == LoggedIn <==> !IsLockedAt(cfg, run, x.key, x.checkedAt) && x.correct)
            && (answer.Failed? <==> !IsLockedAt(cfg, run, x.key, x.checkedAt) && !x.correct)
  {
    var table := TableRun(cfg, map[], run);
    if AnswerAfter(cfg, run, x).Blocked? {
      var before, lock, mid := LockHasCause(cfg, run, x.key);
    }
    if IsLockedAt(cfg, run, x.key, x.checkedAt) {
      var before, lock, mid :|
        LockedBy(cfg, run, x.key, before, lock, mid) && x.checkedAt < lock.comparedAt + cfg.lockoutMs;
      LockSafety(cfg, before, lock, mid, x);
    }
  }

  /** A login clears the key: it is out of the table, and every later answer on it is that of a key never seen. */
  lemma LoginClearsKey(cfg: Config, run: seq<Attempt>, x: Attempt, later: seq<Attempt>)
    requires cfg.Valid() && x.correct && !IsLockedAt(cfg, run, x.key, x.checkedAt)
    ensures x.key !in TableRun(cfg, map[], run + [x])
    ensures OwnOutcomes(later, TableOutcomes(cfg, TableRun(cfg, map[], run + [x]), later), x.key)
            == OwnOutcomes(later, TableOutcomes(cfg, map[], later), x.key)
  {
    AnswerIsDecided(cfg, run, x);
    TableRunAppend(cfg, map[], run, x);
    KeysAreIndependent(cfg, TableRun(cfg, map[], run + [x]), later, x.key);
    KeysAreIndependent(cfg, map[], later, x.key);
  }

  /** Wrong guesses, then the right password: it is let in however many are left. */
  lemma OneGuessLeft(cfg: Config, key: string, n: nat, x: Attempt)
    requires cfg.Valid() && n < cfg.maxAttempts && x.key == key && x.correct
    ensures AnswerAfter(cfg, Burst(key, n, x.checkedAt), x) == LoggedIn
  {
    var run := Burst(key, n, x.checkedAt);
    OwnOfBurst(key, n, x.checkedAt);
    KeysAreIndependent(cfg, map[], run, key);
    if n > 0 {
      var t := x.checkedAt;
      assert run[0] == Attempt(key, t, t, false) && run[1..] == Burst(key, n - 1, t);
      BurstCounts(cfg, Entry(1, t, 0), key, n - 1, t);
    }
  }

  lemma {:induction false} OwnOfBurst(key: string, n: nat, t: nat)
    ensures Own(Burst(key, n, t), key) == Burst(key, n, t)
    decreases n
  {
    if n > 0 {
      assert Burst(key, n, t)[1..] == Burst(key, n - 1, t);
      OwnOfBurst(key, n - 1, t);
    }
  }

  /** Once the window of a first failure is over, the next failure is a first one again. */
  lemma ExpiredWindowRestarts(cfg: Config, run: seq<Attempt>, first: Attempt, mid: seq<Attempt>, x: Attempt)
    requires cfg.Valid() && first.key == x.key && !first.correct && !x.correct
    requires x.key !in TableRun(cfg, map[], run) && Own(mid, x.key) == []
    requires x.comparedAt > first.comparedAt + cfg.windowMs
    ensures AnswerAfter(cfg, run, first) == Failed(false, 0, cfg.maxAttempts - 1)
    ensures AnswerAfter(cfg, run + [first] + mid, x) == Failed(false, 0, cfg.maxAttempts - 1)
  {
    TableRunAppend(cfg, map[], run, first);
    var key, table := x.key, TableRun(cfg, map[], run + [first]);
    KeysAreIndependent(cfg, map[], run + [first] + mid, key);
    KeysAreIndependent(cfg, map[], run + [first], key);
    OwnAppend(run + [first], mid, key);
    assert Own(run + [first], key) + [] == Own(run + [first], key);
    assert Get(table, key) == Some(Entry(1, first.comparedAt, 0));
  }

  // ---------------------------------------------------------------- whose attempts are counted together

  /** Spellings of a name that differ in case or in white space around it share a key, and others do not. */
  lemma SpellingsShareKeyIff(lower: string -> string, u: string, v: string, ip: string)
    requires lower(Trim(u)) != "" && lower(Trim(v)) != ""
    ensures AttemptKey(lower, u, ip) == AttemptKey(lower, v, ip) <==> lower(Trim(u)) == lower(Trim(v))
  {
    NamePart(lower, u, ip);
    NamePart(lower, v, ip);
    SameEnd(lower(Trim(u)), lower(Trim(v)), "|" + ip);
  }

  lemma NamePart(lower: string -> string, u: string, ip: string)
    requires lower(Trim(u)) != ""
    ensures AttemptKey(lower, u, ip) == lower(Trim(u)) + ("|" + ip)
  {
  }

  lemma SameEnd(a: string, b: string, end: string)
    ensures a + end == b + end <==> a == b
  {
    if a + end == b + end {
      assert |a| == |b| && a == (a + end)[..|a|] && b == (b + end)[..|b|];
    }
  }

  /** A blank name counts as one unknown user per ip. */
  lemma BlankNamesShareKey(lower: string -> string, u: string, ip: string)
    requires lower(Trim(u)) == ""
    ensures AttemptKey(lower, u, ip) == "unknown-user|" + ip
  {
    assert "unknown-user" + "|" == "unknown-user|";
  }
}
