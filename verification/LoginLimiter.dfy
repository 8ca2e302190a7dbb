/**
  The limiter as the source keeps it: one mutable table of mutable entries, changed by the
  check, the failure and the success of `authorize`.
 */
module LoginLimiter {
  import opened Strings
  import opened LoginLimit

  /** An entry object; the check updates its fields in place. */
  class AttemptState {
    var count: nat
    var windowStartMs: nat
    var lockedUntilMs: nat

    constructor (count: nat, windowStartMs: nat, lockedUntilMs: nat)
      ensures this.count == count && this.windowStartMs == windowStartMs && this.lockedUntilMs == lockedUntilMs
    {
      this.count, this.windowStartMs, this.lockedUntilMs := count, windowStartMs, lockedUntilMs;
    }

    ghost function Value(): Entry
      reads this
    {
      Entry(count, windowStartMs, lockedUntilMs)
    }
  }

  /** What `authorize` tells its caller or the audit log. */
  datatype Answer = ConfigInvalid | Judged(outcome: Outcome)

  class Limiter {
    const cfg: Config
    const lower: string -> string
    const adminUsername: string
    const adminPassword: string
    const isProduction: bool

    var attemptsByKey: map<string, AttemptState>

    constructor (cfg: Config, lower: string -> string, adminUsername: string, adminPassword: string, isProduction: bool)
      requires cfg.Valid()
      ensures Valid() && Entries() == map[]
      ensures this.cfg == cfg && this.lower == lower && this.adminUsername == adminUsername
      ensures this.adminPassword == adminPassword && this.isProduction == isProduction
    {
      this.cfg, this.lower := cfg, lower;
      this.adminUsername, this.adminPassword, this.isProduction := adminUsername, adminPassword, isProduction;
      attemptsByKey := map[];
    }

    /** No entry object is stored under two keys. */
    ghost predicate Valid()
      reads this
    {
      && cfg.Valid()
      && forall j, k :: j in attemptsByKey && k in attemptsByKey && j != k ==> attemptsByKey[j] != attemptsByKey[k]
    }

    ghost function Entries(): Table
      reads this, attemptsByKey.Values
    {
      map k | k in attemptsByKey :: attemptsByKey[k].Value()
    }

    /** `isLoginBlocked` */
    method IsLoginBlocked(username: string, ip: string, now: nat) returns (retryAfter: Option<nat>)
      requires Valid()
      modifies this`attemptsByKey, attemptsByKey.Values
      ensures Valid()
      ensures forall e :: e in attemptsByKey.Values ==> e in old(attemptsByKey.Values) || fresh(e)
      ensures var key := AttemptKey(lower, username, ip);
              var (slot, left) := Check(Get(old(Entries()), key), now);
              Entries() == Put(old(Entries()), key, slot) && retryAfter == left
    {
      var key := AttemptKey(lower, username, ip);
      if key !in attemptsByKey {
        return None;
      }
      var state := attemptsByKey[key];
      if state.lockedUntilMs > now {
        return Some(state.lockedUntilMs - now);
      }
      if state.lockedUntilMs <= now && state.lockedUntilMs != 0 {
        state.lockedUntilMs := 0;
        state.count := 0;
        state.windowStartMs := now;
        attemptsByKey := attemptsByKey[key := state];
      }
      return None;
    }

    /** `registerLoginFailure` */
    method RegisterLoginFailure(username: string, ip: string, now: nat) returns (outcome: Outcome)
      requires Valid()
      modifies this`attemptsByKey
      ensures Valid()
      ensures forall e :: e in attemptsByKey.Values ==> e in old(attemptsByKey.Values) || fresh(e)
      ensures var key := AttemptKey(lower, username, ip);
              var (slot, answer) := Register(cfg, Get(old(Entries()), key), now);
              Entries() == Put(old(Entries()), key, slot) && outcome == answer
    {
      var key := AttemptKey(lower, username, ip);
      if key !in attemptsByKey || now - attemptsByKey[key].windowStartMs > cfg.windowMs {
        Store(key, 1, now, 0);
        return Failed(false, 0, MinusFloor(cfg.maxAttempts, 1));
      }
      var current := attemptsByKey[key];
      var nextCount := current.count + 1;
      var shouldLock := nextCount >= cfg.maxAttempts;
      var lockedUntilMs := if shouldLock then now + cfg.lockoutMs else current.lockedUntilMs;
      Store(key, if shouldLock then 0 else nextCount, current.windowStartMs, lockedUntilMs);
      return Failed(shouldLock, if shouldLock then cfg.lockoutMs else 0,
                    if shouldLock then 0 else MinusFloor(cfg.maxAttempts, nextCount));
    }

    /** `attemptsByKey.set(key, {count, windowStartMs, lockedUntilMs})`, a new entry object. */
    method Store(key: string, count: nat, windowStartMs: nat, lockedUntilMs: nat)
      requires Valid()
      modifies this`attemptsByKey
      ensures Valid()
      ensures forall e :: e in attemptsByKey.Values ==> e in old(attemptsByKey.Values) || fresh(e)
      ensures Entries() == Put(old(Entries()), key, Some(Entry(count, windowStartMs, lockedUntilMs)))
    {
      var state := new AttemptState(count, windowStartMs, lockedUntilMs);
      attemptsByKey := attemptsByKey[key := state];
    }

    /** `clearLoginFailures` */
    method ClearLoginFailures(username: string, ip: string)
      requires Valid()
      modifies this`attemptsByKey
      ensures Valid()
      ensures attemptsByKey.Values <= old(attemptsByKey.Values)
      ensures Entries() == Put(old(Entries()), AttemptKey(lower, username, ip), None)
    {
      attemptsByKey := attemptsByKey - {AttemptKey(lower, username, ip)};
    }

    /** `isWeakAdminPassword` */
    static predicate IsWeakAdminPassword(password: string) {
      password == "" || password == "change-this-before-production" || password == "your-admin-password-here"
    }

    /**
      `authorize`. Past the configuration checks it is exactly one step of the pure limiter,
      on the key of the trimmed username and the client ip.
     */
    method Authorize(rawUsername: string, password: string, ip: string, checkedAt: nat, comparedAt: nat)
      returns (answer: Answer)
      requires Valid()
      modifies this`attemptsByKey, attemptsByKey.Values
      ensures Valid()
      ensures forall e :: e in attemptsByKey.Values ==> e in old(attemptsByKey.Values) || fresh(e)
      ensures answer.ConfigInvalid? <==>
              || adminPassword == ""
              || (isProduction && adminPassword == "change-this-before-production")
              || (isProduction && adminPassword == "your-admin-password-here")
      ensures answer.ConfigInvalid? ==> Entries() == old(Entries())
      ensures answer.Judged? ==>
                var username := Trim(rawUsername);
                var correct := username == adminUsername && password == adminPassword;
                var attempt := Attempt(AttemptKey(lower, username, ip), checkedAt, comparedAt, correct);
                TableStep(cfg, old(Entries()), attempt) == (Entries(), answer.outcome)
      ensures answer.Judged? ==>
                var key := AttemptKey(lower, Trim(rawUsername), ip);
                var locked := key in old(Entries()) && old(Entries())[key].lockedUntil > checkedAt;
                var correct := Trim(rawUsername) == adminUsername && password == adminPassword;
                && (answer.outcome.Blocked? <==> locked)
                && (answer.outcome == LoggedIn <==> !locked && correct)
                && (answer.outcome.Failed? <==> !locked && !correct)
                && (answer.outcome == LoggedIn ==> key !in Entries())
    {
      var username := Trim(rawUsername);
      if adminPassword == "" {
        return ConfigInvalid;
      }
      if isProduction && IsWeakAdminPassword(adminPassword) {
        return ConfigInvalid;
      }
      answer := Judge(username, password, ip, checkedAt, comparedAt);
    }

    /** The part of `authorize` that consults, charges or clears the limiter. */
    method Judge(username: string, password: string, ip: string, checkedAt: nat, comparedAt: nat)
      returns (answer: Answer)
      requires Valid()
      modifies this`attemptsByKey, attemptsByKey.Values
      ensures Valid() && answer.Judged?
      ensures forall e :: e in attemptsByKey.Values ==> e in old(attemptsByKey.Values) || fresh(e)
      ensures var correct := username == adminUsername && password == adminPassword;
              var attempt := Attempt(AttemptKey(lower, username, ip), checkedAt, comparedAt, correct);
              TableStep(cfg, old(Entries()), attempt) == (Entries(), answer.outcome)
      ensures var key := AttemptKey(lower, username, ip);
              var locked := key in old(Entries()) && old(Entries())[key].lockedUntil > checkedAt;
              var correct := username == adminUsername && password == adminPassword;
              && (answer.outcome.Blocked? <==> locked)
              && (answer.outcome == LoggedIn <==> !locked && correct)
              && (answer.outcome.Failed? <==> !locked && !correct)
              && (answer.outcome == LoggedIn ==> key !in Entries())
    {
      ghost var key := AttemptKey(lower, username, ip);
      ghost var table := Entries();
      ghost var (slot, _) := Check(Get(table, key), checkedAt);
      var left := IsLoginBlocked(username, ip, checkedAt);
      if left.Some? {
        return Judged(Blocked(left.value));
      }
      if username != adminUsername || password != adminPassword {
        var failure := RegisterLoginFailure(username, ip, comparedAt);
        PutTwice(table, key, slot, Register(cfg, slot, comparedAt).0);
        return Judged(failure);
      }
      ClearLoginFailures(username, ip);
      PutTwice(table, key, slot, None);
      return Judged(LoggedIn);
    }
  }
}
