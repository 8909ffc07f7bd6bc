/**
 * Start-up of the service: applying the database migrations under a
 * bounded retry policy, and choosing the listening port.
 *
 * `db.Database.Migrate()` is an outside call whose result the model does not
 * know: `migrate(i)` is the outcome of its call number `i` (from 0). The
 * five-second `Thread.Sleep` is recorded in a trace instead of performed,
 * and so is every call of `Migrate()`, together with the value the retry
 * counter has at that call.
 */
module Startup {
  import opened Wrappers

  const MaxRetries: nat := 10
  const RetryDelayMs: nat := 5000
  const DefaultPort: string := "8080"

  /** What one call of `Migrate()` does: it succeeds or throws `error`. */
  datatype Outcome = Applied | Failed(error: string)

  /** The observable steps of the retry loop. */
  datatype Event = Attempt(retries: nat) | Sleep(ms: nat)

  /** How the loop ends: migrations applied, or the last exception rethrown. */
  datatype StartupResult = Migrated | Rethrown(error: string)

  /**
   * The trace of `n` calls of which all but the last failed: calls and
   * sleeps alternate, beginning and ending with a call.
   */
  function Schedule(n: nat): seq<Event>
    requires 1 <= n <= MaxRetries
  {
    if n == 1 then [Attempt(MaxRetries)]
    else Schedule(n - 1) + [Sleep(RetryDelayMs), Attempt(MaxRetries - (n - 1))]
  }

  /** The first successful call among calls `from` to 9, if any. */
  function FirstApplied(migrate: nat -> Outcome, from: nat): (k: Option<nat>)
    ensures k.Some? ==> from <= k.value < MaxRetries && migrate(k.value).Applied?
    ensures k.Some? ==> forall i :: from <= i < k.value ==> migrate(i).Failed?
    ensures k.None? ==> forall i :: from <= i < MaxRetries ==> migrate(i).Failed?
    decreases MaxRetries - from
  {
    if from >= MaxRetries then None
    else if migrate(from).Applied? then Some(from)
    else FirstApplied(migrate, from + 1)
  }

  /** A successful call preceded only by failures is the first success. */
  lemma FirstAppliedAt(migrate: nat -> Outcome, k: nat)
    requires k < MaxRetries && migrate(k).Applied?
    requires forall i :: 0 <= i < k ==> migrate(i).Failed?
    ensures FirstApplied(migrate, 0) == Some(k)
  {
  }

  /** Ten failures in a row: no success. */
  lemma NoneApplied(migrate: nat -> Outcome)
    requires forall i :: 0 <= i < MaxRetries ==> migrate(i).Failed?
    ensures FirstApplied(migrate, 0) == None
  {
  }

  /** Number of calls of `Migrate()` in a trace. */
  function Attempts(t: seq<Event>): nat
  {
    if t == [] then 0 else (if t[0].Attempt? then 1 else 0) + Attempts(t[1..])
  }

  /** Number of sleeps in a trace. */
  function Sleeps(t: seq<Event>): nat
  {
    if t == [] then 0 else (if t[0].Sleep? then 1 else 0) + Sleeps(t[1..])
  }

  /** Time spent sleeping in a trace, in milliseconds. */
  function SleptMs(t: seq<Event>): nat
  {
    if t == [] then 0 else (if t[0].Sleep? then t[0].ms else 0) + SleptMs(t[1..])
  }

  lemma {:induction false} CountsAppend(s: seq<Event>, t: seq<Event>)
    ensures Attempts(s + t) == Attempts(s) + Attempts(t)
    ensures Sleeps(s + t) == Sleeps(s) + Sleeps(t)
    ensures SleptMs(s + t) == SleptMs(s) + SleptMs(t)
    decreases |s|
  {
    if s == [] {
      assert s + t == t;
    } else {
      assert (s + t)[1..] == s[1..] + t;
      CountsAppend(s[1..], t);
    }
  }

  /**
   * The shape of the trace of `n` calls: the call at position 2m sees the
   * counter at 10 - m, between two calls there is one five-second sleep, and
   * the trace ends with a call, not a sleep.
   */
  lemma {:induction false} ScheduleShape(n: nat)
    requires 1 <= n <= MaxRetries
    ensures |Schedule(n)| == 2 * n - 1
    ensures forall i :: 0 <= i < |Schedule(n)| && i % 2 == 0 ==> Schedule(n)[i] == Attempt(MaxRetries - i / 2)
    ensures forall i :: 0 <= i < |Schedule(n)| && i % 2 == 1 ==> Schedule(n)[i] == Sleep(RetryDelayMs)
    ensures Schedule(n)[|Schedule(n)| - 1] == Attempt(MaxRetries - (n - 1))
  {
    if n > 1 {
      ScheduleShape(n - 1);
      var prev := Schedule(n - 1);
      assert Schedule(n) == prev + [Sleep(RetryDelayMs), Attempt(MaxRetries - (n - 1))];
      forall i | 0 <= i < |prev| ensures Schedule(n)[i] == prev[i] {
      }
    }
  }

  /**
   * `n` calls mean `n` - 1 sleeps of 5000 ms, so at most 10 calls, 9 sleeps
   * and 45 seconds of sleeping.
   */
  lemma {:induction false} ScheduleCounts(n: nat)
    requires 1 <= n <= MaxRetries
    ensures Attempts(Schedule(n)) == n
    ensures Sleeps(Schedule(n)) == n - 1
    ensures SleptMs(Schedule(n)) == (n - 1) * RetryDelayMs
  {
    if n > 1 {
      ScheduleCounts(n - 1);
      var tail := [Sleep(RetryDelayMs), Attempt(MaxRetries - (n - 1))];
      CountsAppend(Schedule(n - 1), tail);
      var last := tail[1..];
      assert last[1..] == [];
      assert Attempts(last) == 1 && Sleeps(last) == 0 && SleptMs(last) == 0;
      assert Attempts(tail) == 1 && Sleeps(tail) == 1 && SleptMs(tail) == RetryDelayMs;
    }
  }

  /**
   * The trace the retry policy prescribes: if call k (from 0) is the first to
   * succeed, k + 1 calls; if none of the first ten succeeds, ten calls.
   */
  function RetryTrace(migrate: nat -> Outcome): seq<Event>
  {
    match FirstApplied(migrate, 0)
    case Some(k) => Schedule(k + 1)
    case None => Schedule(MaxRetries)
  }

  /** How the retry policy ends: applied, or the exception of the tenth call rethrown. */
  function RetryResult(migrate: nat -> Outcome): StartupResult
  {
    match FirstApplied(migrate, 0)
    case Some(_) => Migrated
    case None => Rethrown(migrate(MaxRetries - 1).error)
  }

  /**
   * What the policy promises: start-up proceeds exactly when one of the
   * first ten calls succeeds; there are 1 to 10 calls and one five-second
   * sleep between two calls, none after the last; the first success at call
   * k means k + 1 calls and nothing more; ten failures mean ten calls, nine
   * sleeps and the tenth exception rethrown.
   */
  lemma {:induction false} RetryPolicy(migrate: nat -> Outcome)
    ensures RetryResult(migrate) == Migrated <==> exists i :: 0 <= i < MaxRetries && migrate(i).Applied?
    ensures 1 <= Attempts(RetryTrace(migrate)) <= MaxRetries
    ensures Sleeps(RetryTrace(migrate)) == Attempts(RetryTrace(migrate)) - 1
    ensures SleptMs(RetryTrace(migrate)) == Sleeps(RetryTrace(migrate)) * RetryDelayMs
    ensures RetryTrace(migrate)[|RetryTrace(migrate)| - 1].Attempt?
    ensures forall k :: FirstApplied(migrate, 0) == Some(k) ==> Attempts(RetryTrace(migrate)) == k + 1
    ensures RetryResult(migrate).Rethrown? ==>
      Attempts(RetryTrace(migrate)) == MaxRetries && Sleeps(RetryTrace(migrate)) == MaxRetries - 1
      && RetryResult(migrate).error == migrate(MaxRetries - 1).error
  {
    var n := match FirstApplied(migrate, 0) case Some(k) => k + 1 case None => MaxRetries;
    assert RetryTrace(migrate) == Schedule(n);
    ScheduleCounts(n);
    ScheduleShape(n);
  }

  /**
   * The retry loop: call `Migrate()` while `retries` is positive; stop at the
   * first success; on a failure decrement `retries`, rethrow once it reaches
   * 0 and otherwise sleep five seconds. It follows the policy exactly.
   */
  method MigrateWithRetries(migrate: nat -> Outcome) returns (trace: seq<Event>, result: StartupResult)
    ensures trace == RetryTrace(migrate)
    ensures result == RetryResult(migrate)
  {
    var retries := MaxRetries;
    var calls := 0;
    trace := [];
    result := Migrated;
    while retries > 0
      invariant 0 < retries <= MaxRetries
      invariant calls == MaxRetries - retries
      invariant calls == 0 ==> trace == []
      invariant calls > 0 ==> trace == Schedule(calls) + [Sleep(RetryDelayMs)]
      invariant forall i :: 0 <= i < calls ==> migrate(i).Failed?
    {
      trace := trace + [Attempt(retries)];
      var outcome := migrate(calls);
      calls := calls + 1;
      assert trace == Schedule(calls);
      if outcome.Applied? {
        result := Migrated;
        FirstAppliedAt(migrate, calls - 1);
        break;
      }
      retries := retries - 1;
      if retries == 0 {
        result := Rethrown(outcome.error);
        NoneApplied(migrate);
        return;
      }
      trace := trace + [Sleep(RetryDelayMs)];
    }
  }

  /**
   * The listening port: the value of the environment variable PORT when it
   * is set, even to the empty text, and "8080" only when it is not set.
   */
  function ListenPort(env: map<string, string>): (port: string)
    ensures "PORT" in env ==> port == env["PORT"]
    ensures "PORT" !in env ==> port == DefaultPort
    ensures port == "" ==> "PORT" in env && env["PORT"] == ""
  {
    if "PORT" in env then env["PORT"] else DefaultPort
  }
}
