/** The once-a-minute tick of `messageSender` (bot.go): which users are due,
    and what a tick does to the store. The user's local hour and minute are
    inputs; resolving the time zone and reading the clock are not modelled. */
module Scheduler {
  import opened UserConfigs
  import opened Rotation
  import opened Commands

  datatype LocalTime = LocalTime(hour: int, minute: int)

  /** The per-user verdict of one tick. `minute % Interval` with an interval
      of zero is a Go run-time panic (integer divide by zero), which only a
      record read back unvalidated from "users.json" can reach. */
  datatype Verdict = Skip | Send | DivideByZero

  /** Go's `%`: the quotient is truncated toward zero, so the remainder has
      the sign of the dividend. */
  function GoRem(a: int, b: int): (r: int)
    requires b != 0
    ensures a >= 0 ==> 0 <= r < (if b > 0 then b else -b)
    ensures a < 0 ==> -(if b > 0 then b else -b) < r <= 0
  {
    if a >= 0 then a % b else -((-a) % b)
  }

  /** `GoRem` is a remainder of `a` by `b`: `a` minus it is a multiple of
      `b`. With the sign and magnitude bounds above this fixes the value Go
      computes. */
  lemma GoRemIsRemainder(a: int, b: int)
    requires b != 0
    ensures exists q :: a == q * b + GoRem(a, b)
  {
    if a >= 0 {
      assert a == (a / b) * b + GoRem(a, b);
    } else {
      assert -a == ((-a) / b) * b + (-a) % b;
      assert a == (-((-a) / b)) * b + GoRem(a, b);
    }
  }

  /** The due check for one user on one tick: inactive users are skipped,
      then the local hour must lie in `[StartTime, EndTime)`, then the local
      minute must be a multiple of the interval. */
  function DueCheck(active: bool, startTime: int, endTime: int, interval: int,
                    hour: int, minute: int): (v: Verdict)
    ensures !active ==> v == Skip
    ensures v == Send ==> active && startTime <= hour < endTime && interval != 0
    ensures v == DivideByZero <==> active && startTime <= hour < endTime && interval == 0
    ensures v == Send <==>
              active && startTime <= hour < endTime && interval != 0 && GoRem(minute, interval) == 0
  {
    if !active then Skip
    else if !(hour >= startTime && hour < endTime) then Skip
    else if interval == 0 then DivideByZero
    else if GoRem(minute, interval) == 0 then Send
    else Skip
  }

  function Check(u: UserConfig, t: LocalTime): Verdict {
    DueCheck(u.active, u.startTime, u.endTime, u.interval, t.hour, t.minute)
  }

  /** For any record with a non-zero interval, well formed or read back
      unvalidated, and a clock minute, the check never divides by zero, and
      a user is due exactly when active, inside the window and at a minute
      that is a whole number of intervals past the hour. */
  lemma DueExactly(u: UserConfig, t: LocalTime)
    requires u.interval != 0
    requires 0 <= t.minute
    ensures Check(u, t) != DivideByZero
    ensures Check(u, t) == Send <==>
              u.active && u.startTime <= t.hour < u.endTime
              && (t.minute / u.interval) * u.interval == t.minute
  {
  }

  /** With an interval of an hour or more (the default is 120 minutes), an
      active user inside the window is due only on the hour. */
  lemma HourlyOrSlowerOnlyOnTheHour(startTime: int, endTime: int, interval: int,
                                    hour: int, minute: int)
    requires startTime <= hour < endTime
    requires interval >= 60
    requires 0 <= minute < 60
    ensures DueCheck(true, startTime, endTime, interval, hour, minute) == Send <==> minute == 0
  {
  }

  /** With a 45-minute interval an active user inside the window is due at
      minutes 0 and 45 only: the count restarts every hour. */
  lemma FortyFiveMinuteInterval(startTime: int, endTime: int, hour: int, minute: int)
    requires startTime <= hour < endTime
    requires 0 <= minute < 60
    ensures DueCheck(true, startTime, endTime, 45, hour, minute) == Send <==> minute == 0 || minute == 45
  {
  }

  /** The hourly schedule from 8 to 22: due at 8:00, 9:00, ..., 21:00, not at
      7:59 nor at 22:00, the end hour being excluded. */
  lemma HourlyWindowEightToTwentyTwo(hour: int)
    ensures 8 <= hour < 22 ==> DueCheck(true, 8, 22, 60, hour, 0) == Send
    ensures DueCheck(true, 8, 22, 60, 7, 59) == Skip
    ensures DueCheck(true, 8, 22, 60, 22, 0) == Skip
  {
  }

  /* ---------------------------------------------------------------------
     One tick over the whole store
     --------------------------------------------------------------------- */

  /** Whether handling this user on this tick crashes the process: a zero
      interval inside the window, or a due send with an empty catalog
      (`rand.Intn(0)` panics). */
  predicate Crashes(u: UserConfig, t: LocalTime, phrases: seq<string>) {
    Check(u, t) == DivideByZero || (Check(u, t) == Send && |phrases| == 0)
  }

  /** The record after this user's turn in a tick. */
  function Advance(u: UserConfig, t: LocalTime, phrases: seq<string>, pick: nat): (r: UserConfig)
    requires !Crashes(u, t, phrases)
    ensures Check(u, t) != Send ==> r == u
    ensures Check(u, t) == Send ==> exists s :: IsSelection(u, phrases, s) && r == s.user
  {
    if Check(u, t) == Send then NextUniquePhrase(u, phrases, pick).user else u
  }

  datatype TickOutcome = Crashed | Ticked(users: Users)

  /** Some user's turn in this tick crashes the process. */
  predicate SomeUserCrashes(users: Users, phrases: seq<string>, clock: int -> LocalTime) {
    exists id :: id in users && Crashes(users[id], clock(id), phrases)
  }

  /** One tick: each user's local time is `clock(id)` and the random outcome
      of each user's rotation is `picks(id)`. Users are handled one at a time
      and independently, so the result does not depend on the order of Go's
      map iteration (see `TickInOrder`). */
  function Tick(users: Users, phrases: seq<string>, clock: int -> LocalTime,
                picks: int -> nat): (r: TickOutcome)
    ensures r.Crashed? <==> SomeUserCrashes(users, phrases, clock)
    ensures r.Ticked? ==> r.users.Keys == users.Keys
    ensures r.Ticked? ==> forall id :: id in users && !users[id].active ==> r.users[id] == users[id]
    ensures r.Ticked? ==> forall id :: id in users ==> r.users[id] == Advance(users[id], clock(id), phrases, picks(id))
  {
    if SomeUserCrashes(users, phrases, clock) then Crashed
    else Ticked(map id | id in users :: Advance(users[id], clock(id), phrases, picks(id)))
  }

  /** The tick as the source runs it: the users one at a time in `order`, the
      (unspecified) order of Go's map iteration, each handled as soon as it is
      reached, stopping at the first crash. Whatever the order, the outcome is
      the one `Tick` describes. */
  method TickInOrder(users: Users, phrases: seq<string>, clock: int -> LocalTime,
                     picks: int -> nat, order: seq<int>) returns (r: TickOutcome)
    requires forall id :: id in order <==> id in users
    requires NoDuplicates(order)
    ensures r == Tick(users, phrases, clock, picks)
  {
    assert forall j :: 0 <= j < |order| ==> order[j] in order;
    var current := users;
    var k := 0;
    while k < |order|
      invariant 0 <= k <= |order|
      invariant current.Keys == users.Keys
      invariant forall j :: 0 <= j < |order| ==> order[j] in users
      invariant forall j :: 0 <= j < k ==>
                  !Crashes(users[order[j]], clock(order[j]), phrases)
                  && current[order[j]] == Advance(users[order[j]], clock(order[j]), phrases, picks(order[j]))
      invariant forall j :: k <= j < |order| ==> current[order[j]] == users[order[j]]
    {
      var id := order[k];
      if Crashes(current[id], clock(id), phrases) {
        return Crashed;
      }
      current := current[id := Advance(current[id], clock(id), phrases, picks(id))];
      k := k + 1;
    }
    var expected := map id | id in users :: Advance(users[id], clock(id), phrases, picks(id));
    forall id | id in users
      ensures !Crashes(users[id], clock(id), phrases) && current[id] == expected[id]
    {
      var j :| 0 <= j < |order| && order[j] == id;
    }
    r := Ticked(current);
  }

  /** A store of well-formed records never crashes a tick while the catalog
      is non-empty. */
  lemma TickNeverCrashesOnWellFormedStore(users: Users, phrases: seq<string>,
                                          clock: int -> LocalTime, picks: int -> nat)
    requires StoreInvariant(users)
    requires |phrases| >= 1
    ensures Tick(users, phrases, clock, picks).Ticked?
  {
  }

  /** A tick changes only sent lists, so it keeps the store invariant, and it
      keeps the sent lists well formed for the catalog. */
  lemma TickPreservesInvariants(users: Users, phrases: seq<string>,
                                clock: int -> LocalTime, picks: int -> nat)
    requires Tick(users, phrases, clock, picks).Ticked?
    ensures StoreInvariant(users) ==> StoreInvariant(Tick(users, phrases, clock, picks).users)
    ensures StoreSentWellFormed(users, |phrases|) ==>
              StoreSentWellFormed(Tick(users, phrases, clock, picks).users, |phrases|)
  {
    var after := Tick(users, phrases, clock, picks).users;
    forall id | id in users
      ensures after[id] == users[id].(sentPhrasesIndices := after[id].sentPhrasesIndices)
      ensures SentWellFormed(users[id].sentPhrasesIndices, |phrases|) ==>
                SentWellFormed(after[id].sentPhrasesIndices, |phrases|)
    {
      if Check(users[id], clock(id)) == Send && SentWellFormed(users[id].sentPhrasesIndices, |phrases|) {
        NextUniquePhrasePreservesSentWellFormed(users[id], phrases, picks(id));
      }
    }
  }
}
