/** The daily quota: the `gens` ledger, the per-day count `daily_gens`
    takes of it, and the limit `steamaccount` builds from the booster role
    and the referral bonus. */
module Quota {

  /** One row of `gens`: who was granted a record, and on which day. */
  datatype Gen = Gen(userId: string, day: int)

  /** `daily_gens`: `SELECT COUNT(*) FROM gens WHERE user_id=? AND DATE(created_at)=?`. */
  function GensToday(gens: seq<Gen>, user: string, day: int): (n: nat)
    ensures n <= |gens|
  {
    if gens == [] then 0
    else (if gens[0] == Gen(user, day) then 1 else 0) + GensToday(gens[1..], user, day)
  }

  /** `mystats`' first count: every grant to `user`, whatever the day. */
  function GensTotal(gens: seq<Gen>, user: string): (n: nat)
    ensures n <= |gens|
  {
    if gens == [] then 0
    else (if gens[0].userId == user then 1 else 0) + GensTotal(gens[1..], user)
  }

  /** A user has no grants at all exactly when no ledger row names them. */
  lemma {:induction false} NoGensTotal(gens: seq<Gen>, user: string)
    ensures GensTotal(gens, user) == 0 <==> forall k :: 0 <= k < |gens| ==> gens[k].userId != user
  {
    if gens != [] {
      NoGensTotal(gens[1..], user);
      assert forall k :: 1 <= k < |gens| ==> gens[k] == gens[1..][k - 1];
    }
  }

  /** Appending a row raises the count of exactly the user and day it names. */
  lemma {:induction false} GensTodayAppend(gens: seq<Gen>, g: Gen, user: string, day: int)
    ensures GensToday(gens + [g], user, day)
         == GensToday(gens, user, day) + (if g == Gen(user, day) then 1 else 0)
  {
    if gens != [] {
      assert (gens + [g])[1..] == gens[1..] + [g];
      GensTodayAppend(gens[1..], g, user, day);
    }
  }

  /** A user's grants on one day never exceed their grants overall. */
  lemma {:induction false} TodayWithinTotal(gens: seq<Gen>, user: string, day: int)
    ensures GensToday(gens, user, day) <= GensTotal(gens, user)
  {
    if gens != [] {
      TodayWithinTotal(gens[1..], user, day);
    }
  }

  /** The limit of `steamaccount`: 2, or 4 with the booster role, plus 1
      with a referral bonus. Staff status plays no part. */
  function DailyLimit(boosted: bool, referred: bool): (limit: int)
    ensures limit in {2, 3, 4, 5}
    ensures limit >= 4 <==> boosted
    ensures limit in {3, 5} <==> referred
  {
    (if boosted then 4 else 2) + (if referred then 1 else 0)
  }

  /** `boost_count` yields only 0 or 1, so the advertised 6 a day for two
      boosts (and 7 with a referral) can never be granted. */
  lemma LimitNeverSixOrSeven(boosted: bool, referred: bool)
    ensures DailyLimit(boosted, referred) < 6
  {
  }
}
