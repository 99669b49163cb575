/** The referral tables of bot.py: `referrals` (codes and their owners) and
    `referral_uses` (one row per redemption). */
module Referrals {
  import Quota
  import opened Wrappers

  /** One row of `referrals`; `uses` is never updated by the bot. */
  datatype Referral = Referral(ownerId: string, code: string, uses: int)

  /** One row of `referral_uses`. */
  datatype ReferralUse = ReferralUse(referrerId: string, referredId: string)

  /** Position of the first row holding `code`, or `|referrals|` if none does. */
  function CodeIndex(referrals: seq<Referral>, code: string): (i: nat)
    ensures i <= |referrals|
    ensures i < |referrals| ==> referrals[i].code == code
    ensures forall j :: 0 <= j < i ==> referrals[j].code != code
  {
    if referrals == [] then 0
    else if referrals[0].code == code then 0
    else 1 + CodeIndex(referrals[1..], code)
  }

  /** `SELECT owner_id FROM referrals WHERE code=?` followed by `fetchone`:
      the owner of the first row holding `code`. The schema declares `code`
      UNIQUE (bot.py:57), which would make that row the only one; the model
      does not assume it, so a table with repeated codes is covered too. */
  function OwnerOf(referrals: seq<Referral>, code: string): (r: Option<string>)
    ensures r.None? <==> forall i :: 0 <= i < |referrals| ==> referrals[i].code != code
    ensures r.Some? ==> exists i :: 0 <= i < |referrals| && referrals[i].code == code && referrals[i].ownerId == r.value
  {
    var i := CodeIndex(referrals, code);
    if i < |referrals| then Some(referrals[i].ownerId) else None
  }

  /** `SELECT COUNT(*) FROM referral_uses WHERE referred_id=?`. */
  function ReferredCount(uses: seq<ReferralUse>, user: string): (n: nat)
    ensures n <= |uses|
  {
    if uses == [] then 0
    else (if uses[0].referredId == user then 1 else 0) + ReferredCount(uses[1..], user)
  }

  /** The bonus test of `steamaccount`: at least one redemption by `user`. */
  predicate HasBonus(uses: seq<ReferralUse>, user: string)
  {
    ReferredCount(uses, user) > 0
  }

  lemma {:induction false} ReferredCountAppend(uses: seq<ReferralUse>, u: ReferralUse, user: string)
    ensures ReferredCount(uses + [u], user)
         == ReferredCount(uses, user) + (if u.referredId == user then 1 else 0)
  {
    if uses != [] {
      assert (uses + [u])[1..] == uses[1..] + [u];
      ReferredCountAppend(uses[1..], u, user);
    }
  }

  /** A redemption by `user` gives the bonus, and a further redemption by the
      same user adds a row but leaves the limit where it was: the bonus is +1
      however many rows there are. Other users' limits do not move. */
  lemma RedemptionBonusOnce(uses: seq<ReferralUse>, owner: string, user: string, other: string, boosted: bool)
    requires other != user
    ensures HasBonus(uses + [ReferralUse(owner, user)], user)
    ensures ReferredCount(uses + [ReferralUse(owner, user)], user) == ReferredCount(uses, user) + 1
    ensures HasBonus(uses, user) ==>
      Quota.DailyLimit(boosted, HasBonus(uses + [ReferralUse(owner, user)], user))
      == Quota.DailyLimit(boosted, HasBonus(uses, user))
    ensures HasBonus(uses + [ReferralUse(owner, user)], other) == HasBonus(uses, other)
  {
    ReferredCountAppend(uses, ReferralUse(owner, user), user);
    ReferredCountAppend(uses, ReferralUse(owner, user), other);
  }

  /** `mystats`' second count: `SELECT COUNT(*) FROM referrals WHERE owner_id=?`. */
  function CodesOwned(referrals: seq<Referral>, user: string): (n: nat)
    ensures n <= |referrals|
  {
    if referrals == [] then 0
    else (if referrals[0].ownerId == user then 1 else 0) + CodesOwned(referrals[1..], user)
  }

  /** A user owns no code exactly when no referral row names them as owner. */
  lemma {:induction false} NoCodesOwned(referrals: seq<Referral>, user: string)
    ensures CodesOwned(referrals, user) == 0 <==> forall k :: 0 <= k < |referrals| ==> referrals[k].ownerId != user
  {
    if referrals != [] {
      NoCodesOwned(referrals[1..], user);
      assert forall k :: 1 <= k < |referrals| ==> referrals[k] == referrals[1..][k - 1];
    }
  }
}
