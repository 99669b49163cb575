/** The HTTP side: `POST /use-referral` of api.py, against its own database
    file, whose `referral_uses` table holds only the redeeming user's id. */
module ReferralApi {

  /** One row of api.py's `referrals`: the code and its owner's id. */
  datatype ApiReferral = ApiReferral(ownerId: int, code: string)

  /** The three JSON bodies the endpoint returns. */
  datatype Reply = InvalidCode | AlreadyUsed | Success

  /** `SELECT owner_id FROM referrals WHERE code=?` returns a row. */
  predicate CodeKnown(referrals: seq<ApiReferral>, code: string)
  {
    exists i :: 0 <= i < |referrals| && referrals[i].code == code
  }

  /** `SELECT 1 FROM referral_uses WHERE user_id=?` counted instead of
      fetched: the number of rows for `user`. */
  function RowsFor(uses: seq<int>, user: int): (n: nat)
    ensures n <= |uses|
    ensures n == 0 <==> user !in uses
  {
    if uses == [] then 0
    else (if uses[0] == user then 1 else 0) + RowsFor(uses[1..], user)
  }

  /** The rows at `i` and `j` are for different users. */
  predicate Apart(uses: seq<int>, i: int, j: int)
  {
    0 <= i < j < |uses| ==> uses[i] != uses[j]
  }

  /** No user has two rows in `referral_uses`. */
  ghost predicate OneRowPerUser(uses: seq<int>)
  {
    forall i, j :: Apart(uses, i, j)
  }

  /** Without repeated users, every user has at most one row. */
  lemma {:induction false} OneRowEach(uses: seq<int>, user: int)
    requires OneRowPerUser(uses)
    ensures RowsFor(uses, user) <= 1
  {
    if uses != [] {
      forall i, j ensures Apart(uses[1..], i, j) {
        assert Apart(uses, i + 1, j + 1);
      }
      OneRowEach(uses[1..], user);
      if uses[0] == user {
        forall k | 0 <= k < |uses[1..]| ensures uses[1..][k] != user {
          assert Apart(uses, 0, k + 1);
        }
      }
    }
  }

  /** Appending a user who has no row keeps one row per user. */
  lemma AppendNewUser(uses: seq<int>, user: int)
    requires OneRowPerUser(uses) && user !in uses
    ensures OneRowPerUser(uses + [user])
    ensures RowsFor(uses + [user], user) == 1
  {
    forall i, j ensures Apart(uses + [user], i, j) {
      assert Apart(uses, i, j);
    }
    OneRowEach(uses + [user], user);
  }

  /** The tables `use_referral` reads and writes. */
  class ReferralStore {
    var referrals: seq<ApiReferral>
    var uses: seq<int>

    ghost predicate Valid()
      reads this
    {
      OneRowPerUser(uses)
    }

    /** A database whose `referrals` holds `codes` and nobody has redeemed. */
    constructor (codes: seq<ApiReferral>)
      ensures Valid()
      ensures referrals == codes && uses == []
    {
      referrals, uses := codes, [];
    }

    /** `use_referral`: an unknown code is refused; a user who already has a
        row is refused whatever the code; otherwise one row for the user is
        appended. The code's owner is not compared with the user, so owners
        may redeem their own codes. */
    method UseReferral(userId: int, code: string) returns (reply: Reply)
      requires Valid()
      modifies this
      ensures Valid()
      ensures referrals == old(referrals)
      ensures reply == InvalidCode <==> !CodeKnown(referrals, code)
      ensures reply == AlreadyUsed <==> CodeKnown(referrals, code) && userId in old(uses)
      ensures reply == Success <==> CodeKnown(referrals, code) && userId !in old(uses)
      ensures reply == Success ==> uses == old(uses) + [userId]
      ensures reply != Success ==> uses == old(uses)
      ensures RowsFor(uses, userId) <= 1
      ensures reply == Success ==> RowsFor(uses, userId) == 1
    {
      if !CodeKnown(referrals, code) {
        OneRowEach(uses, userId);
        return InvalidCode;
      }
      if userId in uses {
        OneRowEach(uses, userId);
        return AlreadyUsed;
      }
      AppendNewUser(uses, userId);
      uses := uses + [userId];
      reply := Success;
    }
  }

  /** The owner of a code redeems it, then tries another code: the first call
      succeeds, the second is refused however valid the code is. */
  method OwnerRedeemsOnce() returns (first: Reply, second: Reply)
    ensures first == Success && second == AlreadyUsed
  {
    var store := new ReferralStore([ApiReferral(7, "abc"), ApiReferral(8, "xyz")]);
    assert store.referrals[0].code == "abc";
    first := store.UseReferral(7, "abc");
    assert store.referrals[1].code == "xyz";
    second := store.UseReferral(7, "xyz");
  }
}
