/** Sessions of commands run against a fresh bot, with the replies they must
    produce. */
module Scenarios {
  import Text
  import Pool
  import GenBot

  /** Three unused records whose `games` is `CS2`: all three are in stock and
      all three match a search for `cs2`. */
  lemma ThreeInStock(accounts: seq<Pool.Account>)
    requires |accounts| == 3
    requires forall k :: 0 <= k < 3 ==> accounts[k].games == "CS2" && !accounts[k].used
    ensures Pool.Stock(accounts) == 3
    ensures Pool.Search(accounts, "cs2") == 3
  {
    assert Text.AsciiLower("CS2") == "cs2";
    assert Text.OccursAt(Text.AsciiLower("CS2"), Text.AsciiLower("cs2"), 0);
    assert accounts[2..][1..] == [] && accounts[1..][1..] == accounts[2..];
    assert Pool.Count(accounts[1..], Pool.Unused) == 2;
    assert Pool.Matches(accounts[0], "cs2") && Pool.Matches(accounts[1], "cs2") && Pool.Matches(accounts[2], "cs2");
    var p := (a: Pool.Account) => Pool.Matches(a, "cs2");
    assert Pool.Count(accounts[2..], p) == 1;
    assert Pool.Count(accounts[1..], p) == 2;
  }

  /** Staff stock three `CS2` records; an unboosted member without a referral
      asks three times on one day. The first two requests get two different
      records, the third is refused with the limit of 2, and one record is
      left in stock. */
  method DailyQuota() returns (first: GenBot.ClaimOutcome, second: GenBot.ClaimOutcome, third: GenBot.ClaimOutcome, left: nat)
    ensures first.Granted? && second.Granted? && first.account.id != second.account.id
    ensures third == GenBot.LimitReached(2)
    ensures left == 1
  {
    var bot := new GenBot.Bot([]);
    var _ := bot.AddAccount(true, "u1", "p1", "CS2");
    var _ := bot.AddAccount(true, "u2", "p2", "CS2");
    var _ := bot.AddAccount(true, "u3", "p3", "CS2");
    ThreeInStock(bot.accounts);
    first := bot.SteamAccount("alice", false, "cs2", 19000);
    second := bot.SteamAccount("alice", false, "cs2", 19000);
    third := bot.SteamAccount("alice", false, "cs2", 19000);
    left := Pool.Stock(bot.accounts);
  }
}
