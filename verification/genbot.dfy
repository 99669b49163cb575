/** The bot's tables and the commands that change them: `steamaccount`
    (quota check and claim), `refer`, `addaccount`, `bulkadd`, `report`,
    `resetreport` and `resetallreports`. Role lookups arrive as booleans,
    the day as an integer, and the replies as result values. */
module GenBot {
  import opened Wrappers
  import Pool
  import Quota
  import Referrals
  import Ingest
  import Reports

  /** The three replies of `steamaccount`: the limit message, the out-of-stock
      message, or the record sent to the requester. */
  datatype ClaimOutcome = LimitReached(limit: int) | NoAccounts | Granted(account: Pool.Account)

  /** The replies of `bulkadd`: refused to non-staff, or the session's result
      (rows inserted, `Format error` replies, whether `done` ended it). */
  datatype BulkOutcome = StaffOnly | Completed(inserted: nat, formatErrors: nat, sawDone: bool)

  /** The counts `mystats` replies with. */
  datatype Stats = Stats(gens: nat, referrals: nat)

  /** No id appears twice in the list of handed-out ids. */
  ghost predicate NoDuplicates(s: seq<nat>)
  {
    forall i, j :: Distinct(s, i, j)
  }

  predicate Distinct(s: seq<nat>, i: int, j: int)
  {
    0 <= i < j < |s| ==> s[i] != s[j]
  }

  /** `mystats`: the user's grants over all days and the referral codes they own. */
  function MyStats(gens: seq<Quota.Gen>, referrals: seq<Referrals.Referral>, user: string): (r: Stats)
    ensures r.referrals <= |referrals| && r.gens <= |gens|
    ensures forall day :: Quota.GensToday(gens, user, day) <= r.gens
    ensures r.gens == 0 <==> forall k :: 0 <= k < |gens| ==> gens[k].userId != user
    ensures r.referrals == 0 <==> forall k :: 0 <= k < |referrals| ==> referrals[k].ownerId != user
  {
    Quota.NoGensTotal(gens, user);
    Referrals.NoCodesOwned(referrals, user);
    assert forall day :: Quota.GensToday(gens, user, day) <= Quota.GensTotal(gens, user) by {
      forall day ensures Quota.GensToday(gens, user, day) <= Quota.GensTotal(gens, user) {
        Quota.TodayWithinTotal(gens, user, day);
      }
    }
    Stats(Quota.GensTotal(gens, user), Referrals.CodesOwned(referrals, user))
  }

  /** The invariant of the tables: ids are increasing and below the next id,
      a record is marked used exactly when it has been handed out, each record
      is handed out at most once, and each grant has its ledger row. */
  ghost predicate Consistent(accounts: seq<Pool.Account>, granted: seq<nat>, nextId: nat, ledgerRows: nat)
  {
    Pool.IdsIncreasing(accounts)
    && (forall i :: 0 <= i < |accounts| ==> accounts[i].id < nextId)
    && (forall k :: 0 <= k < |granted| ==> granted[k] < nextId)
    && (forall i :: 0 <= i < |accounts| ==> (accounts[i].used <==> accounts[i].id in granted))
    && NoDuplicates(granted)
    && |granted| == ledgerRows
  }

  /** Handing out an unused record keeps the invariant, and its id is new to
      the list of handed-out ids. */
  lemma ClaimKeepsConsistent(accounts: seq<Pool.Account>, granted: seq<nat>, nextId: nat, ledgerRows: nat, i: nat)
    requires Consistent(accounts, granted, nextId, ledgerRows)
    requires i < |accounts| && !accounts[i].used
    ensures accounts[i].id !in granted
    ensures Consistent(Pool.MarkUsed(accounts, accounts[i].id), granted + [accounts[i].id], nextId, ledgerRows + 1)
  {
    var id := accounts[i].id;
    ClaimKeepsFlags(accounts, granted, i);
    MarkUsedKeepsOrder(accounts, id);
    AppendKeepsDistinct(granted, id);
  }

  /** After the claim a record is marked used exactly when its id is in the
      extended list of handed-out ids. */
  lemma ClaimKeepsFlags(accounts: seq<Pool.Account>, granted: seq<nat>, i: nat)
    requires Pool.IdsIncreasing(accounts)
    requires forall j :: 0 <= j < |accounts| ==> (accounts[j].used <==> accounts[j].id in granted)
    requires i < |accounts| && !accounts[i].used
    ensures var after := Pool.MarkUsed(accounts, accounts[i].id);
      forall j :: 0 <= j < |after| ==> (after[j].used <==> after[j].id in granted + [accounts[i].id])
  {
    var id := accounts[i].id;
    var after := Pool.MarkUsed(accounts, id);
    forall j | 0 <= j < |after|
      ensures after[j].used <==> after[j].id in granted + [id]
    {
      if j != i {
        assert Pool.IdOrdered(accounts, i, j) && Pool.IdOrdered(accounts, j, i);
      }
    }
  }

  /** Marking a record used changes no id, so the ids stay increasing. */
  lemma MarkUsedKeepsOrder(accounts: seq<Pool.Account>, id: nat)
    requires Pool.IdsIncreasing(accounts)
    ensures Pool.IdsIncreasing(Pool.MarkUsed(accounts, id))
  {
    var after := Pool.MarkUsed(accounts, id);
    forall a, b ensures Pool.IdOrdered(after, a, b) {
      assert Pool.IdOrdered(accounts, a, b);
    }
  }

  /** Appending an id not yet in the list keeps the list free of duplicates. */
  lemma AppendKeepsDistinct(granted: seq<nat>, id: nat)
    requires NoDuplicates(granted) && id !in granted
    ensures NoDuplicates(granted + [id])
  {
    forall a, b ensures Distinct(granted + [id], a, b) {
      assert Distinct(granted, a, b);
    }
  }

  /** Everything a claim of the matching record at `i` establishes: the
      invariant holds of the new tables, the record had not been handed out,
      and `search` for the game and `stock` each drop by one. */
  lemma ClaimStep(accounts: seq<Pool.Account>, granted: seq<nat>, nextId: nat, ledgerRows: nat, i: nat, game: string)
    requires Consistent(accounts, granted, nextId, ledgerRows)
    requires i < |accounts| && Pool.Matches(accounts[i], game)
    ensures accounts[i].id !in granted
    ensures Consistent(Pool.MarkUsed(accounts, accounts[i].id), granted + [accounts[i].id], nextId, ledgerRows + 1)
    ensures Pool.Search(Pool.MarkUsed(accounts, accounts[i].id), game) == Pool.Search(accounts, game) - 1
    ensures Pool.Stock(Pool.MarkUsed(accounts, accounts[i].id)) == Pool.Stock(accounts) - 1
  {
    Pool.ClaimLowersStock(accounts, i);
    Pool.ClaimLowersSearch(accounts, i, game);
    ClaimKeepsConsistent(accounts, granted, nextId, ledgerRows, i);
  }

  /** Inserting a row with the next id and `used` 0 keeps the invariant. */
  lemma InsertKeepsConsistent(accounts: seq<Pool.Account>, granted: seq<nat>, nextId: nat, ledgerRows: nat, e: Pool.Entry)
    requires Consistent(accounts, granted, nextId, ledgerRows)
    ensures Consistent(accounts + [Pool.Account(nextId, e.username, e.password, e.games, false)], granted, nextId + 1, ledgerRows)
  {
    var after := accounts + [Pool.Account(nextId, e.username, e.password, e.games, false)];
    forall a, b ensures Pool.IdOrdered(after, a, b) {
      assert Pool.IdOrdered(accounts, a, b);
    }
    assert nextId !in granted;
  }

  class Bot {
    var accounts: seq<Pool.Account>
    var gens: seq<Quota.Gen>
    var referrals: seq<Referrals.Referral>
    var referralUses: seq<Referrals.ReferralUse>
    var reports: seq<Reports.Report>
    /** The id AUTOINCREMENT gives the next inserted account. */
    var nextId: nat
    /** The ids of the records handed out, in the order of the `gens` rows. */
    ghost var granted: seq<nat>

    ghost predicate Valid()
      reads this
    {
      Consistent(accounts, granted, nextId, |gens|)
    }

    /** `init_db` on a fresh database whose `referrals` already holds `codes`
        (nothing in the bot creates codes). */
    constructor (codes: seq<Referrals.Referral>)
      ensures Valid()
      ensures accounts == [] && gens == [] && referralUses == [] && reports == []
      ensures referrals == codes && granted == []
    {
      accounts, gens, referrals, referralUses, reports := [], [], codes, [], [];
      nextId, granted := 1, [];
    }

    /** The limit `steamaccount` builds step by step. */
    method Limit(user: string, boosted: bool) returns (limit: int)
      ensures limit == Quota.DailyLimit(boosted, Referrals.HasBonus(referralUses, user))
    {
      limit := 2;
      if boosted {
        limit := 4;
      }
      if Referrals.ReferredCount(referralUses, user) > 0 {
        limit := limit + 1;
      }
    }

    /** The claim half of `steamaccount`: `SELECT ... WHERE used=0 AND games
        LIKE ? LIMIT 1` picks any one matching record (no ORDER BY fixes which);
        if there is one it is marked used and one `gens` row is appended for
        `user` on `day`; if there is none nothing changes. */
    method Claim(user: string, game: string, day: int) returns (record: Option<Pool.Account>)
      requires Valid()
      modifies this
      ensures Valid()
      ensures referrals == old(referrals) && referralUses == old(referralUses)
      ensures reports == old(reports) && nextId == old(nextId)
      ensures record.None? <==> Pool.Search(old(accounts), game) == 0
      ensures record.None? ==> accounts == old(accounts) && gens == old(gens) && granted == old(granted)
      ensures record.Some? ==>
        var a := record.value;
        a in old(accounts) && Pool.Matches(a, game) && a.id !in old(granted)
        && accounts == Pool.MarkUsed(old(accounts), a.id)
        && gens == old(gens) + [Quota.Gen(user, day)]
        && granted == old(granted) + [a.id]
        && Pool.Search(accounts, game) == Pool.Search(old(accounts), game) - 1
        && Pool.Stock(accounts) == Pool.Stock(old(accounts)) - 1
    {
      if i :| 0 <= i < |accounts| && Pool.Matches(accounts[i], game) {
        record := Some(accounts[i]);
        HandOut(i, user, day, game);
      } else {
        record := None;
      }
    }

    /** Marks the matching record at `i` used and appends its ledger row. */
    method HandOut(i: nat, user: string, day: int, ghost game: string)
      requires Valid()
      requires i < |accounts| && Pool.Matches(accounts[i], game)
      modifies this
      ensures Valid()
      ensures referrals == old(referrals) && referralUses == old(referralUses)
      ensures reports == old(reports) && nextId == old(nextId)
      ensures old(accounts[i].id) !in old(granted)
      ensures accounts == Pool.MarkUsed(old(accounts), old(accounts[i].id))
      ensures gens == old(gens) + [Quota.Gen(user, day)]
      ensures granted == old(granted) + [old(accounts[i].id)]
      ensures Pool.Search(accounts, game) == Pool.Search(old(accounts), game) - 1
      ensures Pool.Stock(accounts) == Pool.Stock(old(accounts)) - 1
    {
      var id := accounts[i].id;
      ClaimStep(accounts, granted, nextId, |gens|, i, game);
      accounts, gens, granted := Pool.MarkUsed(accounts, id), gens + [Quota.Gen(user, day)], granted + [id];
    }

    /** `steamaccount`: refuses when today's grants have reached the limit,
        refuses when no unused record's `games` contains `game`, and otherwise
        hands out one such record. A refusal changes nothing; a grant raises
        today's count by one and never past the limit. */
    method SteamAccount(user: string, boosted: bool, game: string, day: int) returns (outcome: ClaimOutcome)
      requires Valid()
      modifies this
      ensures Valid()
      ensures referrals == old(referrals) && referralUses == old(referralUses)
      ensures reports == old(reports) && nextId == old(nextId)
      ensures var limit := Quota.DailyLimit(boosted, Referrals.HasBonus(referralUses, user));
        outcome.LimitReached? <==> Quota.GensToday(old(gens), user, day) >= limit
      ensures outcome.LimitReached? ==>
        outcome.limit == Quota.DailyLimit(boosted, Referrals.HasBonus(referralUses, user))
      ensures outcome.NoAccounts? ==> Pool.Search(old(accounts), game) == 0
      ensures !outcome.Granted? ==>
        accounts == old(accounts) && gens == old(gens) && granted == old(granted)
      ensures outcome.Granted? ==>
        var a := outcome.account;
        a in old(accounts) && Pool.Matches(a, game) && a.id !in old(granted)
        && accounts == Pool.MarkUsed(old(accounts), a.id)
        && gens == old(gens) + [Quota.Gen(user, day)]
        && granted == old(granted) + [a.id]
        && Pool.Search(accounts, game) == Pool.Search(old(accounts), game) - 1
        && Pool.Stock(accounts) == Pool.Stock(old(accounts)) - 1
      ensures outcome.Granted? ==>
        Quota.GensToday(gens, user, day) == Quota.GensToday(old(gens), user, day) + 1
        && Quota.GensToday(gens, user, day) <= Quota.DailyLimit(boosted, Referrals.HasBonus(referralUses, user))
    {
      var limit := Limit(user, boosted);
      var today := Quota.GensToday(gens, user, day);
      if today >= limit {
        return LimitReached(limit);
      }
      Quota.GensTodayAppend(gens, Quota.Gen(user, day), user, day);
      var record := Claim(user, game, day);
      if record.Some? {
        outcome := Granted(record.value);
      } else {
        outcome := NoAccounts;
      }
    }

    /** `refer`: an unknown code, or the caller's own code, is refused and
        inserts nothing; otherwise one `(owner, caller)` row is appended,
        even when the caller has redeemed before. */
    method Refer(user: string, code: string) returns (applied: bool)
      requires Valid()
      modifies this
      ensures Valid()
      ensures accounts == old(accounts) && gens == old(gens) && referrals == old(referrals)
      ensures reports == old(reports) && nextId == old(nextId) && granted == old(granted)
      ensures var owner := Referrals.OwnerOf(referrals, code);
        applied <==> owner.Some? && owner.value != user
      ensures applied ==>
        referralUses == old(referralUses) + [Referrals.ReferralUse(Referrals.OwnerOf(referrals, code).value, user)]
      ensures !applied ==> referralUses == old(referralUses)
    {
      var owner := Referrals.OwnerOf(referrals, code);
      if owner.None? || owner.value == user {
        return false;
      }
      referralUses := referralUses + [Referrals.ReferralUse(owner.value, user)];
      applied := true;
    }

    /** `INSERT INTO accounts (username,password,games)`: a fresh id, `used` 0. */
    method Insert(e: Pool.Entry)
      requires Valid()
      modifies this
      ensures Valid()
      ensures accounts == old(accounts) + [Pool.Account(old(nextId), e.username, e.password, e.games, false)]
      ensures nextId == old(nextId) + 1
      ensures gens == old(gens) && referrals == old(referrals) && referralUses == old(referralUses)
      ensures reports == old(reports) && granted == old(granted)
    {
      InsertKeepsConsistent(accounts, granted, nextId, |gens|, e);
      accounts := accounts + [Pool.Account(nextId, e.username, e.password, e.games, false)];
      nextId := nextId + 1;
    }

    /** `addaccount`: staff only (others get no reply); inserts one unused record. */
    method AddAccount(isStaff: bool, user: string, pwd: string, games: string) returns (added: bool)
      requires Valid()
      modifies this
      ensures Valid()
      ensures added == isStaff
      ensures added ==> accounts == old(accounts) + [Pool.Account(old(nextId), user, pwd, games, false)]
      ensures added ==> nextId == old(nextId) + 1
      ensures !added ==> accounts == old(accounts) && nextId == old(nextId)
      ensures gens == old(gens) && referrals == old(referrals) && referralUses == old(referralUses)
      ensures reports == old(reports) && granted == old(granted)
    {
      if !isStaff {
        return false;
      }
      Insert(Pool.Entry(user, pwd, games));
      added := true;
    }

    /** `bulkadd`: staff only; reads messages until one that lower-cases to
        `done`, inserting every well-formed line and answering every
        malformed one with a format error without stopping. */
    method BulkAdd(isStaff: bool, messages: seq<string>) returns (outcome: BulkOutcome)
      requires Valid()
      modifies this
      ensures Valid()
      ensures gens == old(gens) && referrals == old(referrals) && referralUses == old(referralUses)
      ensures reports == old(reports) && granted == old(granted)
      ensures !isStaff ==> outcome == StaffOnly && accounts == old(accounts) && nextId == old(nextId)
      ensures isStaff ==>
        var lines := Ingest.Session(messages);
        var entries := Ingest.Accepted(lines);
        outcome == Completed(|entries|, Ingest.FormatErrors(lines), |lines| < |messages|)
        && accounts == old(accounts) + Pool.Inserted(old(nextId), entries)
        && nextId == old(nextId) + |entries|
    {
      if !isStaff {
        return StaffOnly;
      }
      ghost var n := |Ingest.Session(messages)|;
      var i := 0;
      var errors := 0;
      var added := 0;
      ghost var entries: seq<Pool.Entry> := [];
      while i < |messages|
        invariant 0 <= i <= n
        invariant Valid()
        invariant entries == Ingest.Accepted(messages[..i])
        invariant accounts == old(accounts) + Pool.Inserted(old(nextId), entries)
        invariant nextId == old(nextId) + |entries| && added == |entries|
        invariant errors == Ingest.FormatErrors(messages[..i])
        invariant gens == old(gens) && referrals == old(referrals) && referralUses == old(referralUses)
        invariant reports == old(reports) && granted == old(granted)
      {
        if Ingest.IsDone(messages[i]) {
          break;
        }
        Ingest.SessionContinues(messages, i);
        var parsed := Ingest.ParseLine(messages[i]);
        Ingest.SessionStep(messages, i);
        if parsed.Some? {
          var e := parsed.value;
          Pool.InsertedNext(old(accounts), old(nextId), entries, e, accounts, nextId);
          Insert(e);
          entries, added := entries + [e], added + 1;
        } else {
          errors := errors + 1;
        }
        i := i + 1;
      }
      Ingest.SessionEnds(messages, i);
      outcome := Completed(added, errors, i < |messages|);
    }

    /** `report`: anyone may file; appends exactly one row. */
    method SubmitReport(reporter: string, account: string, reason: string)
      requires Valid()
      modifies this
      ensures Valid()
      ensures reports == old(reports) + [Reports.Report(account, reporter, reason)]
      ensures accounts == old(accounts) && gens == old(gens) && referrals == old(referrals)
      ensures referralUses == old(referralUses) && nextId == old(nextId) && granted == old(granted)
    {
      reports := reports + [Reports.Report(account, reporter, reason)];
    }

    /** `resetreport`: staff only; deletes exactly the rows for `account`. */
    method ResetReport(isStaff: bool, account: string) returns (cleared: bool)
      requires Valid()
      modifies this
      ensures Valid()
      ensures cleared == isStaff
      ensures reports == if isStaff then Reports.WithoutAccount(old(reports), account) else old(reports)
      ensures accounts == old(accounts) && gens == old(gens) && referrals == old(referrals)
      ensures referralUses == old(referralUses) && nextId == old(nextId) && granted == old(granted)
    {
      if !isStaff {
        return false;
      }
      reports := Reports.WithoutAccount(reports, account);
      cleared := true;
    }

    /** `resetallreports`: staff only; empties the table. */
    method ResetAllReports(isStaff: bool) returns (cleared: bool)
      requires Valid()
      modifies this
      ensures Valid()
      ensures cleared == isStaff
      ensures reports == if isStaff then [] else old(reports)
      ensures accounts == old(accounts) && gens == old(gens) && referrals == old(referrals)
      ensures referralUses == old(referralUses) && nextId == old(nextId) && granted == old(granted)
    {
      if !isStaff {
        return false;
      }
      reports := [];
      cleared := true;
    }
  }
}
