/** The `reports` table: moderation flags filed against an account string. */
module Reports {
  import opened Wrappers

  /** One row of `reports`. */
  datatype Report = Report(account: string, reporter: string, reason: string)

  /** The number of rows filed against `account`. */
  function ReportsFor(reports: seq<Report>, account: string): (n: nat)
    ensures n <= |reports|
  {
    if reports == [] then 0
    else ReportsFor(reports[..|reports| - 1], account) + (if reports[|reports| - 1].account == account then 1 else 0)
  }

  /** `SELECT account, COUNT(*) FROM reports GROUP BY account`: one entry per
      reported account, holding its number of rows. */
  function ReportCounts(reports: seq<Report>): (m: map<string, nat>)
    ensures forall a :: a in m <==> ReportsFor(reports, a) > 0
    ensures forall a :: a in m ==> m[a] == ReportsFor(reports, a)
  {
    if reports == [] then map[]
    else
      var m := ReportCounts(reports[..|reports| - 1]);
      var a := reports[|reports| - 1].account;
      m[a := (if a in m then m[a] else 0) + 1]
  }

  /** `reportedaccounts`: staff only; others get no reply at all. */
  function ReportedAccounts(isStaff: bool, reports: seq<Report>): (r: Option<map<string, nat>>)
    ensures r.Some? <==> isStaff
    ensures r.Some? ==> forall a :: a in r.value <==> ReportsFor(reports, a) > 0
    ensures r.Some? ==> forall a :: a in r.value ==> r.value[a] == ReportsFor(reports, a)
  {
    if isStaff then Some(ReportCounts(reports)) else None
  }

  /** `DELETE FROM reports WHERE account=?`: the other rows, in their order. */
  function WithoutAccount(reports: seq<Report>, account: string): (r: seq<Report>)
    ensures forall x :: x in r <==> x in reports && x.account != account
    ensures forall x :: multiset(r)[x] == if x.account == account then 0 else multiset(reports)[x]
  {
    if reports == [] then []
    else
      var rest := WithoutAccount(reports[..|reports| - 1], account);
      var last := reports[|reports| - 1];
      assert reports == reports[..|reports| - 1] + [last];
      if last.account == account then rest else rest + [last]
  }

  /** Clearing one account's reports drops its count to zero and leaves every
      other account's count as it was. */
  lemma {:induction false} ClearedCounts(reports: seq<Report>, account: string, other: string)
    requires other != account
    ensures ReportsFor(WithoutAccount(reports, account), account) == 0
    ensures ReportsFor(WithoutAccount(reports, account), other) == ReportsFor(reports, other)
  {
    if reports != [] {
      ClearedCounts(reports[..|reports| - 1], account, other);
      var rest := WithoutAccount(reports[..|reports| - 1], account);
      var last := reports[|reports| - 1];
      if last.account != account {
        assert (rest + [last])[..|rest + [last]| - 1] == rest;
        ReportsForAppend(rest, last, other);
        ReportsForAppend(rest, last, account);
      }
    }
  }

  /** Filing a report adds one to the count of that account only. */
  lemma ReportsForAppend(reports: seq<Report>, r: Report, account: string)
    ensures ReportsFor(reports + [r], account)
         == ReportsFor(reports, account) + (if r.account == account then 1 else 0)
  {
    assert (reports + [r])[..|reports + [r]| - 1] == reports;
  }
}
