/** The `accounts` table: credential records, the queries the bot runs over
    it (`search`, `stock`, `listgames`, the claim's candidate test) and the
    row-level updates (`UPDATE ... SET used=1 WHERE id=?`, INSERT). */
module Pool {
  import Text
  import Ordering

  /** One row of `accounts`; `used` is the INTEGER flag 0/1. */
  datatype Account = Account(id: nat, username: string, password: string, games: string, used: bool)

  /** The values an INSERT supplies; `id` and `used` come from the table. */
  datatype Entry = Entry(username: string, password: string, games: string)

  /** `used=0 AND games LIKE '%game%'`: the rows a claim or a search may return. */
  predicate Matches(a: Account, game: string)
  {
    !a.used && Text.ContainsIgnoreCase(a.games, game)
  }

  predicate Unused(a: Account)
  {
    !a.used
  }

  /** AUTOINCREMENT hands out ids in increasing order, so ids are unique. */
  ghost predicate IdsIncreasing(accounts: seq<Account>)
  {
    forall i, j :: IdOrdered(accounts, i, j)
  }

  /** The rows at `i` and `j` are in id order (stated per pair, so that the
      ordering is used only where a proof names the pair). */
  predicate IdOrdered(accounts: seq<Account>, i: int, j: int)
  {
    0 <= i < j < |accounts| ==> accounts[i].id < accounts[j].id
  }

  lemma IdsIncreasingTail(accounts: seq<Account>)
    requires IdsIncreasing(accounts) && accounts != []
    ensures IdsIncreasing(accounts[1..])
  {
    forall i, j ensures IdOrdered(accounts[1..], i, j) {
      assert IdOrdered(accounts, i + 1, j + 1);
    }
  }

  /** `SELECT COUNT(*) FROM accounts WHERE <p>`. */
  function Count(accounts: seq<Account>, p: Account -> bool): (n: nat)
    ensures n <= |accounts|
  {
    if accounts == [] then 0 else (if p(accounts[0]) then 1 else 0) + Count(accounts[1..], p)
  }

  lemma {:induction false} CountPositive(accounts: seq<Account>, p: Account -> bool)
    ensures Count(accounts, p) > 0 <==> exists i :: 0 <= i < |accounts| && p(accounts[i])
  {
    if accounts != [] {
      CountPositive(accounts[1..], p);
      if exists i :: 0 <= i < |accounts| && p(accounts[i]) {
        var i :| 0 <= i < |accounts| && p(accounts[i]);
        if i > 0 {
          assert p(accounts[1..][i - 1]);
        }
      }
      if exists i :: 0 <= i < |accounts[1..]| && p(accounts[1..][i]) {
        var i :| 0 <= i < |accounts[1..]| && p(accounts[1..][i]);
        assert p(accounts[i + 1]);
      }
    }
  }

  /** The `stock` command: the number of unused records. */
  function Stock(accounts: seq<Account>): nat
  {
    Count(accounts, Unused)
  }

  /** `stock` reports a positive number exactly when some record is unused. */
  lemma StockPositive(accounts: seq<Account>)
    ensures Stock(accounts) > 0 <==> exists i :: 0 <= i < |accounts| && !accounts[i].used
  {
    CountPositive(accounts, Unused);
  }

  /** The `search` command: the number of records a claim for `game` could take. */
  function Search(accounts: seq<Account>, game: string): (n: nat)
    ensures n > 0 <==> exists i :: 0 <= i < |accounts| && Matches(accounts[i], game)
  {
    var p := (a: Account) => Matches(a, game);
    CountPositive(accounts, p);
    Count(accounts, p)
  }

  /** `UPDATE accounts SET used=1 WHERE id=?`. */
  function MarkUsed(accounts: seq<Account>, id: nat): (r: seq<Account>)
    ensures |r| == |accounts|
    ensures forall j :: 0 <= j < |r| ==>
      r[j] == if accounts[j].id == id then accounts[j].(used := true) else accounts[j]
  {
    if accounts == [] then []
    else
      [if accounts[0].id == id then accounts[0].(used := true) else accounts[0]]
      + MarkUsed(accounts[1..], id)
  }

  /** Marking one record used lowers by exactly one the count of every
      condition that held of it before and fails after, and leaves the
      other rows' contribution alone (ids are unique). */
  lemma {:induction false} MarkUsedCount(accounts: seq<Account>, i: nat, p: Account -> bool)
    requires IdsIncreasing(accounts)
    requires i < |accounts| && p(accounts[i]) && !p(accounts[i].(used := true))
    ensures Count(MarkUsed(accounts, accounts[i].id), p) == Count(accounts, p) - 1
  {
    var id := accounts[i].id;
    var r := MarkUsed(accounts, id);
    assert r[1..] == MarkUsed(accounts[1..], id);
    if i == 0 {
      forall j | 0 <= j < |accounts[1..]| ensures accounts[1..][j].id != id {
        assert IdOrdered(accounts, 0, j + 1);
      }
      MarkUsedElsewhere(accounts[1..], id);
    } else {
      assert IdOrdered(accounts, 0, i);
      IdsIncreasingTail(accounts);
      MarkUsedCount(accounts[1..], i - 1, p);
    }
  }

  lemma {:induction false} MarkUsedElsewhere(accounts: seq<Account>, id: nat)
    requires forall j :: 0 <= j < |accounts| ==> accounts[j].id != id
    ensures MarkUsed(accounts, id) == accounts
  {
    var r := MarkUsed(accounts, id);
    assert forall j :: 0 <= j < |r| ==> r[j] == accounts[j];
  }

  /** A claim takes exactly one record out of stock. */
  lemma ClaimLowersStock(accounts: seq<Account>, i: nat)
    requires IdsIncreasing(accounts)
    requires i < |accounts| && !accounts[i].used
    ensures Stock(MarkUsed(accounts, accounts[i].id)) == Stock(accounts) - 1
  {
    MarkUsedCount(accounts, i, Unused);
  }

  /** A claim for `game` lowers the `search` count for `game` by exactly one. */
  lemma ClaimLowersSearch(accounts: seq<Account>, i: nat, game: string)
    requires IdsIncreasing(accounts)
    requires i < |accounts| && Matches(accounts[i], game)
    ensures Search(MarkUsed(accounts, accounts[i].id), game) == Search(accounts, game) - 1
  {
    MarkUsedCount(accounts, i, (a: Account) => Matches(a, game));
  }

  /** The rows that INSERTs of `entries` add when the next id is `firstId`:
      consecutive ids and `used` at its default 0. */
  function Inserted(firstId: nat, entries: seq<Entry>): (r: seq<Account>)
    ensures |r| == |entries|
    ensures forall k :: 0 <= k < |r| ==>
      r[k] == Account(firstId + k, entries[k].username, entries[k].password, entries[k].games, false)
  {
    if entries == [] then []
    else
      var e := entries[|entries| - 1];
      Inserted(firstId, entries[..|entries| - 1])
      + [Account(firstId + |entries| - 1, e.username, e.password, e.games, false)]
  }

  /** One more INSERT appends one row, with the next id, after the rows
      already there. */
  lemma InsertedStep(rows: seq<Account>, firstId: nat, entries: seq<Entry>, e: Entry)
    ensures rows + Inserted(firstId, entries + [e])
         == rows + Inserted(firstId, entries) + [Account(firstId + |entries|, e.username, e.password, e.games, false)]
  {
    assert (entries + [e])[..|entries|] == entries;
  }

  /** The same step seen from a table already holding the earlier rows:
      the INSERT appends the row with id `nextId`. */
  lemma InsertedNext(rows: seq<Account>, firstId: nat, entries: seq<Entry>, e: Entry, current: seq<Account>, nextId: nat)
    requires current == rows + Inserted(firstId, entries) && nextId == firstId + |entries|
    ensures rows + Inserted(firstId, entries + [e]) == current + [Account(nextId, e.username, e.password, e.games, false)]
  {
    InsertedStep(rows, firstId, entries, e);
  }

  // ---- listgames ----

  /** The reply of `listgames`: the sorted tags, or the no-stock message. */
  datatype GameList = NoStock | Games(tags: seq<string>)

  /** `listgames` reads `games` only of unused rows, and skips empty ones. */
  predicate Listed(a: Account)
  {
    !a.used && a.games != ""
  }

  /** `t` is one of the comma-separated, stripped pieces of `a.games`. */
  predicate TagOf(a: Account, t: string)
  {
    Listed(a) && exists k :: 0 <= k < |Text.Split(a.games, ',')| && t == Text.Strip(Text.Split(a.games, ',')[k])
  }

  predicate IsTag(accounts: seq<Account>, t: string)
  {
    exists i :: 0 <= i < |accounts| && TagOf(accounts[i], t)
  }

  function StripAll(parts: seq<string>): seq<string>
  {
    seq(|parts|, k requires 0 <= k < |parts| => Text.Strip(parts[k]))
  }

  /** The tags of one record: its comma-separated pieces, stripped. */
  function OwnTags(a: Account): seq<string>
  {
    if Listed(a) then StripAll(Text.Split(a.games, ',')) else []
  }

  /** The tags of every listed record, in table order, repeats included. */
  function Tags(accounts: seq<Account>): seq<string>
  {
    if accounts == [] then [] else OwnTags(accounts[0]) + Tags(accounts[1..])
  }

  lemma OwnTagsAreTags(a: Account, t: string)
    ensures t in OwnTags(a) <==> TagOf(a, t)
  {
    var own := OwnTags(a);
    if t in own {
      var k :| 0 <= k < |own| && own[k] == t;
      assert t == Text.Strip(Text.Split(a.games, ',')[k]);
    }
    if TagOf(a, t) {
      var k :| 0 <= k < |Text.Split(a.games, ',')| && t == Text.Strip(Text.Split(a.games, ',')[k]);
      assert own[k] == t;
    }
  }

  lemma IsTagCons(accounts: seq<Account>, t: string)
    requires accounts != []
    ensures IsTag(accounts, t) <==> TagOf(accounts[0], t) || IsTag(accounts[1..], t)
  {
    if IsTag(accounts, t) {
      var i :| 0 <= i < |accounts| && TagOf(accounts[i], t);
      if i > 0 {
        assert TagOf(accounts[1..][i - 1], t);
      }
    }
    if IsTag(accounts[1..], t) {
      var i :| 0 <= i < |accounts[1..]| && TagOf(accounts[1..][i], t);
      assert TagOf(accounts[i + 1], t);
    }
  }

  /** Tags collects exactly the tags of the listed records. */
  lemma {:induction false} TagsAreTags(accounts: seq<Account>, t: string)
    ensures t in Tags(accounts) <==> IsTag(accounts, t)
  {
    if accounts != [] {
      TagsAreTags(accounts[1..], t);
      OwnTagsAreTags(accounts[0], t);
      IsTagCons(accounts, t);
    }
  }

  /** There are no tags at all exactly when no record is listed. */
  lemma {:induction false} TagsEmpty(accounts: seq<Account>)
    ensures Tags(accounts) == [] <==> forall i :: 0 <= i < |accounts| ==> !Listed(accounts[i])
  {
    if accounts != [] {
      TagsEmpty(accounts[1..]);
      assert OwnTags(accounts[0]) == [] <==> !Listed(accounts[0]);
      if forall i :: 0 <= i < |accounts[1..]| ==> !Listed(accounts[1..][i]) {
        forall i | 1 <= i < |accounts| ensures !Listed(accounts[i]) {
          assert accounts[i] == accounts[1..][i - 1];
        }
      }
      if forall i :: 0 <= i < |accounts| ==> !Listed(accounts[i]) {
        forall i | 0 <= i < |accounts[1..]| ensures !Listed(accounts[1..][i]) {
          assert accounts[1..][i] == accounts[i + 1];
        }
      }
    }
  }

  /** The `listgames` command: every tag of a listed record, sorted as Python
      sorts strings, each once; the no-stock reply exactly when no unused
      record has a non-empty `games`. */
  function ListGames(accounts: seq<Account>): (r: GameList)
    ensures r.NoStock? <==> forall i :: 0 <= i < |accounts| ==> !Listed(accounts[i])
    ensures r.Games? ==> Ordering.StrictlySorted(r.tags) && |r.tags| > 0
    ensures r.Games? ==> forall t :: t in r.tags <==> IsTag(accounts, t)
  {
    TagsEmpty(accounts);
    forall t ensures t in Tags(accounts) <==> IsTag(accounts, t) {
      TagsAreTags(accounts, t);
    }
    var tags := Tags(accounts);
    if tags == [] then NoStock else Games(Ordering.SortedDistinct(tags))
  }
}
