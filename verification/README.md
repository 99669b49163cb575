# Steam account generator bot: a Dafny model

This project models the record-dispensing core of a Discord bot, `bot.py`, and the referral endpoint of its web API, `api.py`.

The bot keeps a pool of shared game-account credentials in SQLite.
- Members ask for a record with `steamaccount <game>`. They are held to a daily quota: 2 a day, 4 with the booster role, plus 1 once they have redeemed someone's referral code.
- Staff stock records with `addaccount` and with `bulkadd`. A `bulkadd` session reads `user:pass | games` lines until the word `done`.
- Anyone can query the pool (`search`, `stock`, `listgames`, `mystats`) and file reports. Staff read and clear the reports.
- The web API's `use_referral` redeems a code at most once per user, against a database of its own.

How the model is laid out:
- Each table is a sequence of rows held by the class `GenBot.Bot`. Its methods are the commands that change tables, and their contracts state the new tables.
- The queries are functions over the tables: `Pool`, `Quota`, `Referrals` and `Reports`.
- `steamaccount` chooses a record with `SELECT ... LIMIT 1` and no `ORDER BY`. This is modelled as a free choice among the matching unused rows.
- The Python and SQLite string semantics the commands depend on are written out in `Text` and `Ordering`:
  - `str.split` with one separator;
  - `str.strip` with Python's whitespace set;
  - the ASCII case folding of `LIKE`;
  - Python's code-point ordering for `sorted`.
- Role checks (`is_staff`, `boost_count`) arrive as booleans. The calendar day is an integer parameter. Discord replies are result values.

Main facts proved:
- Through the ghost list `granted` and the invariant `Valid()`, no record is handed out twice.
- A refused `steamaccount` changes nothing.
- A grant marks exactly one matching record used and adds one ledger row. Afterwards, today's count is still within the limit.
- The limit never reaches the 6 a day that the bot's `boostinfo` text advertises for two boosts, because `boost_count` is 0 or 1.
- The `bulkadd` parser accepts exactly the well-formed lines. The session inserts exactly the accepted lines before the first `done`.
- `listgames` is the sorted set of tags.
- The report commands count, clear and wipe exactly the right rows.
- Through the API, a user gets at most one redemption row, including the owner of the code.

## Model

| member | source | states |
|---|---|---|
| Text.Split | bot.py:265-266 | `str.split(sep)` gives one more piece than there are separators, and no piece contains the separator |
| Text.SplitJoin | bot.py:265-266 | splitting the join of separator-free pieces gives back exactly those pieces |
| Text.JoinSplit | bot.py:265-266 | joining the pieces of a split gives back the original line |
| Text.TrimStart | bot.py:266 | `lstrip()` removes only whitespace, from the front, and leaves a result that does not start with whitespace |
| Text.TrimEnd | bot.py:270 | `rstrip()` removes only whitespace, from the back, and leaves a result that does not end with whitespace |
| Text.StripPadded | bot.py:266-270 | `strip()` removes exactly the whitespace padding around a string with non-space ends; this characterizes Text.Strip |
| Text.StripTrims | bot.py:266-270 | `strip()` gives an infix of its input that neither starts nor ends with whitespace; this characterizes Text.Strip |
| Text.AsciiLower | bot.py:116-117 | the folding `LIKE` applies leaves no ASCII capital letter, keeps every other character where it was, and keeps the length |
| Text.AsciiLowerIdempotent | bot.py:116-117 | folding twice is folding once |
| Text.EmptyNeedleMatches | bot.py:116-117 | `LIKE '%%'` (an empty game) matches every record; this characterizes Text.ContainsIgnoreCase |
| Text.NeedleCaseIgnored | bot.py:116-117 | the requested game matches the same records whatever its letter case; this characterizes Text.ContainsIgnoreCase |
| Text.HaystackCaseIgnored | bot.py:116-117 | a record matches the same requests whatever the letter case of its stored `games`; this characterizes Text.ContainsIgnoreCase |
| Ordering.LessIrreflexive | bot.py:150 | no string sorts before itself |
| Ordering.LessTransitive | bot.py:150 | Python's string order is transitive |
| Ordering.LessTotal | bot.py:150 | of two different strings, one sorts before the other |
| Ordering.InsertSorted | bot.py:145-150 | adding a tag to a sorted tag list keeps it strictly sorted and adds exactly that tag |
| Ordering.SortedDistinct | bot.py:145-150 | `sorted(set(xs))` is strictly sorted, holds exactly the elements of `xs`, and is empty only for empty `xs` |
| Ordering.SortedUnique | bot.py:150 | two strictly sorted lists with the same elements are equal, so the listing is determined by the set of tags |
| Pool.Count | bot.py:156-165 | a `COUNT(*)` never exceeds the number of rows; when it is positive is stated by Pool.CountPositive, how a claim changes it by Pool.MarkUsedCount |
| Pool.CountPositive | bot.py:156-159 | a `COUNT(*)` is positive exactly when some row satisfies the condition |
| Pool.Search | bot.py:153-160 | the `search` count is positive exactly when some unused record's `games` contains the game, ignoring ASCII case |
| Pool.MarkUsed | bot.py:126 | `UPDATE ... SET used=1 WHERE id=?` sets `used` on the rows with that id and leaves every other row as it was |
| Pool.MarkUsedCount | bot.py:126 | marking one record used lowers by exactly one every count whose condition it stops meeting |
| Pool.StockPositive | bot.py:163-167 | the `stock` count is positive exactly when some record is unused; this characterizes Pool.Stock |
| Pool.ClaimLowersStock | bot.py:163-167 | a claim lowers the `stock` count by exactly one |
| Pool.ClaimLowersSearch | bot.py:153-159 | a claim for a game lowers that game's `search` count by exactly one |
| Pool.Inserted | bot.py:244-247 | rows inserted for a list of entries get consecutive ids from the next id, carry the entries' fields, and are unused |
| Pool.InsertedStep | bot.py:267-272 | one more INSERT appends exactly one row with the next id |
| Pool.TagsAreTags | bot.py:145-148 | the collected tags are exactly the stripped comma-separated pieces of non-empty `games` of unused records |
| Pool.TagsEmpty | bot.py:146-150 | no tags are collected exactly when no unused record has a non-empty `games` |
| Pool.ListGames | bot.py:140-150 | `listgames` replies "No stock" exactly when no unused record has non-empty `games`; otherwise it lists every tag once, in Python's sort order, and nothing else |
| Quota.GensToday | bot.py:79-86 | `daily_gens` never exceeds the number of ledger rows; how a new row changes it is Quota.GensTodayAppend, and it never exceeds the user's total (Quota.TodayWithinTotal) |
| Quota.GensTotal | bot.py:172-175 | the `mystats` ledger count never exceeds the number of ledger rows, and bounds the user's count on every single day (Quota.TodayWithinTotal) |
| Quota.NoGensTotal | bot.py:172-175 | the ledger count is zero exactly when no `gens` row names the user |
| Quota.GensTodayAppend | bot.py:79-86 | a new ledger row raises `daily_gens` for its own user and day by one and for no one else |
| Quota.TodayWithinTotal | bot.py:172-175 | a user's grants on one day never exceed their grants overall |
| Quota.DailyLimit | bot.py:99-109 | the limit is one of 2, 3, 4, 5; it is 4 or more exactly for boosters, and odd exactly with the referral bonus |
| Quota.LimitNeverSixOrSeven | bot.py:76-77 | with `boost_count` at most 1 the limit stays below 6 |
| Referrals.CodeIndex | bot.py:203-204 | finds the first `referrals` row with the code, or reports that there is none |
| Referrals.OwnerOf | bot.py:203-205 | the owner lookup is empty exactly when no row holds the code, and otherwise names the owner of a row holding it |
| Referrals.ReferredCount | bot.py:104-108 | a user's redemption count never exceeds the number of `referral_uses` rows; how a new row changes it is Referrals.ReferredCountAppend, and the bonus it decides is Referrals.RedemptionBonusOnce |
| Referrals.ReferredCountAppend | bot.py:104-108 | a new `referral_uses` row raises the redeemed count of its `referred_id` only |
| Referrals.RedemptionBonusOnce | bot.py:105-109 | a redemption grants the bonus; a repeat redemption adds a row but not a second bonus; other users' bonuses do not change; this characterizes Referrals.HasBonus |
| Referrals.CodesOwned | bot.py:177-180 | the number of codes a user owns never exceeds the number of `referrals` rows |
| Referrals.NoCodesOwned | bot.py:177-180 | the owned-codes count is zero exactly when no `referrals` row names the user as owner |
| Ingest.ParseLine | bot.py:264-270 | an accepted line has exactly one bar separator, a user and password free of `:`, and games without surrounding whitespace |
| Ingest.ParseRejectsBars | bot.py:265 | a line with no bar separator, or with more than one, is a format error |
| Ingest.ParseAcceptsWellFormed | bot.py:265-270 | `user:pass`, optional whitespace, the bar separator, then the games, is accepted as `(user, pass, games.strip())` |
| Ingest.ParseRejectsCredentials | bot.py:266 | a line whose stripped left part does not hold exactly one `:` is a format error |
| Ingest.IsDoneFolds | bot.py:262 | the letter-by-letter `done` test holds exactly when the case-folded message equals `done`; this characterizes Ingest.IsDone |
| Ingest.Session | bot.py:260-263 | the processed lines are the messages before the first `done`, and a `done` follows them when they are not all of the input |
| Ingest.SessionStops | bot.py:260-263 | the session is the only prefix that has no `done` in it and ends at a `done` or at the end of the input |
| Ingest.SessionStep | bot.py:264-274 | each further line adds its entry or one format error; this characterizes Ingest.Accepted and Ingest.FormatErrors |
| Ingest.EveryLineAccounted | bot.py:264-274 | every processed line gives exactly one insertion or one format error, so the accepted entries and the format errors together number the lines; this characterizes Ingest.Accepted and Ingest.FormatErrors |
| Ingest.AcceptedSplits | bot.py:260-274 | a malformed line does not stop the session: the entries of a concatenation are the concatenated entries; this characterizes Ingest.Accepted |
| Reports.ReportsFor | bot.py:284-285 | an account's report count never exceeds the number of rows; how filing and clearing change it are Reports.ReportsForAppend and Reports.ClearedCounts |
| Reports.ReportCounts | bot.py:284-285 | `GROUP BY account` has a key for exactly the reported accounts, each holding its number of rows |
| Reports.ReportedAccounts | bot.py:279-287 | staff get the per-account counts; anyone else gets no reply |
| Reports.WithoutAccount | bot.py:295 | the rows left after the DELETE are exactly the rows for other accounts, each kept as many times as it was there |
| Reports.ClearedCounts | bot.py:295 | clearing an account sets its count to zero and leaves every other account's count unchanged |
| Reports.ReportsForAppend | bot.py:229-232 | filing a report raises the count of that account only, by one |
| GenBot.MyStats | bot.py:170-182 | `mystats` counts are bounded by the tables, the grant count is never below the user's count on any single day, and each count is zero exactly when no row of its table names the user |
| GenBot.ClaimKeepsConsistent | bot.py:116-130 | handing out an unused record keeps the table invariant, and the record's id was not handed out before |
| GenBot.ClaimKeepsFlags | bot.py:126 | after the claim a record is marked used exactly when its id has been handed out |
| GenBot.MarkUsedKeepsOrder | bot.py:126 | `UPDATE ... SET used=1` changes no id, so ids stay increasing |
| GenBot.AppendKeepsDistinct | bot.py:128 | a record handed out for the first time keeps every id handed out at most once |
| GenBot.ClaimStep | bot.py:116-130 | claiming a matching unused record keeps the table invariant, hands out an id never handed out before, and lowers `search` for the game and `stock` by one each |
| GenBot.InsertKeepsConsistent | bot.py:244-247 | inserting an unused row with the next id keeps the table invariant |
| GenBot.Bot.constructor | bot.py:33-64 | fresh tables: no records, ledger rows, redemptions or reports; the given referral codes |
| GenBot.Bot.Limit | bot.py:99-109 | the limit built step by step equals the daily limit for the user's booster role and referral bonus |
| GenBot.Bot.Claim | bot.py:114-131 | no matching unused record: nothing changes; otherwise exactly one matching unused record, never handed out before, is marked used, one ledger row is appended, and `search` and `stock` each drop by one |
| GenBot.Bot.HandOut | bot.py:126-130 | the chosen matching record, not handed out before, is marked used and nothing else in `accounts` changes; one `gens` row for the user and day is appended; `search` and `stock` each drop by one; the invariant is kept |
| GenBot.Bot.SteamAccount | bot.py:98-131 | refused with the limit exactly when today's count has reached it; refusals change nothing; a grant raises today's count by one and never past the limit |
| GenBot.Bot.Refer | bot.py:201-214 | applied exactly when the code has an owner other than the caller; then one `(owner, caller)` row is appended; otherwise nothing is |
| GenBot.Bot.Insert | bot.py:244-247 | one row with the next id and `used` 0 is appended; nothing else changes |
| GenBot.Bot.AddAccount | bot.py:238-249 | staff insert one unused record; anyone else changes nothing |
| GenBot.Bot.BulkAdd | bot.py:251-276 | non-staff are refused with nothing inserted; staff get exactly the accepted lines before the first `done` inserted in order with consecutive ids, and one format error per malformed line |
| GenBot.Bot.SubmitReport | bot.py:226-234 | appends exactly one `(account, reporter, reason)` row |
| GenBot.Bot.ResetReport | bot.py:289-297 | staff delete exactly the rows for the account; anyone else changes nothing |
| GenBot.Bot.ResetAllReports | bot.py:299-307 | staff empty the table; anyone else changes nothing |
| Scenarios.DailyQuota | bot.py:99-131 | with three records in stock, an unboosted member gets two different records, then the limit message with limit 2, and one record is left |
| ReferralApi.RowsFor | api.py:26-28 | a user has no redemption row exactly when the already-used query finds none |
| ReferralApi.OneRowEach | api.py:26-30 | with no user repeated, each user has at most one row |
| ReferralApi.AppendNewUser | api.py:30-31 | appending a user without a row keeps one row per user and gives that user exactly one |
| ReferralApi.ReferralStore.constructor | api.py:6-10 | the given codes, and no redemptions |
| ReferralApi.ReferralStore.UseReferral | api.py:17-34 | unknown code: "Invalid code"; a user who already has a row: "Already used"; otherwise exactly one row for the user is appended and success is returned. Every user keeps at most one row, and the owner is not compared with the user |
| ReferralApi.OwnerRedeemsOnce | api.py:21-34 | a code's owner can redeem it, and a second redemption with another valid code is refused |

## Left out

- `topusers`, `globalstats`, `boostinfo` and `on_ready`: these are a leaderboard, global counts, static text and startup. The `gens`, `accounts` and `reports` tables they read are modelled.
- `is_staff` and `boost_count`: these resolve Discord roles, so they arrive as booleans.
- The Discord and HTTP plumbing is not modelled:
  - reply and DM texts, and DMs refused by the user;
  - command parsing and `wait_for`;
  - FastAPI routing and serving `index.html`.
- The connections and SQL execution are not modelled, and neither are database errors. `bulkadd`'s bare `except` would also report those as format errors.
- The clock is not modelled. The ledger stores `datetime.utcnow()` but is counted against the local `date.today()`. The model takes one integer day for both, so it does not capture the mismatch around midnight.
- Async interleaving is not modelled. The quota read and the claim use separate connections with suspension points between them, and concurrent requests could interleave there. Only the sequential behaviour is modelled.
- `LIKE` wildcards inside the requested game (`%`, `_`) are not modelled. Such text is matched literally.
- Non-ASCII letters are compared exactly, as `LIKE` does by default.
- SQL NULLs are not modelled. A referral owner and `games` are always strings, so a `refer` against a code whose owner is NULL is not covered.
- `bulkadd` reads a finite sequence of messages. When the sequence ends without `done`, the model ends the session; the source would keep waiting.
- Messages from other authors are assumed already filtered out.
- `BulkOutcome` reports the counts of inserted rows and format errors, and whether `done` was seen. The source replies with one line per format error and a fixed completion message.
- Referral codes are never created by either file, so the constructors take them as given.
- The `referrals.uses` column is never updated, so it is carried unchanged.
- api.py's `referrals` schema is not part of this model. Only the code and the owner id are assumed.
- api.py's `referral_uses` holds only the user id (api.py:30). The two programs use different database files, so the API model is kept separate from the bot's tables.
- GenBot.MyStats: the contract states bounds and when each count is zero, not the exact value. The counts themselves are the ledger and referral counts `Quota.GensTotal` and `Referrals.CodesOwned`.
