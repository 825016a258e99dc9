# Anki daily-review sync, modelled in Dafny

This project models the Anki synchronisation of a browser-based Japanese
study application. The application asks AnkiConnect, the local HTTP bridge
of the Anki flashcard program, for the number of cards reviewed per day.
It then reconciles those `[date, reviewedCards]` pairs into its local
`ankiDailyReviews` table. For each pair in order it looks up the first
record with that date. If there is none it appends a record. If the
record's count differs it updates the count. Otherwise it does nothing.

Files:

- `wrappers.dfy` (`Wrappers`): `Option`, `Result` and `Outcome`.
- `anki_connect.dfy` (`AnkiConnect`): reading the bridge URL from the
  settings table (`GetAnkiConnectUrl`, which `SettingsDecideConfiguration`
  is about), and the three gates of the call. The URL must be set, the
  HTTP status must be OK, and the reply must carry no error.
- `daily_reviews.dfy` (`DailyReviews`): the table as a value (`Snapshot`:
  records in primary-key order plus the auto-increment generator). It holds
  the first-match lookup, the update by key (`UpdateById`, which
  `UpdateByKeyIsSingleIndex` and `UpdateByMissingKey` are about), the write
  each pair causes (`Decide`), one pair (`Upsert`), the whole loop
  (`ApplyPairs`), the writes the loop issues (`Writes`), and the lemmas
  about them.
- `review_store.dfy` (`ReviewStore`): the table as a mutable object with
  the three store operations the loop calls, and a ghost log of the writes
  issued to it.
- `anki_sync.dfy` (`AnkiSync`): the sync loop as a method over that
  object, its body (`UpsertReview`), and the read-all operation. The loop
  is proved against `ApplyPairs` for the table and against `Writes` for
  the log.

Modelling decisions:

- The network is a parameter `remote: Request -> HttpOutcome`. A rejected
  `fetch` and a body that is not JSON are outcomes of their own, because
  both make the call throw.
- JavaScript truthiness is followed as the code writes it. An empty URL
  string counts as "not configured", just like a missing one. The reply's
  `error` field makes the call fail only when it is a non-empty string, so
  an empty error string passes the gate. Reading the gate as "non-null"
  would be wrong for the empty string.
- `response.ok` is the status range 200-299.
- The table's declaration is not part of this model. Its record shape
  `{id, date, reviewedCards, createdAt}` is rebuilt from how
  `src/services/anki-sync.ts` uses it. The key is inferred to be
  auto-incremented from two things: `add` is called without an `id`, and
  `existingReview.id!` treats the key as optional before insertion. So ids
  are modelled as coming from a generator (`nextId`, starting at 1).
  The table invariant `WellFormed` keeps keys strictly ascending in
  sequence order. So the first record with a date in the sequence is also
  the one IndexedDB's date index returns first, because ties are ordered by
  primary key. Dates may repeat; only the first record of a date is ever
  updated.
- `createdAt` comes from a clock parameter: the `k`-th pair reads `clock(k)`.
- The `ankiConnectUrl` field of the settings row is likewise inferred from
  its use at `src/services/anki-sync.ts:10-13`. The `Settings` interface in
  `src/services/db.ts` does not declare it.
- The table object carries a ghost `log` of every add and update issued to
  it. The sync is proved to issue exactly the writes `Writes` lists, so the
  lemmas about `Writes` are lemmas about the method.

On re-running the sync: the final table is always unchanged by a second
run with the same reply (`RerunIsIdentity`). "No add and no update is
issued" holds only when the reply lists each date once
(`RerunWritesNothing`). If a date repeats with two counts, the rerun
rewrites that record twice and ends where it started
(`RerunRewritesRepeatedDate`). AnkiConnect's per-day reply is not expected
to repeat dates.

## Model

| member | source | states |
|---|---|---|
| `AnkiConnect.CallAnkiConnect` | src/services/anki-sync.ts:15-51 | an unset or empty URL fails with "not configured"; otherwise the call succeeds exactly when the response arrived with an OK status and a JSON body whose `error` is not a non-empty string; a success returns that body's reply; a set URL never fails with "not configured"; a rejected fetch fails with `FetchFailed`, and nothing else does; a non-OK status fails with `HttpError` carrying that status, and every `HttpError` comes from one; an OK status with a non-JSON body fails with `InvalidJson`, and nothing else does; an OK JSON reply whose `error` is a non-empty string fails with `AnkiConnectError` carrying that string, and every `AnkiConnectError` comes from such a reply |
| `AnkiConnect.SettingsDecideConfiguration` | src/services/anki-sync.ts:10-22 | looking the URL up and calling fails as "not configured" exactly when there is no Anki settings row or its URL is missing or empty |
| `AnkiConnect.OnlyConfiguredUrlIsRequested` | src/services/anki-sync.ts:19-25 | the result depends on the network only through the one request to the configured URL, and not at all when no URL is set |
| `DailyReviews.FindFirst` | src/services/anki-sync.ts:59 | the lookup returns a record with the date that no earlier record shares, or reports that no record has the date |
| `DailyReviews.UpdateByKeyIsSingleIndex` | src/services/anki-sync.ts:63 | with unique keys, updating the key of one record changes that record's count and nothing else |
| `DailyReviews.UpdateByMissingKey` | src/services/anki-sync.ts:63 | updating a key that no record has leaves the table unchanged |
| `DailyReviews.UpsertAbsent` | src/services/anki-sync.ts:66-73 | for a date with no record, exactly one record is appended, with the generator's key, the date, the count and the clock reading |
| `DailyReviews.UpsertUnchanged` | src/services/anki-sync.ts:61-62 | if the first record of the date already has the count, the table is unchanged |
| `DailyReviews.UpsertChanged` | src/services/anki-sync.ts:59-64 | if the first record of the date has another count, only that record's `reviewedCards` changes; its key, date and creation time and every other record stay, and the generator does not move |
| `DailyReviews.UpsertFrame` | src/services/anki-sync.ts:59-74 | one pair keeps keys unique and old records in place with their key, date and creation time; it appends at most one record, which has the pair's date; it leaves every record that is not the first of that date as it was |
| `DailyReviews.UpsertStores` | src/services/anki-sync.ts:59-74 | after one pair, the first record of its date exists and holds its count |
| `DailyReviews.ApplyPairsWellFormed` | src/services/anki-sync.ts:58-74 | the loop keeps primary keys unique, ascending and below the generator |
| `DailyReviews.TableOnlyGrows` | src/services/anki-sync.ts:58-74 | the loop removes and moves no record, changes no key, date or creation time, and every appended record has a date from the reply |
| `DailyReviews.UpsertAppendsFirst` | src/services/anki-sync.ts:66-73 | a record one pair appends is the first of its date, has the pair's date, and its date had no record before |
| `DailyReviews.AppendedRecordsAreFirst` | src/services/anki-sync.ts:58-74 | the loop never creates a second record for a date: every appended record is the first of its date, and its date had no record before the sync |
| `DailyReviews.UntouchedRecords` | src/services/anki-sync.ts:58-74 | a record whose date is not in the reply, or that has an earlier record of the same date, is never modified |
| `DailyReviews.LastWriteWins` | src/services/anki-sync.ts:58-74 | after the loop, the first record of every reply date holds the count of the last pair with that date |
| `DailyReviews.NoAdditionsWhenPresent` | src/services/anki-sync.ts:59-74 | when every reply date already has a record, the loop appends nothing and the generator does not move |
| `DailyReviews.RerunIsIdentity` | src/services/anki-sync.ts:58-74 | running the loop again with the same reply on its own result leaves the table unchanged |
| `DailyReviews.RerunWritesNothing` | src/services/anki-sync.ts:61-74 | with distinct reply dates, the second run issues no add and no update |
| `DailyReviews.RerunRewritesRepeatedDate` | src/services/anki-sync.ts:61-64 | a reply repeating one date with counts 3 and 4 makes the second run issue two updates of that record |
| `DailyReviews.WritesReplay` | src/services/anki-sync.ts:58-74 | replaying the adds and updates the loop issues reproduces the table the loop leaves |
| `ReviewStore.ReviewTable.First` | src/services/anki-sync.ts:59 | returns nothing exactly when no record has the date, else the first record with it |
| `ReviewStore.ReviewTable.Update` | src/services/anki-sync.ts:63 | the table becomes the update-by-key of the old one; keys stay unique; the update is logged |
| `ReviewStore.ReviewTable.Add` | src/services/anki-sync.ts:67-72 | appends a record under the generator's key, returns that key and advances the generator; the add is logged |
| `AnkiSync.UpsertReview` | src/services/anki-sync.ts:59-74 | one loop iteration moves the table by `Upsert` and issues exactly the write `Decide` calls for, or none |
| `AnkiSync.SyncAnkiDailyReviews` | src/services/anki-sync.ts:53-80 | a failed call is propagated and leaves the table and the write log unchanged, including when there is no settings row or no URL; a successful call leaves the table equal to `ApplyPairs` of the reply over the old table, and issues exactly the writes `Writes` lists; keys stay unique |
| `AnkiSync.GetAllAnkiDailyReviews` | src/services/anki-sync.ts:83-85 | returns every record of the table, in ascending key order |

## Left out

- HTTP plumbing: request headers, CORS mode, the JSON request body and its `version: 6` field. Only the outcome of `fetch` is modelled.
- `CallAnkiConnect`: modelled only for the one action the sync uses, with a reply of day/count pairs. The generic result type and the `params` argument are not modelled. The source trusts the reply's shape without checking it, and so does the model.
- Logging through `console.log` and `console.error`: it has no effect on the table or the result.
- Errors thrown by the local store (`settings.get`, `first`, `update`, `add`): the model's store operations always succeed. So a sync that stops part-way, leaving earlier pairs applied, is not modelled.
- `async`/`await`: each awaited step is taken as one sequential step; nothing else runs in between.
- `reviewedCards` is an unbounded integer. JavaScript numbers (fractions, `NaN`) are not modelled.
- `DailyReviews.RerunWritesNothing`: assumes the reply lists each date once, because with a repeated date the second run does issue updates (see `RerunRewritesRepeatedDate`).
- `src/services/db.ts` (the declarative database schema) and `src/router/index.ts` (view routing) have no logic of their own and are not part of this model.
