# Me_Mory server core in Dafny

Me_Mory is an emotion diary. Each record a user writes carries one of six
emotions (`joy`, `sadness`, `anger`, `worry`, `proud`, `upset`), an
expression, an optional place and images. The server keeps the following
derived data and rules around those records:

- **Daily summary.** A per-day calendar (`EmotionCalendar`) shows each day's
  representative emotion. This is the mode of the day's records; a tie goes
  to the emotion whose latest record is newest.
- **Month counters.** `Emotion_Stats` counts the calendar days of each
  emotion in a month.
- **Recall.** Records come back 6 and 12 months later, and users acknowledge
  them.
- **Notices.** Administrators publish notices; users see them and mark them
  read.
- **Comments.** Users comment on public records and can report comments.
- **Map.** Located records are shown on a map.
- **Nearby.** A list of nearby users is built from Bluetooth token sightings.

This project models the server's handlers and services as Dafny operations
and proves the rules those handlers promise.

## Layout

One module per modelled source file; the numbers below are source lines.

- `DailySummary` (`daily_summary.dfy`) holds `recomputeDailySummary`.
  - It is a method on the `Database` object.
  - It keeps the calendar faithful to the records of the recomputed day.
  - It keeps the month counters equal to the number of calendar days of
    each emotion.
- `RecordRouter` models the `/records` routes.
  - The `/record-drafts` router repeats some of their handlers line for
    line. These are the list (12-47), the representative image (128-154),
    PUT (156-218) and DELETE (220-253).
  - Those copies are modelled by the same `RecordRouter` members.
- `RecordDraftRouter` models only what is different in the `/record-drafts`
  router:
  - the owner-only detail and image reads;
  - the calendar, which reads the stored rows.
- `RecallRouter`, `RecallNotifier`, `EmotionRouter`, `NoticeRouter`,
  `CommentRouter`, `MapRouter` and `BluetoothRouter` model the routers.
- `ProximityService`, `TokenService`, `SettingsService`, `PrivacyGuard`,
  `Jwt` and `Refresh` model the services and utilities.
- Five modules are shared vocabulary:
  - `Tables` holds the row types and the `Database` class that holds the
    MySQL tables.
  - `Dates` holds calendar dates and date-times, with the date arithmetic
    MySQL performs.
  - `Js` holds the JavaScript string and number semantics the code relies
    on: `parseInt`, `trim`, truthiness, NaN in `Math.min`/`Math.max`. It
    also holds MySQL's `LIKE` matching, which the searches use.
  - `Seqs` holds `WHERE`, `ORDER BY` and `LIMIT/OFFSET` as `Filter`,
    `SortBy` and `Page`.
  - `Wrappers` holds `Option` and `Result`.

## How the model is built

- **Handlers.** A handler that only reads is a function from the tables and
  the request to a `Result`. `Err(status)` stands for an error reply.
- **Writes.** A handler that writes is a method on `Database`. Its
  `modifies` clause names the tables it may change. It states the new
  tables as a function of the old ones, and lemmas state what that function
  keeps.
- **Transactions.** A transaction is one method: a rollback is the branch
  that leaves every table as it was.
- **Inputs.** These are parameters of the model:
  - the time (`NOW()`, `CURDATE()`, `UTC_TIMESTAMP()`);
  - random tokens;
  - SHA-256, an arbitrary function: no lemma assumes it injective; the round trips (`TokenService.RotateThenResolve`, `Refresh.StoreThenFind`) instead assume that no other row already carries the new hash;
  - the JWT library's verification;
  - the great-circle distance;
  - ids that the database assigns.
- **Query numbers.** A query value the code passes through `Number(...)`
  arrives as a `Js.Num`: a finite number, `Infinity`, `-Infinity` or NaN.

## Model

| member | source | states |
|---|---|---|
| Js.LikeAnywhereIsContains | server/router/recordRouter.js:24 | for a search text without `%`, `_` or `\`, `LIKE '%q%'` holds exactly when the text occurs in the column |
| Js.UnderscoreMatchesAny | server/router/noticeRouter.js:244 | the search `_` matches the title `a`, which does not contain `_` |
| PrivacyGuard.MaskName | server/services/bluetooth/privacyGuard.js:1-5 | a missing or empty name becomes `???`; otherwise the result ends in `*`, keeps every character but the last, and a one-character name gets the `*` appended |
| PrivacyGuard.MaskIdempotent | server/services/bluetooth/privacyGuard.js:1-5 | masking a masked name changes nothing |
| PrivacyGuard.MaskHidesLast | server/services/bluetooth/privacyGuard.js:4 | two names that differ only in their last character mask to the same string |
| PrivacyGuard.Apply | server/services/bluetooth/privacyGuard.js:6-8 | every other field is kept; the name is masked unless `mask` is explicitly false, and the row is unchanged when it is |
| PrivacyGuard.ApplyTwice | server/services/bluetooth/privacyGuard.js:6-8 | applying the guard twice with the same option equals applying it once |
| SettingsService.GetConsent | server/services/bluetooth/settingsService.js:4-11 | without a row: off and never enabled; with one: the stored flag as a boolean and the stored time |
| SettingsService.ConsentRow | server/services/bluetooth/settingsService.js:13-21 | the flag is stored as 1/0; enabling stamps now, disabling a new row leaves NULL, disabling an existing row keeps its time |
| SettingsService.WithConsent | server/services/bluetooth/settingsService.js:13-21 | the upsert touches only the user's key, adding it when missing |
| SettingsService.SetConsent | server/services/bluetooth/settingsService.js:13-21 | the settings table becomes `WithConsent` of the old one |
| SettingsService.SetThenGet | server/services/bluetooth/settingsService.js:4-21 | reading back gives the flag just set, now as the time when enabling, and the previous time when disabling |
| SettingsService.OnThenOff | server/services/bluetooth/settingsService.js:13-21 | switching on at t1 and off later reads back as off, last enabled at t1 |
| SettingsService.OffIdempotent | server/services/bluetooth/settingsService.js:13-21 | switching off twice leaves the table as switching off once |
| TokenService.Upsert | server/services/bluetooth/tokenService.js:12-20 | the new row is in the table, every other user's row is kept, no other row of the user remains, and one row per user is kept |
| TokenService.RotateDeviceToken | server/services/bluetooth/tokenService.js:8-22 | returns the fresh token and stores only its hash, active, rotated now and expiring 7 days later |
| TokenService.ResolveUserByTokenHash | server/services/bluetooth/tokenService.js:24-30 | the user of a row with the hash that is active and not expired, or none when no such row exists |
| TokenService.RotateThenResolve | server/services/bluetooth/tokenService.js:8-30 | until it expires a freshly rotated token resolves to its user, when no other user's row has the same hash |
| TokenService.RotateRetiresOld | server/services/bluetooth/tokenService.js:11-20 | after rotation no hash other than the new one resolves to the user |
| Jwt.ExtractToken | server/util/jwt.js:13-18 | none for a missing or empty header; otherwise a trimmed token: the rest after a case-insensitive `bearer ` prefix, or the whole trimmed header |
| Jwt.BearerRoundTrip | server/util/jwt.js:16 | `Bearer <token>` in any letter case gives back a trimmed token unchanged |
| Jwt.RawTokenPassThrough | server/util/jwt.js:17 | a trimmed header without the scheme is passed through unchanged |
| Jwt.Authorize | server/util/jwt.js:21-38 | 403 without a token, when verification fails or when the user id claim is NaN; otherwise the request proceeds as that user |
| Jwt.NoTokenForbidden | server/util/jwt.js:23-24 | a missing, empty or blank header is refused with 403 whatever verification would say |
| Refresh.RemoveFirst | server/util/refresh.js:5 | `replace('d', '')` with a one-character pattern removes exactly the first occurrence |
| Refresh.TtlDays | server/util/refresh.js:4-5 | the lifetime is never zero; the value itself (digits before `d`, else 30) is stated by the `TtlDays…` lemmas below |
| Refresh.TtlDaysOfDigits | server/util/refresh.js:5 | a setting `<digits>d` gives the number the digits spell, and 30 when that number is zero |
| Refresh.TtlDaysOfWord | server/util/refresh.js:5 | a setting without a `d` that starts with a character `parseInt` cannot read gives 30 days |
| Refresh.TtlDaysDefault | server/util/refresh.js:4-5 | without the setting the lifetime is 30 days |
| Refresh.TtlDaysFourteen | server/util/refresh.js:5 | `14d` gives 14 days |
| Refresh.TtlDaysFallback | server/util/refresh.js:5 | a setting without digits, or one that parses to zero, gives 30 days |
| Refresh.StoredRow | server/util/refresh.js:15-23 | the stored row holds the user and the hash, the optional device and address, the user agent cut to 255 characters, and an expiry `ttl` days on |
| Refresh.StoreRefreshToken | server/util/refresh.js:4-23 | exactly one row is appended to the table: the stored row of the user and the token's hash, expiring `TTL_DAYS` days on; the plain token is not stored |
| Refresh.FindActiveRefreshToken | server/util/refresh.js:25-35 | the first row of the token's hash that is neither revoked nor expired, or none when there is none |
| Refresh.StoreThenFind | server/util/refresh.js:15-35 | a token just stored with a positive lifetime is found before it expires, unless an earlier row of the same hash is in force |
| Refresh.Revoked | server/util/refresh.js:37-46 | each unrevoked row of the hash gets the revocation time and the replacement's hash; all other rows are unchanged |
| Refresh.RevokeRefreshToken | server/util/refresh.js:37-46 | the table becomes `Revoked` of the old one |
| Refresh.RevokedNotFound | server/util/refresh.js:25-46 | a revoked token is no longer found |
| Refresh.RevokeIdempotent | server/util/refresh.js:37-46 | a second revocation changes nothing; the first time and replacement stay |
| Refresh.RevokeTouchesOnlyToken | server/util/refresh.js:43 | rows of other hashes and rows already revoked are left as they are |
| DailySummary.DayRecords | server/util/dailySummary.js:33 | exactly the user's records created on the day |
| DailySummary.CountOf | server/util/dailySummary.js:31 | the group count is at most the day's records and positive exactly when a record has the emotion |
| DailySummary.LastAt | server/util/dailySummary.js:31 | `MAX(created_at)` of the group: none for an empty group, otherwise the time of one of its records and no earlier than any of them |
| DailySummary.Best | server/util/dailySummary.js:35-36 | the chosen emotion ranks no later than every candidate under `cnt DESC, last_at DESC` |
| DailySummary.Mode | server/util/dailySummary.js:30-40 | none exactly when the day has no record; otherwise an emotion with records, the highest count and, among equal counts, the latest record |
| DailySummary.Latest | server/util/dailySummary.js:62-63 | none for no rows; otherwise a row no earlier than any other under `created_at DESC, id DESC` |
| DailySummary.LatestWith | server/util/dailySummary.js:58-66 | the latest of the day's records with the emotion, none exactly when the emotion has no record |
| DailySummary.IncStat | server/util/dailySummary.js:1-5 | the counter of the emotion goes up by one, a missing row is created with 1, other counters and rows are unchanged |
| DailySummary.DecStat | server/util/dailySummary.js:6-10 | the counter goes down by one but not below 0, a missing row stays missing, other counters and rows are unchanged |
| DailySummary.MonthOf | server/util/dailySummary.js:21 | the month key `YYYY-MM` of the day |
| DailySummary.RecomputeDailySummary | server/util/dailySummary.js:20-85 | the calendar and the counters become `SummaryCalendar` and `SummaryStats` of the old state |
| DailySummary.RecomputeMakesDayFaithful | server/util/dailySummary.js:29-75 | afterwards the day has a calendar row exactly when it has records, holding a winning emotion and the expression of that emotion's latest record |
| DailySummary.RecomputeOnlyTouchesDay | server/util/dailySummary.js:24-75 | no other (user, day) calendar row changes |
| DailySummary.RecomputeEmptyDay | server/util/dailySummary.js:40-52 | a day without records loses its row and its old emotion's counter is decremented; without a row nothing changes |
| DailySummary.RecomputeOnlyTouchesMonth | server/util/dailySummary.js:77-84 | only the counters of the day's own (user, month) can change |
| DailySummary.RecomputeIdempotent | server/util/dailySummary.js:20-85 | a second recompute with no write in between changes neither the calendar nor any counter |
| DailySummary.RecomputeKeepsStatsConsistent | server/util/dailySummary.js:77-84 | every month counter keeps equal to the number of that month's calendar days with its emotion, so the decrement never meets a zero |
| DailySummary.StatCountStep | server/util/dailySummary.js:78-84 | one recompute moves the counter of an emotion by the change of the day's own calendar emotion |
| DailySummary.RecomputeRestoresCalendar | server/util/dailySummary.js:20-85 | when only the day's records changed, a faithful calendar stays faithful for every user and day |
| EmotionRouter.SnapshotOf | server/router/emotionRouter.js:80-89 | the stored row carries the posted emotion, expression and coordinates and the request time |
| EmotionRouter.Upserted | server/router/emotionRouter.js:76-89 | an incomplete body leaves the table unchanged; a complete one sets the requester's row, creating it if missing, and keeps every other user's row |
| EmotionRouter.PostToday | server/router/emotionRouter.js:71-96 | 400 exactly when the emotion or expression is falsy or a coordinate is undefined, else 200; the table becomes `Upserted` of the old one |
| EmotionRouter.GetToday | server/router/emotionRouter.js:99-118 | 404 exactly when the requester has no row, otherwise that row |
| EmotionRouter.PostThenGet | server/router/emotionRouter.js:71-118 | after a successful POST the requester reads back exactly the posted values |
| EmotionRouter.LastWriteWins | server/router/emotionRouter.js:80-89 | two successful POSTs leave the same table as the second one alone |
| EmotionRouter.GetStats | server/router/emotionRouter.js:37-68 | 400 exactly when year or month is falsy; otherwise the month's counters, all six 0 when the month has no row |
| EmotionRouter.StatsReadsRecomputedKey | server/router/emotionRouter.js:46 | for a 4-digit year and a month 1..12 the month key read is the key the recompute writes, so each answered count is that counter |
| EmotionRouter.SummaryParamsAsWritten | server/router/emotionRouter.js:168-173 | as written, 400 exactly when the trimmed year is empty; a missing month is never refused |
| EmotionRouter.SummaryParams | server/router/emotionRouter.js:168-173 | the intended guard: 400 exactly when the trimmed year is empty or the month is missing; otherwise the trimmed year and the month padded to two characters |
| EmotionRouter.MissingMonthAccepted | server/router/emotionRouter.js:169-171 | a year without a month passes the written guard as month `00` and is refused by the intended one |
| EmotionRouter.GroupsOf | server/router/emotionRouter.js:180-190 | each group row has a positive count that is the number of records with its emotion |
| EmotionRouter.GroupsCount | server/router/emotionRouter.js:200-203 | filling the breakdown from the group rows leaves each listed emotion's record count and 0 for any other |
| EmotionRouter.GroupsSum | server/router/emotionRouter.js:202 | the summed group counts equal the record counts summed over the emotions |
| EmotionRouter.SixCounts | server/router/emotionRouter.js:192 | the counts of the six emotions add up to the number of records |
| EmotionRouter.CountSumEmotions | server/router/emotionRouter.js:192-202 | summed over the emotion list the counts give the number of records |
| EmotionRouter.RoundTenth | server/router/emotionRouter.js:209 | rounding to a tenth keeps a value in 0..100 inside 0..100 |
| EmotionRouter.Percent | server/router/emotionRouter.js:208-209 | a count no larger than the total has a percent in 0..100 |
| EmotionRouter.Breakdown | server/router/emotionRouter.js:192-211 | the three loops leave the summed counts as total and, for every emotion, its last group count and its rounded percent, or 0 when the total is 0 |
| EmotionRouter.BreakdownOfRecords | server/router/emotionRouter.js:180-211 | for the group rows of a set of records the total is the number of records and each emotion's share is its record count and rounded percent |
| EmotionRouter.StatsSummary | server/router/emotionRouter.js:165-222 | 400 exactly when the written guard refuses (a blank year); otherwise the month key, the number of the requester's records in the month as total, and each emotion's record count and percent |
| EmotionRouter.ZeroMonthEmpty | server/router/emotionRouter.js:168-189 | the month `00` that a missing month becomes holds no record, so the summary is all zeros |
| EmotionRouter.GuardsAgreeWithMonth | server/router/emotionRouter.js:168-173 | when a month is given the written and the intended guard decide the same |
| RecallRouter.Pending | server/router/recallRouter.js:11-33 | exactly the requester's records whose reveal time has passed and that the requester has not acknowledged, each once, latest reveal first and then larger id first |
| RecallRouter.WrittenOn | server/router/recallRouter.js:49-58 | exactly the requester's records dated the given day, each once, newest first and then larger id first |
| RecallRouter.Ago | server/router/recallRouter.js:40-65 | 400 exactly when `months` does not parse to 6 or 12; otherwise the parsed count and exactly the requester's records written that many months before today, newest first |
| RecallRouter.RecallToday | server/router/recallRouter.js:72-104 | the two lists are exactly the requester's records written 6 and 12 months before today, newest first |
| RecallRouter.TodayIsAgo | server/router/recallRouter.js:40-104 | the two lists of GET /today are what GET /ago answers for `6` and `12` |
| RecallRouter.AckStatus | server/router/recallRouter.js:116-135 | 400 for an id that does not parse and 404 when no record has it; 200 only for an existing record of the requester whose reveal time has passed |
| RecallRouter.AckOfRecord | server/router/recallRouter.js:121-135 | with unique ids an existing record gives 403 when it is someone else's, 400 while its reveal time is missing or ahead, else 200 |
| RecallRouter.AckedSet | server/router/recallRouter.js:137-140 | acknowledgments only grow; after a 200 the pair is present and is the only one added; on any other reply the set is unchanged |
| RecallRouter.AckIdempotent | server/router/recallRouter.js:137-140 | acknowledging twice leaves the same set as once (`INSERT IGNORE`) |
| RecallRouter.AckedNotPending | server/router/recallRouter.js:19-22 | after a successful acknowledgment the record is no longer pending |
| RecallRouter.Ack | server/router/recallRouter.js:113-147 | the reply is `AckStatus` and the acknowledgment set becomes `AckedSet` of the old one |
| RecallNotifier.DueUsers | server/util/recallNotifier.js:12-27 | each user once, and exactly the users with an unacknowledged record of their own written 6 or 12 months before today |
| RecallNotifier.Batch | server/util/recallNotifier.js:32-57 | exactly the user's unacknowledged records of the date, each once, newest first |
| RecallNotifier.Sent | server/util/recallNotifier.js:29-64 | one notification per due user, carrying that user's two batches; the due query (`GROUP BY r.userId`, no `ORDER BY`) promises no order, and the model fixes one: first appearance in `Records` |
| RecallNotifier.RunOnce | server/util/recallNotifier.js:9-65 | the loop sends exactly `Sent` for the dates 6 and 12 months before today |
| RecallNotifier.SentOnlyDue | server/util/recallNotifier.js:12-27 | every notified user has a due record and every notification carries at least one record |
| RecallNotifier.SentAllDue | server/util/recallNotifier.js:12-27 | every user with a due record is notified |
| RecallNotifier.SentOnce | server/util/recallNotifier.js:24 | no user is notified twice |
| RecordRouter.EveryColumnAllowed | server/router/recordRouter.js:284-285 | every updatable column is one of `ALLOWED` |
| RecordRouter.GivenUpTo | server/router/recordRouter.js:290-291 | exactly the given columns among the first `n` of `ALLOWED` |
| RecordRouter.GivenColumns | server/router/recordRouter.js:288-304 | exactly the columns whose value is not `undefined` |
| RecordRouter.CheckPatch | server/router/recordRouter.js:290-305 | 400 exactly when a given field is rejected (unknown emotion, title over 100, place over 255 characters) or nothing is given; otherwise exactly the given columns, and a given emotion is one of the six |
| RecordRouter.CollectUpdates | server/router/recordRouter.js:288-305 | the loop over `ALLOWED`, returning at the first rejection, decides what `CheckPatch` states |
| RecordRouter.ApplyPatch | server/router/recordRouter.js:323-326 | the update keeps the row's id, author and creation time |
| RecordRouter.ApplyEmptyPatch | server/router/recordRouter.js:323-326 | a patch that gives nothing leaves the row unchanged |
| RecordRouter.ApplyPatchColumns | server/router/recordRouter.js:301-302 | after validation each given column takes the requested value and each absent one keeps its own |
| RecordRouter.ApplyPatchIdempotent | server/router/recordRouter.js:323-326 | applying a patch twice equals applying it once |
| RecordRouter.FindOwned | server/router/recordRouter.js:311-314 | the position of a row with the id and the caller as author; none exactly when no such row exists |
| RecordRouter.UpdateKeepsSummarised | server/router/recordRouter.js:319-329 | replacing a row by one with the same id, author and creation time and recomputing its day keeps the calendar and the counters in agreement with the records |
| RecordRouter.FilterKeepsUniqueIds | server/router/recordRouter.js:368 | deleting rows keeps ids unique |
| RecordRouter.DeleteKeepsSummarised | server/router/recordRouter.js:362-371 | deleting the caller's row and recomputing its day keeps the calendar and the counters in agreement with the records |
| RecordRouter.PutStatus | server/router/recordRouter.js:280-340 | 400 exactly when validation fails, then 500 exactly for an id that does not parse, 404 only when the caller owns no row with the id, 200 only when they own one |
| RecordRouter.UpdateRecord | server/router/recordRouter.js:280-340 | the reply is `PutStatus`; nothing changes unless it is 200; on 200 only the owned row is patched and its creation day recomputed; the calendar and counters stay in agreement with the records |
| RecordRouter.DeleteRecord | server/router/recordRouter.js:346-382 | 500 exactly for an id that does not parse, 404 exactly when the caller owns no such row, nothing changes unless 204; on 204 the row and its images are gone, one row fewer, the day recomputed and the summary tables kept in agreement |
| RecordRouter.DeleteRemovesOne | server/router/recordRouter.js:368 | with unique ids the delete removes exactly one row and leaves none with the id |
| RecordRouter.FilterDropsOne | server/router/recordRouter.js:368 | a filter that rejects exactly one element shortens the sequence by one |
| RecordRouter.FilterKeepsAll | server/router/recordRouter.js:368 | a filter that accepts every element keeps the sequence |
| RecordRouter.GetRecord | server/router/recordRouter.js:110-159 | 500 exactly for an id that does not parse; a reply is the record with the id, joined with its author's name and image, visible to the requester, with `isOwner` right; with unique ids 404 means every such record is hidden from the requester |
| RecordRouter.ImageRows | server/router/recordRouter.js:180-183 | exactly the record's images, each once, by `sort_order` then id |
| RecordRouter.ImageUrls | server/router/recordRouter.js:180-184 | the urls of the record's images, one per image, in the order of `ImageRows` (`sort_order`, then id) |
| RecordRouter.GetImages | server/router/recordRouter.js:165-189 | 500 exactly for an id that does not parse, 404 for a missing record; a reply lists the image urls of a record the requester may see |
| RecordRouter.GetImagesOfRecord | server/router/recordRouter.js:165-184 | with unique ids, a record with the parsed id gives its image urls when the requester may see it and 404 otherwise |
| RecordRouter.GetFull | server/router/recordRouter.js:193-246 | the same error and the same record view as GET /:id, then the record's image urls |
| RecordRouter.SetImg | server/router/recordRouter.js:268 | only rows with the id change, and only in `img` |
| RecordRouter.RepresentativeStatus | server/router/recordRouter.js:252-274 | 400 exactly without a non-empty url; 500 exactly for a url and an id that does not parse; 404 exactly when no record has the parsed id; 200 only for a record the caller owns and a url among that record's images |
| RecordRouter.RepresentativeOfRecord | server/router/recordRouter.js:252-268 | with unique ids and a non-empty url, an existing record gives 403 to anyone but its owner, 400 when the url is not one of its images, and 200 otherwise |
| RecordRouter.SetRepresentative | server/router/recordRouter.js:252-274 | the reply is `RepresentativeStatus`; nothing changes unless it is 200, and then only the record's `img` |
| RecordRouter.PageLimit | server/router/recordRouter.js:26 | 10 when absent, unparsable or 0; otherwise the parsed size, capped at 50; never 0 |
| RecordRouter.PageNumber | server/router/recordRouter.js:27 | 1 when absent, unparsable or 0 (`\|\| 1`); otherwise the parsed number, negative ones included |
| RecordRouter.NewestPage | server/router/recordRouter.js:36-39 | the rows sorted newest first, from position `offset`, at most `limit` of them: item `i` is sorted row `offset + i` |
| RecordRouter.OffsetSign | server/router/recordRouter.js:27 | with a positive limit the offset is negative exactly when the page number is below 1 |
| RecordRouter.ListRecords | server/router/recordRouter.js:13-48 | 500 exactly when the limit or the offset is negative; otherwise a size in 1..50, the number of matching records as total, and the newest-first page at offset `(page - 1) * size` of the matching records |
| RecordRouter.RecordOnItsPage | server/router/recordRouter.js:26-41 | the `j`-th newest matching record is item `k` of page `p` when `j = (p - 1) * size + k` and `k < size` |
| RecordRouter.UnknownEmotionIgnored | server/router/recordRouter.js:22 | an emotion outside the six lists the same as no emotion filter |
| RecordRouter.MonthStart | server/router/recordRouter.js:64-67 | a first day exactly for a year of 1..4 digits and a two-digit month 01..12; that day is day 1 of the month in the year MySQL's `%Y` reads (two digits: 70..99 in the 1900s, 00..69 in the 2000s) |
| RecordRouter.YearOf | server/router/recordRouter.js:64-67 | the year `%Y` reads: the number itself for three or four digits, and 1970..2069 with the same last two digits for one or two |
| RecordRouter.MonthStartOfNumerals | server/router/recordRouter.js:61-67 | the decimal numeral of a year up to 9999 and of a month 1..12, padded to two digits, name day 1 of that month in the year `%Y` reads |
| RecordRouter.MonthStartTwoDigitYear | server/router/recordRouter.js:61-67 | year `25` and month `9` name 1 September 2025 |
| RecordRouter.LatestDated | server/router/recordRouter.js:83-86 | a record of the date that no other record of the date follows under `created_at DESC, id DESC` |
| RecordRouter.EntryOf | server/router/recordRouter.js:91-93 | the entry of a date shows the latest record of that date |
| RecordRouter.EntriesFor | server/router/recordRouter.js:76-94 | one entry per date, each showing that date's latest record |
| RecordRouter.SortedDates | server/router/recordRouter.js:84-94 | exactly the creation dates of the rows, strictly ascending |
| RecordRouter.LatestOfDate | server/router/recordRouter.js:83-86 | the latest of the rows of a date is no earlier than any of them |
| RecordRouter.LatestPerDate | server/router/recordRouter.js:74-97 | ascending dates, one entry per date, an entry for every row's date, each showing that date's latest row |
| RecordRouter.CalendarAsWritten | server/router/recordRouter.js:54-104 | 400 exactly when year or month is falsy; no entries when the month names no date; otherwise, among the user's records between the first day's midnight and the last day's midnight (`created_at <= last_day`), each entry shows the latest record of its date, every such record's date has an entry, and dates ascend |
| RecordRouter.WrittenWindowCalendar | server/router/recordRouter.js:74-97 | the latest entries of the records in the written window form that window's calendar |
| RecordRouter.AsWrittenAgreesOffLastDay | server/router/recordRouter.js:64-97 | when none of the user's records on the month's last day is later than its midnight, the calendar as written equals the intended one |
| RecordRouter.Calendar | server/router/recordRouter.js:54-104 | the intended calendar: 400 exactly when year or month is falsy; otherwise one entry per date of the month on which the user wrote, ascending, each showing that date's latest record |
| RecordRouter.MonthWindow | server/router/recordRouter.js:74-97 | the latest entries of the month's records form the month's calendar |
| RecordRouter.LatestPerDateSingle | server/router/recordRouter.js:74-97 | a single record gives the one entry of its date |
| RecordRouter.MonthStartSeptember | server/router/recordRouter.js:61-67 | year `2025` and month `9` name 1 September 2025 |
| RecordRouter.LastDayDropped | server/router/recordRouter.js:68-89 | a record written at noon on 30 September is missing from the September calendar as written and present in the intended one |
| RecordRouter.TodayLatest | server/router/recordRouter.js:386-408 | none (the 204) exactly when the user has no record today; otherwise a record of today no earlier than any other |
| RecordDraftRouter.DraftGetRecord | server/router/recordDraftRouter.js:84-103 | 500 exactly for an id that does not parse, 404 exactly when the caller owns no record with the id; otherwise that owned record |
| RecordDraftRouter.DraftHidesPublicRecords | server/router/recordDraftRouter.js:84-103 | another user's public record is 404 here while GET /records/:id shows it |
| RecordDraftRouter.DraftImages | server/router/recordDraftRouter.js:105-126 | 500 exactly for an id that does not parse, 404 exactly when no record has the id, 403 only for another user's record; otherwise the caller's record's image urls |
| RecordDraftRouter.DraftImagesForbidden | server/router/recordDraftRouter.js:105-126 | with unique ids an existing record gives its urls to its owner and 403 to anyone else |
| RecordDraftRouter.RowsFrom | server/router/recordDraftRouter.js:65-71 | the stored rows of the user dated from `day` to 31, every one of them, in ascending date order |
| RecordDraftRouter.RowsCons | server/router/recordDraftRouter.js:65-71 | adding the row of `day` in front keeps the rows stored, complete and ascending |
| RecordDraftRouter.BetweenIsMonth | server/router/recordDraftRouter.js:61-68 | the `BETWEEN` bounds select exactly the month's dates with day 1..31 |
| RecordDraftRouter.DraftCalendar | server/router/recordDraftRouter.js:53-78 | 400 exactly when year or month is falsy; otherwise every stored calendar row of the month and nothing else, ascending |
| RecordDraftRouter.DraftCalendarShowsModes | server/router/recordDraftRouter.js:53-78 | while the stored calendar is faithful, each entry has the day's winning emotion and that emotion's latest expression, and every valid date of the month with a record is listed |
| RecordDraftRouter.DraftEntriesAreModes | server/router/recordDraftRouter.js:53-78 | while the stored calendar is faithful, each entry has the day's winning emotion and that emotion's latest expression |
| ProximityService.ClampWindowAsWritten | server/services/bluetooth/proximityService.js:10 | as written, a number is clamped into 1..5 and NaN stays NaN |
| ProximityService.ClampLimitAsWritten | server/services/bluetooth/proximityService.js:11 | as written, a number is clamped into 1..7 and NaN stays NaN |
| ProximityService.ClampRadiusAsWritten | server/services/bluetooth/proximityService.js:12 | as written, a number is clamped into 0.1..5 and NaN stays NaN |
| ProximityService.NaNEscapesClamps | server/services/bluetooth/proximityService.js:10-12 | the three written clamps let NaN through |
| ProximityService.ClampWindow | server/services/bluetooth/proximityService.js:10 | the intended window is always in 1..5 and agrees with the written clamp on every number |
| ProximityService.ClampLimit | server/services/bluetooth/proximityService.js:11 | the intended limit is always in 1..7 and agrees with the written clamp on every number |
| ProximityService.ClampRadius | server/services/bluetooth/proximityService.js:12 | the intended radius is always in 0.1..5 and agrees with the written clamp on every number |
| ProximityService.IntervalMinutes | server/services/bluetooth/proximityService.js:20-27 | the whole minutes MySQL reads from a decimal `INTERVAL ? MINUTE` amount: within one half of it, halves away from zero |
| ProximityService.IntervalMinutesExamples | server/services/bluetooth/proximityService.js:10-27 | a clamped window of 2.5 minutes looks back 3 minutes, one of 1.2 minutes 1 minute |
| ProximityService.ObservedHashes | server/services/bluetooth/proximityService.js:20-27 | each hash once, and exactly the hashes the requester saw within the window of `IntervalMinutes(windowMin)` whole minutes |
| ProximityService.Candidates | server/services/bluetooth/proximityService.js:44-65 | nearest first, then most recently updated; every row is the row of an eligible token: live, seen, another existing user with consent on and a today's position within the radius; each eligible token row gives exactly one row |
| ProximityService.GetNearbyByBle | server/services/bluetooth/proximityService.js:5-81 | as written: a bad origin or a NaN window gives 500; a non-empty answer had a limit and a radius that are numbers and a finite origin; 500 is the only error; with no NaN parameter it is the call with the intended clamps |
| ProximityService.NaNUnreached | server/services/bluetooth/proximityService.js:19-29 | with a good origin and a window that is a number, no hash seen gives no rows whatever the limit and radius are |
| ProximityService.NaNReached | server/services/bluetooth/proximityService.js:29-65 | with a hash seen and a live token, a NaN limit or radius fails the call with 500 |
| ProximityService.NonFiniteOriginReached | server/services/bluetooth/proximityService.js:14-65 | with a hash seen and a live token, a NaN or infinite origin coordinate fails the call with 500, with the written and with the intended clamps |
| ProximityService.GetNearbyByBleIntended | server/services/bluetooth/proximityService.js:5-81 | the intended call: a bad origin gives 500, and otherwise only a NaN or infinite origin coordinate or a limit that is not a whole number does; a non-empty answer had a finite origin |
| ProximityService.MaskKeepsOrder | server/services/bluetooth/proximityService.js:68-78 | masking keeps the rows nearest first |
| ProximityService.NearbyBounded | server/services/bluetooth/proximityService.js:63-64 | a successful answer has at most `limit` rows, nearest first |
| ProximityService.NearbyValue | server/services/bluetooth/proximityService.js:44-80 | a non-empty answer is the first `limit` candidates, masked |
| ProximityService.NearbyEligible | server/services/bluetooth/proximityService.js:44-80 | every answered row belongs to an eligible token and shows that user's name, masked unless `mask` is false |
| ProximityService.CandidatesComplete | server/services/bluetooth/proximityService.js:44-65 | every eligible token's row is a candidate |
| ProximityService.NearbyAll | server/services/bluetooth/proximityService.js:44-80 | with a hash seen, a live token, and no more candidates than the limit, the answer is all the candidates, masked |
| ProximityService.NearbyComplete | server/services/bluetooth/proximityService.js:44-80 | with no more candidates than the limit, every eligible user is listed |
| ProximityService.NothingSeen | server/services/bluetooth/proximityService.js:29 | when the requester saw no hash in the window the answer is empty |
| ProximityService.NoLiveTokenNoCandidates | server/services/bluetooth/proximityService.js:40 | without a live token the third query has no rows either, so the early return changes nothing |
| ProximityService.RowFor | server/services/bluetooth/proximityService.js:89-91 | the row has the reporter, the hash, rssi 0 when absent and the upload time when the entry has none |
| ProximityService.Kept | server/services/bluetooth/proximityService.js:86-92 | at most one row per entry, each with the reporter and a non-empty hash |
| ProximityService.KeptRows | server/services/bluetooth/proximityService.js:86-93 | one row per entry with a hash, and no row when no entry has one |
| ProximityService.IngestScanResults | server/services/bluetooth/proximityService.js:83-99 | `ok` exactly when there is no array or every kept rssi is a finite number; on `ok` the observations gain exactly the kept rows, in order (nothing without an array); on a refused insert nothing is stored |
| ProximityService.KeptInsertable | server/services/bluetooth/proximityService.js:86-98 | the insert is accepted exactly when no kept entry has an rssi that is NaN or infinite; an absent rssi (0) never fails |
| BluetoothRouter.PrivacyStep | server/router/bluetoothRouter.js:8-11 | the guard's `apply` when there is one, otherwise a step that changes nothing (defined in the router but called by none of its handlers) |
| BluetoothRouter.MostFrequentOf | server/router/bluetoothRouter.js:15-23 | one of the listed emotions, with a count no smaller than any other listed one |
| BluetoothRouter.MostFrequent | server/router/bluetoothRouter.js:15-23 | an emotion whose count no other emotion exceeds, and a positive count when there are records |
| BluetoothRouter.DominantEmotion | server/router/bluetoothRouter.js:14-28 | with records today, a most frequent emotion of them; without, the snapshot's emotion when it is truthy, else none; never empty |
| BluetoothRouter.RecordsBeatSnapshot | server/router/bluetoothRouter.js:24 | a user who wrote today is described by an emotion of those records, whatever the snapshot says |
| BluetoothRouter.MarkSameEmotion | server/router/bluetoothRouter.js:101-103 | the list keeps its rows and order, each flagged exactly when my emotion is truthy and equals the row's |
| BluetoothRouter.NearbyOptions | server/router/bluetoothRouter.js:89-98 | radius 0.5, window 5 and limit 7 when absent, masking unless `mask` is `0`, and the parsed origin |
| BluetoothRouter.Nearby | server/router/bluetoothRouter.js:81-108 | 400 exactly when a coordinate is not finite; otherwise a reply exactly when the service answers, with my dominant emotion and the service's list, every row kept in order and flagged, and 500 when the service fails |
| BluetoothRouter.ConsentView | server/router/bluetoothRouter.js:31-42 | the stored row, or enabled 0 and never enabled |
| BluetoothRouter.ConsentViewAgrees | server/router/bluetoothRouter.js:34-38 | the route and `getConsent` agree once the flag is read as a boolean |
| BluetoothRouter.PostConsent | server/router/bluetoothRouter.js:45-54 | the truthiness of `enabled` is stored via `setConsent` and echoed |
| BluetoothRouter.RotateToken | server/router/bluetoothRouter.js:57-66 | the fresh token and 7 days are answered; the token table becomes the rotation's upsert, expiring 7 days on |
| BluetoothRouter.ScanReport | server/router/bluetoothRouter.js:69-78 | 204 or 500, and 500 exactly when an uploaded array keeps an rssi that is NaN or infinite; on 204 the observations gain exactly the kept rows, on 500 nothing |
| BluetoothRouter.LatestPublicToday | server/router/bluetoothRouter.js:127-135 | none exactly when the user has no public record today; otherwise such a record no earlier than any other |
| BluetoothRouter.Person | server/router/bluetoothRouter.js:111-154 | 400 exactly for an id that does not parse, 404 exactly for an unknown user; otherwise the unmasked profile, the snapshot if any, and, exactly when one exists, the user's latest public record of today with its image urls |
| BluetoothRouter.PersonShowsOnlyPublicToday | server/router/bluetoothRouter.js:130-132 | a private record, or one of another day, is never the shown record |
| MapRouter.ValidDateShape | server/router/mapRouter.js:18 | the date pattern holds exactly for ten characters with dashes at positions 4 and 7 and digits elsewhere |
| MapRouter.ParseDate | server/router/mapRouter.js:66 | a string of the date form names a four-digit year and two-digit month and day |
| MapRouter.DateStringRoundTrip | server/router/mapRouter.js:18 | every stored date prints in the date form and reads back as itself |
| MapRouter.AssertLatLng | server/router/mapRouter.js:20-23 | true exactly when both values are finite, the latitude in -90..90 and the longitude in -180..180 |
| MapRouter.SelfDecimals | server/router/mapRouter.js:98-100 | always 0..10; 6 when absent, unparsable or 0; otherwise the parsed value clamped into 0..10 |
| MapRouter.MeToday | server/router/mapRouter.js:29-47 | exactly the requester's located records of today, public or not, each once, newest first |
| MapRouter.MeWeek | server/router/mapRouter.js:53-75 | 400 exactly when `start` lacks the date form; otherwise exactly the requester's located records dated from `start` to six days later, each once, newest first (none for a start that names no real date) |
| MapRouter.AddDaysAdd | server/router/mapRouter.js:66 | adding `a` then `b` days equals adding `a + b` days |
| MapRouter.DaysThrough | server/router/mapRouter.js:66 | the valid dates between `s` and `s + n` days are exactly `s + k` for `k` in 0..n |
| MapRouter.WeekIsSevenDays | server/router/mapRouter.js:66 | the week lists exactly the located records of the seven days from `start` |
| MapRouter.DateBounds | server/router/mapRouter.js:106-110 | a lower bound exactly when `from` is truthy and an upper one exactly when `to` is, each the date the string names |
| MapRouter.NearbyRecords | server/router/mapRouter.js:133-150 | exactly the other users' located public records within the dates, with a known author and a distance of at most 0.5 km, each once, newest first |
| MapRouter.Others | server/router/mapRouter.js:133-150 | one row per selected record, in order, with its author and distance |
| MapRouter.OthersRows | server/router/mapRouter.js:133-150 | `others` lists every selected record and only those, each with its author's profile and its distance, newest first |
| MapRouter.PlaceClick | server/router/mapRouter.js:86-161 | 400 exactly for an invalid position or a truthy `from` or `to` without the date form; otherwise the clicked point, exactly the requester's records at the rounded spot within the dates, each once, newest first, and `others` |
| MapRouter.PlaceListsDisjoint | server/router/mapRouter.js:121-145 | `my` holds only the requester's records and `others` only other users' public ones, so no record is in both |
| MapRouter.PlaceClickUndated | server/router/mapRouter.js:113-130 | without dates every located record of the requester at the rounded spot is in `my` |
| NoticeRouter.AdminSet | server/router/noticeRouter.js:7-12 | exactly the integers that some comma-separated, trimmed entry of `ADMIN_USER_IDS` parses to; none when it is unset |
| NoticeRouter.AdminSetOne | server/router/noticeRouter.js:7-12 | a single decimal id gives exactly that one administrator |
| NoticeRouter.AdminSetCons | server/router/noticeRouter.js:7-12 | a list's administrators are its first entry's plus the rest's |
| NoticeRouter.EnsureAdmin | server/router/noticeRouter.js:13-17 | admitted exactly when there is a user id, it is not 0, and it is an administrator |
| NoticeRouter.SameIdSameNotice | server/router/noticeRouter.js:67-86 | with unique ids two notices with the same id are the same notice |
| NoticeRouter.NoticesDistinct | server/router/noticeRouter.js:67-86 | with unique ids no notice appears twice |
| NoticeRouter.ListLimit | server/router/noticeRouter.js:28 | never above the cap and never 0; the default for an absent, unparsable or zero value, otherwise the parsed value, each capped (the admin list at line 237 applies it with 20 and 100) |
| NoticeRouter.Cursor | server/router/noticeRouter.js:29 | a cursor exactly when the parameter is truthy and parses to a non-zero integer, and then that integer (likewise for the admin list at line 238) |
| NoticeRouter.ItemOf | server/router/noticeRouter.js:41-44 | id, pinned, title and publish time are kept; the snippet is present exactly when the content is, and is its first 200 characters |
| NoticeRouter.ListRows | server/router/noticeRouter.js:31-46 | exactly the visible notices below the cursor, each once, pinned first and then by id descending |
| NoticeRouter.ListNoticesAsWritten | server/router/noticeRouter.js:26-59 | as written, 500 exactly for a negative limit; otherwise the first `limit` rows as items and a next cursor, the last item's id, exactly when the page is full |
| NoticeRouter.CursorSkipsUnpinned | server/router/noticeRouter.js:34-53 | with a pinned notice 1 and an unpinned notice 2 and limit 1, page one is notice 1 with cursor 1 and page two is empty, so the visible notice 2 is never listed |
| NoticeRouter.OneParses | server/router/noticeRouter.js:28-29 | the parameter `1` parses to 1 and is a cursor |
| NoticeRouter.FirstRowPinned | server/router/noticeRouter.js:45 | the pinned notice comes first among the two |
| NoticeRouter.KeysetRows | server/router/noticeRouter.js:31-46 | exactly the visible notices after the key (pinned, id), each once, in the listing's order, sorted pinned first and then by id descending |
| NoticeRouter.ListNotices | server/router/noticeRouter.js:26-59 | the intended listing: 500 exactly for a negative limit; otherwise the first `limit` rows after the key and, exactly when the page is full, the last item's (pinned, id) as next key |
| NoticeRouter.SortedCursor | server/router/noticeRouter.js:45-53 | when a filter keeps exactly the rows after position `k` of a sorted listing, its sorted rows are the listing after `k` |
| NoticeRouter.KeysetContinues | server/router/noticeRouter.js:45-53 | with unique ids, the rows after the key of row `k` are exactly the listing after `k`, so paging loses and repeats nothing |
| NoticeRouter.Detail | server/router/noticeRouter.js:67-86 | 500 exactly for an id that does not parse, 404 exactly when no visible notice has the id; otherwise a visible notice with it |
| NoticeRouter.DetailHidesInvisible | server/router/noticeRouter.js:73-77 | with unique ids a deleted, unpublished or future notice is 404 |
| NoticeRouter.UnreadCount | server/router/noticeRouter.js:124-146 | 0 exactly when every visible notice has been read by the user |
| NoticeRouter.MarkedRead | server/router/noticeRouter.js:108-112 | the pair (notice, user) is set to the time, every other pair kept |
| NoticeRouter.MarkRead | server/router/noticeRouter.js:92-118 | 500 exactly for an id that does not parse, 404 exactly when no visible notice has it, else 204 with the read recorded; nothing changes otherwise |
| NoticeRouter.MarkReadCount | server/router/noticeRouter.js:92-146 | reading a visible notice lowers the unread count by one when it was unread and leaves it otherwise |
| NoticeRouter.ReadMarkTwice | server/router/noticeRouter.js:108-112 | a second read adds no pair and only moves the read time |
| NoticeRouter.NewNotice | server/router/noticeRouter.js:164-170 | the new notice has the id, the author, the trimmed title, the content, the truthiness of `pinned`, the given publish time or now, and is not deleted |
| NoticeRouter.NewNoticeVisible | server/router/noticeRouter.js:164-170 | a new notice is visible exactly from its publish time on, and at once without one |
| NoticeRouter.CreateNotice | server/router/noticeRouter.js:155-177 | 403 exactly for a non-administrator, 400 exactly when title or content is falsy, else 201 with exactly the new notice appended |
| NoticeRouter.Column | server/router/noticeRouter.js:190-197 | each allowed column yields at most one assignment |
| NoticeRouter.AssignAllAppend | server/router/noticeRouter.js:202-206 | assigning a concatenation equals assigning its halves in turn |
| NoticeRouter.ColumnsPatch | server/router/noticeRouter.js:190-206 | the collected assignments set exactly the given columns, and there are none exactly when nothing is given |
| NoticeRouter.CollectAssignments | server/router/noticeRouter.js:190-197 | the loop collects one assignment per given allowed column, in order |
| NoticeRouter.UpdatedRows | server/router/noticeRouter.js:202-206 | rows with the id are transformed, every other row is kept |
| NoticeRouter.UpdateNotice | server/router/noticeRouter.js:184-213 | 403 exactly for a non-administrator, 400 exactly when nothing is given, 500 exactly for an id that does not parse, and 200 exactly for an administrator giving a field with a numeric id; on 200 rows with the id are patched; nothing changes otherwise |
| NoticeRouter.PutDeletedHides | server/router/noticeRouter.js:190-206 | setting `is_deleted` hides the notice and keeps its id |
| NoticeRouter.DeleteNotice | server/router/noticeRouter.js:219-228 | 403 exactly for a non-administrator, 500 exactly for an id that does not parse, and 204 exactly for an administrator with a numeric id; on 204 rows with the id are soft-deleted; nothing changes otherwise |
| NoticeRouter.SoftDeleteHides | server/router/noticeRouter.js:222 | the soft delete only marks rows with the id as deleted, hides them, and never raises an unread count |
| NoticeRouter.UnreadShrinks | server/router/noticeRouter.js:124-146 | hiding notices never raises an unread count |
| NoticeRouter.AdminRows | server/router/noticeRouter.js:239-255 | exactly the notices, deleted or not, below the cursor whose title matches `LIKE '%q%'` with the query's `%` and `_` as wildcards, each once, by id descending |
| NoticeRouter.AdminList | server/router/noticeRouter.js:235-269 | 403 exactly for a non-administrator, 500 exactly for a negative limit; otherwise a positive limit and the page `AdminPage` cuts from the id-descending search |
| NoticeRouter.AdminPage | server/router/noticeRouter.js:256-264 | the first `limit` rows, each with its author's name, and the last id as cursor exactly when the page is full |
| NoticeRouter.AdminCursorContinues | server/router/noticeRouter.js:255-263 | with unique ids, paging the admin list with a row's id as cursor gives exactly the rows after it |
| CommentRouter.IdOf | server/router/recordCommentRouter.js:7-16 | a finite number names an id exactly when it is whole, and then that id |
| CommentRouter.EnsureReadable | server/router/recordCommentRouter.js:7-16 | 404 exactly when no record has the id; otherwise the owner of a record that is public or the requester's, or 403 for a private record of someone else |
| CommentRouter.ReadableOfRecord | server/router/recordCommentRouter.js:7-16 | with unique ids an existing record gives its owner when public or the requester's, and 403 otherwise |
| CommentRouter.Full | server/router/recordCommentRouter.js:19-51 | 400 exactly for an id that is not finite, the readable check's error next, then a reply exactly when the author is a known user; a reply is a readable record with the id, its author's name and image, and its image urls |
| CommentRouter.FullOfRecord | server/router/recordCommentRouter.js:19-46 | with unique ids, an existing record gives 403 when it is private and not the requester's, 404 when its author is unknown, and otherwise its detail view with the author's name and image and its image urls |
| CommentRouter.PageNumber | server/router/recordCommentRouter.js:64 | NaN exactly for a NaN parameter, otherwise at least 1; 1 when absent; a parameter of at least 1 is kept |
| CommentRouter.PageSize | server/router/recordCommentRouter.js:65 | NaN exactly for a NaN parameter, otherwise in 1..50; 20 when absent; a parameter in 1..50 is kept |
| CommentRouter.WholeOf | server/router/recordCommentRouter.js:66-77 | a value is usable as `LIMIT` or `OFFSET` exactly when it is a finite whole number of at least 0 |
| CommentRouter.CommentRows | server/router/recordCommentRouter.js:68-77 | exactly the record's comments that are not deleted and have a known author, each once, newest id first |
| CommentRouter.Window | server/router/recordCommentRouter.js:64-66 | a window exactly when the page is finite and both the size and the offset are whole; then the size in 1..50 and the offset `page - 1` taken `size` times |
| CommentRouter.WindowOfWhole | server/router/recordCommentRouter.js:64-66 | whole page `p` and size `s` in 1..50 give the window (s, (p - 1) * s) |
| CommentRouter.ListComments | server/router/recordCommentRouter.js:54-84 | 400 exactly for an id that is not finite, then the readable check's error, then 500 exactly when no window exists; otherwise the page, the size and the window of the listed comments |
| CommentRouter.CommentWindow | server/router/recordCommentRouter.js:68-77 | at most `size` items, those after `offset` in the list, each with its author's name and image |
| CommentRouter.CommentOnItsPage | server/router/recordCommentRouter.js:54-84 | the `j`-th listed comment is item `k` of page `p` when `j = (p - 1) * size + k` |
| CommentRouter.PostStatus | server/router/recordCommentRouter.js:87-107 | 400 for an id that is not finite or a trimmed text that is empty or over 2000 characters; with a finite id and a valid text, 404 for a fractional id or one no record has; 201 only for an existing public record and a text of 1..2000 characters |
| CommentRouter.PostNeedsPublic | server/router/recordCommentRouter.js:100-107 | with unique ids and a valid text, 201 on a public record and 403 on a private one, even the requester's own |
| CommentRouter.PostComment | server/router/recordCommentRouter.js:87-129 | the reply is `PostStatus`; on 201 exactly the new comment with the trimmed text is appended and returned; nothing changes otherwise |
| CommentRouter.PostedHeadsList | server/router/recordCommentRouter.js:68-77 | a newly posted comment with the largest id heads its record's list |
| CommentRouter.FindComment | server/router/recordCommentRouter.js:140-146 | a comment with the id, none exactly when the number is not whole or no comment has it |
| CommentRouter.RecordOwner | server/router/recordCommentRouter.js:140-145 | the owner of the comment's record, none exactly when the record is missing |
| CommentRouter.DeleteStatus | server/router/recordCommentRouter.js:132-156 | 400 exactly for an id that is not finite, 404 for a missing comment or a missing record; for a found comment of an existing record 204 when the requester is its author or the record's owner, and 403 otherwise |
| CommentRouter.DeletedComments | server/router/recordCommentRouter.js:150 | only comments with the id change, and only by being marked deleted |
| CommentRouter.DeleteComment | server/router/recordCommentRouter.js:132-156 | the reply is `DeleteStatus`; on 204 the comment is soft-deleted; nothing changes otherwise |
| CommentRouter.DeletedLeavesList | server/router/recordCommentRouter.js:150 | a deleted comment leaves the list while its row keeps its id and content |
| CommentRouter.Reporters | server/router/recordCommentRouter.js:178-181 | exactly the users who reported the comment |
| CommentRouter.ReportTarget | server/router/recordCommentRouter.js:159-171 | 400 for an id that is not finite, 404 for a missing comment; a found comment gives 404 when deleted, 400 when it is the requester's own, else its id, which is the id the parameter names |
| CommentRouter.Reported | server/router/recordCommentRouter.js:173-187 | the pair is inserted once; 200 and `alreadyReported` exactly when it was there before, else 201; the count is the comment's reporters afterwards |
| CommentRouter.ReportCounts | server/router/recordCommentRouter.js:173-187 | a first report adds one to the count, and a repeat changes nothing and answers 200 with `alreadyReported` |
| CommentRouter.ReportComment | server/router/recordCommentRouter.js:159-192 | an invalid target answers its error and changes nothing; otherwise the reports, the status and the reply are `Reported` |
| CommentRouter.ReportCount | server/router/recordCommentRouter.js:195-210 | 400 exactly for an id that is not finite; otherwise the number of the comment's reporters, 0 for a fractional id |
| CommentRouter.CountAgreesWithReply | server/router/recordCommentRouter.js:178-210 | the count a report answers is what `report-count` answers afterwards |

## Left out

- **Time zones.** `toISOString()` (UTC) and MySQL's session-time-zone
  `DATE(created_at)` can disagree near midnight. The model has one time zone:
  a record's day is the date part of its `Instant`.
- **Untyped request bodies.** A JSON body field is modelled with the type the
  handler expects (a string, a number or a flag), plus its absence. The model
  does not cover an arbitrary JSON value, such as an array for `title`.
- **String collation.**
  - Lengths count characters of `seq<char>`; JavaScript counts UTF-16 code
    units.
  - Comparisons use exact equality. MySQL's case-insensitive collation
    is left out.
- **Malformed and out-of-range dates.**
  - Date strings are parsed only where the handlers check them, and in the
    calendar's month start.
  - An invalid `new Date(...)` is not modelled.
- RecordRouter.MonthStart: reads a year of 1 to 4 digits the way MySQL's
  `%Y` does, two-digit rule included, and a two-digit month 01..12. Any
  other text is taken to give no first day (NULL), hence an empty calendar.
  That covers a sign, white space, a fifth digit or a month of three
  characters. The leniency some SQL modes show such text, with a warning,
  is not modelled.
- **The `/bluetooth` router as written.**
  - server/router/bluetoothRouter.js:4 binds the whole module object that
    server/middleware/auth.js exports. It does not bind the module's
    `verifyToken` function (auth.js:3).
  - Express refuses a handler that is not a function. So the route
    registration at line 31 throws, out of the `require` at
    server/index.js:28. Nothing catches it, and `app.listen` at
    server/index.js:46 is never reached, so the whole server fails to
    start, not only the `/bluetooth` routes.
  - The `BluetoothRouter` members model the handlers as if the function
    were bound, with the requester's id given.
  - That middleware is not modelled. It hands the raw header to
    `jwt.verify`, with no `Bearer ` stripping, and keeps `userId`
    unconverted. `Jwt.Authorize` is not the gate of these routes.
- **Ties in `ORDER BY`.** Rows that tie on every sort key come back in any
  order. The model fixes one order and states the property up to ties.
  Where the source picks with `LIMIT 1` among candidates that tie on count
  and latest time, `IsWinner` accepts any of them.
- **Floating point.**
  - Distances, `ROUND`, `AVG(rssi)` and the summary percentages are
    parameters or real numbers. IEEE rounding is not modelled.
  - `EmotionRouter.Percent` rounds to a tenth with exact rationals.
- **Cryptography.** SHA-256 and `randomBytes` are parameters.
- **Libraries.** The `node-cron` schedule, and the `jwt.sign`/`jwt.verify`
  internals, are outside the model. The verification result is an input.
- **Notification delivery.** `sendRecallNotification` is a call into code
  outside the model. `RecallNotifier.RunOnce` returns the notifications it
  would send, in order.
- **Concurrency.**
  - `FOR UPDATE` locks and interleavings of concurrent requests are left
    out.
  - A handler's transaction is one atomic method.
  - The 500 replies to a database failure (the `catch` branches) are not
    modelled as failures of the database itself. They are modelled wherever
    a request's own input reaches MySQL as a value it refuses: an id that
    does not parse (a NaN bound into `WHERE id = ?`), a `LIMIT` or `OFFSET`
    that is negative, NaN or not whole, and a NaN or infinite number bound
    into a proximity query or into the scan upload's `INSERT`.
- **Database ids.** Auto-increment ids are a parameter `newId`. The insert
  methods do not require it to be unused. The lemmas that rely on unique ids
  take uniqueness as a hypothesis.
- **Invariant after a representative-image change.**
  - `RecordRouter.SetRepresentative` changes only `img`.
  - It is not proved again that the calendar stays summarised.
  - That follows because `img` is not read by the daily summary, but no
    lemma states it.
- **Large numbers.** A `parseInt` result is an unbounded integer. JavaScript
  numbers beyond 2^53, and MySQL integer overflow, are not modelled.
- **Column choice in replies.**
  - Reply rows are whole table rows.
  - The map router's `MAP_FIELDS` projection, and the admin notice list's
    column selection, are not modelled as separate types.
  - A comment insert replies with the stored comment rather than the
    re-read joined row.
  - The record list's `page: Number(page)` echo is not part of the modelled
    reply.
- **Observed hashes.** `ProximityService.ObservedHashes` is modelled as a
  set of hashes. It ignores that query's `ORDER BY last_seen DESC LIMIT 500`,
  so more than 500 distinct sightings in the window are not cut off.
- **Other emotion routes.** The `/emotion` routes `GET /calendar`,
  `/history`, `/report` and `/hotspots` are not modelled. They are read-only
  reports beside the diary's main flows, and `/hotspots` is a floating-point
  aggregation.
- **Draft confirmation and capture.** Draft confirmation, reveal-time
  computation, image staging and record creation (POST) have no handler in
  the modelled routers, so they are not modelled.
- **Other parts of the server.** The OAuth and authentication routers, the S3
  upload, the Express wiring and the client are not part of this model.

## Findings

Each row is backed by two members. One models the code as written and
exhibits the problem on the stated input. The other is the corrected
definition, with the intended property proved. The handlers follow the code
as written (`RecordRouter.CalendarAsWritten`,
`EmotionRouter.StatsSummary`, `NoticeRouter.ListNoticesAsWritten`,
`ProximityService.GetNearbyByBle`). The corrected definitions sit beside
them. Where both can be compared, a lemma shows they agree away from the
defective input (`EmotionRouter.GuardsAgreeWithMonth`, and the last
`ensures` of `ProximityService.GetNearbyByBle`).

| source | as written | input that shows it | evidently intended | confidence | as-written member | corrected member |
|---|---|---|---|---|---|---|
| server/router/recordRouter.js:68-89 | the calendar query keeps `created_at <= LAST_DAY(first)`, which compares a date-time with the last day at 00:00:00 | a record written at 12:00 on 2025-09-30, requested for 2025-09 | every record of the month's last day counts (`DATE(created_at) <= LAST_DAY(...)`) | not executed | RecordRouter.LastDayDropped | RecordRouter.MonthWindow |
| server/router/emotionRouter.js:168-173 | the month is `String(month \|\| '').padStart(2, '0')`, which is never empty, so the "month missing" check never fires | `year=2025` with no `month`: the month becomes `00` and the request passes the guard | 400 when the month is missing | not executed | EmotionRouter.MissingMonthAccepted | EmotionRouter.SummaryParams |
| server/services/bluetooth/proximityService.js:10-65 | the clamps are `Math.max(lo, Math.min(hi, x))`, which return NaN for NaN, and the NaN reaches MySQL as `NaN`, which fails the query | `limit=abc` with a sighting and a live token: 500 instead of the default limit 7 (likewise a non-numeric window or radius) | a non-number falls back to its default | not executed | ProximityService.NaNReached | ProximityService.GetNearbyByBleIntended |
| server/router/noticeRouter.js:28-53 | the list is ordered `pinned DESC, id DESC` but the next page is `id < cursor` | notice 1 pinned and notice 2 unpinned, `limit=1`: page one is notice 1 with cursor 1, page two is empty, and notice 2 is never listed | the cursor continues the listing's own order | not executed | NoticeRouter.CursorSkipsUnpinned | NoticeRouter.KeysetContinues |
