# Explore service: decisions and reciprocity, in Dafny

This project models the core of the explore service of a dating-style product
(`services/explore/main.go`). Users record a like or a pass about another user
in a `decisions` table that holds one row per (actor, recipient) pair. The
service has four handlers:

- **ListLikedYou** pages through everyone who liked a recipient, most recent first.
- **ListNewLikedYou** does the same, leaving out the likers the recipient has already liked back.
- **CountLikedYou** counts the recipient's likers.
- **PutDecision** upserts a decision and reports whether it completes a mutual like.

Both feeds page by offset. The pagination token is the decimal text of an
offset, read with Go's `strconv.Atoi` and written with `strconv.Itoa`. The page
size is `PAGE_LIMIT` = 10.

Modules, leaves first:

- `Wrappers` (wrappers.dfy): `Option` and `Result`.
- `Decimal` (decimal.dfy): Go's `Atoi`/`Itoa` for base 10 and 64-bit `int`, and Go's wrapping `int` addition.
- `Cursor` (cursor.dfy): `PageLimit`, token decoding (`DecodeOffset`) and next-token encoding (`NextToken`).
- `Decisions` (decisions.dfy): the table, kept as rows in storage order. `TableOf` gives its abstract view, a map from `Key(actor, recipient)` to `Decision(liked, ts)`. This module also holds the upsert statement and the mutual-like query.
- `Feed` (feed.dfy): the SQL of the read handlers as functions. WHERE is `Filter`, `ORDER BY unix_timestamp DESC` is the stable `SortByTime`, `LIMIT … OFFSET …` is `Window`, and `COUNT(*)` is `CountLikes`. The properties of the feeds are proved here as lemmas.
- `Explore` (explore.dfy): class `Server` (the Go `server` struct), whose `rows` field is the table, and its four handlers. `ScanLikers` is the `rows.Next()` loop. `MutualMatchScenario` is a client.

Timestamps are opaque naturals. When two likers have the same timestamp, the
model keeps them in storage order, because the sort is stable. SQL leaves that
order undefined. The per-feed ordering properties say only "non-increasing",
but the paging and feed-comparison lemmas rely on one fixed tie order (see
"Left out").

Four behaviours of `main.go` are easy to misread:

- The upsert (`main.go:151`) sets only `liked`. Whether the timestamp is refreshed depends on a schema that is not part of this model. The model keeps an existing row's timestamp, and a new row gets the `now` parameter, which stands for the store's default.
- The next-page token field is always present (`main.go:66`, `119`). When there is no next page it is the empty string, not an absent field.
- A token that `Atoi` accepts may be negative (`main.go:34`), and the code passes it to the query unchecked. What the database does with a negative OFFSET is not known, so the model's query returns `Err(InvalidArgument)` for it.
- The handlers never call `rows.Err()` after the `for rows.Next()` loop (`main.go:46-56`, `100-110`). If the result stream breaks, the loop just ends, and the rows read so far are returned as a success. The parameter `streamFailsAfter` says after how many rows the stream breaks. A page cut short carries no token, so the client takes it as the end of the feed.

## Model

| member | source | states |
|---|---|---|
| `Decimal.Wrap64` | services/explore/main.go:61 | the result of Go's `offset + limit` is the unique 64-bit value congruent to the true sum modulo 2^64, and equals the sum when the sum fits |
| `Decimal.Atoi` | services/explore/main.go:32-35 | whatever Atoi accepts is an optionally signed run of digits and fits a 64-bit `int`; any other text is rejected |
| `Decimal.NatDigits` | services/explore/main.go:61 | Itoa's digits of a natural are non-empty, all decimal, have no leading zero (except "0" itself) and denote exactly that number |
| `Decimal.Itoa` | services/explore/main.go:61 | Itoa's text is a non-empty signed decimal without a '+' that denotes exactly the given integer, in canonical form: no leading zero except "0" itself, and no "-0" |
| `Decimal.AtoiAccepts` | services/explore/main.go:32-35 | every signed decimal in the 64-bit range parses to the integer it denotes |
| `Decimal.AtoiRejectsOutOfRange` | services/explore/main.go:32-35 | a signed decimal outside the 64-bit range is an Atoi error |
| `Decimal.AtoiItoa` | services/explore/main.go:61 | round trip: Atoi reads back exactly what Itoa wrote, for every 64-bit `int` |
| `Decimal.LeadingZero` | services/explore/main.go:32 | a leading zero digit does not change the value of a digit string |
| `Decimal.AtoiZeroPadded` | services/explore/main.go:32-35 | a zero-padded token ("007") is accepted and reads as the unpadded value |
| `Cursor.DecodeOffset` | services/explore/main.go:30-36 | the decoded offset always fits a 64-bit `int`, and an absent token gives offset 0; decoding never fails the request |
| `Cursor.NextToken` | services/explore/main.go:59-62 | a next token is issued (non-empty) exactly when the page holds `PAGE_LIMIT` likers, and it decodes to `offset + 10` in Go's wrapping arithmetic |
| `Cursor.DecodeMalformed` | services/explore/main.go:75-81 | a token that is not an optionally signed decimal reads as offset 0 |
| `Cursor.DecodeWellFormed` | services/explore/main.go:30-36 | a signed decimal token within 64 bits reads as the integer it spells |
| `Cursor.DecodeOutOfRange` | services/explore/main.go:30-36 | a signed decimal token beyond 64 bits reads as offset 0 |
| `Cursor.NextTokenResumes` | services/explore/main.go:112-115 | from a non-negative offset, the token of a full page decodes to exactly `offset + 10` |
| `Decisions.TableOf` | services/explore/main.go:151 | the abstract table: each pair maps to the decision of its row (no contract; its meaning is given by `TableOfAt`/`TableOfKeys`) |
| `Decisions.HasLike` | services/explore/main.go:157 | `EXISTS (SELECT 1 … WHERE actor_user_id = a AND recipient_user_id = r AND liked = 1)` over the rows (no contract; see `HasLikeIffLiked`) |
| `Decisions.IndexOfKey` | services/explore/main.go:151 | the duplicate-key lookup finds the first row with the pair's key, or reports that no row has it |
| `Decisions.Upsert` | services/explore/main.go:151 | the upsert keeps the table's one-row-per-pair constraint |
| `Decisions.MutualQuery` | services/explore/main.go:157 | the two EXISTS subqueries hold exactly when both directions of the pair are likes in the abstract table |
| `Decisions.HasLikeIffLiked` | services/explore/main.go:157 | the EXISTS subquery over rows agrees with the pair's `liked` flag in the abstract table |
| `Decisions.UpsertUpdatesRow` | services/explore/main.go:151 | the duplicate-key branch changes only the pair's flag in the abstract table, keeping its timestamp |
| `Decisions.UpsertAppendsRow` | services/explore/main.go:151 | the insert branch adds the new pair with its decision to the abstract table and changes nothing else |
| `Decisions.UpsertTable` | services/explore/main.go:151 | after the upsert the pair maps to the new flag, with its old timestamp if it existed and `now` otherwise; every other pair is unchanged |
| `Decisions.UpsertSingleRow` | services/explore/main.go:151 | after the upsert exactly one row holds the pair, carrying the new flag |
| `Decisions.UpsertIdempotent` | services/explore/main.go:151 | repeating the same decision leaves the rows exactly as the first call left them |
| `Decisions.MutualAfterUpsert` | services/explore/main.go:157 | the mutual flag read after the upsert is true iff the decision is a like and the other side had already liked back (a self-decision needs only its own like) |
| `Decisions.PassNeverMutual` | services/explore/main.go:140-143 | a pass is never reported as mutual |
| `Decisions.LikeThenLikeBack` | services/explore/main.go:157 | of a like A→B followed by a like B→A, the first reports no match and the second reports a match |
| `Feed.Filter` | services/explore/main.go:38 | the WHERE clause returns no more rows than it is given, and every row it returns satisfies the condition |
| `Feed.FilterContents` | services/explore/main.go:38 | a row is returned by the WHERE clause exactly when it is a row of the input and satisfies the condition |
| `Feed.InsertByTimeSorted` | services/explore/main.go:38 | inserting a row into a most-recent-first sequence keeps it most-recent-first |
| `Feed.InsertByTimeMultiset` | services/explore/main.go:38 | insertion adds exactly the one row and loses none |
| `Feed.NewestFirstOrdered` | services/explore/main.go:38 | in a sequence ordered by `unix_timestamp DESC`, every row is at least as recent as every later row |
| `Feed.SortByTime` | services/explore/main.go:38 | `ORDER BY unix_timestamp DESC` yields a permutation of its input with non-increasing timestamps |
| `Feed.Project` | services/explore/main.go:38 | the select list `actor_user_id, UNIX_TIMESTAMP(unix_timestamp)`: one liker per row, in order, with that row's actor and timestamp |
| `Feed.LikesOf` | services/explore/main.go:38 | the condition `recipient_user_id = r AND liked = 1` (no contract; see `AllLikersSound`/`AllLikersComplete`) |
| `Feed.UnreciprocatedLikesOf` | services/explore/main.go:84-90 | the ListNewLikedYou condition: a like of `r` with no `liked = 1` row from `r` back to its actor (no contract; see `NewLikersMembership`) |
| `Feed.CountLikes` | services/explore/main.go:129 | `COUNT(*)` of the likes of `r`: at most the number of rows, and zero exactly when no row is a like of `r` |
| `Feed.Window` | services/explore/main.go:39 | `LIMIT limit OFFSET offset` yields at most `limit` rows, namely the rows from position `offset` onwards |
| `Feed.AllLikers` | services/explore/main.go:38 | the unpaginated ListLikedYou feed is ordered most recent first and is exactly as long as COUNT(*) |
| `Feed.NewLikers` | services/explore/main.go:83-91 | the unpaginated ListNewLikedYou feed is ordered most recent first |
| `Feed.SelectWindow` | services/explore/main.go:39 | the store returns a page only for non-negative LIMIT and OFFSET, of at most LIMIT rows |
| `Feed.AllLikersSound` | services/explore/main.go:38 | every listed liker has a row (liker, recipient) with liked = 1, with the timestamp listed |
| `Feed.AllLikersComplete` | services/explore/main.go:38 | every user whose row about the recipient has liked = 1 is listed |
| `Feed.PassNeverListed` | services/explore/main.go:38 | a pass (liked = 0) is never listed |
| `Feed.CountIsLikerCount` | services/explore/main.go:129 | COUNT(*) equals the number of distinct users who liked the recipient in the abstract table |
| `Feed.NoLikersEmptyFeeds` | services/explore/main.go:38 | a recipient nobody liked gets count 0 and two empty feeds |
| `Feed.SortFilterCommute` | services/explore/main.go:83-91 | sorting the rows a WHERE clause selects gives the same sequence as selecting from the sorted rows |
| `Feed.NewLikersAreUnreciprocatedLikers` | services/explore/main.go:83-91 | the new-likers feed is the all-likers feed with the likers the recipient liked back removed, in the same order |
| `Feed.NewLikerIsUnreciprocated` | services/explore/main.go:83-91 | every listed new liker has liked the recipient, and the recipient has not liked them |
| `Feed.UnreciprocatedIsNewLiker` | services/explore/main.go:83-91 | every user who liked the recipient and whom the recipient has not liked is listed as a new liker |
| `Feed.NewLikersMembership` | services/explore/main.go:83-91 | a user is a new liker iff they liked the recipient and the recipient has not liked them |
| `Feed.ReciprocationLeavesNewLikers` | services/explore/main.go:85-90 | A is a new liker of B after liking B, and is no longer listed once B likes A back |
| `Feed.FollowTokensFrom` | services/explore/main.go:59-62 | decoding and following the issued tokens from any offset collects the rest of the feed, each entry once |
| `Feed.PagesConcatenate` | services/explore/main.go:38-39 | pages at offsets 0, 10, 20, … reached through the tokens concatenate to the whole feed |
| `Feed.FollowedTokenDecodes` | services/explore/main.go:59-62 | the token after a full page decodes to the offset of the next page |
| `Feed.FifteenLikers` | services/explore/main.go:59-62 | with 15 likers: a page of 10 with token "10", then a page of the last 5 with no token |
| `Feed.ExactMultipleExtraPage` | services/explore/main.go:60 | when the feed length is a positive multiple of 10, the last full page still issues a token, which leads to an empty page without a token |
| `Explore.Delivered` | services/explore/main.go:46 | a broken result stream hands over no more rows than were returned, and all of them when it does not break |
| `Explore.ScanLikers` | services/explore/main.go:46-56 | the scan loop turns each row that arrives into a liker with that row's actor and timestamp, in order, and stops where the stream breaks |
| `Explore.Server.constructor` | services/explore/main.go:21-24 | a server starts over a table that satisfies the one-row-per-pair constraint |
| `Explore.Server.ListLikedYou` | services/explore/main.go:27-70 | a store failure or negative offset is an error; otherwise the response is the 10-entry window at the decoded offset of the all-likers feed, cut where the result stream breaks, with the next token of that page |
| `Explore.Server.ListNewLikedYou` | services/explore/main.go:73-123 | as ListLikedYou, over the new-likers feed, including the cut where the stream breaks |
| `Explore.Server.CountLikedYou` | services/explore/main.go:126-135 | a store failure is an error; otherwise the count is the number of distinct likers and the length of the all-likers feed |
| `Explore.Server.PutDecision` | services/explore/main.go:138-168 | on any failed step an error is returned and the table is as before; otherwise the table is the upsert of the old one and the result is the mutual flag of the new table, i.e. the decision is a like and the other side had already liked back |
| `Explore.MutualMatchScenario` | services/explore/main_test.go:96-124 | from an empty table, u1 likes u2 (no match, one row), then u2 likes u1 (a match) |

## Left out

- `connectToDB` and `main` (`main.go:171-211`) are not modelled. They are the start-up retry loop, the listener and gRPC registration: I/O with no core logic.
- The MySQL engine is not modelled. Each SQL statement is given its meaning as a function over the rows. The driver, `rows.Close` and the `rows.Scan` type-conversion errors (`main.go:49-51`, `103-105`) are left out too. A broken result stream is modelled, as described above.
- Store failures are not modelled as distinct errors. A failing query, begin, exec or commit is a parameter of the handler (`queryFails`, `fault`), and every such failure is the single error value `Unavailable`.
- Explore.Server.PutDecision: the store's own error values and their propagation are collapsed into `Unavailable`. The ensures say only that some failure was returned and the table is unchanged.
- Concurrency, transaction isolation and `ctx` cancellation are left out. Each transaction is one atomic step: a working copy of the rows that only a successful commit writes back. The code never reads `ctx`.
- `UNIX_TIMESTAMP` conversion and clock semantics are left out. Timestamps are naturals.
- Collation is left out. User ids are compared by exact string equality. That equality decides the `WHERE … = ?` filters, the `NOT EXISTS` join, the duplicate-key detection of `ON DUPLICATE KEY UPDATE` and the mutual query (`main.go:38`, `86-89`, `151`, `157`). MySQL compares string columns under the column's collation, and the default ignores case and accents. So "U1" and "u1" can be one key in the store and two keys in the model. The schema is not part of this model.
- Decisions.Upsert: the model keeps the old timestamp when it updates a row. A schema with `ON UPDATE CURRENT_TIMESTAMP` would refresh it. The schema is not part of this model.
- Tie order among equal timestamps is undefined in SQL. The model fixes storage order. Nothing makes MySQL use one consistent order for tied rows across separate `ORDER BY … LIMIT ? OFFSET ?` queries (`main.go:38-39`, `83-91`). Timestamps have one-second granularity, so ties are common, and real pages can repeat or skip tied likers.
- Feed.FollowTokensFrom, Feed.PagesConcatenate and Feed.NewLikersAreUnreciprocatedLikers: they hold only under one consistent tie order. Across separate queries MySQL does not promise that.
- What the database does with a negative OFFSET is unknown. The model returns `Err(InvalidArgument)` for it.
- Protobuf message types and pointer fields are not modelled. The count's `uint64` width is not modelled either: the count never exceeds the number of rows.
- Feed.FollowTokens: it assumes the feed does not change between page requests. Offset drift under concurrent writes is not modelled. It also requires a feed of at most 2^63 - 1 entries, so that `offset + 10` does not wrap.
- `main_test.go`'s sqlmock harness is not modelled. Only its expectations are reflected, in `Explore.MutualMatchScenario` and the handler contracts.
