/**
 * The explore service's four handlers over one decisions table. The store
 * is the `rows` field; a store failure is a parameter of each handler, and
 * PutDecision's transaction is a working copy of the rows that only a
 * successful commit writes back.
 */
module Explore {
  import opened Wrappers
  import opened Decimal
  import opened Cursor
  import opened Decisions
  import opened Feed

  /** ListLikedYouResponse: the page, and a next-page token that is always present (possibly empty). */
  datatype LikedYouResponse = LikedYouResponse(likers: seq<Liker>, nextToken: string)

  /** Which step of PutDecision's transaction the store fails, if any. */
  datatype TxFault = NoFault | BeginFails | UpsertFails | MutualQueryFails | CommitFails

  /**
   * How many of `n` returned rows `rows.Next()` hands over when the result
   * stream breaks after `streamFailsAfter` rows (None: it never breaks).
   */
  function Delivered(n: nat, streamFailsAfter: Option<nat>): (k: nat)
    ensures k <= n
    ensures streamFailsAfter.None? ==> k == n
    ensures streamFailsAfter.Some? ==> k == Min(n, streamFailsAfter.value)
  {
    if streamFailsAfter.Some? && streamFailsAfter.value < n then streamFailsAfter.value else n
  }

  /**
   * The `for rows.Next()` loop: each row that arrives becomes a liker
   * message carrying its actor and timestamp. A broken stream just ends the
   * loop; `rows.Err()` is never consulted, so the rows read so far are kept.
   */
  method ScanLikers(result: seq<Row>, streamFailsAfter: Option<nat>) returns (likers: seq<Liker>)
    ensures |likers| == Delivered(|result|, streamFailsAfter)
    ensures forall i :: 0 <= i < |likers| ==> likers[i].actor == result[i].actor && likers[i].ts == result[i].ts
  {
    likers := [];
    var i := 0;
    while i < |result| && (streamFailsAfter.None? || i < streamFailsAfter.value)
      invariant 0 <= i <= Delivered(|result|, streamFailsAfter)
      invariant |likers| == i
      invariant forall j :: 0 <= j < i ==> likers[j] == Liker(result[j].actor, result[j].ts)
    {
      var row := result[i];
      likers := likers + [Liker(row.actor, row.ts)];
      i := i + 1;
    }
  }

  class Server {
    /** The decisions table, one row per (actor, recipient), in storage order. */
    var rows: seq<Row>

    ghost predicate Valid()
      reads this
    {
      UniqueKeys(rows)
    }

    /** The abstract view of the table. */
    ghost function DecisionTable(): Table
      reads this
    {
      TableOf(rows)
    }

    constructor (initial: seq<Row>)
      requires UniqueKeys(initial)
      ensures Valid() && rows == initial
    {
      rows := initial;
    }

    /**
     * ListLikedYou: the page at the decoded offset of every liker of
     * `recipient`, most recent first, and the token for the page after it.
     * If the result stream breaks, the rows read so far are returned as a
     * success, and a page cut short carries no token.
     */
    method ListLikedYou(recipient: UserId, paginationToken: Option<string>, queryFails: bool,
                        streamFailsAfter: Option<nat>)
      returns (res: Result<LikedYouResponse, StoreError>)
      ensures var offset := DecodeOffset(paginationToken);
              res == if queryFails then Err(Unavailable)
                     else if offset < 0 then Err(InvalidArgument)
                     else
                       var window := Window(AllLikers(rows, recipient), offset, PageLimit);
                       var page := window[..Delivered(|window|, streamFailsAfter)];
                       Ok(LikedYouResponse(page, NextToken(offset, |page|)))
    {
      var limit := PageLimit;
      var offset := DecodeOffset(paginationToken);
      if queryFails {
        return Err(Unavailable);
      }
      var sorted := SortByTime(Filter(rows, LikesOf(recipient)));
      var query := SelectWindow(sorted, limit, offset);
      if query.Err? {
        return Err(query.error);
      }
      var likers := ScanLikers(query.value, streamFailsAfter);
      ProjectWindow(sorted, offset, PageLimit);
      assert likers == Project(query.value)[..|likers|];
      var nextToken := NextToken(offset, |likers|);
      res := Ok(LikedYouResponse(likers, nextToken));
    }

    /**
     * ListNewLikedYou: as ListLikedYou, over the likers of `recipient` that
     * `recipient` has not liked back.
     */
    method ListNewLikedYou(recipient: UserId, paginationToken: Option<string>, queryFails: bool,
                        streamFailsAfter: Option<nat>)
      returns (res: Result<LikedYouResponse, StoreError>)
      ensures var offset := DecodeOffset(paginationToken);
              res == if queryFails then Err(Unavailable)
                     else if offset < 0 then Err(InvalidArgument)
                     else
                       var window := Window(NewLikers(rows, recipient), offset, PageLimit);
                       var page := window[..Delivered(|window|, streamFailsAfter)];
                       Ok(LikedYouResponse(page, NextToken(offset, |page|)))
    {
      var limit := PageLimit;
      var offset := DecodeOffset(paginationToken);
      if queryFails {
        return Err(Unavailable);
      }
      var sorted := SortByTime(Filter(rows, UnreciprocatedLikesOf(rows, recipient)));
      var query := SelectWindow(sorted, limit, offset);
      if query.Err? {
        return Err(query.error);
      }
      var likers := ScanLikers(query.value, streamFailsAfter);
      ProjectWindow(sorted, offset, PageLimit);
      assert likers == Project(query.value)[..|likers|];
      var nextToken := NextToken(offset, |likers|);
      res := Ok(LikedYouResponse(likers, nextToken));
    }

    /** CountLikedYou: the number of users who have liked `recipient`. */
    method CountLikedYou(recipient: UserId, queryFails: bool) returns (res: Result<nat, StoreError>)
      requires Valid()
      ensures queryFails <==> res.Err?
      ensures res.Ok? ==> res.value == |LikerSet(DecisionTable(), recipient)|
      ensures res.Ok? ==> res.value == |AllLikers(rows, recipient)|
    {
      if queryFails {
        return Err(Unavailable);
      }
      var count := CountLikes(rows, recipient);
      CountIsLikerCount(rows, recipient);
      res := Ok(count);
    }

    /**
     * PutDecision: in one transaction, upsert the decision of `actor` about
     * `recipient`, then read whether both directions are likes; commit and
     * report that flag. `now` is the timestamp the store gives a new row.
     * Any failing step returns its error and the rollback discards the
     * transaction's writes.
     */
    method PutDecision(actor: UserId, recipient: UserId, liked: bool, now: nat, fault: TxFault)
      returns (res: Result<bool, StoreError>)
      requires Valid()
      modifies this
      ensures Valid()
      ensures fault != NoFault ==> res == Err(Unavailable) && rows == old(rows)
      ensures fault == NoFault ==> rows == Upsert(old(rows), actor, recipient, liked, now)
      ensures fault == NoFault ==> res == Ok(IsMutual(DecisionTable(), actor, recipient))
      ensures fault == NoFault ==>
                res == Ok(liked && (actor == recipient || Liked(old(DecisionTable()), recipient, actor)))
    {
      if fault == BeginFails {
        return Err(Unavailable);
      }
      var tx := rows;
      if fault == UpsertFails {
        return Err(Unavailable);
      }
      tx := Upsert(tx, actor, recipient, liked, now);
      if fault == MutualQueryFails {
        return Err(Unavailable);
      }
      var mutual := MutualQuery(tx, actor, recipient);
      if fault == CommitFails {
        return Err(Unavailable);
      }
      MutualAfterUpsert(rows, actor, recipient, liked, now);
      rows := tx;
      res := Ok(mutual);
    }
  }

  /**
   * The mutual-match scenario: from an empty table, u1 likes u2 (no match,
   * one row), then u2 likes u1 (a match).
   */
  method MutualMatchScenario() returns (first: Result<bool, StoreError>, rowsAfterFirst: nat, second: Result<bool, StoreError>)
    ensures first == Ok(false) && rowsAfterFirst == 1 && second == Ok(true)
  {
    var server := new Server([]);
    first := server.PutDecision("u1", "u2", true, 1, NoFault);
    rowsAfterFirst := |server.rows|;
    second := server.PutDecision("u2", "u1", true, 2, NoFault);
  }
}
