/**
 * The liked-you feeds and the like count, as the meaning of their SQL:
 * WHERE is a filter over the rows, ORDER BY unix_timestamp DESC a stable
 * sort (ties keep storage order, the documented tiebreak of this model),
 * LIMIT/OFFSET a window, COUNT(*) the length of the filtered rows.
 */
module Feed {
  import opened Wrappers
  import opened Decimal
  import opened Cursor
  import opened Decisions

  /** One entry of a liked-you page: who liked, and when. */
  datatype Liker = Liker(actor: UserId, ts: nat)

  /** Errors the store reports; this model's handlers return them unchanged. */
  datatype StoreError = Unavailable | InvalidArgument

  /** The rows (in order) that satisfy `p`. */
  function Filter<T>(s: seq<T>, p: T -> bool): (r: seq<T>)
    ensures |r| <= |s|
    ensures forall i :: 0 <= i < |r| ==> p(r[i])
  {
    if s == [] then []
    else
      var rest := Filter(s[1..], p);
      if p(s[0]) then [s[0]] + rest else rest
  }

  /** An element is kept by the filter exactly when it is in the input and satisfies `p`. */
  lemma {:induction false} FilterContents<T>(s: seq<T>, p: T -> bool)
    ensures forall x :: x in Filter(s, p) <==> x in s && p(x)
  {
    if s != [] {
      FilterContents(s[1..], p);
      assert s == [s[0]] + s[1..];
    }
  }

  /** Most recent first: each row is at least as recent as the next. */
  ghost predicate NewestFirst(s: seq<Row>) {
    |s| <= 1 || (s[0].ts >= s[1].ts && NewestFirst(s[1..]))
  }

  /** Prepending a row no older than the head keeps the order. */
  lemma ConsNewestFirst(a: Row, t: seq<Row>)
    requires NewestFirst(t) && (t == [] || a.ts >= t[0].ts)
    ensures NewestFirst([a] + t)
  {
    assert ([a] + t)[1..] == t;
  }

  /** In a most-recent-first sequence, every row is at least as recent as every later row. */
  lemma {:induction false} NewestFirstOrdered(s: seq<Row>)
    requires NewestFirst(s)
    ensures forall i, j :: 0 <= i < j < |s| ==> s[i].ts >= s[j].ts
  {
    if |s| > 1 {
      NewestFirstOrdered(s[1..]);
      forall i, j | 0 <= i < j < |s|
        ensures s[i].ts >= s[j].ts
      {
        assert s[j] == s[1..][j - 1];
        if i > 0 {
          assert s[i] == s[1..][i - 1];
        } else if j > 1 {
          assert s[1] == s[1..][0];
        }
      }
    }
  }

  /** Place `x` before the first row that is not newer than it. */
  function InsertByTime(x: Row, s: seq<Row>): (r: seq<Row>)
    ensures |r| == |s| + 1 && (r[0] == x || (s != [] && r[0] == s[0]))
  {
    if s == [] || x.ts >= s[0].ts then [x] + s
    else [s[0]] + InsertByTime(x, s[1..])
  }

  /** Inserting behind a strictly newer head leaves the head in place. */
  lemma InsertBehindHead(x: Row, h: Row, t: seq<Row>)
    requires x.ts < h.ts
    ensures InsertByTime(x, [h] + t) == [h] + InsertByTime(x, t)
  {
    assert ([h] + t)[1..] == t;
  }

  /** Insertion keeps a most-recent-first sequence in order. */
  lemma {:induction false} InsertByTimeSorted(x: Row, s: seq<Row>)
    requires NewestFirst(s)
    ensures NewestFirst(InsertByTime(x, s))
  {
    if s == [] || x.ts >= s[0].ts {
      ConsNewestFirst(x, s);
    } else {
      InsertByTimeSorted(x, s[1..]);
      var rest := InsertByTime(x, s[1..]);
      assert rest[0].ts <= s[0].ts by {
        if rest[0] != x {
          assert rest[0] == s[1];
        }
      }
      ConsNewestFirst(s[0], rest);
    }
  }

  /** Insertion adds exactly `x` to the rows. */
  lemma {:induction false} InsertByTimeMultiset(x: Row, s: seq<Row>)
    ensures multiset(InsertByTime(x, s)) == multiset(s) + multiset{x}
  {
    if s != [] && x.ts < s[0].ts {
      InsertByTimeMultiset(x, s[1..]);
      assert s == [s[0]] + s[1..];
    }
  }

  /** `ORDER BY unix_timestamp DESC`, stable: rows with equal timestamps keep storage order. */
  function SortByTime(s: seq<Row>): (r: seq<Row>)
    ensures NewestFirst(r)
    ensures multiset(r) == multiset(s)
  {
    if s == [] then []
    else
      var t := SortByTime(s[1..]);
      InsertByTimeSorted(s[0], t);
      InsertByTimeMultiset(s[0], t);
      assert s == [s[0]] + s[1..];
      InsertByTime(s[0], t)
  }

  /** The selected columns (actor_user_id, UNIX_TIMESTAMP(unix_timestamp)) of each row. */
  function Project(s: seq<Row>): (likers: seq<Liker>)
    ensures |likers| == |s|
    ensures forall i :: 0 <= i < |s| ==> likers[i].actor == s[i].actor && likers[i].ts == s[i].ts
  {
    seq(|s|, i requires 0 <= i < |s| => Liker(s[i].actor, s[i].ts))
  }

  function Min(a: int, b: int): int {
    if a < b then a else b
  }

  /** `LIMIT limit OFFSET offset` on a sequence that is already in order. */
  function Window<T>(s: seq<T>, offset: nat, limit: nat): (w: seq<T>)
    ensures |w| <= limit
    ensures |w| == if offset < |s| then Min(limit, |s| - offset) else 0
    ensures forall i :: 0 <= i < |w| ==> w[i] == s[offset + i]
  {
    if offset >= |s| then [] else s[offset..Min(offset + limit, |s|)]
  }

  /** Selecting the columns of a window is the window of the selected columns. */
  lemma ProjectWindow(s: seq<Row>, offset: nat, limit: nat)
    ensures Project(Window(s, offset, limit)) == Window(Project(s), offset, limit)
  {
  }

  /** `recipient_user_id = r AND liked = 1`. */
  function LikesOf(r: UserId): Row -> bool {
    (x: Row) => x.recipient == r && x.liked
  }

  /** The ListNewLikedYou condition: a like of `r` that `r` has not liked back (`NOT EXISTS`). */
  function UnreciprocatedLikesOf(rows: seq<Row>, r: UserId): Row -> bool {
    (x: Row) => x.recipient == r && x.liked && !HasLike(rows, r, x.actor)
  }

  /** The liker has not been liked back by `r`. */
  function NotLikedBackBy(rows: seq<Row>, r: UserId): Liker -> bool {
    (l: Liker) => !HasLike(rows, r, l.actor)
  }

  /** `SELECT COUNT(*) FROM decisions WHERE recipient_user_id = r AND liked = 1`. */
  function CountLikes(rows: seq<Row>, r: UserId): (n: nat)
    ensures n <= |rows|
    ensures n == 0 <==> forall i :: 0 <= i < |rows| ==> !(rows[i].recipient == r && rows[i].liked)
  {
    LikesEmpty(rows, r);
    |Filter(rows, LikesOf(r))|
  }

  /** The ListLikedYou query without LIMIT/OFFSET: every liker of `r`, most recent first. */
  function AllLikers(rows: seq<Row>, r: UserId): (likers: seq<Liker>)
    ensures |likers| == CountLikes(rows, r)
    ensures forall i, j :: 0 <= i < j < |likers| ==> likers[i].ts >= likers[j].ts
  {
    var sorted := SortByTime(Filter(rows, LikesOf(r)));
    assert |sorted| == |multiset(sorted)|;
    NewestFirstOrdered(sorted);
    Project(sorted)
  }

  /** No row is selected exactly when no row is a like of `r`. */
  lemma LikesEmpty(rows: seq<Row>, r: UserId)
    ensures Filter(rows, LikesOf(r)) == [] <==>
              forall i :: 0 <= i < |rows| ==> !(rows[i].recipient == r && rows[i].liked)
  {
    var likes := Filter(rows, LikesOf(r));
    FilterContents(rows, LikesOf(r));
    if likes != [] {
      assert LikesOf(r)(likes[0]);
      var i :| 0 <= i < |rows| && rows[i] == likes[0];
    } else {
      forall i | 0 <= i < |rows|
        ensures !(rows[i].recipient == r && rows[i].liked)
      {
        assert rows[i] in rows;
      }
    }
  }

  /** The ListNewLikedYou query without LIMIT/OFFSET, as its SQL is written. */
  function NewLikers(rows: seq<Row>, r: UserId): (likers: seq<Liker>)
    ensures forall i, j :: 0 <= i < j < |likers| ==> likers[i].ts >= likers[j].ts
  {
    var sorted := SortByTime(Filter(rows, UnreciprocatedLikesOf(rows, r)));
    NewestFirstOrdered(sorted);
    Project(sorted)
  }

  /** LIMIT/OFFSET with the store's arguments; a negative one is rejected by the store. */
  function SelectWindow<T>(feed: seq<T>, limit: int, offset: int): (page: Result<seq<T>, StoreError>)
    ensures page.Ok? <==> 0 <= limit && 0 <= offset
    ensures page.Ok? ==> |page.value| <= limit
  {
    if limit < 0 || offset < 0 then Err(InvalidArgument) else Ok(Window(feed, offset, limit))
  }

  // ---------------------------------------------------------------------
  // What the feeds contain

  /** A row that is in the sorted filtered rows is a row of the table satisfying the filter. */
  lemma SortedFilteredRow(rows: seq<Row>, p: Row -> bool, i: nat)
    requires i < |SortByTime(Filter(rows, p))|
    ensures SortByTime(Filter(rows, p))[i] in rows && p(SortByTime(Filter(rows, p))[i])
  {
    var f := Filter(rows, p);
    FilterContents(rows, p);
    var x := SortByTime(f)[i];
    assert x in multiset(SortByTime(f));
    assert x in multiset(f);
  }

  /** Every listed liker liked `r`, with the timestamp the table holds for that pair. */
  lemma AllLikersSound(rows: seq<Row>, r: UserId)
    requires UniqueKeys(rows)
    ensures forall i :: 0 <= i < |AllLikers(rows, r)| ==>
              var l := AllLikers(rows, r)[i];
              Liked(TableOf(rows), l.actor, r) && TableOf(rows)[Key(l.actor, r)].ts == l.ts
  {
    var sorted := SortByTime(Filter(rows, LikesOf(r)));
    forall i | 0 <= i < |AllLikers(rows, r)|
      ensures var l := AllLikers(rows, r)[i];
              Liked(TableOf(rows), l.actor, r) && TableOf(rows)[Key(l.actor, r)].ts == l.ts
    {
      SortedFilteredRow(rows, LikesOf(r), i);
      var j :| 0 <= j < |rows| && rows[j] == sorted[i];
      TableOfAt(rows, j);
    }
  }

  /** Every liker of `r` is listed. */
  lemma AllLikersComplete(rows: seq<Row>, r: UserId, a: UserId)
    requires UniqueKeys(rows) && Liked(TableOf(rows), a, r)
    ensures exists i :: 0 <= i < |AllLikers(rows, r)| && AllLikers(rows, r)[i].actor == a
  {
    TableOfKeys(rows);
    var j :| 0 <= j < |rows| && rows[j].KeyOf() == Key(a, r);
    TableOfAt(rows, j);
    var x := rows[j];
    var f := Filter(rows, LikesOf(r));
    FilterContents(rows, LikesOf(r));
    assert x in rows && LikesOf(r)(x);
    assert x in f;
    var sorted := SortByTime(f);
    assert x in multiset(f);
    assert x in multiset(sorted);
    assert x in sorted;
    var i :| 0 <= i < |sorted| && sorted[i] == x;
    assert AllLikers(rows, r) == Project(sorted);
    assert AllLikers(rows, r)[i].actor == a;
  }

  /** A pass is never listed: if the pair (a, r) holds liked = 0, `a` is not in r's feed. */
  lemma PassNeverListed(rows: seq<Row>, r: UserId, a: UserId)
    requires UniqueKeys(rows) && Key(a, r) in TableOf(rows) && !TableOf(rows)[Key(a, r)].liked
    ensures forall i :: 0 <= i < |AllLikers(rows, r)| ==> AllLikers(rows, r)[i].actor != a
  {
    AllLikersSound(rows, r);
  }

  /** Adding a new pair to the table adds its actor to the likers of its recipient when it is a like. */
  lemma LikerSetAdd(t: Table, k: Key, d: Decision, r: UserId)
    requires k !in t
    ensures LikerSet(t[k := d], r)
              == LikerSet(t, r) + (if k.recipient == r && d.liked then {k.actor} else {})
    ensures k.recipient == r ==> k.actor !in LikerSet(t, r)
  {
    var t' := t[k := d];
    forall a | a in LikerSet(t', r)
      ensures a in LikerSet(t, r) + (if k.recipient == r && d.liked then {k.actor} else {})
    {
      var k' :| k' in t' && k'.recipient == r && t'[k'].liked && k'.actor == a;
      if k' != k {
        assert k' in t && t[k'].liked;
      }
    }
    forall a | a in LikerSet(t, r)
      ensures a in LikerSet(t', r)
    {
      var k' :| k' in t && k'.recipient == r && t[k'].liked && k'.actor == a;
      assert k' != k && k' in t' && t'[k'].liked;
    }
    if k.recipient == r && d.liked {
      assert k in t' && t'[k].liked;
    }
  }

  /** COUNT(*) is the number of distinct likers in the abstract table. */
  lemma {:induction false} CountIsLikerCount(rows: seq<Row>, r: UserId)
    requires UniqueKeys(rows)
    ensures CountLikes(rows, r) == |LikerSet(TableOf(rows), r)|
  {
    if rows != [] {
      var x, t := rows[0], rows[1..];
      assert UniqueKeys(t);
      CountIsLikerCount(t, r);
      TableOfKeys(t);
      assert x.KeyOf() !in TableOf(t);
      LikerSetAdd(TableOf(t), x.KeyOf(), x.DecisionOf(), r);
    }
  }

  /** A recipient nobody has liked gets an empty feed, an empty new-likers feed and count 0. */
  lemma NoLikersEmptyFeeds(rows: seq<Row>, r: UserId)
    requires UniqueKeys(rows) && LikerSet(TableOf(rows), r) == {}
    ensures CountLikes(rows, r) == 0 && AllLikers(rows, r) == [] && NewLikers(rows, r) == []
  {
    CountIsLikerCount(rows, r);
    NewLikersAreUnreciprocatedLikers(rows, r);
  }

  // ---------------------------------------------------------------------
  // The new-likers feed is the all-likers feed minus reciprocated likers

  lemma {:induction false} FilterConjunction<T>(s: seq<T>, p: T -> bool, q: T -> bool, pq: T -> bool)
    requires forall x :: pq(x) == (p(x) && q(x))
    ensures Filter(s, pq) == Filter(Filter(s, p), q)
  {
    if s != [] {
      FilterConjunction(s[1..], p, q, pq);
      if p(s[0]) {
        var fp := Filter(s, p);
        assert fp[0] == s[0] && fp[1..] == Filter(s[1..], p);
      }
    }
  }

  /** Filtering keeps the most-recent-first order, and keeps no row newer than the first. */
  lemma {:induction false} FilterNewestFirst(s: seq<Row>, q: Row -> bool)
    requires NewestFirst(s)
    ensures NewestFirst(Filter(s, q))
    ensures Filter(s, q) != [] ==> s != [] && Filter(s, q)[0].ts <= s[0].ts
  {
    if s != [] {
      FilterNewestFirst(s[1..], q);
      var rest := Filter(s[1..], q);
      if rest != [] {
        assert rest[0].ts <= s[1..][0].ts <= s[0].ts;
      }
      if q(s[0]) {
        ConsNewestFirst(s[0], rest);
      }
    }
  }

  /** Filtering `[x] + s` when `x` is no older than every row of `s`. */
  lemma FilterInsertFront(x: Row, s: seq<Row>, q: Row -> bool)
    requires NewestFirst(s) && (s == [] || x.ts >= s[0].ts)
    ensures Filter([x] + s, q) == if q(x) then InsertByTime(x, Filter(s, q)) else Filter(s, q)
  {
    FilterNewestFirst(s, q);
    assert ([x] + s)[1..] == s;
  }

  /** Filtering a sequence with a known head. */
  lemma FilterCons<T>(x: T, s: seq<T>, q: T -> bool)
    ensures Filter([x] + s, q) == (if q(x) then [x] else []) + Filter(s, q)
  {
    assert ([x] + s)[1..] == s;
  }

  /** Filtering after inserting behind a strictly newer head `s[0]`. */
  lemma FilterInsertBehind(x: Row, s: seq<Row>, q: Row -> bool)
    requires s != [] && x.ts < s[0].ts
    requires Filter(InsertByTime(x, s[1..]), q)
               == if q(x) then InsertByTime(x, Filter(s[1..], q)) else Filter(s[1..], q)
    ensures Filter(InsertByTime(x, s), q)
              == if q(x) then InsertByTime(x, Filter(s, q)) else Filter(s, q)
  {
    var tail := Filter(s[1..], q);
    FilterCons(s[0], InsertByTime(x, s[1..]), q);
    FilterCons(s[0], s[1..], q);
    assert s == [s[0]] + s[1..];
    if q(s[0]) {
      InsertBehindHead(x, s[0], tail);
    }
  }

  /** Filtering commutes with inserting into a most-recent-first sequence. */
  lemma {:induction false} FilterInsert(x: Row, s: seq<Row>, q: Row -> bool)
    requires NewestFirst(s)
    ensures Filter(InsertByTime(x, s), q)
              == if q(x) then InsertByTime(x, Filter(s, q)) else Filter(s, q)
  {
    if s == [] || x.ts >= s[0].ts {
      FilterInsertFront(x, s, q);
    } else {
      FilterInsert(x, s[1..], q);
      FilterInsertBehind(x, s, q);
    }
  }

  /** Filtering commutes with the stable sort. */
  lemma {:induction false} SortFilterCommute(s: seq<Row>, q: Row -> bool)
    ensures SortByTime(Filter(s, q)) == Filter(SortByTime(s), q)
  {
    if s != [] {
      SortFilterCommute(s[1..], q);
      FilterInsert(s[0], SortByTime(s[1..]), q);
      if q(s[0]) {
        var f := Filter(s, q);
        assert f[0] == s[0] && f[1..] == Filter(s[1..], q);
      }
    }
  }

  lemma {:induction false} ProjectFilter(s: seq<Row>, q: Row -> bool, q': Liker -> bool)
    requires forall x :: q(x) == q'(Liker(x.actor, x.ts))
    ensures Project(Filter(s, q)) == Filter(Project(s), q')
  {
    if s != [] {
      ProjectFilter(s[1..], q, q');
      var l := Liker(s[0].actor, s[0].ts);
      ProjectCons(s[0], s[1..]);
      assert s == [s[0]] + s[1..];
      FilterCons(s[0], s[1..], q);
      FilterCons(l, Project(s[1..]), q');
      if q(s[0]) {
        ProjectCons(s[0], Filter(s[1..], q));
      }
    }
  }

  /** Selecting the columns of a sequence with a known head. */
  lemma ProjectCons(x: Row, s: seq<Row>)
    ensures Project([x] + s) == [Liker(x.actor, x.ts)] + Project(s)
  {
  }

  /**
   * ListNewLikedYou's feed is ListLikedYou's feed with the likers that `r`
   * has liked back removed, in the same order.
   */
  lemma NewLikersAreUnreciprocatedLikers(rows: seq<Row>, r: UserId)
    ensures NewLikers(rows, r) == Filter(AllLikers(rows, r), NotLikedBackBy(rows, r))
  {
    var p, q := LikesOf(r), (x: Row) => !HasLike(rows, r, x.actor);
    FilterConjunction(rows, p, q, UnreciprocatedLikesOf(rows, r));
    SortFilterCommute(Filter(rows, p), q);
    ProjectFilter(SortByTime(Filter(rows, p)), q, NotLikedBackBy(rows, r));
  }

  /** A listed new liker liked the recipient and was not liked back. */
  lemma NewLikerIsUnreciprocated(rows: seq<Row>, r: UserId, i: nat)
    requires UniqueKeys(rows) && i < |NewLikers(rows, r)|
    ensures var a := NewLikers(rows, r)[i].actor;
            Liked(TableOf(rows), a, r) && !Liked(TableOf(rows), r, a)
  {
    var all := AllLikers(rows, r);
    var keep := NotLikedBackBy(rows, r);
    var l := NewLikers(rows, r)[i];
    NewLikersAreUnreciprocatedLikers(rows, r);
    var j := FilterSource(all, keep, i);
    assert all[j] == l && keep(l);
    AllLikersSound(rows, r);
    assert Liked(TableOf(rows), all[j].actor, r);
    HasLikeIffLiked(rows, r, l.actor);
  }

  /** A liker of the recipient who was not liked back is listed as a new liker. */
  lemma UnreciprocatedIsNewLiker(rows: seq<Row>, r: UserId, a: UserId)
    requires UniqueKeys(rows) && Liked(TableOf(rows), a, r) && !Liked(TableOf(rows), r, a)
    ensures exists i :: 0 <= i < |NewLikers(rows, r)| && NewLikers(rows, r)[i].actor == a
  {
    var all := AllLikers(rows, r);
    var keep := NotLikedBackBy(rows, r);
    AllLikersComplete(rows, r, a);
    var j :| 0 <= j < |all| && all[j].actor == a;
    HasLikeIffLiked(rows, r, a);
    assert keep(all[j]);
    var i := FilterIndex(all, keep, j);
    NewLikersAreUnreciprocatedLikers(rows, r);
    assert NewLikers(rows, r)[i].actor == a;
  }

  /** Every element of the filtered sequence comes from a position of the input and satisfies the condition. */
  lemma {:induction false} FilterSource<T>(s: seq<T>, p: T -> bool, i: nat) returns (j: nat)
    requires i < |Filter(s, p)|
    ensures j < |s| && s[j] == Filter(s, p)[i] && p(s[j])
  {
    FilterCons(s[0], s[1..], p);
    assert s == [s[0]] + s[1..];
    if p(s[0]) && i == 0 {
      j := 0;
    } else {
      var j' := FilterSource(s[1..], p, if p(s[0]) then i - 1 else i);
      j := j' + 1;
    }
  }

  /** An element the condition keeps has a position in the filtered sequence. */
  lemma {:induction false} FilterIndex<T>(s: seq<T>, p: T -> bool, j: nat) returns (i: nat)
    requires j < |s| && p(s[j])
    ensures i < |Filter(s, p)| && Filter(s, p)[i] == s[j]
  {
    FilterCons(s[0], s[1..], p);
    assert s == [s[0]] + s[1..];
    if j == 0 {
      i := 0;
    } else {
      var i' := FilterIndex(s[1..], p, j - 1);
      i := if p(s[0]) then i' + 1 else i';
    }
  }

  /**
   * Membership of the new-likers feed: `a` is listed for `r` exactly when
   * `a` liked `r` and `r` has not liked `a`.
   */
  lemma NewLikersMembership(rows: seq<Row>, r: UserId, a: UserId)
    requires UniqueKeys(rows)
    ensures (exists i :: 0 <= i < |NewLikers(rows, r)| && NewLikers(rows, r)[i].actor == a)
              <==> Liked(TableOf(rows), a, r) && !Liked(TableOf(rows), r, a)
  {
    if Liked(TableOf(rows), a, r) && !Liked(TableOf(rows), r, a) {
      UnreciprocatedIsNewLiker(rows, r, a);
    }
    if exists i :: 0 <= i < |NewLikers(rows, r)| && NewLikers(rows, r)[i].actor == a {
      var i :| 0 <= i < |NewLikers(rows, r)| && NewLikers(rows, r)[i].actor == a;
      NewLikerIsUnreciprocated(rows, r, i);
    }
  }

  /**
   * After A likes B (B not having liked A), A is a new liker of B; once B
   * likes A back, A is no longer listed.
   */
  lemma ReciprocationLeavesNewLikers(rows: seq<Row>, a: UserId, b: UserId, now1: nat, now2: nat)
    requires UniqueKeys(rows) && a != b && !Liked(TableOf(rows), b, a)
    ensures var rows1 := Upsert(rows, a, b, true, now1);
            var rows2 := Upsert(rows1, b, a, true, now2);
            (exists i :: 0 <= i < |NewLikers(rows1, b)| && NewLikers(rows1, b)[i].actor == a)
            && (forall i :: 0 <= i < |NewLikers(rows2, b)| ==> NewLikers(rows2, b)[i].actor != a)
  {
    var rows1 := Upsert(rows, a, b, true, now1);
    var rows2 := Upsert(rows1, b, a, true, now2);
    UpsertTable(rows, a, b, true, now1);
    UpsertTable(rows1, b, a, true, now2);
    NewLikersMembership(rows1, b, a);
    NewLikersMembership(rows2, b, a);
  }

  // ---------------------------------------------------------------------
  // Paging through a feed with the issued tokens

  /**
   * What a client collects by requesting the page at `offset` and then
   * decoding and following every issued token until one comes back empty,
   * over a feed that does not change in between.
   */
  ghost function FollowTokens(feed: seq<Liker>, offset: nat): seq<Liker>
    requires |feed| <= MaxInt64
    decreases |feed| - offset
  {
    var page := Window(feed, offset, PageLimit);
    var token := NextToken(offset, |page|);
    if token == "" then page
    else
      var next := DecodeOffset(Some(token));
      assert next == offset + PageLimit;
      page + FollowTokens(feed, next)
  }

  /** Following the tokens from any offset yields the rest of the feed, each row once. */
  lemma {:induction false} FollowTokensFrom(feed: seq<Liker>, offset: nat)
    requires |feed| <= MaxInt64
    ensures FollowTokens(feed, offset) == if offset <= |feed| then feed[offset..] else []
    decreases |feed| - offset
  {
    var page := Window(feed, offset, PageLimit);
    if |page| == PageLimit {
      FollowedTokenDecodes(feed, offset);
      FollowTokensFrom(feed, offset + PageLimit);
      assert page == feed[offset..offset + PageLimit];
      assert feed[offset..] == page + feed[offset + PageLimit..];
    } else if offset <= |feed| {
      assert page == feed[offset..];
    }
  }

  /** The pagination round trip: pages from offset 0 onwards concatenate to the whole feed. */
  lemma PagesConcatenate(feed: seq<Liker>)
    requires |feed| <= MaxInt64
    ensures FollowTokens(feed, 0) == feed
  {
    FollowTokensFrom(feed, 0);
  }

  /** The next token of a full page decodes to the offset FollowTokens moves on to. */
  lemma FollowedTokenDecodes(feed: seq<Liker>, offset: nat)
    requires |feed| <= MaxInt64
    requires |Window(feed, offset, PageLimit)| == PageLimit
    ensures DecodeOffset(Some(NextToken(offset, PageLimit))) == offset + PageLimit
  {
  }

  /** Fifteen likers: a first page of ten with token "10", then the last five with no token. */
  lemma FifteenLikers(feed: seq<Liker>)
    requires |feed| == 15
    ensures var first := Window(feed, 0, PageLimit);
            |first| == 10 && NextToken(0, |first|) == "10"
    ensures DecodeOffset(Some("10")) == 10
    ensures var second := Window(feed, 10, PageLimit);
            |second| == 5 && second == feed[10..] && NextToken(10, |second|) == ""
  {
    assert NatDigits(1) == "1";
    assert NatDigits(10) == NatDigits(1) + [DigitChar(0)];
    AtoiItoa(10);
  }

  /**
   * The exhaustion heuristic's boundary case: when the feed length is a
   * positive multiple of ten, the last full page still issues a token, and
   * that token leads to an empty page with no token.
   */
  lemma ExactMultipleExtraPage(feed: seq<Liker>, pages: nat)
    requires 0 < pages && |feed| == pages * PageLimit && |feed| <= MaxInt64
    ensures var last := |feed| - PageLimit;
            NextToken(last, |Window(feed, last, PageLimit)|) != ""
    ensures Window(feed, |feed|, PageLimit) == [] && NextToken(|feed|, 0) == ""
  {
  }
}
