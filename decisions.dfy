/**
 * The `decisions` table and the two statements PutDecision runs on it: the
 * upsert keyed by (actor, recipient) and the two-way EXISTS that detects a
 * mutual like. The table is kept as its rows in storage order; `TableOf`
 * gives the abstract view, a finite map from the pair to (liked, timestamp).
 */
module Decisions {
  import opened Wrappers

  type UserId = string

  /** The primary key of the table: the ordered pair (actor_user_id, recipient_user_id). */
  datatype Key = Key(actor: UserId, recipient: UserId)

  /** What the table holds for one pair: the like/pass flag and the decision time. */
  datatype Decision = Decision(liked: bool, ts: nat)

  /** One stored row; `ts` is the `unix_timestamp` column, an opaque natural here. */
  datatype Row = Row(actor: UserId, recipient: UserId, liked: bool, ts: nat) {
    function KeyOf(): Key {
      Key(actor, recipient)
    }

    function DecisionOf(): Decision {
      Decision(liked, ts)
    }
  }

  type Table = map<Key, Decision>

  /** The table's uniqueness constraint: no two rows share a key. */
  ghost predicate UniqueKeys(rows: seq<Row>) {
    forall i, j :: 0 <= i < j < |rows| ==> rows[i].KeyOf() != rows[j].KeyOf()
  }

  /** The abstract table the rows represent. */
  ghost function TableOf(rows: seq<Row>): Table {
    if rows == [] then map[] else TableOf(rows[1..])[rows[0].KeyOf() := rows[0].DecisionOf()]
  }

  /** `a` has liked `r`: row (a, r) exists with liked = 1. */
  ghost predicate Liked(t: Table, a: UserId, r: UserId) {
    Key(a, r) in t && t[Key(a, r)].liked
  }

  /** Everyone who has liked `r`. */
  ghost function LikerSet(t: Table, r: UserId): set<UserId> {
    set k | k in t && k.recipient == r && t[k].liked :: k.actor
  }

  /** Mutuality: both directions of the pair are recorded as likes. */
  ghost predicate IsMutual(t: Table, a: UserId, r: UserId) {
    Liked(t, r, a) && Liked(t, a, r)
  }

  /** `EXISTS (SELECT 1 FROM decisions WHERE actor_user_id = a AND recipient_user_id = r AND liked = 1)`. */
  predicate HasLike(rows: seq<Row>, a: UserId, r: UserId) {
    exists i | 0 <= i < |rows| :: rows[i].actor == a && rows[i].recipient == r && rows[i].liked
  }

  /** The mutual-like query of PutDecision, evaluated on the rows. */
  function MutualQuery(rows: seq<Row>, a: UserId, r: UserId): (mutual: bool)
    ensures UniqueKeys(rows) ==> (mutual <==> IsMutual(TableOf(rows), a, r))
  {
    HasLikeIffLiked(rows, r, a);
    HasLikeIffLiked(rows, a, r);
    HasLike(rows, r, a) && HasLike(rows, a, r)
  }

  /** Where the row for `k` is stored, if there is one. */
  function IndexOfKey(rows: seq<Row>, k: Key): (i: Option<nat>)
    ensures i.Some? ==> i.value < |rows| && rows[i.value].KeyOf() == k
    ensures i.Some? ==> forall j :: 0 <= j < i.value ==> rows[j].KeyOf() != k
    ensures i.None? ==> forall j :: 0 <= j < |rows| ==> rows[j].KeyOf() != k
  {
    if rows == [] then None
    else if rows[0].KeyOf() == k then Some(0)
    else
      match IndexOfKey(rows[1..], k)
      case Some(j) => Some(j + 1)
      case None => None
  }

  /**
   * `INSERT INTO decisions (actor_user_id, recipient_user_id, liked) VALUES
   * (a, r, liked) ON DUPLICATE KEY UPDATE liked = liked`. An existing row
   * keeps its timestamp; a new row gets `now`, the time the store stamps on
   * an insert.
   */
  function Upsert(rows: seq<Row>, a: UserId, r: UserId, liked: bool, now: nat): (rows': seq<Row>)
    ensures UniqueKeys(rows) ==> UniqueKeys(rows')
  {
    match IndexOfKey(rows, Key(a, r))
    case Some(i) => rows[i := rows[i].(liked := liked)]
    case None => rows + [Row(a, r, liked, now)]
  }

  /** The keys of the rows are exactly the keys of the table. */
  lemma {:induction false} TableOfKeys(rows: seq<Row>)
    ensures forall k :: k in TableOf(rows) <==> exists i :: 0 <= i < |rows| && rows[i].KeyOf() == k
  {
    if rows != [] {
      TableOfKeys(rows[1..]);
      forall k | exists i :: 0 <= i < |rows| && rows[i].KeyOf() == k
        ensures k in TableOf(rows)
      {
        var i :| 0 <= i < |rows| && rows[i].KeyOf() == k;
        if i > 0 {
          assert rows[1..][i - 1].KeyOf() == k;
        }
      }
      forall k | k in TableOf(rows)
        ensures exists i :: 0 <= i < |rows| && rows[i].KeyOf() == k
      {
        if k != rows[0].KeyOf() {
          assert k in TableOf(rows[1..]);
          var i :| 0 <= i < |rows[1..]| && rows[1..][i].KeyOf() == k;
          assert rows[i + 1].KeyOf() == k;
        }
      }
    }
  }

  /** A key of the table names some row. */
  lemma {:induction false} RowOfKey(rows: seq<Row>, k: Key) returns (j: nat)
    requires k in TableOf(rows)
    ensures j < |rows| && rows[j].KeyOf() == k
  {
    if rows[0].KeyOf() == k {
      j := 0;
    } else {
      var j' := RowOfKey(rows[1..], k);
      j := j' + 1;
    }
  }

  /** With unique keys, the table maps each row's key to that row's decision. */
  lemma {:induction false} TableOfAt(rows: seq<Row>, i: nat)
    requires UniqueKeys(rows) && i < |rows|
    ensures rows[i].KeyOf() in TableOf(rows)
    ensures TableOf(rows)[rows[i].KeyOf()] == rows[i].DecisionOf()
  {
    if i > 0 {
      TableOfAt(rows[1..], i - 1);
    }
  }

  /** The EXISTS subquery on the rows agrees with `Liked` on the abstract table. */
  lemma HasLikeIffLiked(rows: seq<Row>, a: UserId, r: UserId)
    ensures UniqueKeys(rows) ==> (HasLike(rows, a, r) <==> Liked(TableOf(rows), a, r))
  {
    if UniqueKeys(rows) {
      TableOfKeys(rows);
      if HasLike(rows, a, r) {
        var i :| 0 <= i < |rows| && rows[i].actor == a && rows[i].recipient == r && rows[i].liked;
        TableOfAt(rows, i);
      }
      if Liked(TableOf(rows), a, r) {
        var i :| 0 <= i < |rows| && rows[i].KeyOf() == Key(a, r);
        TableOfAt(rows, i);
      }
    }
  }

  /** Rows with unique keys represent `t` when they agree with it row by row and cover its keys. */
  lemma TableOfEquals(rows: seq<Row>, t: Table)
    requires UniqueKeys(rows)
    requires forall j :: 0 <= j < |rows| ==> rows[j].KeyOf() in t && t[rows[j].KeyOf()] == rows[j].DecisionOf()
    requires forall k :: k in t ==> exists j :: 0 <= j < |rows| && rows[j].KeyOf() == k
    ensures TableOf(rows) == t
  {
    var tr := TableOf(rows);
    TableOfCovers(rows, t);
    TableOfWithin(rows, t);
    assert tr.Keys == t.Keys;
  }

  /** Every key of `t` that names a row maps, in the table, to that row's decision as in `t`. */
  lemma TableOfCovers(rows: seq<Row>, t: Table)
    requires UniqueKeys(rows)
    requires forall j :: 0 <= j < |rows| ==> rows[j].KeyOf() in t && t[rows[j].KeyOf()] == rows[j].DecisionOf()
    requires forall k :: k in t ==> exists j :: 0 <= j < |rows| && rows[j].KeyOf() == k
    ensures forall k :: k in t ==> k in TableOf(rows) && TableOf(rows)[k] == t[k]
  {
    forall k | k in t
      ensures k in TableOf(rows) && TableOf(rows)[k] == t[k]
    {
      var j :| 0 <= j < |rows| && rows[j].KeyOf() == k;
      TableOfAt(rows, j);
    }
  }

  /** The table has no key that no row names. */
  lemma TableOfWithin(rows: seq<Row>, t: Table)
    requires forall j :: 0 <= j < |rows| ==> rows[j].KeyOf() in t
    ensures forall k :: k in TableOf(rows) ==> k in t
  {
    forall k | k in TableOf(rows)
      ensures k in t
    {
      var j := RowOfKey(rows, k);
    }
  }

  /** The update branch: row `i` holds the pair and only its flag changes. */
  lemma UpsertUpdatesRow(rows: seq<Row>, i: nat, liked: bool)
    requires UniqueKeys(rows) && i < |rows|
    ensures var k := rows[i].KeyOf();
            TableOf(rows[i := rows[i].(liked := liked)])
              == TableOf(rows)[k := Decision(liked, rows[i].ts)]
  {
    var k := rows[i].KeyOf();
    var rows' := rows[i := rows[i].(liked := liked)];
    TableOfAt(rows, i);
    TableOfKeys(rows);
    var expected := TableOf(rows)[k := Decision(liked, rows[i].ts)];
    assert UniqueKeys(rows');
    forall j | 0 <= j < |rows'|
      ensures rows'[j].KeyOf() in expected && expected[rows'[j].KeyOf()] == rows'[j].DecisionOf()
    {
      if j != i {
        TableOfAt(rows, j);
      }
    }
    forall k' | k' in expected
      ensures exists j :: 0 <= j < |rows'| && rows'[j].KeyOf() == k'
    {
      if k' != k {
        var j :| 0 <= j < |rows| && rows[j].KeyOf() == k';
        assert rows'[j].KeyOf() == k';
      } else {
        assert rows'[i].KeyOf() == k';
      }
    }
    TableOfEquals(rows', expected);
  }

  /** The insert branch: a row for a new pair is appended. */
  lemma UpsertAppendsRow(rows: seq<Row>, x: Row)
    requires UniqueKeys(rows) && forall j :: 0 <= j < |rows| ==> rows[j].KeyOf() != x.KeyOf()
    ensures x.KeyOf() !in TableOf(rows)
    ensures TableOf(rows + [x]) == TableOf(rows)[x.KeyOf() := x.DecisionOf()]
  {
    var rows' := rows + [x];
    TableOfKeys(rows);
    var expected := TableOf(rows)[x.KeyOf() := x.DecisionOf()];
    assert UniqueKeys(rows');
    forall j | 0 <= j < |rows'|
      ensures rows'[j].KeyOf() in expected && expected[rows'[j].KeyOf()] == rows'[j].DecisionOf()
    {
      if j < |rows| {
        TableOfAt(rows, j);
      }
    }
    forall k' | k' in expected
      ensures exists j :: 0 <= j < |rows'| && rows'[j].KeyOf() == k'
    {
      if k' != x.KeyOf() {
        var j :| 0 <= j < |rows| && rows[j].KeyOf() == k';
        assert rows'[j].KeyOf() == k';
      } else {
        assert rows'[|rows|].KeyOf() == k';
      }
    }
    TableOfEquals(rows', expected);
  }

  /**
   * The upsert writes the pair's entry and nothing else: `liked` is the new
   * flag, the timestamp is the old one for an existing pair and `now` for a
   * new one, and every other pair keeps its entry.
   */
  lemma UpsertTable(rows: seq<Row>, a: UserId, r: UserId, liked: bool, now: nat)
    requires UniqueKeys(rows)
    ensures var t := TableOf(rows);
            var k := Key(a, r);
            TableOf(Upsert(rows, a, r, liked, now))
              == t[k := Decision(liked, if k in t then t[k].ts else now)]
  {
    match IndexOfKey(rows, Key(a, r))
    case Some(i) =>
      TableOfAt(rows, i);
      UpsertUpdatesRow(rows, i, liked);
    case None =>
      UpsertAppendsRow(rows, Row(a, r, liked, now));
  }

  /** After the upsert exactly one row holds the pair, and it carries the new flag. */
  lemma UpsertSingleRow(rows: seq<Row>, a: UserId, r: UserId, liked: bool, now: nat)
    requires UniqueKeys(rows)
    ensures var rows' := Upsert(rows, a, r, liked, now);
            exists i :: 0 <= i < |rows'| && rows'[i].KeyOf() == Key(a, r) && rows'[i].liked == liked
              && forall j :: 0 <= j < |rows'| && rows'[j].KeyOf() == Key(a, r) ==> j == i
  {
    var rows' := Upsert(rows, a, r, liked, now);
    match IndexOfKey(rows, Key(a, r))
    case Some(i) =>
      assert rows'[i].KeyOf() == Key(a, r) && rows'[i].liked == liked;
    case None =>
      assert rows'[|rows|].KeyOf() == Key(a, r) && rows'[|rows|].liked == liked;
  }

  /** Repeating the same decision leaves the table as the first call left it. */
  lemma UpsertIdempotent(rows: seq<Row>, a: UserId, r: UserId, liked: bool, now: nat, later: nat)
    ensures Upsert(Upsert(rows, a, r, liked, now), a, r, liked, later) == Upsert(rows, a, r, liked, now)
  {
    var k := Key(a, r);
    var rows' := Upsert(rows, a, r, liked, now);
    var i := IndexOfKey(rows, k);
    var j := IndexOfKey(rows', k);
    if i.Some? {
      assert rows'[i.value].KeyOf() == k;
      assert forall m :: 0 <= m < i.value ==> rows'[m] == rows[m];
      assert j == i;
    } else {
      assert rows'[|rows|].KeyOf() == k;
      assert j == Some(|rows|);
    }
    assert rows'[j.value := rows'[j.value].(liked := liked)] == rows';
  }

  /**
   * The mutual flag PutDecision reports, read after its own upsert: true
   * exactly when the new decision is a like and the other side had already
   * liked back (a self-decision needs only its own like).
   */
  lemma MutualAfterUpsert(rows: seq<Row>, a: UserId, r: UserId, liked: bool, now: nat)
    requires UniqueKeys(rows)
    ensures MutualQuery(Upsert(rows, a, r, liked, now), a, r)
              == (liked && (a == r || Liked(TableOf(rows), r, a)))
  {
    UpsertTable(rows, a, r, liked, now);
  }

  /** A pass is never reported as mutual. */
  lemma PassNeverMutual(rows: seq<Row>, a: UserId, r: UserId, now: nat)
    requires UniqueKeys(rows)
    ensures !MutualQuery(Upsert(rows, a, r, false, now), a, r)
  {
    MutualAfterUpsert(rows, a, r, false, now);
  }

  /**
   * Of a like A->B followed by a like B->A, the first reports no match (B
   * had not liked A) and the second reports a match.
   */
  lemma LikeThenLikeBack(rows: seq<Row>, a: UserId, b: UserId, now1: nat, now2: nat)
    requires UniqueKeys(rows) && a != b && !Liked(TableOf(rows), b, a)
    ensures var rows1 := Upsert(rows, a, b, true, now1);
            !MutualQuery(rows1, a, b) && MutualQuery(Upsert(rows1, b, a, true, now2), b, a)
  {
    var rows1 := Upsert(rows, a, b, true, now1);
    MutualAfterUpsert(rows, a, b, true, now1);
    UpsertTable(rows, a, b, true, now1);
    MutualAfterUpsert(rows1, b, a, true, now2);
  }
}
