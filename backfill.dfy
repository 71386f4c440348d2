/**
 * The data step of the migration that adds `tasks.position`
 * (server/alembic/versions/c6387905b36d_add_position_column_to_tasks.py):
 * rows are read ordered by user and id, and a per-user counter hands each
 * user's tasks the positions 0, 1, 2, ... in that order.
 */
module Backfill {

  /** A row of `SELECT id, user_id FROM tasks`. */
  datatype TaskKey = TaskKey(id: int, userId: int)

  /** `ORDER BY user_id, id`. */
  predicate OrderedByUserThenId(rows: seq<TaskKey>) {
    forall i, j :: 0 <= i < j < |rows| ==>
      rows[i].userId < rows[j].userId || (rows[i].userId == rows[j].userId && rows[i].id < rows[j].id)
  }

  predicate DistinctKeyIds(rows: seq<TaskKey>) {
    forall i, j :: 0 <= i < |rows| && 0 <= j < |rows| && rows[i].id == rows[j].id ==> i == j
  }

  /** The rows of one user, in result order. */
  function UserKeys(rows: seq<TaskKey>, user: int): (r: seq<TaskKey>)
    ensures forall k :: k in r <==> k in rows && k.userId == user
    ensures |r| <= |rows|
  {
    if |rows| == 0 then []
    else if rows[|rows| - 1].userId == user then UserKeys(rows[..|rows| - 1], user) + [rows[|rows| - 1]]
    else UserKeys(rows[..|rows| - 1], user)
  }

  /** The position the loop writes for row `i`: how many rows of its user came before it. */
  function Position(rows: seq<TaskKey>, i: nat): real
    requires i < |rows|
  {
    |UserKeys(rows[..i], rows[i].userId)| as real
  }

  /** The rows of a user among the first `i + 1` are those among the first `i`, plus row `i` if it is the user's. */
  lemma UserKeysStep(rows: seq<TaskKey>, i: nat, user: int)
    requires i < |rows|
    ensures UserKeys(rows[..i + 1], user) ==
            UserKeys(rows[..i], user) + (if rows[i].userId == user then [rows[i]] else [])
  {
    assert rows[..i + 1][..i] == rows[..i];
  }

  /** The user's rows in a prefix are a prefix of the user's rows. */
  lemma {:induction false} UserKeysPrefix(rows: seq<TaskKey>, i: nat, user: int)
    requires i <= |rows|
    ensures UserKeys(rows[..i], user) <= UserKeys(rows, user)
    decreases |rows| - i
  {
    if i < |rows| {
      UserKeysPrefix(rows, i + 1, user);
      UserKeysStep(rows, i, user);
    } else {
      assert rows[..i] == rows;
    }
  }

  /** One more row adds one to its user's count and to no other. */
  lemma CountStep(rows: seq<TaskKey>, i: nat)
    requires i < |rows|
    ensures forall u :: |UserKeys(rows[..i + 1], u)| == |UserKeys(rows[..i], u)| + (if u == rows[i].userId then 1 else 0)
  {
    forall u ensures |UserKeys(rows[..i + 1], u)| == |UserKeys(rows[..i], u)| + (if u == rows[i].userId then 1 else 0) {
      UserKeysStep(rows, i, u);
    }
  }

  /** `last_positions` after the first `i` rows: each user seen so far maps to its count of rows. */
  ghost predicate CountersAfter(last: map<int, real>, rows: seq<TaskKey>, i: nat)
    requires i <= |rows|
  {
    forall u :: (u in last <==> |UserKeys(rows[..i], u)| > 0)
                && (u in last ==> last[u] == |UserKeys(rows[..i], u)| as real)
  }

  /** The positions written for the first `i` rows. */
  ghost predicate WrittenAfter(positions: map<int, real>, rows: seq<TaskKey>, i: nat)
    requires i <= |rows|
  {
    && (forall id :: id in positions <==> exists j :: 0 <= j < i && rows[j].id == id)
    && (forall j :: 0 <= j < i ==> rows[j].id in positions && positions[rows[j].id] == Position(rows, j))
  }

  /** One iteration keeps `last_positions` right: its user's entry becomes the next position. */
  lemma CountersStep(last: map<int, real>, rows: seq<TaskKey>, i: nat)
    requires i < |rows| && CountersAfter(last, rows, i)
    ensures var pos := if rows[i].userId in last then last[rows[i].userId] else 0.0;
            && pos == Position(rows, i)
            && CountersAfter(last[rows[i].userId := pos + 1.0], rows, i + 1)
  {
    CountStep(rows, i);
  }

  /** One iteration keeps the written positions right, since no earlier row has this row's id. */
  lemma WrittenStep(positions: map<int, real>, rows: seq<TaskKey>, i: nat)
    requires DistinctKeyIds(rows) && i < |rows| && WrittenAfter(positions, rows, i)
    ensures WrittenAfter(positions[rows[i].id := Position(rows, i)], rows, i + 1)
  {
    var p := positions[rows[i].id := Position(rows, i)];
    forall id ensures id in p <==> exists j :: 0 <= j < i + 1 && rows[j].id == id {
      if id != rows[i].id {
        assert (exists j :: 0 <= j < i + 1 && rows[j].id == id) <==> (exists j :: 0 <= j < i && rows[j].id == id);
      }
    }
    forall j | 0 <= j < i ensures rows[j].id in p && p[rows[j].id] == Position(rows, j) {
      assert rows[j].id != rows[i].id;
    }
  }

  /**
   * The loop over the result: `last_positions` holds, per user, the next
   * position to hand out (absent means 0.0), and each row's position is
   * written by id.
   */
  method BackfillPositions(result: seq<TaskKey>) returns (positions: map<int, real>)
    requires DistinctKeyIds(result)
    ensures forall id :: id in positions <==> exists i :: 0 <= i < |result| && result[i].id == id
    ensures forall i :: 0 <= i < |result| ==> result[i].id in positions && positions[result[i].id] == Position(result, i)
  {
    var lastPositions: map<int, real> := map[];
    positions := map[];
    for i := 0 to |result|
      invariant CountersAfter(lastPositions, result, i)
      invariant WrittenAfter(positions, result, i)
    {
      var row := result[i];
      var pos := if row.userId in lastPositions then lastPositions[row.userId] else 0.0;
      CountersStep(lastPositions, result, i);
      WrittenStep(positions, result, i);
      positions := positions[row.id := pos];
      lastPositions := lastPositions[row.userId := pos + 1.0];
    }
  }

  /** A task gets position 0 exactly when it has the lowest id among its user's tasks. */
  lemma AtZeroIffLowestId(rows: seq<TaskKey>, i: nat)
    requires OrderedByUserThenId(rows) && i < |rows|
    ensures Position(rows, i) == 0.0 <==>
            forall j :: 0 <= j < |rows| && rows[j].userId == rows[i].userId ==> rows[i].id <= rows[j].id
  {
    var u := rows[i].userId;
    forall j | 0 <= j < |rows| && rows[j].userId == u && rows[j].id < rows[i].id
      ensures Position(rows, i) > 0.0
    {
      assert j < i && rows[..i][j] == rows[j];
      assert rows[j] in UserKeys(rows[..i], u);
    }
    var earlier := UserKeys(rows[..i], u);
    if |earlier| > 0 {
      assert earlier[0] in rows[..i];
      var j :| 0 <= j < i && rows[j] == earlier[0];
      assert rows[j].userId == u && rows[j].id < rows[i].id;
    }
  }

  /** The user's rows come in strictly increasing id. */
  lemma UserKeysIncreasing(rows: seq<TaskKey>, user: int)
    requires OrderedByUserThenId(rows)
    ensures var us := UserKeys(rows, user);
            forall a, b :: 0 <= a < b < |us| ==> us[a].id < us[b].id
  {
    var us := UserKeys(rows, user);
    forall a, b | 0 <= a < b < |us| ensures us[a].id < us[b].id {
      UserKeysOrder(rows, user, a, b);
    }
  }

  /** Elements of the user's sub-list keep their relative order from the rows. */
  lemma {:induction false} UserKeysOrder(rows: seq<TaskKey>, user: int, a: nat, b: nat)
    requires OrderedByUserThenId(rows)
    requires a < b < |UserKeys(rows, user)|
    ensures UserKeys(rows, user)[a].id < UserKeys(rows, user)[b].id
  {
    var init := rows[..|rows| - 1];
    assert OrderedByUserThenId(init);
    var us := UserKeys(rows, user);
    if rows[|rows| - 1].userId == user && b == |us| - 1 {
      var x := us[a];
      assert x in UserKeys(init, user);
      var j :| 0 <= j < |init| && init[j] == x;
      assert rows[j] == x;
    } else {
      UserKeysOrder(init, user, a, b);
    }
  }

  /**
   * The loop gives the row the index it has among its user's rows: the k-th
   * task of a user (0-based, by id under the result order) gets k, whatever
   * the other users' rows are.
   */
  lemma PositionIsIndexAmongOwnRows(rows: seq<TaskKey>, i: nat)
    requires i < |rows|
    ensures var us := UserKeys(rows, rows[i].userId);
            var p := |UserKeys(rows[..i], rows[i].userId)|;
            && p < |us| && us[p] == rows[i]
            && Position(rows, i) == p as real
            && Position(us, p) == p as real
  {
    var u := rows[i].userId;
    var us := UserKeys(rows, u);
    var p := |UserKeys(rows[..i], u)|;
    UserKeysStep(rows, i, u);
    UserKeysPrefix(rows, i + 1, u);
    assert UserKeys(rows[..i + 1], u) == UserKeys(rows[..i], u) + [rows[i]];
    assert us[p] == rows[i];
    AllOwnRows(us[..p], u);
  }

  /** The rows of a user in a list of only that user's rows are the list itself. */
  lemma {:induction false} AllOwnRows(rows: seq<TaskKey>, user: int)
    requires forall k :: k in rows ==> k.userId == user
    ensures UserKeys(rows, user) == rows
  {
    if |rows| > 0 {
      var init := rows[..|rows| - 1];
      AllOwnRows(init, user);
      assert rows == init + [rows[|rows| - 1]];
    }
  }

  /** Within one user, a higher id gets a strictly higher position; positions are pairwise distinct. */
  lemma PositionsIncreaseWithId(rows: seq<TaskKey>, a: nat, b: nat)
    requires OrderedByUserThenId(rows) && a < |rows| && b < |rows|
    requires rows[a].userId == rows[b].userId && rows[a].id < rows[b].id
    ensures Position(rows, a) < Position(rows, b)
  {
    var u := rows[a].userId;
    assert a < b;
    UserKeysStep(rows, a, u);
    UserKeysPrefix(rows[..b], a + 1, u);
    assert rows[..b][..a + 1] == rows[..a + 1];
  }
}
