/**
 * The `user_tokens` table: one row per issued third-party credential, several
 * rows per user allowed. The three queries the authorizer runs on it are
 * pure functions here: the select ordered by `created_at` descending, the
 * delete by `id`, and the insert.
 */
module TokenTable {
  import opened Wrappers

  /** A row of `user_tokens`. `id` and `createdAt` are assigned by the store. */
  datatype Row = Row(
    id: nat,
    userId: int,
    createdAt: int,
    accessToken: string,
    refreshToken: string,
    expiresAt: int,
    environment: string)

  /** What the token issuer hands back on a refresh. */
  datatype Credential = Credential(accessToken: string, refreshToken: string, expiresAt: int)

  /**
   * The table with the store's own counters: the next `id` to assign and the
   * next creation stamp, which is later than every stored `createdAt`.
   */
  datatype Table = Table(rows: seq<Row>, nextId: nat, nextStamp: int)

  predicate UniqueIds(rows: seq<Row>) {
    forall i, j :: 0 <= i < j < |rows| ==> rows[i].id != rows[j].id
  }

  /** The store's invariant: `id` is a key, and the counters lie ahead of every row. */
  predicate TableValid(t: Table) {
    UniqueIds(t.rows) &&
    forall i :: 0 <= i < |t.rows| ==> t.rows[i].id < t.nextId && t.rows[i].createdAt < t.nextStamp
  }

  /** `where({ user_id })`: exactly the user's rows, in store order. */
  function UserRows(rows: seq<Row>, userId: int): (r: seq<Row>)
    ensures forall x {:trigger x in r} :: x in r <==> x in rows && x.userId == userId
    decreases |rows|
  {
    if |rows| == 0 then []
    else
      assert rows == [rows[0]] + rows[1..];
      if rows[0].userId == userId then [rows[0]] + UserRows(rows[1..], userId)
      else UserRows(rows[1..], userId)
  }

  predicate NewestFirst(s: seq<Row>) {
    forall i, j :: 0 <= i < j < |s| ==> s[i].createdAt >= s[j].createdAt
  }

  function InsertByAge(x: Row, s: seq<Row>): seq<Row> {
    if |s| == 0 || x.createdAt >= s[0].createdAt then [x] + s
    else [s[0]] + InsertByAge(x, s[1..])
  }

  /**
   * `orderBy('created_at', 'DESC')`: a permutation of the rows, newest first;
   * rows with equal stamps keep store order.
   */
  function SortNewestFirst(s: seq<Row>): (r: seq<Row>)
    ensures NewestFirst(r)
    ensures multiset(r) == multiset(s)
    decreases |s|
  {
    if |s| == 0 then []
    else
      var rest := SortNewestFirst(s[1..]);
      InsertByAgeStep(s, rest);
      InsertByAge(s[0], rest)
  }

  /** The select the authorizer runs: exactly the user's rows, as a permutation, newest first. */
  function Fetch(rows: seq<Row>, userId: int): (r: seq<Row>)
    ensures NewestFirst(r)
    ensures multiset(r) == multiset(UserRows(rows, userId))
    ensures forall x {:trigger x in r} :: x in r <==> x in rows && x.userId == userId
  {
    var r := SortNewestFirst(UserRows(rows, userId));
    SameMembers(r, UserRows(rows, userId));
    r
  }

  /**
   * `const [mostRecentToken] = existingUserTokens`: the row the select returns
   * first, found in one pass over the table (that this is the head of
   * Fetch is NewestHeadsFetch). It is undefined exactly when the user has no
   * row, and otherwise one of the user's rows.
   */
  function Newest(rows: seq<Row>, userId: int): (r: Option<Row>)
    ensures r.None? <==> |UserRows(rows, userId)| == 0
    ensures r.Some? ==> r.value in rows && r.value.userId == userId
    decreases |rows|
  {
    if |rows| == 0 then None
    else
      var rest := Newest(rows[1..], userId);
      if rows[0].userId != userId then rest
      else if rest.None? || rows[0].createdAt >= rest.value.createdAt then Some(rows[0])
      else rest
  }

  /** `where({ id }).del()`: exactly the rows with another id stay, in their order. */
  function RemoveId(rows: seq<Row>, id: nat): (r: seq<Row>)
    ensures forall x {:trigger x in r} :: x in r <==> x in rows && x.id != id
    decreases |rows|
  {
    if |rows| == 0 then []
    else
      assert rows == [rows[0]] + rows[1..];
      if rows[0].id == id then RemoveId(rows[1..], id)
      else [rows[0]] + RemoveId(rows[1..], id)
  }

  /** The delete leaves the store's counters alone and keeps exactly the rows with another id. */
  function Delete(t: Table, id: nat): (r: Table)
    ensures r.nextId == t.nextId && r.nextStamp == t.nextStamp
    ensures forall x {:trigger x in r.rows} :: x in r.rows <==> x in t.rows && x.id != id
  {
    t.(rows := RemoveId(t.rows, id))
  }

  /**
   * The row the insert creates: the store assigns an id above every stored
   * id and a creation stamp later than every stored row.
   */
  function NewRow(t: Table, userId: int, c: Credential, environment: string): (r: Row)
    ensures TableValid(t) ==> forall x :: x in t.rows ==> x.id < r.id && x.createdAt < r.createdAt
  {
    Row(t.nextId, userId, t.nextStamp, c.accessToken, c.refreshToken, c.expiresAt, environment)
  }

  /** `insert({ user_id, access_token, refresh_token, expires_at, environment })`; keeps the invariant. */
  function Insert(t: Table, userId: int, c: Credential, environment: string): (r: Table)
    ensures TableValid(t) ==> TableValid(r)
  {
    Table(t.rows + [NewRow(t, userId, c, environment)], t.nextId + 1, t.nextStamp + 1)
  }

  // ---------------------------------------------------------------- the select

  lemma {:induction false} UserRowsAppend(a: seq<Row>, b: seq<Row>, userId: int)
    ensures UserRows(a + b, userId) == UserRows(a, userId) + UserRows(b, userId)
    decreases |a|
  {
    if |a| > 0 {
      assert (a + b)[1..] == a[1..] + b;
      UserRowsAppend(a[1..], b, userId);
    } else {
      assert a + b == b;
    }
  }

  lemma UserRowsSingle(r: Row, userId: int)
    ensures UserRows([r], userId) == if r.userId == userId then [r] else []
  {
    assert [r][1..] == [];
  }

  /** Inserting keeps every stamp under a bound that all inputs respect. */
  lemma {:induction false} InsertByAgeBounded(x: Row, s: seq<Row>, bound: int)
    requires x.createdAt <= bound
    requires forall k :: 0 <= k < |s| ==> s[k].createdAt <= bound
    ensures forall k :: 0 <= k < |InsertByAge(x, s)| ==> InsertByAge(x, s)[k].createdAt <= bound
    decreases |s|
  {
    if |s| > 0 && x.createdAt < s[0].createdAt {
      InsertByAgeBounded(x, s[1..], bound);
    }
  }

  lemma {:induction false} InsertByAgeAdds(x: Row, s: seq<Row>)
    ensures multiset(InsertByAge(x, s)) == multiset(s) + multiset{x}
    decreases |s|
  {
    if |s| > 0 && x.createdAt < s[0].createdAt {
      InsertByAgeAdds(x, s[1..]);
      assert s == [s[0]] + s[1..];
    }
  }

  lemma {:induction false} InsertByAgeSorts(x: Row, s: seq<Row>)
    requires NewestFirst(s)
    ensures NewestFirst(InsertByAge(x, s))
    decreases |s|
  {
    if |s| > 0 && x.createdAt < s[0].createdAt {
      InsertByAgeSorts(x, s[1..]);
      InsertByAgeBounded(x, s[1..], s[0].createdAt);
    }
  }

  /** Inserting the head of `s` into a sorted permutation of its tail sorts all of `s`. */
  lemma InsertByAgeStep(s: seq<Row>, rest: seq<Row>)
    requires |s| > 0 && NewestFirst(rest) && multiset(rest) == multiset(s[1..])
    ensures NewestFirst(InsertByAge(s[0], rest))
    ensures multiset(InsertByAge(s[0], rest)) == multiset(s)
  {
    InsertByAgeSorts(s[0], rest);
    InsertByAgeAdds(s[0], rest);
    assert s == [s[0]] + s[1..];
  }

  lemma SameMembers(a: seq<Row>, b: seq<Row>)
    requires multiset(a) == multiset(b)
    ensures forall x :: x in a <==> x in b
  {
    forall x ensures x in a <==> x in b {
      assert x in a <==> x in multiset(a);
      assert x in b <==> x in multiset(b);
    }
  }

  /** Newest is the first row of the select's result, or undefined when that result is empty. */
  lemma {:induction false} NewestHeadsFetch(rows: seq<Row>, userId: int)
    ensures Newest(rows, userId) == if |Fetch(rows, userId)| == 0 then None else Some(Fetch(rows, userId)[0])
    decreases |rows|
  {
    if |rows| > 0 {
      NewestHeadsFetch(rows[1..], userId);
      if rows[0].userId == userId {
        var mine := UserRows(rows, userId);
        assert mine[1..] == UserRows(rows[1..], userId);
      }
    }
  }

  /** The head of a newest-first result is at least as new as every row of the user. */
  lemma FetchHeadIsLatest(rows: seq<Row>, userId: int)
    requires |Fetch(rows, userId)| > 0
    ensures |UserRows(rows, userId)| > 0
    ensures forall i :: 0 <= i < |UserRows(rows, userId)| ==> UserRows(rows, userId)[i].createdAt <= Fetch(rows, userId)[0].createdAt
  {
    var found, mine := Fetch(rows, userId), UserRows(rows, userId);
    assert |multiset(found)| == |found| && |multiset(mine)| == |mine|;
    forall i | 0 <= i < |mine| ensures mine[i].createdAt <= found[0].createdAt {
      assert mine[i] in multiset(mine);
      assert mine[i] in found;
      var k :| 0 <= k < |found| && found[k] == mine[i];
      assert k == 0 || found[0].createdAt >= found[k].createdAt;
    }
  }

  /**
   * The selected row is one of the user's stored rows with the latest
   * creation stamp; there is none exactly when the user has no row.
   */
  lemma NewestSpec(rows: seq<Row>, userId: int)
    ensures Newest(rows, userId).None? <==> forall x :: x in rows ==> x.userId != userId
    ensures Newest(rows, userId).Some? ==>
      var r := Newest(rows, userId).value;
      r in rows && r.userId == userId &&
      forall x :: x in rows && x.userId == userId ==> x.createdAt <= r.createdAt
  {
    var mine := UserRows(rows, userId);
    if |mine| == 0 {
      forall x | x in rows ensures x.userId != userId {
        assert x.userId == userId ==> x in mine;
      }
    } else {
      var r := Newest(rows, userId).value;
      NewestHeadsFetch(rows, userId);
      FetchHeadIsLatest(rows, userId);
      forall x | x in rows && x.userId == userId ensures x.createdAt <= r.createdAt {
        assert x in mine;
        var k :| 0 <= k < |mine| && mine[k] == x;
      }
    }
  }

  /** A row later than all the user's other rows is the one selected. */
  lemma NewestIsLatest(rows: seq<Row>, r: Row)
    requires r in rows
    requires forall x :: x in rows && x.userId == r.userId && x != r ==> x.createdAt < r.createdAt
    ensures Newest(rows, r.userId) == Some(r)
  {
    NewestSpec(rows, r.userId);
  }

  // ---------------------------------------------------------------- the delete

  lemma {:induction false} RemoveAbsentId(rows: seq<Row>, id: nat)
    requires forall i :: 0 <= i < |rows| ==> rows[i].id != id
    ensures RemoveId(rows, id) == rows
    decreases |rows|
  {
    if |rows| > 0 {
      RemoveAbsentId(rows[1..], id);
      assert rows == [rows[0]] + rows[1..];
    }
  }

  /** With `id` a key, the delete removes exactly the one row carrying it. */
  lemma {:induction false} RemoveUniqueId(rows: seq<Row>, k: nat)
    requires UniqueIds(rows) && k < |rows|
    ensures RemoveId(rows, rows[k].id) == rows[..k] + rows[k + 1..]
    decreases k
  {
    if k == 0 {
      RemoveAbsentId(rows[1..], rows[0].id);
    } else {
      RemoveUniqueId(rows[1..], k - 1);
      assert rows[1..][k - 1] == rows[k];
      assert rows[..k] == [rows[0]] + rows[1..][..k - 1];
      assert rows[k + 1..] == rows[1..][k..];
    }
  }

  lemma {:induction false} RemoveIdKeepsUnique(rows: seq<Row>, id: nat)
    requires UniqueIds(rows)
    ensures UniqueIds(RemoveId(rows, id))
    decreases |rows|
  {
    if |rows| > 0 {
      var tail := RemoveId(rows[1..], id);
      RemoveIdKeepsUnique(rows[1..], id);
      if rows[0].id != id {
        forall j | 0 <= j < |tail| ensures rows[0].id != tail[j].id {
          assert tail[j] in tail;
          assert tail[j] in rows[1..];
          var m :| 0 <= m < |rows[1..]| && rows[1..][m] == tail[j];
          assert rows[m + 1] == tail[j];
        }
      }
    }
  }

  /** The delete keeps the invariant. */
  lemma DeleteKeepsValid(t: Table, id: nat)
    requires TableValid(t)
    ensures TableValid(Delete(t, id))
  {
    RemoveIdKeepsUnique(t.rows, id);
    var rows := Delete(t, id).rows;
    forall i | 0 <= i < |rows| ensures rows[i].id < t.nextId && rows[i].createdAt < t.nextStamp {
      assert rows[i] in rows;
      assert rows[i] in t.rows;
    }
  }

  /** The user partition of a table split around one row. */
  lemma UserRowsAround(before: seq<Row>, r: Row, after: seq<Row>, v: int)
    ensures UserRows(before + [r] + after, v) == UserRows(before, v) + UserRows([r], v) + UserRows(after, v)
    ensures UserRows(before + after, v) == UserRows(before, v) + UserRows(after, v)
  {
    UserRowsAppend(before + [r], after, v);
    UserRowsAppend(before, [r], v);
    UserRowsAppend(before, after, v);
  }

  /** With `id` a key, a stored row occurs only once. */
  lemma OccursOnce(rows: seq<Row>, k: nat)
    requires UniqueIds(rows) && k < |rows|
    ensures rows[k] !in rows[..k] + rows[k + 1..]
  {
    var rest := rows[..k] + rows[k + 1..];
    forall i | 0 <= i < |rest| ensures rest[i].id != rows[k].id {
      if i < k {
        assert rest[i] == rows[i];
      } else {
        assert rest[i] == rows[i + 1];
      }
    }
  }

  /** Deleting a stored row by its id removes that row and no other. */
  lemma DeleteRemovesOneRow(t: Table, r: Row)
    requires TableValid(t) && r in t.rows
    ensures r !in Delete(t, r.id).rows
    ensures |Delete(t, r.id).rows| == |t.rows| - 1
    ensures multiset(Delete(t, r.id).rows) == multiset(t.rows) - multiset{r}
  {
    var k :| 0 <= k < |t.rows| && t.rows[k] == r;
    var before, after := t.rows[..k], t.rows[k + 1..];
    RemoveUniqueId(t.rows, k);
    OccursOnce(t.rows, k);
    assert t.rows == before + [r] + after;
    assert multiset(t.rows) == multiset(before) + multiset{r} + multiset(after);
    assert multiset(before + after) == multiset(before) + multiset(after);
  }

  /** With `id` a key, deleting a stored row by its id keeps every other row. */
  lemma DeleteKeepsOthers(t: Table, r: Row)
    requires TableValid(t) && r in t.rows
    ensures forall x :: x in t.rows && x != r ==> x in Delete(t, r.id).rows
  {
    forall x | x in t.rows && x != r ensures x in Delete(t, r.id).rows {
      var i :| 0 <= i < |t.rows| && t.rows[i] == x;
      var j :| 0 <= j < |t.rows| && t.rows[j] == r;
      assert i != j;
    }
  }

  /**
   * After that delete the owner has one row fewer and every other user keeps
   * exactly the rows they had, in the same order.
   */
  lemma DeleteKeepsOtherUsers(t: Table, r: Row)
    requires TableValid(t) && r in t.rows
    ensures |UserRows(Delete(t, r.id).rows, r.userId)| == |UserRows(t.rows, r.userId)| - 1
    ensures forall v :: v != r.userId ==> UserRows(Delete(t, r.id).rows, v) == UserRows(t.rows, v)
  {
    var k :| 0 <= k < |t.rows| && t.rows[k] == r;
    RemoveUniqueId(t.rows, k);
    var before, after := t.rows[..k], t.rows[k + 1..];
    assert t.rows == before + [r] + after;
    UserRowsAround(before, r, after, r.userId);
    UserRowsSingle(r, r.userId);
    forall v | v != r.userId ensures UserRows(Delete(t, r.id).rows, v) == UserRows(t.rows, v) {
      UserRowsAround(before, r, after, v);
      UserRowsSingle(r, v);
    }
  }

  // ---------------------------------------------------------------- the insert

  /**
   * The inserted row is the user's newest: the next select for that user
   * returns it first. The user's other rows and other users' rows are kept.
   */
  lemma InsertedRowIsNewest(t: Table, userId: int, c: Credential, environment: string)
    requires TableValid(t)
    ensures Newest(Insert(t, userId, c, environment).rows, userId) == Some(NewRow(t, userId, c, environment))
    ensures UserRows(Insert(t, userId, c, environment).rows, userId) == UserRows(t.rows, userId) + [NewRow(t, userId, c, environment)]
    ensures forall v :: v != userId ==> UserRows(Insert(t, userId, c, environment).rows, v) == UserRows(t.rows, v)
  {
    var r := NewRow(t, userId, c, environment);
    var rows := Insert(t, userId, c, environment).rows;
    forall x | x in rows && x.userId == userId && x != r ensures x.createdAt < r.createdAt {
      assert x in t.rows;
    }
    NewestIsLatest(rows, r);
    forall v ensures UserRows(rows, v) == UserRows(t.rows, v) + UserRows([r], v) {
      UserRowsAppend(t.rows, [r], v);
    }
    UserRowsSingle(r, userId);
    forall v | v != userId ensures UserRows([r], v) == [] {
      UserRowsSingle(r, v);
    }
  }

  // ---------------------------------------------------------------- the refresh

  /**
   * Deleting the user's stored row `r` and inserting the refreshed credential
   * replaces that row: `r` is gone, the one new row carries the next id, the
   * user, the new tokens and the environment, row count and the user's row
   * count are as before, the new row is the user's newest, no other user's
   * rows change, and the invariant holds.
   */
  lemma RenewalReplacesRow(t: Table, r: Row, c: Credential, environment: string)
    requires TableValid(t) && r in t.rows
    ensures var n := Insert(Delete(t, r.id), r.userId, c, environment);
      var renewed := Row(t.nextId, r.userId, t.nextStamp, c.accessToken, c.refreshToken, c.expiresAt, environment);
      n.rows == RemoveId(t.rows, r.id) + [renewed] &&
      r !in n.rows &&
      |n.rows| == |t.rows| &&
      |UserRows(n.rows, r.userId)| == |UserRows(t.rows, r.userId)| &&
      Newest(n.rows, r.userId) == Some(renewed) &&
      (forall v :: v != r.userId ==> UserRows(n.rows, v) == UserRows(t.rows, v)) &&
      TableValid(n)
  {
    DeleteRemovesOneRow(t, r);
    DeleteKeepsOtherUsers(t, r);
    DeleteKeepsValid(t, r.id);
    var t1 := Delete(t, r.id);
    InsertedRowIsNewest(t1, r.userId, c, environment);
    var renewed := NewRow(t1, r.userId, c, environment);
    assert renewed != r by {
      assert r.id < t.nextId;
    }
  }
}
