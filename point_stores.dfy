/** The two stores the service is wired to, as plain values: the balance
    table is a map from user id to that user's record, the history table a
    sequence of entries in insertion order. */
module PointStores {
  import opened PointTypes

  /** Every record is filed under its own user id. */
  predicate KeysMatch(table: map<int, UserPoint>)
  {
    forall k :: k in table ==> table[k].id == k
  }

  /** Sequence numbers grow strictly along the history, so the history is
      ordered by the number the table assigned. */
  predicate IdsIncreasing(h: seq<PointHistory>)
  {
    forall i, j :: 0 <= i < j < |h| ==> h[i].id < h[j].id
  }

  /** Balance lookup: the stored record, or a zero balance for an id the
      table does not know. The lookup never writes. */
  function SelectById(table: map<int, UserPoint>, id: int): (r: UserPoint)
    ensures id in table ==> r == table[id]
    ensures id !in table ==> r.point == 0
    ensures KeysMatch(table) ==> r.id == id
  {
    if id in table then table[id] else UserPoint(id, 0, 0)
  }

  /** Balance write: afterwards a lookup of `id` sees exactly the written
      balance and time; every other id reads as before. */
  function InsertOrUpdate(table: map<int, UserPoint>, id: int, point: int, millis: int): (r: map<int, UserPoint>)
    ensures SelectById(r, id) == UserPoint(id, point, millis)
    ensures forall u :: u != id ==> SelectById(r, u) == SelectById(table, u)
    ensures r.Keys == table.Keys + {id}
    ensures KeysMatch(table) ==> KeysMatch(r)
  {
    table[id := UserPoint(id, point, millis)]
  }

  /** History query: the entries of one user, in the order they were
      inserted. */
  function SelectAllByUserId(h: seq<PointHistory>, userId: int): (r: seq<PointHistory>)
    ensures forall e :: e in r <==> e in h && e.userId == userId
    ensures |r| <= |h|
  {
    if h == [] then []
    else if h[0].userId == userId then [h[0]] + SelectAllByUserId(h[1..], userId)
    else SelectAllByUserId(h[1..], userId)
  }

  /** Appending one entry to the history extends exactly the query of that
      entry's user, at the end, and no other user's query. */
  lemma {:induction false} SelectAllAppend(h: seq<PointHistory>, e: PointHistory, userId: int)
    ensures SelectAllByUserId(h + [e], userId)
         == SelectAllByUserId(h, userId) + (if e.userId == userId then [e] else [])
  {
    if h == [] {
      assert [] + [e] == [e];
      assert [e][1..] == [];
    } else {
      assert (h + [e])[0] == h[0];
      assert (h + [e])[1..] == h[1..] + [e];
      SelectAllAppend(h[1..], e, userId);
    }
  }

  /** The query keeps insertion order: on a history ordered by sequence
      number, one user's entries come out ordered by sequence number too. */
  lemma {:induction false} SelectAllKeepsOrder(h: seq<PointHistory>, userId: int)
    requires IdsIncreasing(h)
    ensures IdsIncreasing(SelectAllByUserId(h, userId))
  {
    if h != [] {
      assert IdsIncreasing(h[1..]) by {
        forall i, j | 0 <= i < j < |h[1..]| ensures h[1..][i].id < h[1..][j].id {
          assert h[1..][i] == h[i + 1] && h[1..][j] == h[j + 1];
        }
      }
      SelectAllKeepsOrder(h[1..], userId);
      var rest := SelectAllByUserId(h[1..], userId);
      if h[0].userId == userId {
        forall j | 0 <= j < |rest| ensures h[0].id < rest[j].id {
          assert rest[j] in h[1..];
          var k :| 0 <= k < |h[1..]| && h[1..][k] == rest[j];
          assert h[k + 1] == rest[j];
        }
        var r := [h[0]] + rest;
        forall i, j | 0 <= i < j < |r| ensures r[i].id < r[j].id {
          assert r[j] == rest[j - 1];
          if i > 0 { assert r[i] == rest[i - 1]; }
        }
      }
    }
  }
}
