/** The persistence primitives the handlers call (Insert, FindOne, Delete),
    as an in-memory table. The generated model code behind them is not part of
    this model; whether a call fails is an input (an oracle), not behaviour. */
module BehaviorStore {
  import opened BehaviorTypes

  /** The outcome of FindOne: the row, ErrNotFound, or any other error. */
  datatype Lookup = Found(row: Row) | Missing | LookupFailed

  /** A call that reaches the store to change it, as the store sees it. */
  datatype Write = InsertOf(row: Row) | DeleteOf(id: int)

  class Store {
    /** The behaviors table by id; soft-deleted rows stay in it. */
    var rows: map<int, Row>
    /** The id the next successful insert is given. */
    var nextId: int
    /** Every Insert and Delete call made, in order, failed or not. */
    ghost var writes: seq<Write>

    /** Ids are positive, assigned below nextId, and each row carries its own. */
    ghost predicate Valid()
      reads this
    {
      && nextId >= 1
      && forall id :: id in rows ==> 1 <= id < nextId && rows[id].id == id
    }

    constructor ()
      ensures Valid() && rows == map[] && nextId == 1 && writes == []
    {
      rows := map[];
      nextId := 1;
      writes := [];
    }

    /** FindOne: the row under id whether or not it is soft-deleted. */
    function FindOne(id: int, fails: bool): (r: Lookup)
      reads this
      ensures r.LookupFailed? <==> fails
      ensures r.Missing? <==> !fails && id !in rows
      ensures r.Found? ==> id in rows && r.row == rows[id]
    {
      if fails then LookupFailed
      else if id in rows then Found(rows[id])
      else Missing
    }

    /** Insert: on success the row is stored under a fresh id, which is
        returned; on failure nothing changes. */
    method Insert(row: Row, fails: bool) returns (ok: bool, id: int)
      requires Valid()
      modifies this
      ensures Valid()
      ensures writes == old(writes) + [InsertOf(row)]
      ensures ok == !fails
      ensures ok ==> && id == old(nextId) && id !in old(rows)
                     && rows == old(rows)[id := row.(id := id)]
                     && nextId == old(nextId) + 1
      ensures !ok ==> rows == old(rows) && nextId == old(nextId)
    {
      writes := writes + [InsertOf(row)];
      ok := !fails;
      id := 0;
      if ok {
        id := nextId;
        rows := rows[id := row.(id := id)];
        nextId := nextId + 1;
      }
    }

    /** Delete: the soft delete, which stamps deletedAt on the row. */
    method Delete(id: int, now: Time, fails: bool) returns (ok: bool)
      requires Valid()
      modifies this
      ensures Valid() && nextId == old(nextId)
      ensures writes == old(writes) + [DeleteOf(id)]
      ensures ok == !fails
      ensures ok && id in old(rows) ==> rows == old(rows)[id := old(rows)[id].(deletedAt := Some(now))]
      ensures !(ok && id in old(rows)) ==> rows == old(rows)
    {
      writes := writes + [DeleteOf(id)];
      ok := !fails;
      if ok && id in rows {
        rows := rows[id := rows[id].(deletedAt := Some(now))];
      }
    }
  }
}
