/** DeleteBehavior: soft-delete one live row by id. */
module DeleteBehaviorLogic {
  import opened BehaviorTypes
  import opened BehaviorStore

  datatype DeleteResponse = DeleteResponse(success: bool)

  /** The row under id exists and is not soft-deleted. */
  predicate LiveIn(rows: map<int, Row>, id: int)
  {
    id in rows && rows[id].Live()
  }

  /** The checks before the delete: the id guard, then FindOne (not found or
      another error), then the already-deleted check. They only read. */
  function DeleteGuard(store: Store, id: int, lookupFails: bool): (e: Option<Error>)
    reads store
    ensures id <= 0 ==> e == Some(Error(InvalidArgument, "DB001"))
    ensures id > 0 && lookupFails ==> e == Some(Error(Internal, "DB003"))
    ensures id > 0 && !lookupFails && id !in store.rows ==> e == Some(Error(NotFound, "DB002"))
    ensures id > 0 && !lookupFails && id in store.rows && !store.rows[id].Live() ==>
              e == Some(Error(NotFound, "DB004"))
    ensures e.None? <==> id > 0 && !lookupFails && LiveIn(store.rows, id)
  {
    if id <= 0 then Some(Error(InvalidArgument, "DB001"))
    else
      match store.FindOne(id, lookupFails)
      case LookupFailed => Some(Error(Internal, "DB003"))
      case Missing => Some(Error(NotFound, "DB002"))
      case Found(row) =>
        if row.deletedAt.Some? then Some(Error(NotFound, "DB004")) else None
  }

  /** DeleteBehavior(id) at time `now`; `lookupFails` and `deleteFails` say
      whether FindOne (with an error other than ErrNotFound) or Delete errs. */
  method DeleteBehavior(store: Store, id: int, now: Time, lookupFails: bool, deleteFails: bool)
    returns (r: Result<DeleteResponse>)
    requires store.Valid()
    modifies store
    ensures store.Valid() && store.nextId == old(store.nextId)
    ensures old(DeleteGuard(store, id, lookupFails)).Some? ==>
              r == Err(old(DeleteGuard(store, id, lookupFails)).value) && unchanged(store)
    ensures old(DeleteGuard(store, id, lookupFails)).None? ==>
              store.writes == old(store.writes) + [DeleteOf(id)]
    ensures old(DeleteGuard(store, id, lookupFails)).None? && deleteFails ==>
              r == Err(Error(Internal, "DB005")) && store.rows == old(store.rows)
    ensures old(DeleteGuard(store, id, lookupFails)).None? && !deleteFails ==>
              && r == Ok(DeleteResponse(true))
              && store.rows == old(store.rows)[id := old(store.rows)[id].(deletedAt := Some(now))]
    ensures r.Ok? ==> old(LiveIn(store.rows, id)) && !LiveIn(store.rows, id)
  {
    var e := DeleteGuard(store, id, lookupFails);
    if e.Some? {
      return Err(e.value);
    }
    var ok := store.Delete(id, now, deleteFails);
    if !ok {
      return Err(Error(Internal, "DB005"));
    }
    r := Ok(DeleteResponse(true));
  }

  /** Deleting the same id twice: the second call never succeeds; when the
      first did, the second reports the row as already deleted (or fails its
      lookup). */
  method DeleteTwice(store: Store, id: int, now1: Time, now2: Time,
                     lookupFails1: bool, deleteFails1: bool, lookupFails2: bool, deleteFails2: bool)
    returns (first: Result<DeleteResponse>, second: Result<DeleteResponse>)
    requires store.Valid()
    modifies store
    ensures first.Ok? ==> second.Err?
    ensures first.Ok? && !lookupFails2 ==> second == Err(Error(NotFound, "DB004"))
  {
    first := DeleteBehavior(store, id, now1, lookupFails1, deleteFails1);
    second := DeleteBehavior(store, id, now2, lookupFails2, deleteFails2);
  }
}
