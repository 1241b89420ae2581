/** GetBehavior: fetch one live row by id. A read-only guard chain over the
    store, followed by the field copy into the response message. */
module GetBehaviorLogic {
  import opened BehaviorTypes
  import opened BehaviorStore

  /** The response to GetBehavior(id) against the current store; `lookupFails`
      says whether FindOne reports an error other than ErrNotFound. */
  function GetBehavior(store: Store, id: int, lookupFails: bool): (r: Result<Behavior>)
    reads store
    ensures id <= 0 ==> r == Err(Error(InvalidArgument, "GB001"))
    ensures id > 0 && lookupFails ==> r == Err(Error(Internal, "GB003"))
    ensures id > 0 && !lookupFails && id !in store.rows ==> r == Err(Error(NotFound, "GB002"))
    ensures id > 0 && !lookupFails && id in store.rows && !store.rows[id].Live() ==>
              r == Err(Error(NotFound, "GB004"))
    ensures r.Ok? <==> id > 0 && !lookupFails && id in store.rows && store.rows[id].Live()
    ensures r.Ok? ==> r.value == ToBehavior(store.rows[id])
  {
    if id <= 0 then Err(Error(InvalidArgument, "GB001"))
    else
      match store.FindOne(id, lookupFails)
      case LookupFailed => Err(Error(Internal, "GB003"))
      case Missing => Err(Error(NotFound, "GB002"))
      case Found(row) =>
        if row.deletedAt.Some? then Err(Error(NotFound, "GB004"))
        else Ok(ToBehavior(row))
  }
}
