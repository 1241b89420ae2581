/** RecordBehavior: validate one item, build its row and insert it. */
module RecordBehaviorLogic {
  import opened BehaviorTypes
  import opened BehaviorStore
  import opened GetBehaviorLogic

  /** What the store accepts: a non-empty key, a positive user id and a
      non-empty payload. */
  predicate ValidRecord(req: RecordRequest)
  {
    req.key != "" && req.userId > 0 && req.data != ""
  }

  /** The validation guards in order; the first that fails gives the error. */
  function CheckRecord(req: RecordRequest): (e: Option<Error>)
    ensures e.None? <==> ValidRecord(req)
    ensures req.key == "" ==> e == Some(Error(InvalidArgument, "RB001"))
    ensures req.key != "" && req.userId <= 0 ==> e == Some(Error(InvalidArgument, "RB002"))
    ensures req.key != "" && req.userId > 0 && req.data == "" ==> e == Some(Error(InvalidArgument, "RB003"))
  {
    if req.key == "" then Some(Error(InvalidArgument, "RB001"))
    else if req.userId <= 0 then Some(Error(InvalidArgument, "RB002"))
    else if req.data == "" then Some(Error(InvalidArgument, "RB003"))
    else None
  }

  /** RecordBehavior(req) at time `now`. `insertFails` says whether Insert
      errs and `idUnavailable` whether LastInsertId does. */
  method RecordBehavior(store: Store, req: RecordRequest, now: Time, insertFails: bool, idUnavailable: bool)
    returns (r: Result<RecordResponse>)
    requires store.Valid()
    modifies store
    ensures store.Valid()
    ensures !ValidRecord(req) ==> r == Err(CheckRecord(req).value) && unchanged(store)
    ensures ValidRecord(req) ==> store.writes == old(store.writes) + [InsertOf(NewRow(0, req, now))]
    ensures ValidRecord(req) && insertFails ==>
              && r == Err(Error(Internal, "RB004"))
              && store.rows == old(store.rows) && store.nextId == old(store.nextId)
    ensures ValidRecord(req) && !insertFails ==>
              && r == Ok(RecordResponse(true, if idUnavailable then 0 else old(store.nextId)))
              && old(store.nextId) !in old(store.rows)
              && store.rows == old(store.rows)[old(store.nextId) := NewRow(old(store.nextId), req, now)]
              && store.nextId == old(store.nextId) + 1
    // round trip: the id returned, when known, fetches back what was recorded
    ensures r.Ok? && r.value.id != 0 ==>
              GetBehavior(store, r.value.id, false) == Ok(Behavior(r.value.id, req.key, req.userId, req.data, now, now))
  {
    var e := CheckRecord(req);
    if e.Some? {
      return Err(e.value);
    }
    var row := NewRow(0, req, now);
    var ok, id := store.Insert(row, insertFails);
    if !ok {
      return Err(Error(Internal, "RB004"));
    }
    if idUnavailable {
      id := 0;
    }
    r := Ok(RecordResponse(true, id));
  }
}
