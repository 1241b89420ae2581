/** ListBehaviors: normalise the paging, build the two statements, run them
    (their outcomes are inputs here) and convert the rows. */
module ListBehaviorsLogic {
  import opened BehaviorTypes
  import opened BehaviorsModel

  datatype ListRequest = ListRequest(key: string, userId: int, startTime: Time, endTime: Time,
                                     page: Int32, pageSize: Int32)

  datatype ListResponse = ListResponse(list: seq<Behavior>, total: int, page: Int32, size: Int32)

  /** The page actually used: a page <= 0 means the first. */
  function EffectivePage(page: Int32): (p: Int32)
    ensures p >= 1
    ensures page >= 1 ==> p == page
    ensures page <= 0 ==> p == 1
  {
    if page <= 0 then 1 else page
  }

  /** The page size actually used: a size <= 0 means the default of 10. */
  function EffectivePageSize(pageSize: Int32): (s: Int32)
    ensures s >= 1
    ensures pageSize >= 1 ==> s == pageSize
    ensures pageSize <= 0 ==> s == DefaultPageSize
    ensures s > MaxPageSize <==> pageSize > MaxPageSize
  {
    if pageSize <= 0 then DefaultPageSize else pageSize
  }

  /** A time bound in epoch milliseconds is a filter only when positive. */
  function TimeBound(ms: Time): (t: Option<Time>)
    ensures t.Some? <==> ms > 0
    ensures t.Some? ==> t.value == ms
  {
    if ms > 0 then Some(ms) else None
  }

  /** The filter a request asks for. */
  function RequestFilter(req: ListRequest): Filter
  {
    Filter(req.key, req.userId, TimeBound(req.startTime), TimeBound(req.endTime))
  }

  /** The response list: one entry per row, in row order, each the field
      copy of its row. */
  method ToBehaviors(rows: seq<Row>) returns (list: seq<Behavior>)
    ensures |list| == |rows|
    ensures forall j :: 0 <= j < |rows| ==> list[j] == ToBehavior(rows[j])
  {
    list := [];
    var i := 0;
    while i < |rows|
      invariant 0 <= i <= |rows|
      invariant |list| == i
      invariant forall j :: 0 <= j < i ==> list[j] == ToBehavior(rows[j])
    {
      list := list + [ToBehavior(rows[i])];
      i := i + 1;
    }
  }

  /** ListBehaviors(req). `found` is what FindList's statement returns (None
      when it errs) and `total` what CountList's returns. `issued` lists the
      statements sent, in order. */
  method ListBehaviors(req: ListRequest, found: Option<seq<Row>>, total: Option<int>)
    returns (r: Result<ListResponse>, issued: seq<Query>)
    ensures req.pageSize > MaxPageSize <==> r == Err(Error(InvalidArgument, "LB001"))
    ensures req.pageSize > MaxPageSize ==> issued == []
    ensures req.pageSize <= MaxPageSize ==>
              var f, p, s := RequestFilter(req), EffectivePage(req.page), EffectivePageSize(req.pageSize);
              && 1 <= p && 1 <= s <= MaxPageSize
              && |issued| == (if found.Some? then 2 else 1)
              && issued[0] == Query(SelectText(Present(f)), SelectArgs(f, p, s))
              && (found.Some? ==> issued[1] == Query(CountText(Present(f)), FilterArgs(f)))
              && (found.None? ==> r == Err(Error(Internal, "LB002")))
              && (found.Some? && total.None? ==> r == Err(Error(Internal, "LB003")))
              && (found.Some? && total.Some? ==>
                    && r.Ok?
                    && |r.value.list| == |found.value|
                    && (forall i :: 0 <= i < |found.value| ==> r.value.list[i] == ToBehavior(found.value[i]))
                    && r.value.total == total.value
                    && r.value.page == p && r.value.size == s)
  {
    var page, pageSize := req.page, req.pageSize;
    if page <= 0 {
      page := 1;
    }
    if pageSize <= 0 {
      pageSize := DefaultPageSize;
    }
    assert page == EffectivePage(req.page) && pageSize == EffectivePageSize(req.pageSize);
    if pageSize > MaxPageSize {
      return Err(Error(InvalidArgument, "LB001")), [];
    }

    var startTime, endTime := None, None;
    if req.startTime > 0 {
      startTime := Some(req.startTime);
    }
    if req.endTime > 0 {
      endTime := Some(req.endTime);
    }
    assert Filter(req.key, req.userId, startTime, endTime) == RequestFilter(req);

    var select := FindListQuery(req.key, req.userId, startTime, endTime, page, pageSize);
    issued := [select];
    if found.None? {
      return Err(Error(Internal, "LB002")), issued;
    }
    var count := CountListQuery(req.key, req.userId, startTime, endTime);
    issued := [select, count];
    if total.None? {
      return Err(Error(Internal, "LB003")), issued;
    }

    var list := ToBehaviors(found.value);
    r := Ok(ListResponse(list, total.value, page, pageSize));
  }
}
