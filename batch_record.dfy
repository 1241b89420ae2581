/** BatchRecordBehavior: validate and insert up to 100 items one by one,
    sorting each into the success list or the failure list. */
module BatchRecordBehaviorLogic {
  import opened BehaviorTypes
  import opened BehaviorStore
  import opened GetBehaviorLogic
  import opened RecordBehaviorLogic
  import opened Indices

  datatype BatchRecordResponse = BatchRecordResponse(successCount: int, failCount: int,
                                                     successList: seq<RecordResponse>,
                                                     failList: seq<RecordRequest>)

  /** Which items pass validation. */
  function ValidFlags(items: seq<RecordRequest>): (flags: seq<bool>)
    ensures |flags| == |items|
    ensures forall i :: 0 <= i < |items| ==> (flags[i] <==> ValidRecord(items[i]))
  {
    seq(|items|, i requires 0 <= i < |items| => ValidRecord(items[i]))
  }

  /** Which items end up recorded: valid, and their insert succeeds. */
  function AcceptedFlags(items: seq<RecordRequest>, insertFails: nat -> bool): (flags: seq<bool>)
    ensures |flags| == |items|
    ensures forall i :: 0 <= i < |items| ==> (flags[i] <==> ValidRecord(items[i]) && !insertFails(i))
  {
    seq(|items|, i requires 0 <= i < |items| => ValidRecord(items[i]) && !insertFails(i))
  }

  /** The success entries for the accepted positions, the j-th accepted item
      having been given id base + j. */
  function Responses(accepted: seq<nat>, base: int, idUnavailable: nat -> bool): seq<RecordResponse>
  {
    seq(|accepted|, j requires 0 <= j < |accepted| =>
      RecordResponse(true, if idUnavailable(accepted[j]) then 0 else base + j))
  }

  /** The Insert calls for the given positions, in order. */
  ghost function InsertCalls(items: seq<RecordRequest>, positions: seq<nat>, clock: nat -> Time): seq<Write>
    requires forall j :: 0 <= j < |positions| ==> positions[j] < |items|
  {
    seq(|positions|, j requires 0 <= j < |positions| =>
      InsertOf(NewRow(0, items[positions[j]], clock(positions[j]))))
  }

  lemma ResponsesSnoc(accepted: seq<nat>, k: nat, base: int, idUnavailable: nat -> bool)
    ensures Responses(accepted + [k], base, idUnavailable) ==
            Responses(accepted, base, idUnavailable) + [RecordResponse(true, if idUnavailable(k) then 0 else base + |accepted|)]
  {
  }

  lemma InsertCallsSnoc(items: seq<RecordRequest>, positions: seq<nat>, k: nat, clock: nat -> Time)
    requires forall j :: 0 <= j < |positions| ==> positions[j] < |items|
    requires k < |items|
    ensures InsertCalls(items, positions + [k], clock) ==
            InsertCalls(items, positions, clock) + [InsertOf(NewRow(0, items[k], clock(k)))]
  {
  }

  /** What a batch that passed the size checks leaves behind: every item is
      counted once, the accepted items (valid, insert succeeded) are the
      success list in order with consecutive ids from base, the others are the
      failure list in order, the accepted rows are added and no other row
      changes, and every valid item was sent to Insert. */
  ghost predicate Outcome(items: seq<RecordRequest>, insertFails: nat -> bool,
                          clock: nat -> Time, idUnavailable: nat -> bool,
                          rows0: map<int, Row>, base: int, writes0: seq<Write>,
                          rows: map<int, Row>, nextId: int, writes: seq<Write>, resp: BatchRecordResponse)
  {
    var accepted, rejected := Where(AcceptedFlags(items, insertFails), true),
                              Where(AcceptedFlags(items, insertFails), false);
    && resp.successCount == |accepted| && resp.failCount == |rejected|
    && resp.successCount + resp.failCount == |items|
    && resp.successList == Responses(accepted, base, idUnavailable)
    && resp.failList == Pick(items, rejected)
    && nextId == base + |accepted|
    && (forall id :: id in rows <==> id in rows0 || base <= id < base + |accepted|)
    && (forall id :: id in rows0 ==> rows[id] == rows0[id])
    && (forall j :: 0 <= j < |accepted| ==>
          rows[base + j] == NewRow(base + j, items[accepted[j]], clock(accepted[j])))
    && writes == writes0 + InsertCalls(items, Where(ValidFlags(items), true), clock)
  }

  /** The state after the first k items: the response built so far, the
      table and the call trace. */
  ghost predicate Sofar(items: seq<RecordRequest>, flags: seq<bool>, valid: seq<bool>,
                        clock: nat -> Time, idUnavailable: nat -> bool,
                        rows0: map<int, Row>, base: int, writes0: seq<Write>, k: nat,
                        rows: map<int, Row>, nextId: int, writes: seq<Write>, acc: BatchRecordResponse)
    requires k <= |items| == |flags| == |valid|
  {
    && acc.successCount == |Where(flags[..k], true)| && acc.failCount == |Where(flags[..k], false)|
    && acc.successList == Responses(Where(flags[..k], true), base, idUnavailable)
    && acc.failList == Pick(items, Where(flags[..k], false))
    && nextId == base + acc.successCount
    && (forall id :: id in rows <==> id in rows0 || base <= id < nextId)
    && (forall id :: id in rows0 ==> rows[id] == rows0[id])
    && (forall j :: 0 <= j < acc.successCount ==>
          rows[base + j] == NewRow(base + j, items[Where(flags[..k], true)[j]], clock(Where(flags[..k], true)[j])))
    && writes == writes0 + InsertCalls(items, Where(valid[..k], true), clock)
  }

  /** Item k goes to the failure list, with or without an Insert call. */
  lemma StepFailed(items: seq<RecordRequest>, flags: seq<bool>, valid: seq<bool>,
                   clock: nat -> Time, idUnavailable: nat -> bool,
                   rows0: map<int, Row>, base: int, writes0: seq<Write>, k: nat,
                   rows: map<int, Row>, nextId: int, writes: seq<Write>, acc: BatchRecordResponse, called: bool)
    requires k < |items| == |flags| == |valid|
    requires !flags[k] && called == valid[k]
    requires Sofar(items, flags, valid, clock, idUnavailable, rows0, base, writes0, k, rows, nextId, writes, acc)
    ensures Sofar(items, flags, valid, clock, idUnavailable, rows0, base, writes0, k + 1,
                  rows, nextId, writes + (if called then [InsertOf(NewRow(0, items[k], clock(k)))] else []),
                  acc.(failList := acc.failList + [items[k]], failCount := acc.failCount + 1))
  {
    WhereSnoc(flags, k, true);
    WhereSnoc(flags, k, false);
    WhereSnoc(valid, k, true);
    PickSnoc(items, Where(flags[..k], false), k);
    if called {
      InsertCallsSnoc(items, Where(valid[..k], true), k, clock);
    }
  }

  /** Item k is inserted under id nextId and goes to the success list. */
  lemma StepRecorded(items: seq<RecordRequest>, flags: seq<bool>, valid: seq<bool>,
                     clock: nat -> Time, idUnavailable: nat -> bool,
                     rows0: map<int, Row>, base: int, writes0: seq<Write>, k: nat,
                     rows: map<int, Row>, nextId: int, writes: seq<Write>, acc: BatchRecordResponse)
    requires k < |items| == |flags| == |valid|
    requires flags[k] && valid[k]
    requires forall id :: id in rows0 ==> id < base
    requires Sofar(items, flags, valid, clock, idUnavailable, rows0, base, writes0, k, rows, nextId, writes, acc)
    ensures Sofar(items, flags, valid, clock, idUnavailable, rows0, base, writes0, k + 1,
                  rows[nextId := NewRow(nextId, items[k], clock(k))], nextId + 1,
                  writes + [InsertOf(NewRow(0, items[k], clock(k)))],
                  acc.(successList := acc.successList + [RecordResponse(true, if idUnavailable(k) then 0 else nextId)],
                       successCount := acc.successCount + 1))
  {
    WhereSnoc(flags, k, true);
    WhereSnoc(flags, k, false);
    WhereSnoc(valid, k, true);
    ResponsesSnoc(Where(flags[..k], true), k, base, idUnavailable);
    InsertCallsSnoc(items, Where(valid[..k], true), k, clock);
  }

  /** After the last item, Sofar is the outcome the batch call promises. */
  lemma Finished(items: seq<RecordRequest>, insertFails: nat -> bool,
                 clock: nat -> Time, idUnavailable: nat -> bool,
                 rows0: map<int, Row>, base: int, writes0: seq<Write>,
                 rows: map<int, Row>, nextId: int, writes: seq<Write>, acc: BatchRecordResponse)
    requires Sofar(items, AcceptedFlags(items, insertFails), ValidFlags(items), clock, idUnavailable,
                   rows0, base, writes0, |items|, rows, nextId, writes, acc)
    ensures Outcome(items, insertFails, clock, idUnavailable, rows0, base, writes0, rows, nextId, writes, acc)
  {
    var flags, valid := AcceptedFlags(items, insertFails), ValidFlags(items);
    assert flags[..|items|] == flags && valid[..|items|] == valid;
    WherePartition(flags);
  }

  /** One turn of the loop: validate item k, insert it, and file it under
      the success or the failure list. */
  method RecordNext(store: Store, items: seq<RecordRequest>, k: nat, clock: nat -> Time,
                    insertFails: nat -> bool, idUnavailable: nat -> bool, acc: BatchRecordResponse,
                    ghost rows0: map<int, Row>, ghost base: int, ghost writes0: seq<Write>)
    returns (next: BatchRecordResponse)
    requires k < |items|
    requires store.Valid() && forall id :: id in rows0 ==> id < base
    requires Sofar(items, AcceptedFlags(items, insertFails), ValidFlags(items), clock, idUnavailable,
                   rows0, base, writes0, k, store.rows, store.nextId, store.writes, acc)
    modifies store
    ensures store.Valid()
    ensures Sofar(items, AcceptedFlags(items, insertFails), ValidFlags(items), clock, idUnavailable,
                  rows0, base, writes0, k + 1, store.rows, store.nextId, store.writes, next)
  {
    ghost var flags, valid := AcceptedFlags(items, insertFails), ValidFlags(items);
    ghost var rowsK, nextK, writesK := store.rows, store.nextId, store.writes;
    var item := items[k];
    if CheckRecord(item).Some? {
      StepFailed(items, flags, valid, clock, idUnavailable, rows0, base, writes0, k,
                 rowsK, nextK, writesK, acc, false);
      next := acc.(failList := acc.failList + [item], failCount := acc.failCount + 1);
    } else {
      var ok, id := store.Insert(NewRow(0, item, clock(k)), insertFails(k));
      if !ok {
        StepFailed(items, flags, valid, clock, idUnavailable, rows0, base, writes0, k,
                   rowsK, nextK, writesK, acc, true);
        next := acc.(failList := acc.failList + [item], failCount := acc.failCount + 1);
      } else {
        StepRecorded(items, flags, valid, clock, idUnavailable, rows0, base, writes0, k,
                     rowsK, nextK, writesK, acc);
        if idUnavailable(k) {
          id := 0;
        }
        next := acc.(successList := acc.successList + [RecordResponse(true, id)], successCount := acc.successCount + 1);
      }
    }
  }

  /** BatchRecordBehavior(items). Item i is handled at time clock(i); its
      Insert errs when insertFails(i) and its LastInsertId when idUnavailable(i). */
  method BatchRecordBehavior(store: Store, items: seq<RecordRequest>, clock: nat -> Time,
                             insertFails: nat -> bool, idUnavailable: nat -> bool)
    returns (r: Result<BatchRecordResponse>)
    requires store.Valid()
    modifies store
    ensures store.Valid()
    ensures |items| == 0 ==> r == Err(Error(InvalidArgument, "BRB001")) && unchanged(store)
    ensures |items| > MaxBatch ==> r == Err(Error(InvalidArgument, "BRB002")) && unchanged(store)
    ensures 0 < |items| <= MaxBatch ==>
              && r.Ok?
              && Outcome(items, insertFails, clock, idUnavailable, old(store.rows), old(store.nextId), old(store.writes),
                         store.rows, store.nextId, store.writes, r.value)
  {
    if |items| == 0 {
      return Err(Error(InvalidArgument, "BRB001"));
    }
    if |items| > MaxBatch {
      return Err(Error(InvalidArgument, "BRB002"));
    }
    ghost var flags, valid := AcceptedFlags(items, insertFails), ValidFlags(items);
    ghost var rows0, base, writes0 := store.rows, store.nextId, store.writes;
    var acc := BatchRecordResponse(0, 0, [], []);
    assert flags[..0] == [] && valid[..0] == [];
    var k := 0;
    while k < |items|
      invariant 0 <= k <= |items|
      invariant store.Valid() && forall id :: id in rows0 ==> id < base
      invariant Sofar(items, flags, valid, clock, idUnavailable, rows0, base, writes0, k,
                      store.rows, store.nextId, store.writes, acc)
    {
      acc := RecordNext(store, items, k, clock, insertFails, idUnavailable, acc, rows0, base, writes0);
      k := k + 1;
    }
    Finished(items, insertFails, clock, idUnavailable, rows0, base, writes0,
             store.rows, store.nextId, store.writes, acc);
    r := Ok(acc);
  }

  /** Every success whose id is known fetches back, through GetBehavior, as
      exactly the item recorded at its position and time. */
  lemma RecordedFetchBack(store: Store, items: seq<RecordRequest>, insertFails: nat -> bool,
                          clock: nat -> Time, idUnavailable: nat -> bool,
                          rows0: map<int, Row>, base: int, writes0: seq<Write>, resp: BatchRecordResponse)
    requires base >= 1
    requires Outcome(items, insertFails, clock, idUnavailable, rows0, base, writes0,
                     store.rows, store.nextId, store.writes, resp)
    ensures forall j :: 0 <= j < |resp.successList| && resp.successList[j].id != 0 ==>
              var i := Where(AcceptedFlags(items, insertFails), true)[j];
              GetBehavior(store, resp.successList[j].id, false) ==
                Ok(Behavior(base + j, items[i].key, items[i].userId, items[i].data, clock(i), clock(i)))
  {
  }

  /** Invalid items never reach the store: every Insert the batch makes is
      for a valid item, built from that item at its own time. */
  lemma {:induction false} OnlyValidInserted(items: seq<RecordRequest>, insertFails: nat -> bool,
                                             clock: nat -> Time, idUnavailable: nat -> bool,
                                             rows0: map<int, Row>, base: int, writes0: seq<Write>,
                                             rows: map<int, Row>, nextId: int, writes: seq<Write>,
                                             resp: BatchRecordResponse)
    requires Outcome(items, insertFails, clock, idUnavailable, rows0, base, writes0, rows, nextId, writes, resp)
    ensures |writes0| <= |writes|
    ensures forall j :: |writes0| <= j < |writes| ==>
              exists i :: 0 <= i < |items| && ValidRecord(items[i]) && writes[j] == InsertOf(NewRow(0, items[i], clock(i)))
  {
    var positions := Where(ValidFlags(items), true);
    WhereSpec(ValidFlags(items), true);
    forall j | |writes0| <= j < |writes|
      ensures exists i :: 0 <= i < |items| && ValidRecord(items[i]) && writes[j] == InsertOf(NewRow(0, items[i], clock(i)))
    {
      var i := positions[j - |writes0|];
      assert i in positions;
      assert 0 <= i < |items| && ValidFlags(items)[i];
      assert writes[j] == InsertOf(NewRow(0, items[i], clock(i)));
    }
    assert forall j :: |writes0| <= j < |writes| ==>
              exists i :: 0 <= i < |items| && ValidRecord(items[i]) && writes[j] == InsertOf(NewRow(0, items[i], clock(i)));
  }
}
