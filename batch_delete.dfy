/** BatchDeleteBehavior: soft-delete up to 100 ids one by one, counting the
    deletions and collecting the ids that could not be deleted. */
module BatchDeleteBehaviorLogic {
  import opened BehaviorTypes
  import opened BehaviorStore
  import opened DeleteBehaviorLogic
  import opened Indices

  datatype BatchDeleteResponse = BatchDeleteResponse(deletedCount: int, failedIds: seq<int>)

  /** A batch as the store meets it: the table before the call, the ids, the
      time at which id i is handled, and whether its FindOne or its Delete errs. */
  datatype Run = Run(rows0: map<int, Row>, ids: seq<int>, clock: nat -> Time,
                     lookupFails: nat -> bool, deleteFails: nat -> bool)

  /** The table after the first k ids have been handled. */
  function After(run: Run, k: nat): (rows: map<int, Row>)
    requires k <= |run.ids|
    ensures rows.Keys == run.rows0.Keys
  {
    if k == 0 then run.rows0
    else
      var rows, id := After(run, k - 1), run.ids[k - 1];
      if id > 0 && !run.lookupFails(k - 1) && LiveIn(rows, id) && !run.deleteFails(k - 1)
      then rows[id := rows[id].(deletedAt := Some(run.clock(k - 1)))]
      else rows
  }

  /** Id i reaches Delete: positive, found, and not yet deleted when its turn comes. */
  predicate AttemptedAt(run: Run, i: nat)
    requires i < |run.ids|
  {
    run.ids[i] > 0 && !run.lookupFails(i) && LiveIn(After(run, i), run.ids[i])
  }

  /** Id i is deleted by this batch. */
  predicate RemovedAt(run: Run, i: nat)
    requires i < |run.ids|
  {
    AttemptedAt(run, i) && !run.deleteFails(i)
  }

  function AttemptedFlags(run: Run): (flags: seq<bool>)
    ensures |flags| == |run.ids|
    ensures forall i :: 0 <= i < |run.ids| ==> (flags[i] <==> AttemptedAt(run, i))
  {
    seq(|run.ids|, i requires 0 <= i < |run.ids| => AttemptedAt(run, i))
  }

  function RemovedFlags(run: Run): (flags: seq<bool>)
    ensures |flags| == |run.ids|
    ensures forall i :: 0 <= i < |run.ids| ==> (flags[i] <==> RemovedAt(run, i))
  {
    seq(|run.ids|, i requires 0 <= i < |run.ids| => RemovedAt(run, i))
  }

  /** Id i was deleted by one of the first k ids handled. */
  predicate RemovedBefore(run: Run, k: nat, id: int)
    requires k <= |run.ids|
  {
    exists j :: 0 <= j < k && RemovedAt(run, j) && run.ids[j] == id
  }

  /** The run never adds or drops a row, and a row is live after k steps
      exactly when it was live before the batch and none of the first k
      deleted it. */
  lemma {:induction false} LiveAfter(run: Run, k: nat, id: int)
    requires k <= |run.ids|
    ensures id in After(run, k) <==> id in run.rows0
    ensures LiveIn(After(run, k), id) <==> LiveIn(run.rows0, id) && !RemovedBefore(run, k, id)
  {
    if k > 0 {
      LiveAfter(run, k - 1, id);
      if RemovedBefore(run, k, id) && !RemovedBefore(run, k - 1, id) {
        assert RemovedAt(run, k - 1) && run.ids[k - 1] == id;
      }
      if RemovedAt(run, k - 1) && run.ids[k - 1] == id {
        assert RemovedBefore(run, k, id);
      }
    }
  }

  /** No row is deleted twice: the positions the batch deletes carry distinct ids. */
  lemma RemovedOnce(run: Run, i: nat, j: nat)
    requires i < j < |run.ids|
    requires RemovedAt(run, i) && RemovedAt(run, j)
    ensures run.ids[i] != run.ids[j]
  {
    LiveAfter(run, j, run.ids[j]);
  }

  /** Which ids the batch deletes, stated without the intermediate tables:
      the positive ids that are found, live before the batch, not deleted
      earlier in the same batch, and whose Delete succeeds. */
  lemma RemovedMeans(run: Run, i: nat)
    requires i < |run.ids|
    ensures RemovedAt(run, i) <==>
              && run.ids[i] > 0 && !run.lookupFails(i) && !run.deleteFails(i)
              && LiveIn(run.rows0, run.ids[i])
              && !RemovedBefore(run, i, run.ids[i])
  {
    LiveAfter(run, i, run.ids[i]);
  }

  /** A row no step up to k deleted is as it was before the batch. */
  lemma {:induction false} RowUntouched(run: Run, k: nat, id: int)
    requires k <= |run.ids|
    requires id in run.rows0 && !RemovedBefore(run, k, id)
    ensures After(run, k)[id] == run.rows0[id]
  {
    if k > 0 {
      assert !(RemovedAt(run, k - 1) && run.ids[k - 1] == id);
      RowUntouched(run, k - 1, id);
    }
  }

  /** The row deleted at position j carries clock(j) as its deletion time and
      is otherwise as it was before the batch, at every later step. */
  lemma {:induction false} RowRemoved(run: Run, k: nat, j: nat)
    requires j < k <= |run.ids|
    requires RemovedAt(run, j)
    ensures run.ids[j] in run.rows0
    ensures After(run, k)[run.ids[j]] == run.rows0[run.ids[j]].(deletedAt := Some(run.clock(j)))
  {
    var id := run.ids[j];
    if j == k - 1 {
      LiveAfter(run, j, id);
      RowUntouched(run, j, id);
    } else {
      RowRemoved(run, k - 1, j);
      if RemovedAt(run, k - 1) {
        RemovedOnce(run, j, k - 1);
      }
    }
  }

  /** The Delete calls for the given positions, in order. */
  ghost function DeleteCalls(ids: seq<int>, positions: seq<nat>): seq<Write>
    requires forall j :: 0 <= j < |positions| ==> positions[j] < |ids|
  {
    seq(|positions|, j requires 0 <= j < |positions| => DeleteOf(ids[positions[j]]))
  }

  lemma DeleteCallsSnoc(ids: seq<int>, positions: seq<nat>, k: nat)
    requires forall j :: 0 <= j < |positions| ==> positions[j] < |ids|
    requires k < |ids|
    ensures DeleteCalls(ids, positions + [k]) == DeleteCalls(ids, positions) + [DeleteOf(ids[k])]
  {
  }

  /** What a batch that passed the size checks leaves behind: every id is
      counted once, the deleted ones in deletedCount and the others, in
      order, in failedIds; each deleted row is stamped with the time of its
      turn and no other row changes; exactly the ids that reached Delete were
      sent to it. */
  ghost predicate Outcome(run: Run, writes0: seq<Write>, rows: map<int, Row>, writes: seq<Write>,
                          resp: BatchDeleteResponse)
  {
    var removed, failed := Where(RemovedFlags(run), true), Where(RemovedFlags(run), false);
    && resp.deletedCount == |removed|
    && resp.failedIds == Pick(run.ids, failed)
    && resp.deletedCount + |resp.failedIds| == |run.ids|
    && rows == After(run, |run.ids|)
    && rows.Keys == run.rows0.Keys
    && (forall i :: 0 <= i < |run.ids| && RemovedAt(run, i) ==>
          run.ids[i] in run.rows0 &&
          rows[run.ids[i]] == run.rows0[run.ids[i]].(deletedAt := Some(run.clock(i))))
    && (forall id :: id in run.rows0 && !RemovedBefore(run, |run.ids|, id) ==> rows[id] == run.rows0[id])
    && writes == writes0 + DeleteCalls(run.ids, Where(AttemptedFlags(run), true))
  }

  /** The state after the first k ids. */
  ghost predicate Sofar(run: Run, writes0: seq<Write>, k: nat, rows: map<int, Row>, writes: seq<Write>,
                        acc: BatchDeleteResponse)
    requires k <= |run.ids|
  {
    && acc.deletedCount == |Where(RemovedFlags(run)[..k], true)|
    && acc.failedIds == Pick(run.ids, Where(RemovedFlags(run)[..k], false))
    && rows == After(run, k)
    && writes == writes0 + DeleteCalls(run.ids, Where(AttemptedFlags(run)[..k], true))
  }

  /** Id k goes to failedIds, with or without a Delete call. */
  lemma StepFailed(run: Run, writes0: seq<Write>, k: nat, rows: map<int, Row>, writes: seq<Write>,
                   acc: BatchDeleteResponse, called: bool)
    requires k < |run.ids|
    requires !RemovedAt(run, k) && called == AttemptedAt(run, k)
    requires Sofar(run, writes0, k, rows, writes, acc)
    ensures Sofar(run, writes0, k + 1, rows, writes + (if called then [DeleteOf(run.ids[k])] else []),
                  acc.(failedIds := acc.failedIds + [run.ids[k]]))
  {
    WhereSnoc(RemovedFlags(run), k, true);
    WhereSnoc(RemovedFlags(run), k, false);
    WhereSnoc(AttemptedFlags(run), k, true);
    PickSnoc(run.ids, Where(RemovedFlags(run)[..k], false), k);
    if called {
      DeleteCallsSnoc(run.ids, Where(AttemptedFlags(run)[..k], true), k);
    }
  }

  /** Id k is deleted. */
  lemma StepRemoved(run: Run, writes0: seq<Write>, k: nat, rows: map<int, Row>, writes: seq<Write>,
                    acc: BatchDeleteResponse)
    requires k < |run.ids|
    requires RemovedAt(run, k)
    requires Sofar(run, writes0, k, rows, writes, acc)
    ensures run.ids[k] in rows
    ensures Sofar(run, writes0, k + 1, rows[run.ids[k] := rows[run.ids[k]].(deletedAt := Some(run.clock(k)))],
                  writes + [DeleteOf(run.ids[k])], acc.(deletedCount := acc.deletedCount + 1))
  {
    WhereSnoc(RemovedFlags(run), k, true);
    WhereSnoc(RemovedFlags(run), k, false);
    WhereSnoc(AttemptedFlags(run), k, true);
    DeleteCallsSnoc(run.ids, Where(AttemptedFlags(run)[..k], true), k);
  }

  /** After the last id, Sofar is the outcome the batch call promises. */
  lemma Finished(run: Run, writes0: seq<Write>, rows: map<int, Row>, writes: seq<Write>, acc: BatchDeleteResponse)
    requires Sofar(run, writes0, |run.ids|, rows, writes, acc)
    ensures Outcome(run, writes0, rows, writes, acc)
  {
    var n := |run.ids|;
    assert RemovedFlags(run)[..n] == RemovedFlags(run) && AttemptedFlags(run)[..n] == AttemptedFlags(run);
    WherePartition(RemovedFlags(run));
    forall i | 0 <= i < n && RemovedAt(run, i)
      ensures run.ids[i] in run.rows0 &&
              rows[run.ids[i]] == run.rows0[run.ids[i]].(deletedAt := Some(run.clock(i)))
    {
      RowRemoved(run, n, i);
    }
    forall id | id in run.rows0 && !RemovedBefore(run, n, id)
      ensures rows[id] == run.rows0[id]
    {
      RowUntouched(run, n, id);
    }
  }

  /** One turn of the loop: the checks of DeleteBehavior, then Delete. */
  method DeleteNext(store: Store, ids: seq<int>, k: nat, clock: nat -> Time,
                    lookupFails: nat -> bool, deleteFails: nat -> bool, acc: BatchDeleteResponse,
                    ghost rows0: map<int, Row>, ghost writes0: seq<Write>)
    returns (next: BatchDeleteResponse)
    requires k < |ids|
    requires store.Valid()
    requires Sofar(Run(rows0, ids, clock, lookupFails, deleteFails), writes0, k, store.rows, store.writes, acc)
    modifies store
    ensures store.Valid() && store.nextId == old(store.nextId)
    ensures Sofar(Run(rows0, ids, clock, lookupFails, deleteFails), writes0, k + 1, store.rows, store.writes, next)
  {
    ghost var run := Run(rows0, ids, clock, lookupFails, deleteFails);
    ghost var rowsK, writesK := store.rows, store.writes;
    var id := ids[k];
    if DeleteGuard(store, id, lookupFails(k)).Some? {
      StepFailed(run, writes0, k, rowsK, writesK, acc, false);
      return acc.(failedIds := acc.failedIds + [id]);
    }
    var ok := store.Delete(id, clock(k), deleteFails(k));
    if !ok {
      StepFailed(run, writes0, k, rowsK, writesK, acc, true);
      return acc.(failedIds := acc.failedIds + [id]);
    }
    StepRemoved(run, writes0, k, rowsK, writesK, acc);
    next := acc.(deletedCount := acc.deletedCount + 1);
  }

  /** BatchDeleteBehavior(ids). Id i is handled at time clock(i); its FindOne
      errs (other than ErrNotFound) when lookupFails(i), its Delete when
      deleteFails(i). */
  method BatchDeleteBehavior(store: Store, ids: seq<int>, clock: nat -> Time,
                             lookupFails: nat -> bool, deleteFails: nat -> bool)
    returns (r: Result<BatchDeleteResponse>)
    requires store.Valid()
    modifies store
    ensures store.Valid() && store.nextId == old(store.nextId)
    ensures |ids| == 0 ==> r == Err(Error(InvalidArgument, "BDB001")) && unchanged(store)
    ensures |ids| > MaxBatch ==> r == Err(Error(InvalidArgument, "BDB002")) && unchanged(store)
    ensures 0 < |ids| <= MaxBatch ==>
              && r.Ok?
              && Outcome(Run(old(store.rows), ids, clock, lookupFails, deleteFails), old(store.writes),
                         store.rows, store.writes, r.value)
  {
    if |ids| == 0 {
      return Err(Error(InvalidArgument, "BDB001"));
    }
    if |ids| > MaxBatch {
      return Err(Error(InvalidArgument, "BDB002"));
    }
    ghost var run := Run(store.rows, ids, clock, lookupFails, deleteFails);
    ghost var rows0, nextId0, writes0 := store.rows, store.nextId, store.writes;
    var acc := BatchDeleteResponse(0, []);
    assert RemovedFlags(run)[..0] == [] && AttemptedFlags(run)[..0] == [];
    var k := 0;
    while k < |ids|
      invariant 0 <= k <= |ids|
      invariant store.Valid() && store.nextId == nextId0
      invariant Sofar(run, writes0, k, store.rows, store.writes, acc)
    {
      acc := DeleteNext(store, ids, k, clock, lookupFails, deleteFails, acc, rows0, writes0);
      k := k + 1;
    }
    Finished(run, writes0, store.rows, store.writes, acc);
    r := Ok(acc);
  }
}
