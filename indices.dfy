/** Positions in a batch: the batch handlers sort each item into a success
    or a failure collection, and their results are described by the list of
    positions of each kind. */
module Indices {

  /** The positions i of flags with flags[i] == want, ascending. */
  function Where(flags: seq<bool>, want: bool): (r: seq<nat>)
    ensures |r| <= |flags|
    ensures forall j :: 0 <= j < |r| ==> r[j] < |flags|
  {
    if flags == [] then []
    else Where(flags[..|flags| - 1], want) + (if flags[|flags| - 1] == want then [|flags| - 1] else [])
  }

  /** Where grows one position at a time along a prefix. */
  lemma WhereSnoc(flags: seq<bool>, k: nat, want: bool)
    requires k < |flags|
    ensures Where(flags[..k + 1], want) == Where(flags[..k], want) + (if flags[k] == want then [k] else [])
  {
    assert flags[..k + 1][..k] == flags[..k];
  }

  /** Where lists exactly the positions holding `want`, in increasing order. */
  lemma {:induction false} WhereSpec(flags: seq<bool>, want: bool)
    ensures forall i :: i in Where(flags, want) <==> 0 <= i < |flags| && flags[i] == want
    ensures forall a, b :: 0 <= a < b < |Where(flags, want)| ==> Where(flags, want)[a] < Where(flags, want)[b]
    decreases |flags|
  {
    if flags != [] {
      var init := flags[..|flags| - 1];
      WhereSpec(init, want);
      assert forall i :: 0 <= i < |init| ==> init[i] == flags[i];
    }
  }

  /** Every position lands on exactly one side. */
  lemma {:induction false} WherePartition(flags: seq<bool>)
    ensures |Where(flags, true)| + |Where(flags, false)| == |flags|
    decreases |flags|
  {
    if flags != [] {
      WherePartition(flags[..|flags| - 1]);
    }
  }

  /** The elements of s at the given positions, in that order. */
  function Pick<T>(s: seq<T>, positions: seq<nat>): (r: seq<T>)
    requires forall j :: 0 <= j < |positions| ==> positions[j] < |s|
    ensures |r| == |positions|
    ensures forall j :: 0 <= j < |positions| ==> r[j] == s[positions[j]]
  {
    seq(|positions|, j requires 0 <= j < |positions| => s[positions[j]])
  }

  /** Picking one more position appends its element. */
  lemma PickSnoc<T>(s: seq<T>, positions: seq<nat>, k: nat)
    requires forall j :: 0 <= j < |positions| ==> positions[j] < |s|
    requires k < |s|
    ensures Pick(s, positions + [k]) == Pick(s, positions) + [s[k]]
  {
  }
}
