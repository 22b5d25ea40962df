/** Repairing a stored list in which rows share an id. */
module IdRepair {
  import opened Common
  import opened Servers

  /** The id stands among the first `i`. */
  predicate Among(ids: seq<string>, i: nat, id: string)
    requires i <= |ids|
  {
    i > 0 && (ids[i - 1] == id || Among(ids, i - 1, id))
  }

  lemma {:induction false} AmongIs(ids: seq<string>, i: nat, k: nat)
    requires k < i <= |ids|
    ensures Among(ids, i, ids[k])
  {
    if k < i - 1 {
      AmongIs(ids, i - 1, k);
    }
  }

  lemma {:induction false} AmongWhere(ids: seq<string>, i: nat, id: string) returns (k: nat)
    requires i <= |ids| && Among(ids, i, id)
    ensures k < i && ids[k] == id
  {
    if ids[i - 1] == id {
      k := i - 1;
    } else {
      k := AmongWhere(ids, i - 1, id);
    }
  }

  /** No earlier row has the id. */
  predicate First(ids: seq<string>, i: nat)
    requires i < |ids|
  {
    !Among(ids, i, ids[i])
  }

  /** A row keeps everything but its id, and that exactly if no earlier row has it. */
  ghost predicate Repaired(before: seq<Node>, after: seq<Node>) {
    && |after| == |before|
    && (forall i :: 0 <= i < |after| ==> after[i] == before[i].(id := after[i].id))
    && (forall i :: 0 <= i < |after| ==> (after[i].id == before[i].id <==> First(Ids(before), i)))
  }

  /** Random ids enough for every row, no two alike and none in use. */
  ghost predicate Unused(ids: seq<string>, uuids: seq<string>) {
    && |uuids| >= |ids| && Distinct(uuids)
    && forall j, k :: 0 <= j < |uuids| && 0 <= k < |ids| ==> uuids[j] != ids[k]
  }

  /** How many of the first `i` rows are not the first of their id. */
  function Repeats(ids: seq<string>, i: nat): (n: nat)
    requires i <= |ids|
    ensures n <= i
  {
    if i == 0 then 0 else Repeats(ids, i - 1) + if First(ids, i - 1) then 0 else 1
  }

  /** The ids once `i` rows are done: the others get the random ones, in turn. */
  function Renewed(ids: seq<string>, uuids: seq<string>, i: nat): (r: seq<string>)
    requires i <= |ids| <= |uuids|
    ensures |r| == |ids|
    ensures forall k :: i <= k < |ids| ==> r[k] == ids[k]
    ensures forall k :: 0 <= k < i ==> r[k] == if First(ids, k) then ids[k] else uuids[Repeats(ids, k)]
  {
    if i == 0 then ids
    else
      var r := Renewed(ids, uuids, i - 1);
      if First(ids, i - 1) then r else r[i - 1 := uuids[Repeats(ids, i - 1)]]
  }

  lemma {:induction false} RepeatsGrow(ids: seq<string>, j: nat, k: nat)
    requires j < k <= |ids|
    ensures Repeats(ids, j) + (if First(ids, j) then 0 else 1) <= Repeats(ids, k)
  {
    if j + 1 < k {
      RepeatsGrow(ids, j, k - 1);
    }
  }

  lemma RenewedDiffer(ids: seq<string>, uuids: seq<string>, j: nat, k: nat)
    requires Unused(ids, uuids) && j < k < |ids|
    ensures Renewed(ids, uuids, |ids|)[j] != Renewed(ids, uuids, |ids|)[k]
  {
    AmongIs(ids, k, j);
    RepeatsGrow(ids, j, k);
  }

  /** The set of ids seen holds, of the ids of the list, exactly those of the rows done. */
  ghost predicate SeenAt(ids: seq<string>, i: nat, seen: set<string>) {
    i <= |ids| && forall k :: 0 <= k < |ids| ==> (ids[k] in seen <==> Among(ids, i, ids[k]))
  }

  lemma SeenStep(ids: seq<string>, i: nat, seen: set<string>, uuids: seq<string>, n: nat)
    requires Unused(ids, uuids) && SeenAt(ids, i, seen) && i < |ids| && n < |uuids|
    ensures ids[i] in seen <==> !First(ids, i)
    ensures ids[i] in seen ==> SeenAt(ids, i + 1, seen + {uuids[n]})
    ensures ids[i] !in seen ==> SeenAt(ids, i + 1, seen + {ids[i]})
  {}

  /** The rows once `i` are done. */
  ghost predicate RowsAt(nodes: seq<Node>, r: seq<Node>, ids: seq<string>) {
    |r| == |nodes| == |ids| && forall k :: 0 <= k < |r| ==> r[k] == nodes[k].(id := ids[k])
  }

  /** The state of the loop when `i` rows are done. */
  ghost predicate DoneTo(nodes: seq<Node>, uuids: seq<string>, i: nat, r: seq<Node>, seen: set<string>, used: nat) {
    var ids := Ids(nodes);
    && i <= |ids| <= |uuids| && RowsAt(nodes, r, Renewed(ids, uuids, i)) && SeenAt(ids, i, seen)
    && used == Repeats(ids, i)
  }

  /** One more row is done: it keeps its id or gets the next random one. */
  lemma DoneStep(nodes: seq<Node>, uuids: seq<string>, i: nat, r: seq<Node>, seen: set<string>, used: nat)
    requires DoneTo(nodes, uuids, i, r, seen, used) && Unused(Ids(nodes), uuids) && i < |nodes|
    ensures i < |r| && used < |uuids|
    ensures r[i].id in seen ==>
      DoneTo(nodes, uuids, i + 1, r[i := r[i].(id := uuids[used])], seen + {uuids[used]}, used + 1)
    ensures r[i].id !in seen ==> DoneTo(nodes, uuids, i + 1, r, seen + {r[i].id}, used)
  {
    SeenStep(Ids(nodes), i, seen, uuids, used);
  }

  lemma AllDone(nodes: seq<Node>, uuids: seq<string>, r: seq<Node>, seen: set<string>, used: nat)
    requires DoneTo(nodes, uuids, |nodes|, r, seen, used)
    ensures |r| == |nodes| && forall k :: 0 <= k < |r| ==> r[k] == nodes[k].(id := r[k].id)
    ensures Ids(r) == Renewed(Ids(nodes), uuids, |nodes|) && used == Repeats(Ids(nodes), |nodes|)
  {}

  method Repair(nodes: seq<Node>, uuids: seq<string>) returns (r: seq<Node>, repaired: bool)
    requires Unused(Ids(nodes), uuids)
    ensures |r| == |nodes| && forall k :: 0 <= k < |r| ==> r[k] == nodes[k].(id := r[k].id)
    ensures Ids(r) == Renewed(Ids(nodes), uuids, |nodes|)
    ensures repaired <==> Repeats(Ids(nodes), |nodes|) > 0
  {
    var seen: set<string> := {};
    var used := 0;
    r, repaired := nodes, false;
    for i := 0 to |nodes|
      invariant DoneTo(nodes, uuids, i, r, seen, used) && repaired == (used > 0)
    {
      DoneStep(nodes, uuids, i, r, seen, used);
      var id := r[i].id;
      if id in seen {
        r := r[i := r[i].(id := uuids[used])];
        seen := seen + {uuids[used]};
        used := used + 1;
        repaired := true;
      } else {
        seen := seen + {id};
      }
    }
    AllDone(nodes, uuids, r, seen, used);
  }

  lemma {:induction false} SomeRepeat(ids: seq<string>, i: nat)
    requires i <= |ids|
    ensures Repeats(ids, i) > 0 <==> exists k :: 0 <= k < i && !First(ids, k)
  {
    if i > 0 {
      SomeRepeat(ids, i - 1);
    }
  }

  lemma DistinctIsFirst(ids: seq<string>)
    ensures Distinct(ids) <==> forall k :: 0 <= k < |ids| ==> First(ids, k)
  {
    if Distinct(ids) {
      forall k | 0 <= k < |ids|
        ensures First(ids, k)
      {
        if !First(ids, k) {
          var j := AmongWhere(ids, k, ids[k]);
        }
      }
    } else {
      var i, j :| 0 <= i < j < |ids| && ids[i] == ids[j];
      AmongIs(ids, j, i);
      assert !First(ids, j);
    }
  }

  /** After the repair no two rows share an id, the first row of every id has kept it, and a
      list that was in order is as it was. */
  lemma RepairIs(nodes: seq<Node>, uuids: seq<string>, r: seq<Node>)
    requires Unused(Ids(nodes), uuids)
    requires |r| == |nodes| && forall k :: 0 <= k < |r| ==> r[k] == nodes[k].(id := r[k].id)
    requires Ids(r) == Renewed(Ids(nodes), uuids, |nodes|)
    ensures Repaired(nodes, r) && Distinct(Ids(r))
    ensures Distinct(Ids(nodes)) <==> Repeats(Ids(nodes), |nodes|) == 0
    ensures Distinct(Ids(nodes)) ==> r == nodes
  {
    var ids := Ids(nodes);
    forall j, k | 0 <= j < k < |ids|
      ensures Ids(r)[j] != Ids(r)[k]
    {
      RenewedDiffer(ids, uuids, j, k);
    }
    forall i | 0 <= i < |r|
      ensures r[i].id == nodes[i].id <==> First(ids, i)
    {
      assert r[i].id == Renewed(ids, uuids, |nodes|)[i];
    }
    SomeRepeat(ids, |ids|);
    DistinctIsFirst(ids);
    if Distinct(ids) {
      forall i | 0 <= i < |r|
        ensures r[i] == nodes[i]
      {
        assert First(ids, i);
      }
    }
  }
}
