/** How dsim_hash_storage_select cuts a batch of ids into runs, and what a batch update
    or removal amounts to when carried out run by run. */
module Selections {
  import opened Common
  import opened DynArrays
  import opened Stores

  /** One callback: the batch positions [pos, pos+count) are the rows [begin, begin+count),
      or the single position `pos` is a miss, with INVALID for block and row. */
  datatype Run = Run(pos: nat, block: nat, begin: nat, count: nat)

  /** How many further ids of the batch sit in consecutive rows. */
  function Extent(keys: seq<Uint64>, ids: seq<Uint64>, row: nat, i: nat): nat
    decreases |ids| - i
  {
    if i < |ids| && row < |keys| && keys[row] == ids[i] then 1 + Extent(keys, ids, row + 1, i + 1) else 0
  }

  function NextRun(keys: seq<Uint64>, ids: seq<Uint64>, i: nat): Run
    requires i < |ids|
  {
    if ids[i] !in keys then Run(i, INVALID, INVALID, 1)
    else
      var row := IndexOf(keys, ids[i]);
      Run(i, 0, row, 1 + Extent(keys, ids, row + 1, i + 1))
  }

  lemma SliceCons(keys: seq<Uint64>, row: nat, ids: seq<Uint64>, i: nat, n: nat)
    requires row + 1 + n <= |keys| && i + 1 + n <= |ids|
    ensures keys[row] == ids[i] && keys[row + 1..row + 1 + n] == ids[i + 1..i + 1 + n]
      <==> keys[row..row + (1 + n)] == ids[i..i + (1 + n)]
  {
    assert keys[row..row + (1 + n)] == [keys[row]] + keys[row + 1..row + 1 + n];
    assert ids[i..i + (1 + n)] == [ids[i]] + ids[i + 1..i + 1 + n];
  }

  lemma SliceAt(keys: seq<Uint64>, row: nat, ids: seq<Uint64>, i: nat, n: nat, k: nat)
    requires row + n <= |keys| && i + n <= |ids| && k < n
    requires keys[row..row + n] == ids[i..i + n]
    ensures keys[row + k] == ids[i + k]
  {
    assert keys[row..row + n][k] == ids[i..i + n][k];
  }

  lemma {:induction false} ExtentIsLongest(keys: seq<Uint64>, ids: seq<Uint64>, row: nat, i: nat)
    requires row <= |keys| && i <= |ids|
    ensures var n := Extent(keys, ids, row, i);
      && row + n <= |keys| && i + n <= |ids|
      && keys[row..row + n] == ids[i..i + n]
      && (row + n < |keys| && i + n < |ids| ==> keys[row + n] != ids[i + n])
    decreases |ids| - i
  {
    if i < |ids| && row < |keys| && keys[row] == ids[i] {
      ExtentIsLongest(keys, ids, row + 1, i + 1);
      var n := Extent(keys, ids, row + 1, i + 1);
      SliceCons(keys, row, ids, i, n);
    }
  }

  /** A run is the longest stretch of the batch that is a stretch of rows; a miss is one
      absent id. */
  ghost predicate Describes(r: Run, keys: seq<Uint64>, ids: seq<Uint64>) {
    && r.count >= 1 && r.pos + r.count <= |ids|
    && (if ids[r.pos] !in keys then r == Run(r.pos, INVALID, INVALID, 1)
        else
          && r.block == 0 && r.begin + r.count <= |keys|
          && keys[r.begin..r.begin + r.count] == ids[r.pos..r.pos + r.count]
          && (r.begin + r.count < |keys| && r.pos + r.count < |ids| ==> keys[r.begin + r.count] != ids[r.pos + r.count]))
  }

  lemma NextRunDescribes(keys: seq<Uint64>, ids: seq<Uint64>, i: nat)
    requires i < |ids|
    ensures Describes(NextRun(keys, ids, i), keys, ids) && NextRun(keys, ids, i).pos == i
  {
    if ids[i] in keys {
      var row := IndexOf(keys, ids[i]);
      ExtentIsLongest(keys, ids, row + 1, i + 1);
      SliceCons(keys, row, ids, i, Extent(keys, ids, row + 1, i + 1));
    }
  }

  /** All callbacks from batch position i on, against ids that do not change. */
  function Runs(keys: seq<Uint64>, ids: seq<Uint64>, i: nat): seq<Run>
    decreases |ids| - i
  {
    if i >= |ids| then []
    else
      var r := NextRun(keys, ids, i);
      [r] + Runs(keys, ids, i + r.count)
  }

  lemma RunsStep(keys: seq<Uint64>, batch: seq<Uint64>, i: nat)
    requires i < |batch|
    ensures var r := NextRun(keys, batch, i); Runs(keys, batch, i) == [r] + Runs(keys, batch, i + r.count)
  {
  }

  /** The runs follow each other without gap or overlap from position i to the end. */
  ghost predicate Tiles(runs: seq<Run>, i: nat, end: nat) {
    if runs == [] then i == end
    else runs[0].pos == i && runs[0].count >= 1 && Tiles(runs[1..], i + runs[0].count, end)
  }

  lemma {:induction false} RunsTileTheBatch(keys: seq<Uint64>, ids: seq<Uint64>, i: nat)
    requires i <= |ids|
    ensures Tiles(Runs(keys, ids, i), i, |ids|)
    ensures forall k :: 0 <= k < |Runs(keys, ids, i)| ==> Describes(Runs(keys, ids, i)[k], keys, ids)
    decreases |ids| - i
  {
    if i < |ids| {
      hide NextRun, Runs, Tiles;
      var r := NextRun(keys, ids, i);
      NextRunDescribes(keys, ids, i);
      RunsStep(keys, ids, i);
      hide Describes;
      RunsTileTheBatch(keys, ids, i + r.count);
      TilesOn(r, Runs(keys, ids, i + r.count), |ids|);
    }
  }

  lemma TilesOn(r: Run, rest: seq<Run>, end: nat)
    requires r.count >= 1 && Tiles(rest, r.pos + r.count, end)
    ensures Tiles([r] + rest, r.pos, end)
  {
    assert ([r] + rest)[1..] == rest;
  }

  /** The update callback tests the batch position, which is never INVALID, so it acts on
      every run: inside the rows exactly when every id is present. */
  lemma {:induction false} ActsInsideIffPresent(keys: seq<Uint64>, ids: seq<Uint64>, i: nat)
    requires |keys| <= INVALID && i <= |ids| <= INVALID
    ensures forall r :: r in Runs(keys, ids, i) ==> r.pos != INVALID
    ensures (forall r :: r in Runs(keys, ids, i) ==> r.begin + r.count <= |keys|)
      <==> (forall j :: i <= j < |ids| ==> ids[j] in keys)
    decreases |ids| - i
  {
    if i < |ids| {
      var r := NextRun(keys, ids, i);
      NextRunDescribes(keys, ids, i);
      ActsInsideIffPresent(keys, ids, i + r.count);
      RunIsPresent(keys, ids, i);
      hide NextRun;
      assert r in Runs(keys, ids, i);
      assert forall q :: q in Runs(keys, ids, i) <==> q == r || q in Runs(keys, ids, i + r.count);
    }
  }

  lemma RunIsPresent(keys: seq<Uint64>, ids: seq<Uint64>, i: nat)
    requires |keys| <= INVALID && i < |ids|
    ensures var r := NextRun(keys, ids, i);
      r.begin + r.count <= |keys| <==> forall j :: i <= j < i + r.count && j < |ids| ==> ids[j] in keys
  {
    NextRunDescribes(keys, ids, i);
    var r := NextRun(keys, ids, i);
    if ids[i] in keys {
      forall j | i <= j < i + r.count
        ensures ids[j] in keys
      {
        SliceAt(keys, r.begin, ids, r.pos, r.count, j - i);
      }
    }
  }

  // ---------- Addresses ----------

  datatype Addr = Addr(block: nat, index: nat)

  /** What looking the id up on its own says. */
  function AddressOf(keys: seq<Uint64>, id: Uint64): Addr {
    if id in keys then Addr(0, IndexOf(keys, id)) else Addr(INVALID, INVALID)
  }

  lemma AddressIsRow(keys: seq<Uint64>, id: Uint64)
    ensures var a := AddressOf(keys, id);
      if id in keys then a.block == 0 && a.index < |keys| && keys[a.index] == id else a == Addr(INVALID, INVALID)
  {
  }

  /** What a callback says about batch position j. */
  function RunAddress(r: Run, j: nat): Addr
    requires r.pos <= j
  {
    if r.block == INVALID then Addr(INVALID, INVALID) else Addr(r.block, r.begin + (j - r.pos))
  }

  /** Within a run, row and batch position advance together, as separate look-ups would. */
  lemma RunGivesAddresses(keys: seq<Uint64>, ids: seq<Uint64>, i: nat, j: nat)
    requires Unique(keys) && i < |ids| && i <= j < i + NextRun(keys, ids, i).count
    ensures j < |ids| && AddressOf(keys, ids[j]) == RunAddress(NextRun(keys, ids, i), j)
  {
    NextRunDescribes(keys, ids, i);
    var r := NextRun(keys, ids, i);
    if ids[i] in keys {
      SliceAt(keys, r.begin, ids, r.pos, r.count, j - i);
      IndexIsRow(keys, r.begin + (j - i));
    }
  }

  // ---------- Batch update ----------

  ghost predicate Present(keys: seq<Uint64>, ids: seq<Uint64>) {
    forall k :: 0 <= k < |ids| ==> ids[k] in keys
  }

  /** The update callback on one run; a miss lies outside the rows. */
  ghost function UpdatedRun<T>(s: Store<T>, data: Batch<T>, r: Run): (u: Store<T>)
    requires Aligned(s)
    ensures u.ids == s.ids && |u.cols| == |s.cols| && Aligned(u)
  {
    if r.begin + r.count <= |s.ids| && Covers(data, |s.cols|, r.pos + r.count)
    then UpdatedRows(s, data, r.pos, r.begin, r.count) else s
  }

  ghost function UpdatedBy<T>(s: Store<T>, data: Batch<T>, runs: seq<Run>): (u: Store<T>)
    requires Aligned(s)
    ensures u.ids == s.ids && |u.cols| == |s.cols| && Aligned(u)
    decreases |runs|
  {
    if runs == [] then s else UpdatedBy(UpdatedRun(s, data, runs[0]), data, runs[1..])
  }

  /** One id at a time. */
  ghost function FoldUpdates<T>(s: Store<T>, ids: seq<Uint64>, data: Batch<T>, i: nat): (u: Store<T>)
    requires Aligned(s) && Covers(data, |s.cols|, |ids|)
    ensures u.ids == s.ids && |u.cols| == |s.cols| && Aligned(u)
    decreases |ids| - i
  {
    if i >= |ids| then s
    else if ids[i] !in s.ids then FoldUpdates(s, ids, data, i + 1)
    else FoldUpdates(UpdatedRows(s, data, i, IndexOf(s.ids, ids[i]), 1), ids, data, i + 1)
  }

  lemma FoldStep<T>(s: Store<T>, ids: seq<Uint64>, data: Batch<T>, i: nat, row: nat)
    requires WellFormed(s) && Covers(data, |s.cols|, |ids|) && i < |ids| && row < |s.ids| && s.ids[row] == ids[i]
    ensures FoldUpdates(s, ids, data, i) == FoldUpdates(UpdatedRows(s, data, i, row, 1), ids, data, i + 1)
  {
    hide UpdatedRows, IndexOf, Unique;
    IndexIsRow(s.ids, row);
  }

  lemma {:induction false} RunIsFold<T>(s: Store<T>, ids: seq<Uint64>, data: Batch<T>, i: nat, row: nat, n: nat)
    requires WellFormed(s) && Covers(data, |s.cols|, |ids|)
    requires n >= 1 && i + n <= |ids| && row + n <= |s.ids|
    requires s.ids[row..row + n] == ids[i..i + n]
    ensures FoldUpdates(s, ids, data, i) == FoldUpdates(UpdatedRows(s, data, i, row, n), ids, data, i + n)
    decreases n
  {
    hide UpdatedRows, IndexOf, FoldUpdates, Unique;
    SliceCons(s.ids, row, ids, i, n - 1);
    FoldStep(s, ids, data, i, row);
    if n > 1 {
      RunIsSteps(s, data, i, row, n - 1);
      RunIsFold(UpdatedRows(s, data, i, row, 1), ids, data, i + 1, row + 1, n - 1);
    }
  }

  lemma UpdatedByCons<T>(s: Store<T>, data: Batch<T>, r: Run, runs: seq<Run>)
    requires Aligned(s)
    ensures UpdatedBy(s, data, [r] + runs) == UpdatedBy(UpdatedRun(s, data, r), data, runs)
  {
    assert ([r] + runs)[1..] == runs;
  }

  lemma OneRunIsFold<T>(s: Store<T>, ids: seq<Uint64>, data: Batch<T>, i: nat)
    requires WellFormed(s) && Covers(data, |s.cols|, |ids|) && |s.ids| <= INVALID && i < |ids|
    ensures var r := NextRun(s.ids, ids, i);
      1 <= r.count && i + r.count <= |ids|
      && FoldUpdates(s, ids, data, i) == FoldUpdates(UpdatedRun(s, data, r), ids, data, i + r.count)
  {
    hide NextRun, UpdatedRows, IndexOf, Unique;
    var r := NextRun(s.ids, ids, i);
    NextRunDescribes(s.ids, ids, i);
    if ids[i] in s.ids {
      hide FoldUpdates;
      RunIsFold(s, ids, data, i, r.begin, r.count);
    }
  }

  /** A batch update, run by run, is its one-id updates from left to right, repeated ids
      included. */
  lemma {:induction false} BatchIsFold<T>(s: Store<T>, ids: seq<Uint64>, data: Batch<T>, i: nat)
    requires WellFormed(s) && Covers(data, |s.cols|, |ids|) && |s.ids| <= INVALID
    ensures UpdatedBy(s, data, Runs(s.ids, ids, i)) == FoldUpdates(s, ids, data, i)
    decreases |ids| - i
  {
    if i < |ids| {
      var r := NextRun(s.ids, ids, i);
      OneRunIsFold(s, ids, data, i);
      UpdatedByCons(s, data, r, Runs(s.ids, ids, i + r.count));
      hide NextRun, FoldUpdates, UpdatedBy, UpdatedRun, Unique;
      BatchIsFold(UpdatedRun(s, data, r), ids, data, i + r.count);
    }
  }

  /** The same on the map from ids to tuples. */
  ghost function PatchAll<T>(m: map<Uint64, seq<T>>, ids: seq<Uint64>, data: Batch<T>, i: nat): (r: map<Uint64, seq<T>>)
    requires forall id :: id in m ==> |m[id]| == |data|
    requires Covers(data, |data|, |ids|)
    ensures r.Keys == m.Keys && forall id :: id in r ==> |r[id]| == |data|
    decreases |ids| - i
  {
    if i >= |ids| then m
    else if ids[i] !in m then PatchAll(m, ids, data, i + 1)
    else PatchAll(m[ids[i] := Patched(m[ids[i]], data, i)], ids, data, i + 1)
  }

  lemma {:induction false} FoldRefines<T>(s: Store<T>, ids: seq<Uint64>, data: Batch<T>, i: nat)
    requires WellFormed(s) && Covers(data, |s.cols|, |ids|)
    ensures WellFormed(FoldUpdates(s, ids, data, i))
    ensures View(FoldUpdates(s, ids, data, i)) == PatchAll(View(s), ids, data, i)
    decreases |ids| - i
  {
    if i < |ids| {
      if ids[i] in s.ids {
        UpdateRefines(s, data, i, ids[i]);
        FoldRefines(UpdatedRows(s, data, i, IndexOf(s.ids, ids[i]), 1), ids, data, i + 1);
      } else {
        FoldRefines(s, ids, data, i + 1);
      }
    }
  }

  /** The last occurrence of an id decides its columns with data; nothing else changes. */
  lemma {:induction false} LastValueWins<T>(m: map<Uint64, seq<T>>, ids: seq<Uint64>, data: Batch<T>, i: nat, id: Uint64)
    requires forall x :: x in m ==> |m[x]| == |data|
    requires Covers(data, |data|, |ids|) && id in m && i <= |ids|
    ensures id !in ids[i..] ==> PatchAll(m, ids, data, i)[id] == m[id]
    ensures forall k, c :: i <= k < |ids| && ids[k] == id && id !in ids[k + 1..] && 0 <= c < |data| ==>
      PatchAll(m, ids, data, i)[id][c] == if data[c].Some? then data[c].value[k] else m[id][c]
    decreases |ids| - i
  {
    if i < |ids| {
      assert ids[i..] == [ids[i]] + ids[i + 1..];
      var m' := if ids[i] in m then m[ids[i] := Patched(m[ids[i]], data, i)] else m;
      LastValueWins(m', ids, data, i + 1, id);
      forall k, c | i <= k < |ids| && ids[k] == id && id !in ids[k + 1..] && 0 <= c < |data|
        ensures PatchAll(m, ids, data, i)[id][c] == if data[c].Some? then data[c].value[k] else m[id][c]
      {
        if k > i {
          assert ids[i + 1..][k - (i + 1)] == id;
        }
      }
    }
  }

  // ---------- Batch removal ----------

  /** The runs of a removal: each is looked up in the rows the earlier ones left. */
  function RemovalRuns(keys: seq<Uint64>, ids: seq<Uint64>, i: nat): seq<Run>
    decreases |ids| - i
  {
    if i >= |ids| then []
    else
      var r := NextRun(keys, ids, i);
      [r] + RemovalRuns(if r.begin + r.count <= |keys| then CutFast(keys, r.begin, r.count) else keys, ids, i + r.count)
  }

  ghost function RemovedRun<T>(s: Store<T>, r: Run): (u: Store<T>)
    requires Aligned(s)
    ensures |u.cols| == |s.cols| && Aligned(u)
    ensures u.ids == if r.begin + r.count <= |s.ids| then CutFast(s.ids, r.begin, r.count) else s.ids
  {
    if r.begin + r.count <= |s.ids| then CutRows(s, r.begin, r.count) else s
  }

  ghost function RemovedBy<T>(s: Store<T>, runs: seq<Run>): (u: Store<T>)
    requires Aligned(s)
    ensures |u.cols| == |s.cols| && Aligned(u)
    decreases |runs|
  {
    if runs == [] then s else RemovedBy(RemovedRun(s, runs[0]), runs[1..])
  }

  /** Every id from batch position i on is stored. */
  ghost predicate PresentFrom(keys: seq<Uint64>, ids: seq<Uint64>, i: nat) {
    forall k :: i <= k < |ids| ==> ids[k] in keys
  }

  /** The ids at batch positions [i, j). */
  ghost function IdsIn(ids: seq<Uint64>, i: nat, j: nat): set<Uint64> {
    set k | i <= k < j && k < |ids| :: ids[k]
  }

  lemma RemovalRunsStep(keys: seq<Uint64>, ids: seq<Uint64>, i: nat)
    requires i < |ids|
    ensures var r := NextRun(keys, ids, i);
      r.begin + r.count <= |keys| ==>
        RemovalRuns(keys, ids, i) == [r] + RemovalRuns(CutFast(keys, r.begin, r.count), ids, i + r.count)
  {
  }

  lemma RemovedByCons<T>(s: Store<T>, r: Run, runs: seq<Run>)
    requires Aligned(s)
    ensures RemovedBy(s, [r] + runs) == RemovedBy(RemovedRun(s, r), runs)
  {
    assert ([r] + runs)[1..] == runs;
  }

  /** Removing distinct present ids in a batch removes exactly their entries. */
  lemma {:induction false} RemoveAllRefines<T>(s: Store<T>, ids: seq<Uint64>, i: nat)
    requires WellFormed(s) && Unique(ids) && i <= |ids|
    requires PresentFrom(s.ids, ids, i)
    ensures WellFormed(RemovedBy(s, RemovalRuns(s.ids, ids, i)))
    ensures View(RemovedBy(s, RemovalRuns(s.ids, ids, i))) == View(s) - IdsIn(ids, i, |ids|)
    decreases |ids| - i
  {
    hide View, NextRun, CutFast, Unique, PresentFrom, RemovalRuns, RemovedBy;
    if i < |ids| {
      var r := NextRun(s.ids, ids, i);
      UniqueIsFromStart(ids, i);
      StillPresent(s, ids, i);
      var u := RemovedRun(s, r);
      RemovalRunsStep(s.ids, ids, i);
      RemovedByCons(s, r, RemovalRuns(u.ids, ids, i + r.count));
      RemoveRefines(s, r.begin, r.count);
      RunIds(s, ids, i);
      RemoveAllRefines(u, ids, i + r.count);
      MinusUnion(View(s), ids, i, i + r.count);
    } else {
      NothingToRemove(s, ids, i);
    }
  }

  lemma NothingToRemove<T>(s: Store<T>, ids: seq<Uint64>, i: nat)
    requires Aligned(s) && i >= |ids|
    ensures RemovedBy(s, RemovalRuns(s.ids, ids, i)) == s && View(s) - IdsIn(ids, i, |ids|) == View(s)
  {
  }

  lemma MinusUnion<T>(m: map<Uint64, T>, ids: seq<Uint64>, i: nat, j: nat)
    requires i <= j <= |ids|
    ensures m - IdsIn(ids, i, j) - IdsIn(ids, j, |ids|) == m - IdsIn(ids, i, |ids|)
  {
    assert IdsIn(ids, i, |ids|) == IdsIn(ids, i, j) + IdsIn(ids, j, |ids|);
  }

  lemma RunIds<T>(s: Store<T>, ids: seq<Uint64>, i: nat)
    requires i < |ids| && PresentFrom(s.ids, ids, i)
    ensures var r := NextRun(s.ids, ids, i);
      r.begin + r.count <= |s.ids| && (set k | r.begin <= k < r.begin + r.count :: s.ids[k]) == IdsIn(ids, i, i + r.count)
  {
    hide NextRun;
    var r := NextRun(s.ids, ids, i);
    NextRunDescribes(s.ids, ids, i);
    SliceIds(s.ids, r.begin, ids, i, r.count);
  }

  lemma SliceIds(keys: seq<Uint64>, row: nat, ids: seq<Uint64>, i: nat, n: nat)
    requires row + n <= |keys| && i + n <= |ids| && keys[row..row + n] == ids[i..i + n]
    ensures (set k | row <= k < row + n :: keys[k]) == IdsIn(ids, i, i + n)
  {
    forall k | i <= k < i + n
      ensures ids[k] == keys[row + (k - i)]
    {
      SliceAt(keys, row, ids, i, n, k - i);
    }
    forall k | row <= k < row + n
      ensures keys[k] == ids[i + (k - row)]
    {
      SliceAt(keys, row, ids, i, n, k - row);
    }
  }

  /** No id occurs twice from batch position i on. */
  ghost predicate UniqueFrom(ids: seq<Uint64>, i: nat) {
    forall j, k :: i <= j < k < |ids| ==> ids[j] != ids[k]
  }

  /** The ids still to be removed survive the removal of the run in front of them. */
  lemma StillPresent<T>(s: Store<T>, ids: seq<Uint64>, i: nat)
    requires WellFormed(s) && UniqueFrom(ids, i) && i < |ids|
    requires PresentFrom(s.ids, ids, i)
    ensures var r := NextRun(s.ids, ids, i);
      r.begin + r.count <= |s.ids| && r.pos == i && 1 <= r.count && i + r.count <= |ids|
      && PresentFrom(CutFast(s.ids, r.begin, r.count), ids, i + r.count)
  {
    hide NextRun, Unique, CutFast;
    var r := NextRun(s.ids, ids, i);
    NextRunDescribes(s.ids, ids, i);
    forall k | i + r.count <= k < |ids|
      ensures ids[k] in CutFast(s.ids, r.begin, r.count)
    {
      var q := IndexOf(s.ids, ids[k]);
      if r.begin <= q < r.begin + r.count {
        SliceAt(s.ids, r.begin, ids, i, r.count, q - r.begin);
      }
      CutKeepsOthers(s.ids, r.begin, r.count, q);
    }
  }

  lemma UniqueIsFromStart(ids: seq<Uint64>, i: nat)
    requires Unique(ids)
    ensures UniqueFrom(ids, i)
  {
  }

  /** What is left after a run's removal holds none of its ids. */
  lemma RunIsGone(keys: seq<Uint64>, ids: seq<Uint64>, i: nat, k: nat)
    requires Unique(keys) && i < |ids| && ids[i] in keys && k < |ids|
    requires var r := NextRun(keys, ids, i);
      r.begin + r.count <= |keys| && ids[k] in CutFast(keys, r.begin, r.count)
    ensures ids[k] in keys
    ensures forall j :: i <= j < i + NextRun(keys, ids, i).count && j < |ids| ==> ids[j] != ids[k]
  {
    hide NextRun, CutFast;
    var r := NextRun(keys, ids, i);
    NextRunDescribes(keys, ids, i);
    var o := RowBeforeCut(keys, r.begin, r.count, ids[k]);
    forall j | i <= j < i + r.count && j < |ids|
      ensures ids[j] != ids[k]
    {
      SliceAt(keys, r.begin, ids, i, r.count, j - i);
    }
  }

  lemma RowBeforeCut(keys: seq<Uint64>, pos: nat, n: nat, id: Uint64) returns (o: nat)
    requires pos + n <= |keys| && id in CutFast(keys, pos, n)
    ensures o < |keys| && keys[o] == id && !(pos <= o < pos + n)
  {
    CutFastAt(keys, pos, n);
    hide CutFast;
    var d :| 0 <= d < |keys| - n && CutFast(keys, pos, n)[d] == id;
    o := Origin(|keys|, pos, n, d);
  }

  lemma RunIsUnique(keys: seq<Uint64>, ids: seq<Uint64>, i: nat, j: nat, k: nat)
    requires Unique(keys) && i < |ids| && ids[i] in keys && i <= j < k < i + NextRun(keys, ids, i).count && k < |ids|
    ensures ids[j] != ids[k]
  {
    hide NextRun;
    var r := NextRun(keys, ids, i);
    NextRunDescribes(keys, ids, i);
    SliceAt(keys, r.begin, ids, i, r.count, j - i);
    SliceAt(keys, r.begin, ids, i, r.count, k - i);
  }
}
