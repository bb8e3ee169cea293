/** What a storage holds, as a value: ids and columns side by side, the runs that
    `select` cuts a batch into, and the effect of every operation row by row. */
module Stores {
  import opened Common
  import opened DynArrays

  /** Row r of the storage is ids[r] with cols[0][r], cols[1][r], ... */
  datatype Store<T> = Store(ids: seq<Uint64>, cols: seq<seq<T>>)

  ghost predicate Unique(ids: seq<Uint64>) {
    forall i, j :: 0 <= i < j < |ids| ==> ids[i] != ids[j]
  }

  ghost predicate Aligned<T>(s: Store<T>) {
    forall c :: 0 <= c < |s.cols| ==> |s.cols[c]| == |s.ids|
  }

  ghost predicate WellFormed<T>(s: Store<T>) {
    Aligned(s) && Unique(s.ids)
  }

  /** The first row of an id. */
  function IndexOf(ids: seq<Uint64>, id: Uint64): (r: nat)
    requires id in ids
    ensures r < |ids| && ids[r] == id
  {
    if ids[0] == id then 0 else 1 + IndexOf(ids[1..], id)
  }

  lemma IndexIsRow(ids: seq<Uint64>, r: nat)
    requires Unique(ids) && r < |ids|
    ensures IndexOf(ids, ids[r]) == r
  {
  }

  // ---------- The storage as a map ----------

  function Row<T>(s: Store<T>, r: nat): (row: seq<T>)
    requires forall c :: 0 <= c < |s.cols| ==> r < |s.cols[c]|
    ensures |row| == |s.cols| && forall c :: 0 <= c < |row| ==> row[c] == s.cols[c][r]
  {
    seq(|s.cols|, c requires 0 <= c < |s.cols| => s.cols[c][r])
  }

  /** Each id with its tuple of column values. */
  ghost function View<T>(s: Store<T>): map<Uint64, seq<T>>
    requires Aligned(s)
  {
    map id | id in s.ids :: Row(s, IndexOf(s.ids, id))
  }

  lemma ViewAt<T>(s: Store<T>, r: nat)
    requires WellFormed(s) && r < |s.ids|
    ensures s.ids[r] in View(s) && View(s)[s.ids[r]] == Row(s, r)
  {
    IndexIsRow(s.ids, r);
  }

  lemma ViewKeys<T>(s: Store<T>)
    requires Aligned(s)
    ensures forall id :: id in View(s) <==> id in s.ids
  {
  }

  /** A map that gives every row's id that row's tuple, and knows no other id, is the view. */
  lemma ViewIs<T>(s: Store<T>, m: map<Uint64, seq<T>>)
    requires WellFormed(s)
    requires forall id :: id in m ==> id in s.ids
    requires forall r :: 0 <= r < |s.ids| ==> s.ids[r] in m && m[s.ids[r]] == Row(s, r)
    ensures View(s) == m
  {
    forall id | id in s.ids
      ensures id in m && View(s)[id] == m[id]
    {
      assert id == s.ids[IndexOf(s.ids, id)];
    }
    assert View(s).Keys == m.Keys;
  }

  // ---------- Inserting ----------

  /** `added[c]` is what column c gets: the caller's values, or whatever the resized
      block held where the caller passed none. */
  function Inserted<T>(s: Store<T>, ids: seq<Uint64>, added: seq<seq<T>>): Store<T>
    requires |added| == |s.cols|
  {
    Store(s.ids + ids, seq(|s.cols|, c requires 0 <= c < |s.cols| => s.cols[c] + added[c]))
  }

  ghost predicate Fresh(stored: seq<Uint64>, ids: seq<Uint64>) {
    Unique(ids) && forall k :: 0 <= k < |ids| ==> ids[k] !in stored
  }

  lemma InsertRefines<T>(s: Store<T>, ids: seq<Uint64>, added: seq<seq<T>>)
    requires WellFormed(s) && Fresh(s.ids, ids)
    requires |added| == |s.cols| && forall c :: 0 <= c < |added| ==> |added[c]| == |ids|
    ensures WellFormed(Inserted(s, ids, added))
    ensures View(Inserted(s, ids, added)) == View(s) + View(Store(ids, added))
  {
    var u := Inserted(s, ids, added);
    var a := Store(ids, added);
    assert Unique(u.ids) && Aligned(u);
    ViewKeys(s);
    ViewKeys(a);
    forall r | 0 <= r < |u.ids|
      ensures u.ids[r] in View(s) + View(a) && (View(s) + View(a))[u.ids[r]] == Row(u, r)
    {
      if r < |s.ids| {
        ViewAt(s, r);
        assert u.ids[r] == s.ids[r] && s.ids[r] !in ids;
        assert Row(u, r) == Row(s, r);
      } else {
        ViewAt(a, r - |s.ids|);
        assert u.ids[r] == ids[r - |s.ids|];
        assert Row(u, r) == Row(a, r - |s.ids|);
      }
    }
    hide View, Row;
    ViewIs(u, View(s) + View(a));
  }

  // ---------- Removing a run of rows ----------

  function CutRows<T>(s: Store<T>, pos: nat, n: nat): (u: Store<T>)
    requires pos + n <= |s.ids| && forall c :: 0 <= c < |s.cols| ==> |s.cols[c]| == |s.ids|
    ensures |u.ids| == |s.ids| - n && |u.cols| == |s.cols|
    ensures forall c :: 0 <= c < |u.cols| ==> u.cols[c] == CutFast(s.cols[c], pos, n)
  {
    Store(CutFast(s.ids, pos, n), seq(|s.cols|, c requires 0 <= c < |s.cols| => CutFast(s.cols[c], pos, n)))
  }

  /** Ids and columns undergo the same rearrangement, so rows stay together: the removed
      ids are gone, every other id keeps its values although its row may have moved. */
  lemma RemoveRefines<T>(s: Store<T>, pos: nat, n: nat)
    requires WellFormed(s) && pos + n <= |s.ids|
    ensures WellFormed(CutRows(s, pos, n))
    ensures View(CutRows(s, pos, n)) == View(s) - set k | pos <= k < pos + n :: s.ids[k]
  {
    var u := CutRows(s, pos, n);
    CutStaysUnique(s.ids, pos, n);
    var gone := set k | pos <= k < pos + n :: s.ids[k];
    ViewKeys(s);
    forall r | 0 <= r < |u.ids|
      ensures u.ids[r] in View(s) && u.ids[r] !in gone && View(s)[u.ids[r]] == Row(u, r)
    {
      CutRowOrigin(s, pos, n, r);
      ViewAt(s, Origin(|s.ids|, pos, n, r));
    }
    forall id | id in s.ids && id !in gone
      ensures id in u.ids
    {
      CutKeepsOthers(s.ids, pos, n, IndexOf(s.ids, id));
    }
    hide View, Row, CutRows;
    ViewIs(u, View(s) - gone);
  }

  lemma CutRowOrigin<T>(s: Store<T>, pos: nat, n: nat, r: nat)
    requires Aligned(s) && pos + n <= |s.ids| && r < |s.ids| - n
    ensures CutRows(s, pos, n).ids[r] == s.ids[Origin(|s.ids|, pos, n, r)]
    ensures Aligned(CutRows(s, pos, n)) && Row(CutRows(s, pos, n), r) == Row(s, Origin(|s.ids|, pos, n, r))
  {
    var u, o := CutRows(s, pos, n), Origin(|s.ids|, pos, n, r);
    CutFastAt(s.ids, pos, n);
    forall c | 0 <= c < |s.cols|
      ensures Row(u, r)[c] == Row(s, o)[c]
    {
      CutFastAt(s.cols[c], pos, n);
    }
    assert Row(u, r) == Row(s, o);
  }

  lemma CutStaysUnique(ids: seq<Uint64>, pos: nat, n: nat)
    requires Unique(ids) && pos + n <= |ids|
    ensures Unique(CutFast(ids, pos, n))
  {
    CutFastAt(ids, pos, n);
  }

  lemma CutKeepsOthers(ids: seq<Uint64>, pos: nat, n: nat, k: nat)
    requires pos + n <= |ids| && k < |ids| && !(pos <= k < pos + n)
    ensures ids[k] in CutFast(ids, pos, n)
  {
    CutFastAt(ids, pos, n);
    var size := |ids|;
    var d := if size - pos - n < n then (if k >= pos + n then k - n else k)
             else if k >= size - n then k - (size - n) + pos else k;
    assert Origin(size, pos, n, d) == k;
    assert CutFast(ids, pos, n)[d] == ids[k];
  }

  // ---------- Updating a run of rows ----------

  /** The caller's column buffers; None where the caller passes no column. */
  type Batch<T> = seq<Option<seq<T>>>

  ghost predicate Covers<T>(data: Batch<T>, cols: nat, rows: nat) {
    |data| == cols && forall c :: 0 <= c < cols && data[c].Some? ==> |data[c].value| >= rows
  }

  function Overlaid<T>(col: seq<T>, data: Option<seq<T>>, srcOffset: nat, dst: nat, n: nat): (r: seq<T>)
    requires dst + n <= |col| && (data.Some? ==> srcOffset + n <= |data.value|)
    ensures |r| == |col|
    ensures forall k :: 0 <= k < |r| ==>
      r[k] == if data.Some? && dst <= k < dst + n then data.value[srcOffset + k - dst] else col[k]
  {
    if data.Some? then Overwritten(col, data.value, srcOffset, dst, n) else col
  }

  /** dsim_storage_block_update. */
  function UpdatedRows<T>(s: Store<T>, data: Batch<T>, srcOffset: nat, dst: nat, n: nat): (u: Store<T>)
    requires Aligned(s) && Covers(data, |s.cols|, srcOffset + n) && dst + n <= |s.ids|
    ensures u.ids == s.ids && |u.cols| == |s.cols| && Aligned(u)
    ensures forall c :: 0 <= c < |u.cols| ==> u.cols[c] == Overlaid(s.cols[c], data[c], srcOffset, dst, n)
  {
    Store(s.ids, seq(|s.cols|, c requires 0 <= c < |s.cols| => Overlaid(s.cols[c], data[c], srcOffset, dst, n)))
  }

  /** The tuple of an id after an update from row k of the batch. */
  function Patched<T>(row: seq<T>, data: Batch<T>, k: nat): (r: seq<T>)
    requires |row| == |data| && forall c :: 0 <= c < |data| && data[c].Some? ==> k < |data[c].value|
    ensures |r| == |row|
  {
    seq(|row|, c requires 0 <= c < |row| => if data[c].Some? then data[c].value[k] else row[c])
  }

  /** Updating one present id replaces exactly its columns that come with data. */
  lemma UpdateRefines<T>(s: Store<T>, data: Batch<T>, k: nat, id: Uint64)
    requires WellFormed(s) && id in s.ids && Covers(data, |s.cols|, k + 1)
    ensures WellFormed(UpdatedRows(s, data, k, IndexOf(s.ids, id), 1))
    ensures View(UpdatedRows(s, data, k, IndexOf(s.ids, id), 1)) == View(s)[id := Patched(View(s)[id], data, k)]
  {
    hide View, Row, UpdatedRows, Patched;
    var r := IndexOf(s.ids, id);
    var u := UpdatedRows(s, data, k, r, 1);
    ViewKeys(s);
    ViewAt(s, r);
    var m := View(s)[id := Patched(View(s)[id], data, k)];
    forall q | 0 <= q < |u.ids|
      ensures u.ids[q] in m && m[u.ids[q]] == Row(u, q)
    {
      ViewAt(s, q);
      RowAfterUpdate(s, data, k, r, q);
    }
    ViewIs(u, m);
  }

  lemma RowAfterUpdate<T>(s: Store<T>, data: Batch<T>, k: nat, r: nat, q: nat)
    requires Aligned(s) && Covers(data, |s.cols|, k + 1) && r < |s.ids| && q < |s.ids|
    ensures Row(UpdatedRows(s, data, k, r, 1), q) == if q == r then Patched(Row(s, r), data, k) else Row(s, q)
  {
    hide UpdatedRows;
    var u := UpdatedRows(s, data, k, r, 1);
    if q == r {
      assert Row(u, r) == Patched(Row(s, r), data, k);
    } else {
      assert Row(u, q) == Row(s, q);
    }
  }

  /** A run of n rows is n one-row updates. */
  lemma {:induction false} RunIsSteps<T>(s: Store<T>, data: Batch<T>, srcOffset: nat, dst: nat, n: nat)
    requires Aligned(s) && Covers(data, |s.cols|, srcOffset + n + 1) && dst + n + 1 <= |s.ids|
    ensures UpdatedRows(s, data, srcOffset, dst, n + 1)
      == UpdatedRows(UpdatedRows(s, data, srcOffset, dst, 1), data, srcOffset + 1, dst + 1, n)
  {
    var u := UpdatedRows(s, data, srcOffset, dst, 1);
    var a := UpdatedRows(s, data, srcOffset, dst, n + 1);
    var b := UpdatedRows(u, data, srcOffset + 1, dst + 1, n);
    forall c | 0 <= c < |s.cols|
      ensures a.cols[c] == b.cols[c]
    {
      assert a.cols[c] == Overlaid(s.cols[c], data[c], srcOffset, dst, n + 1);
      assert b.cols[c] == Overlaid(u.cols[c], data[c], srcOffset + 1, dst + 1, n);
    }
    assert a.cols == b.cols;
  }
}
