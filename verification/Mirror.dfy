/** What listeners are told, and that telling them is enough: a mirror fed with the
    events follows the storage. Operations, one and many, on the rows, on the mirror and
    on the map from ids to tuples. */
module Mirrors {
  import opened Common
  import opened DynArrays
  import opened Stores
  import opened Selections

  // ---------- Column masks ----------

  predicate Bit(mask: nat, i: nat) {
    Shr(mask, i) % 2 == 1
  }

  /** The mask after looking at the first n columns: `mask |= 1 << i` for those with data. */
  function MaskUpTo<T>(data: Batch<T>, n: nat): nat
    requires n <= |data|
  {
    if n == 0 then 0
    else if data[n - 1].Some? then Or(MaskUpTo(data, n - 1), Pow2(n - 1))
    else MaskUpTo(data, n - 1)
  }

  lemma {:induction false} ShrZero(n: nat)
    ensures Shr(0, n) == 0
  {
    if n > 0 {
      ShrZero(n - 1);
    }
  }

  lemma {:induction false} OneBit(i: nat, j: nat)
    ensures Bit(Pow2(i), j) <==> i == j
  {
    if i == 0 {
      if j > 0 {
        ShrZero(j - 1);
      }
    } else if j > 0 {
      OneBit(i - 1, j - 1);
    }
  }

  lemma OrBit(a: nat, b: nat, j: nat)
    ensures Bit(Or(a, b), j) <==> Bit(a, j) || Bit(b, j)
  {
    ShrOr(a, b, j);
    OrStep(Shr(a, j), Shr(b, j));
  }

  /** The mask names exactly the columns written. */
  lemma {:induction false} MaskNamesWritten<T>(data: Batch<T>, n: nat, c: nat)
    requires n <= |data|
    ensures Bit(MaskUpTo(data, n), c) <==> c < n && data[c].Some?
  {
    if n == 0 {
      ShrZero(c);
    } else {
      MaskNamesWritten(data, n - 1, c);
      OrBit(MaskUpTo(data, n - 1), Pow2(n - 1), c);
      OneBit(n - 1, c);
    }
  }

  // ---------- Events ----------

  datatype Event =
    | OnInsert(pos: nat, count: nat)
    | OnRemove(pos: nat, count: nat)
    | OnUpdate(mask: nat, pos: nat, count: nat)

  /** An event and the storage as the handler finds it. */
  datatype Emission<T> = Emission(event: Event, seen: Store<T>)

  ghost predicate Fits<T>(m: Store<T>, e: Emission<T>) {
    && Aligned(m) && Aligned(e.seen) && |m.cols| == |e.seen.cols|
    && match e.event
       case OnInsert(pos, n) => pos + n <= |e.seen.ids|
       case OnRemove(pos, n) => pos + n <= |m.ids|
       case OnUpdate(_, pos, n) => pos + n <= |e.seen.ids| && pos + n <= |m.ids|
  }

  /** A listener that appends inserted rows, removes the given run, copies masked columns. */
  function Replay<T>(m: Store<T>, e: Emission<T>): (u: Store<T>)
    requires Fits(m, e)
    ensures Aligned(u) && |u.cols| == |m.cols|
  {
    match e.event
    case OnInsert(pos, n) =>
      Store(m.ids + e.seen.ids[pos..pos + n],
            seq(|m.cols|, c requires 0 <= c < |m.cols| => m.cols[c] + e.seen.cols[c][pos..pos + n]))
    case OnRemove(pos, n) => CutRows(m, pos, n)
    case OnUpdate(mask, pos, n) =>
      Store(m.ids, seq(|m.cols|, c requires 0 <= c < |m.cols| =>
        if Bit(mask, c) then Overwritten(m.cols[c], e.seen.cols[c], pos, pos, n) else m.cols[c]))
  }

  ghost predicate AllFit<T>(m: Store<T>, es: seq<Emission<T>>)
    decreases |es|
  {
    es == [] || (Fits(m, es[0]) && AllFit(Replay(m, es[0]), es[1..]))
  }

  ghost function ReplayAll<T>(m: Store<T>, es: seq<Emission<T>>): Store<T>
    requires AllFit(m, es)
    decreases |es|
  {
    if es == [] then m else ReplayAll(Replay(m, es[0]), es[1..])
  }

  /** The mirror takes the storage from s to u. */
  ghost predicate Carries<T>(s: Store<T>, es: seq<Emission<T>>, u: Store<T>) {
    AllFit(s, es) && ReplayAll(s, es) == u
  }

  lemma {:induction false} CarriesBoth<T>(s: Store<T>, es: seq<Emission<T>>, u: Store<T>, fs: seq<Emission<T>>, v: Store<T>)
    requires Carries(s, es, u) && Carries(u, fs, v)
    ensures Carries(s, es + fs, v)
    decreases |es|
  {
    if es == [] {
      assert es + fs == fs;
    } else {
      assert (es + fs)[0] == es[0] && (es + fs)[1..] == es[1..] + fs;
      CarriesBoth(Replay(s, es[0]), es[1..], u, fs, v);
    }
  }

  lemma CarriesOne<T>(s: Store<T>, e: Emission<T>)
    requires Fits(s, e)
    ensures Carries(s, [e], Replay(s, e))
  {
    assert [e][1..] == [];
  }

  lemma CarriesCons<T>(s: Store<T>, e: Emission<T>, u: Store<T>, es: seq<Emission<T>>, v: Store<T>)
    requires Fits(s, e) && Replay(s, e) == u && Carries(u, es, v)
    ensures Carries(s, [e] + es, v)
  {
    assert ([e] + es)[0] == e && ([e] + es)[1..] == es;
  }

  // ---------- One operation ----------

  function InsertEmissions<T>(s: Store<T>, ids: seq<Uint64>, added: seq<seq<T>>): seq<Emission<T>>
    requires |added| == |s.cols|
  {
    [Emission(OnInsert(|s.ids|, |ids|), Inserted(s, ids, added))]
  }

  lemma InsertCarries<T>(s: Store<T>, ids: seq<Uint64>, added: seq<seq<T>>)
    requires Aligned(s) && |added| == |s.cols| && forall c :: 0 <= c < |added| ==> |added[c]| == |ids|
    ensures Carries(s, InsertEmissions(s, ids, added), Inserted(s, ids, added))
  {
    var u := Inserted(s, ids, added);
    var e := Emission(OnInsert(|s.ids|, |ids|), u);
    CarriesOne(s, e);
    assert u.ids[|s.ids|..|s.ids| + |ids|] == ids;
    forall c | 0 <= c < |s.cols|
      ensures Replay(s, e).cols[c] == u.cols[c]
    {
      assert u.cols[c][|s.ids|..|s.ids| + |ids|] == added[c];
    }
    assert Replay(s, e).cols == u.cols;
  }

  /** One event per run, after the run's rows are written. */
  ghost function UpdateEmissions<T>(s: Store<T>, data: Batch<T>, runs: seq<Run>): seq<Emission<T>>
    requires Aligned(s)
    decreases |runs|
  {
    if runs == [] then []
    else
      var r, u := runs[0], UpdatedRun(s, data, runs[0]);
      [Emission(OnUpdate(MaskUpTo(data, |data|), r.begin, r.count), u)] + UpdateEmissions(u, data, runs[1..])
  }

  ghost predicate RunsFit<T>(runs: seq<Run>, data: Batch<T>, cols: nat, rows: nat) {
    forall k :: 0 <= k < |runs| ==> runs[k].begin + runs[k].count <= rows && Covers(data, cols, runs[k].pos + runs[k].count)
  }

  lemma RunReplays<T>(s: Store<T>, data: Batch<T>, r: Run)
    requires Aligned(s) && r.begin + r.count <= |s.ids| && Covers(data, |s.cols|, r.pos + r.count)
    ensures var u := UpdatedRun(s, data, r);
      var e := Emission(OnUpdate(MaskUpTo(data, |data|), r.begin, r.count), u);
      Fits(s, e) && Replay(s, e) == u
  {
    hide MaskUpTo, Bit;
    var u := UpdatedRun(s, data, r);
    var e := Emission(OnUpdate(MaskUpTo(data, |data|), r.begin, r.count), u);
    forall c | 0 <= c < |s.cols|
      ensures Replay(s, e).cols[c] == u.cols[c]
    {
      MaskNamesWritten(data, |data|, c);
      assert u.cols[c] == Overlaid(s.cols[c], data[c], r.pos, r.begin, r.count);
    }
    assert Replay(s, e).cols == u.cols;
  }

  lemma {:induction false} UpdateCarries<T>(s: Store<T>, data: Batch<T>, runs: seq<Run>)
    requires Aligned(s) && RunsFit(runs, data, |s.cols|, |s.ids|)
    ensures Carries(s, UpdateEmissions(s, data, runs), UpdatedBy(s, data, runs))
    decreases |runs|
  {
    if runs != [] {
      hide MaskUpTo, UpdatedRun, Fits, Replay, Carries;
      var u := UpdatedRun(s, data, runs[0]);
      RunReplays(s, data, runs[0]);
      UpdateCarries(u, data, runs[1..]);
      CarriesCons(s, Emission(OnUpdate(MaskUpTo(data, |data|), runs[0].begin, runs[0].count), u), u,
                  UpdateEmissions(u, data, runs[1..]), UpdatedBy(u, data, runs[1..]));
    } else {
      assert AllFit(s, []);
    }
  }

  /** One event per run, before the run's rows go. */
  ghost function RemoveEmissions<T>(s: Store<T>, runs: seq<Run>): seq<Emission<T>>
    requires Aligned(s)
    decreases |runs|
  {
    if runs == [] then []
    else [Emission(OnRemove(runs[0].begin, runs[0].count), s)] + RemoveEmissions(RemovedRun(s, runs[0]), runs[1..])
  }

  /** Every run lies inside the rows it is removed from. */
  ghost predicate RemovalsFit<T>(s: Store<T>, runs: seq<Run>)
    requires Aligned(s)
    decreases |runs|
  {
    runs == [] || (runs[0].begin + runs[0].count <= |s.ids| && RemovalsFit(RemovedRun(s, runs[0]), runs[1..]))
  }

  /** The remove callback acts on every run, and later runs are looked up in what the
      earlier ones left: all stay inside the rows if and only if every id is present and
      none is repeated. */
  lemma {:induction false} RemovalsFitIff<T>(s: Store<T>, ids: seq<Uint64>, i: nat)
    requires WellFormed(s) && |s.ids| <= INVALID && i <= |ids|
    ensures RemovalsFit(s, RemovalRuns(s.ids, ids, i)) <==> PresentFrom(s.ids, ids, i) && UniqueFrom(ids, i)
    decreases |ids| - i
  {
    hide CutFast, Unique, RemovalRuns, RemovalsFit, NextRun, PresentFrom, UniqueFrom;
    if i < |ids| {
      var r := NextRun(s.ids, ids, i);
      NextRunDescribes(s.ids, ids, i);
      FirstRemoval(s, ids, i);
      if ids[i] in s.ids {
        CutStaysUnique(s.ids, r.begin, r.count);
        RemovalsFitIff(RemovedRun(s, r), ids, i + r.count);
        AfterRun(s, ids, i);
      }
    } else {
      NothingLeft(s, ids, i);
    }
  }

  lemma NothingLeft<T>(s: Store<T>, ids: seq<Uint64>, i: nat)
    requires Aligned(s) && i >= |ids|
    ensures RemovalsFit(s, RemovalRuns(s.ids, ids, i)) && PresentFrom(s.ids, ids, i) && UniqueFrom(ids, i)
  {
    NoRuns(s.ids, ids, i);
  }

  /** The first run decides for itself and leaves the rest to what it leaves. */
  lemma FirstRemoval<T>(s: Store<T>, ids: seq<Uint64>, i: nat)
    requires WellFormed(s) && |s.ids| <= INVALID && i < |ids|
    ensures var r := NextRun(s.ids, ids, i);
      RemovalsFit(s, RemovalRuns(s.ids, ids, i)) <==>
        ids[i] in s.ids && RemovalsFit(RemovedRun(s, r), RemovalRuns(RemovedRun(s, r).ids, ids, i + r.count))
    ensures PresentFrom(s.ids, ids, i) ==> ids[i] in s.ids
  {
    hide CutFast, Unique, NextRun;
    var r := NextRun(s.ids, ids, i);
    NextRunDescribes(s.ids, ids, i);
    var rest := RemovalRuns(RemovedRun(s, r).ids, ids, i + r.count);
    assert ([r] + rest)[0] == r && ([r] + rest)[1..] == rest;
  }

  lemma AfterRun<T>(s: Store<T>, ids: seq<Uint64>, i: nat)
    requires WellFormed(s) && i < |ids| && ids[i] in s.ids
    ensures var r := NextRun(s.ids, ids, i);
      r.begin + r.count <= |s.ids| && i + r.count <= |ids|
      && (PresentFrom(s.ids, ids, i) && UniqueFrom(ids, i) <==>
            PresentFrom(CutFast(s.ids, r.begin, r.count), ids, i + r.count) && UniqueFrom(ids, i + r.count))
  {
    hide NextRun, CutFast, Unique;
    var r := NextRun(s.ids, ids, i);
    NextRunDescribes(s.ids, ids, i);
    if PresentFrom(s.ids, ids, i) && UniqueFrom(ids, i) {
      StillPresent(s, ids, i);
    }
    if PresentFrom(CutFast(s.ids, r.begin, r.count), ids, i + r.count) && UniqueFrom(ids, i + r.count) {
      forall k | i <= k < |ids|
        ensures ids[k] in s.ids && forall j :: i <= j < k ==> ids[j] != ids[k]
      {
        if k < i + r.count {
          SliceAt(s.ids, r.begin, ids, i, r.count, k - i);
          forall j | i <= j < k
            ensures ids[j] != ids[k]
          {
            RunIsUnique(s.ids, ids, i, j, k);
          }
        } else {
          RunIsGone(s.ids, ids, i, k);
        }
      }
    }
  }

  lemma NoRuns(keys: seq<Uint64>, ids: seq<Uint64>, i: nat)
    requires i >= |ids|
    ensures RemovalRuns(keys, ids, i) == []
  {
  }

  lemma RemovalReplays<T>(s: Store<T>, r: Run)
    requires Aligned(s) && r.begin + r.count <= |s.ids|
    ensures var e := Emission(OnRemove(r.begin, r.count), s); Fits(s, e) && Replay(s, e) == RemovedRun(s, r)
  {
  }

  lemma {:induction false} RemoveCarries<T>(s: Store<T>, runs: seq<Run>)
    requires Aligned(s) && RemovalsFit(s, runs)
    ensures Carries(s, RemoveEmissions(s, runs), RemovedBy(s, runs))
    decreases |runs|
  {
    if runs != [] {
      hide RemovedRun, Fits, Replay, Carries;
      var u := RemovedRun(s, runs[0]);
      RemovalReplays(s, runs[0]);
      RemoveCarries(u, runs[1..]);
      CarriesCons(s, Emission(OnRemove(runs[0].begin, runs[0].count), s), u,
                  RemoveEmissions(u, runs[1..]), RemovedBy(u, runs[1..]));
    } else {
      assert AllFit(s, []);
    }
  }

  /** end_write on column c: the whole column is announced under the mask 1 << c. */
  function Published<T>(s: Store<T>, c: nat, contents: seq<T>): Store<T>
    requires c < |s.cols|
  {
    s.(cols := s.cols[c := contents])
  }

  function PublishEmissions<T>(s: Store<T>, c: nat, contents: seq<T>): seq<Emission<T>>
    requires c < |s.cols|
  {
    [Emission(OnUpdate(Pow2(c), 0, |s.ids|), Published(s, c, contents))]
  }

  /** Whatever the mirror held for the column being written, the event brings it level. */
  lemma PublishCarries<T>(m: Store<T>, s: Store<T>, c: nat, contents: seq<T>)
    requires Aligned(s) && Aligned(m) && c < |s.cols| && |contents| == |s.ids|
    requires m.ids == s.ids && |m.cols| == |s.cols| && forall d :: 0 <= d < |s.cols| && d != c ==> m.cols[d] == s.cols[d]
    ensures Carries(m, PublishEmissions(s, c, contents), Published(s, c, contents))
  {
    var u := Published(s, c, contents);
    var e := Emission(OnUpdate(Pow2(c), 0, |s.ids|), u);
    CarriesOne(m, e);
    forall d | 0 <= d < |s.cols|
      ensures Replay(m, e).cols[d] == u.cols[d]
    {
      OneBit(c, d);
    }
    assert Replay(m, e).cols == u.cols;
  }

  // ---------- Runs of operations ----------

  datatype Op<T> =
    | Insert(ids: seq<Uint64>, added: seq<seq<T>>)
    | Update(ids: seq<Uint64>, data: Batch<T>)
    | Remove(ids: seq<Uint64>)
    | Publish(column: nat, contents: seq<T>)

  /** What the rows ask of an operation: fresh ids on insert, present ids otherwise, columns
      of the right length. What the chains and the capacities ask is Engines.Permitted. */
  ghost predicate Allowed<T>(s: Store<T>, op: Op<T>) {
    |s.ids| <= INVALID && match op
    case Insert(ids, added) =>
      Fresh(s.ids, ids) && |added| == |s.cols| && forall c :: 0 <= c < |added| ==> |added[c]| == |ids|
    case Update(ids, data) => Present(s.ids, ids) && Covers(data, |s.cols|, |ids|)
    case Remove(ids) => Present(s.ids, ids) && Unique(ids)
    case Publish(c, contents) => c < |s.cols| && |contents| == |s.ids|
  }

  ghost function Apply<T>(s: Store<T>, op: Op<T>): Store<T>
    requires Aligned(s) && Allowed(s, op)
  {
    match op
    case Insert(ids, added) => Inserted(s, ids, added)
    case Update(ids, data) => UpdatedBy(s, data, Runs(s.ids, ids, 0))
    case Remove(ids) => RemovedBy(s, RemovalRuns(s.ids, ids, 0))
    case Publish(c, contents) => Published(s, c, contents)
  }

  ghost function Emitted<T>(s: Store<T>, op: Op<T>): seq<Emission<T>>
    requires Aligned(s) && Allowed(s, op)
  {
    match op
    case Insert(ids, added) => InsertEmissions(s, ids, added)
    case Update(ids, data) => UpdateEmissions(s, data, Runs(s.ids, ids, 0))
    case Remove(ids) => RemoveEmissions(s, RemovalRuns(s.ids, ids, 0))
    case Publish(c, contents) => PublishEmissions(s, c, contents)
  }

  /** The same operation on the map from ids to tuples. */
  ghost function ApplyToView<T>(m: map<Uint64, seq<T>>, s: Store<T>, op: Op<T>): map<Uint64, seq<T>>
    requires WellFormed(s) && Allowed(s, op) && m == View(s)
  {
    match op
    case Insert(ids, added) => m + View(Store(ids, added))
    case Update(ids, data) => PatchAll(m, ids, data, 0)
    case Remove(ids) => m - IdsIn(ids, 0, |ids|)
    case Publish(c, contents) => map id | id in m :: m[id][c := contents[IndexOf(s.ids, id)]]
  }

  lemma UpdateIs<T>(s: Store<T>, ids: seq<Uint64>, data: Batch<T>)
    requires Aligned(s) && Allowed(s, Op.Update(ids, data))
    ensures Present(s.ids, ids) && Covers(data, |s.cols|, |ids|)
    ensures Apply(s, Op.Update(ids, data)) == UpdatedBy(s, data, Runs(s.ids, ids, 0))
    ensures Emitted(s, Op.Update(ids, data)) == UpdateEmissions(s, data, Runs(s.ids, ids, 0))
  {
  }

  lemma RemoveIs<T>(s: Store<T>, ids: seq<Uint64>)
    requires Aligned(s) && Allowed(s, Op.Remove(ids))
    ensures Present(s.ids, ids) && Unique(ids)
    ensures Apply(s, Op.Remove(ids)) == RemovedBy(s, RemovalRuns(s.ids, ids, 0))
    ensures Emitted(s, Op.Remove(ids)) == RemoveEmissions(s, RemovalRuns(s.ids, ids, 0))
  {
  }

  lemma PublishIs<T>(s: Store<T>, c: nat, contents: seq<T>)
    requires Aligned(s) && |s.ids| <= INVALID && c < |s.cols| && |contents| == |s.ids|
    ensures Allowed(s, Op.Publish(c, contents)) && Apply(s, Op.Publish(c, contents)) == Published(s, c, contents)
    ensures Emitted(s, Op.Publish(c, contents)) == PublishEmissions(s, c, contents)
  {
  }

  // ---------- What exactly is announced ----------

  /** One event for all new rows, when they are in. */
  lemma InsertAnnounces<T>(s: Store<T>, ids: seq<Uint64>, added: seq<seq<T>>)
    requires Aligned(s) && Allowed(s, Op.Insert(ids, added))
    ensures var es := Emitted(s, Op.Insert(ids, added));
      && |es| == 1 && es[0].event == OnInsert(|s.ids|, |ids|)
      && es[0].seen == Apply(s, Op.Insert(ids, added)) && es[0].seen.ids == s.ids + ids && |es[0].seen.cols| == |s.cols|
      && forall c :: 0 <= c < |s.cols| ==> es[0].seen.cols[c] == s.cols[c] + added[c]
  {
  }

  /** One event for all rows of the column written, which is the only one named, when it is in. */
  lemma PublishAnnounces<T>(s: Store<T>, c: nat, contents: seq<T>)
    requires Aligned(s) && Allowed(s, Op.Publish(c, contents))
    ensures var es := Emitted(s, Op.Publish(c, contents));
      && |es| == 1 && es[0].event.OnUpdate? && es[0].event.pos == 0 && es[0].event.count == |s.ids|
      && (forall d: nat :: Bit(es[0].event.mask, d) <==> d == c)
      && es[0].seen.ids == s.ids && es[0].seen.cols == s.cols[c := contents] && es[0].seen == Apply(s, Op.Publish(c, contents))
  {
    hide Bit;
    forall d: nat
      ensures Bit(Pow2(c), d) <==> d == c
    {
      OneBit(c, d);
    }
  }

  /** The mask names exactly the columns with data. */
  ghost predicate NamesWritten<T>(mask: nat, data: Batch<T>) {
    forall d: nat :: Bit(mask, d) <==> d < |data| && data[d].Some?
  }

  /** One event for every run, with its rows, for exactly the columns with data, when this
      run and those before it are written. */
  lemma {:induction false} UpdateAnnounces<T>(s: Store<T>, data: Batch<T>, runs: seq<Run>, k: nat)
    requires Aligned(s) && k < |runs|
    ensures var es := UpdateEmissions(s, data, runs);
      && |es| == |runs| && es[k].event.OnUpdate? && NamesWritten(es[k].event.mask, data)
      && es[k].event.pos == runs[k].begin && es[k].event.count == runs[k].count
      && es[k].seen == UpdatedBy(s, data, runs[..k + 1])
    decreases |runs|
  {
    hide Bit, UpdatedRun, MaskUpTo;
    var u := UpdatedRun(s, data, runs[0]);
    assert runs[..k + 1] == [runs[0]] + runs[1..][..k];
    UpdatedByCons(s, data, runs[0], runs[1..][..k]);
    if k > 0 {
      UpdateAnnounces(u, data, runs[1..], k - 1);
    } else {
      forall d: nat
        ensures Bit(MaskUpTo(data, |data|), d) <==> d < |data| && data[d].Some?
      {
        MaskNamesWritten(data, |data|, d);
      }
      AsManyUpdates(u, data, runs[1..]);
    }
  }

  lemma {:induction false} AsManyUpdates<T>(s: Store<T>, data: Batch<T>, runs: seq<Run>)
    requires Aligned(s)
    ensures |UpdateEmissions(s, data, runs)| == |runs|
    decreases |runs|
  {
    if runs != [] {
      AsManyUpdates(UpdatedRun(s, data, runs[0]), data, runs[1..]);
    }
  }

  /** One event for every run, with its rows, while they are still there and those of the
      runs before it are gone. */
  lemma {:induction false} RemoveAnnounces<T>(s: Store<T>, runs: seq<Run>, k: nat)
    requires Aligned(s) && k < |runs|
    ensures var es := RemoveEmissions(s, runs);
      && |es| == |runs| && es[k].event == OnRemove(runs[k].begin, runs[k].count)
      && es[k].seen == RemovedBy(s, runs[..k])
    decreases |runs|
  {
    hide RemovedRun;
    var u := RemovedRun(s, runs[0]);
    if k > 0 {
      assert runs[..k] == [runs[0]] + runs[1..][..k - 1];
      RemovedByCons(s, runs[0], runs[1..][..k - 1]);
      RemoveAnnounces(u, runs[1..], k - 1);
    } else {
      AsManyRemovals(u, runs[1..]);
    }
  }

  lemma {:induction false} AsManyRemovals<T>(s: Store<T>, runs: seq<Run>)
    requires Aligned(s)
    ensures |RemoveEmissions(s, runs)| == |runs|
    decreases |runs|
  {
    if runs != [] {
      AsManyRemovals(RemovedRun(s, runs[0]), runs[1..]);
    }
  }

  /** So a batch announces its runs and nothing else: an update each run after it is written,
      a removal each run before it goes. */
  lemma BatchAnnounces<T>(s: Store<T>, op: Op<T>, k: nat)
    requires Aligned(s) && Allowed(s, op) && (op.Update? || op.Remove?) && k < |Emitted(s, op)|
    ensures var es := Emitted(s, op);
      && |es| == |if op.Update? then Runs(s.ids, op.ids, 0) else RemovalRuns(s.ids, op.ids, 0)|
      && (op.Update? ==>
           var r := Runs(s.ids, op.ids, 0)[k];
           && es[k].event.OnUpdate? && NamesWritten(es[k].event.mask, op.data)
           && es[k].event.pos == r.begin && es[k].event.count == r.count
           && es[k].seen == UpdatedBy(s, op.data, Runs(s.ids, op.ids, 0)[..k + 1]))
      && (op.Remove? ==>
           var r := RemovalRuns(s.ids, op.ids, 0)[k];
           && es[k].event == OnRemove(r.begin, r.count)
           && es[k].seen == RemovedBy(s, RemovalRuns(s.ids, op.ids, 0)[..k]))
  {
    hide UpdateEmissions, RemoveEmissions, NamesWritten, UpdatedBy, RemovedBy;
    if op.Update? {
      AsManyUpdates(s, op.data, Runs(s.ids, op.ids, 0));
      UpdateAnnounces(s, op.data, Runs(s.ids, op.ids, 0), k);
    } else {
      AsManyRemovals(s, RemovalRuns(s.ids, op.ids, 0));
      RemoveAnnounces(s, RemovalRuns(s.ids, op.ids, 0), k);
    }
  }

  lemma PresentRunsFit<T>(s: Store<T>, ids: seq<Uint64>, data: Batch<T>)
    requires Aligned(s) && Present(s.ids, ids) && Covers(data, |s.cols|, |ids|)
    ensures RunsFit(Runs(s.ids, ids, 0), data, |s.cols|, |s.ids|)
  {
    hide Runs, Tiles;
    var runs := Runs(s.ids, ids, 0);
    RunsTileTheBatch(s.ids, ids, 0);
    forall k | 0 <= k < |runs|
      ensures runs[k].begin + runs[k].count <= |s.ids| && Covers(data, |s.cols|, runs[k].pos + runs[k].count)
    {
      assert Describes(runs[k], s.ids, ids);
    }
  }

  /** Every operation keeps ids unique and columns aligned, has the map's effect, and
      tells the mirror enough. */
  lemma OperationIsRight<T>(s: Store<T>, op: Op<T>)
    requires WellFormed(s) && Allowed(s, op)
    ensures WellFormed(Apply(s, op))
    ensures View(Apply(s, op)) == ApplyToView(View(s), s, op)
    ensures Carries(s, Emitted(s, op), Apply(s, op))
  {
    match op
    case Insert(ids, added) =>
      InsertRefines(s, ids, added);
      InsertCarries(s, ids, added);
    case Update(ids, data) =>
      BatchIsFold(s, ids, data, 0);
      FoldRefines(s, ids, data, 0);
      PresentRunsFit(s, ids, data);
      UpdateCarries(s, data, Runs(s.ids, ids, 0));
    case Remove(ids) =>
      RemoveAllRefines(s, ids, 0);
      UniqueIsFromStart(ids, 0);
      RemovalsFitIff(s, ids, 0);
      RemoveCarries(s, RemovalRuns(s.ids, ids, 0));
    case Publish(c, contents) =>
      PublishRefines(s, c, contents);
      PublishCarries(s, s, c, contents);
  }

  lemma PublishRefines<T>(s: Store<T>, c: nat, contents: seq<T>)
    requires WellFormed(s) && c < |s.cols| && |contents| == |s.ids|
    ensures WellFormed(Published(s, c, contents))
    ensures View(Published(s, c, contents)) == map id | id in View(s) :: View(s)[id][c := contents[IndexOf(s.ids, id)]]
  {
    var u := Published(s, c, contents);
    assert Aligned(u);
    ViewKeys(s);
    forall r | 0 <= r < |u.ids|
      ensures s.ids[r] in View(s) && View(s)[s.ids[r]] == Row(s, r)
      ensures IndexOf(s.ids, s.ids[r]) == r && Row(u, r) == Row(s, r)[c := contents[r]]
    {
      ViewAt(s, r);
      IndexIsRow(s.ids, r);
    }
    hide View, Row, IndexOf;
    ViewIs(u, map id | id in View(s) :: View(s)[id][c := contents[IndexOf(s.ids, id)]]);
  }

  ghost predicate AllAllowed<T>(s: Store<T>, ops: seq<Op<T>>)
    decreases |ops|
  {
    ops == [] || (Aligned(s) && Allowed(s, ops[0]) && AllAllowed(Apply(s, ops[0]), ops[1..]))
  }

  ghost function RunOps<T>(s: Store<T>, ops: seq<Op<T>>): Store<T>
    requires AllAllowed(s, ops)
    decreases |ops|
  {
    if ops == [] then s else RunOps(Apply(s, ops[0]), ops[1..])
  }

  ghost function RunEmitted<T>(s: Store<T>, ops: seq<Op<T>>): seq<Emission<T>>
    requires AllAllowed(s, ops)
    decreases |ops|
  {
    if ops == [] then [] else Emitted(s, ops[0]) + RunEmitted(Apply(s, ops[0]), ops[1..])
  }

  /** The storage stays well formed and a mirror fed with all its events ends up holding
      exactly its ids and columns. */
  lemma {:induction false} MirrorFollows<T>(s: Store<T>, ops: seq<Op<T>>)
    requires WellFormed(s) && AllAllowed(s, ops)
    ensures WellFormed(RunOps(s, ops))
    ensures Carries(s, RunEmitted(s, ops), RunOps(s, ops))
    decreases |ops|
  {
    if ops != [] {
      var u := Apply(s, ops[0]);
      OperationIsRight(s, ops[0]);
      MirrorFollows(u, ops[1..]);
      hide Carries, Apply, Emitted;
      CarriesBoth(s, Emitted(s, ops[0]), u, RunEmitted(u, ops[1..]), RunOps(u, ops[1..]));
    }
  }

  ghost function RunOnView<T>(m: map<Uint64, seq<T>>, s: Store<T>, ops: seq<Op<T>>): map<Uint64, seq<T>>
    requires WellFormed(s) && AllAllowed(s, ops) && m == View(s)
    decreases |ops|
  {
    if ops == [] then m
    else
      OperationIsRight(s, ops[0]);
      RunOnView(ApplyToView(m, s, ops[0]), Apply(s, ops[0]), ops[1..])
  }

  /** The storage refines the map from ids to tuples. */
  lemma {:induction false} RefinesMap<T>(s: Store<T>, ops: seq<Op<T>>)
    requires WellFormed(s) && AllAllowed(s, ops)
    ensures WellFormed(RunOps(s, ops)) && View(RunOps(s, ops)) == RunOnView(View(s), s, ops)
    decreases |ops|
  {
    if ops != [] {
      OperationIsRight(s, ops[0]);
      RefinesMap(Apply(s, ops[0]), ops[1..]);
    }
  }
}
