/** Whole runs of a storage: the requests a caller can make, what decides whether the code
    can carry one out, and what every run that it can carry out does to the rows, to a
    mirror and to the map from ids to tuples. */
module Engines {
  import opened Common
  import opened DynArrays
  import opened Chains
  import opened Removals
  import opened Indexes
  import opened Columns
  import opened Stores
  import opened Selections
  import opened Mirrors
  import Protocols

  /** What a storage is beside its values: the hash over the ids, and how every column is
      reserved. */
  datatype Engine = Engine(index: Index, rooms: seq<Room>)

  /** Rewrite is a begin_write, stores of all the contents, and the end_write. */
  datatype Request<T> =
    | Insert(ids: seq<Uint64>, values: Batch<T>)
    | Update(ids: seq<Uint64>, values: Batch<T>)
    | Remove(ids: seq<Uint64>)
    | Rewrite(column: nat, mode: Protocols.Mode, contents: seq<T>)

  // ---------- One request ----------

  /** What callers owe: fresh ids on insert, present ids otherwise, buffers of the right
      length, and sizes below the wraps of the code. */
  ghost predicate Owed<T>(e: Engine, req: Request<T>) {
    var rows := |e.index.keys|;
    rows <= LIMIT && match req
    case Insert(ids, values) =>
      && Fresh(e.index.keys, ids) && rows + |ids| <= LIMIT && |values| == |e.rooms|
      && (forall c :: 0 <= c < |values| && values[c].Some? ==> |values[c].value| == |ids|)
      && AllSized(e.rooms, rows + |ids|)
    case Update(ids, values) => Present(e.index.keys, ids) && |ids| <= INVALID && Covers(values, |e.rooms|, |ids|)
    case Remove(ids) => Present(e.index.keys, ids) && Unique(ids) && |ids| <= INVALID
    case Rewrite(c, mode, contents) =>
      c < |e.rooms| < INVALID && mode != Protocols.Idle && |contents| == rows && Sized(e.rooms[c], rows)
  }

  /** What the code needs beyond that: slots behind the capacities, removals whose rows can
      be moved, a block to write into. */
  ghost predicate Served<T>(hash: Uint64 -> Uint64, e: Engine, req: Request<T>) {
    match req
    case Insert(ids, _) => forall c :: 0 <= c < |e.rooms| ==> RoomFor(e.rooms[c], |e.index.keys| + |ids|)
    case Update(_, _) => true
    case Remove(ids) => Removable(hash, e.index, ids, 0)
    case Rewrite(c, mode, _) => c < |e.rooms| && HandedOut(e.rooms[c], mode, |e.index.keys|) > 0
  }

  ghost predicate Permitted<T>(hash: Uint64 -> Uint64, e: Engine, req: Request<T>) {
    Owed(e, req) && Served(hash, e, req)
  }

  /** Each run of the removal is one row, or its rows can be moved. */
  ghost predicate Removable(hash: Uint64 -> Uint64, x: Index, ids: seq<Uint64>, i: nat)
    decreases |ids| - i
  {
    i < |ids| ==>
      var r := NextRun(x.keys, ids, i);
      && r.begin + r.count <= |x.keys|
      && (r.count <= 1 || Movable(HoleIn(hash, x, r.begin, r.count)))
      && Removable(hash, Removed(x, r.begin, r.count), ids, i + r.count)
  }

  /** The hash after the removal, run by run. */
  function RemovedAll(x: Index, ids: seq<Uint64>, i: nat): Index
    decreases |ids| - i
  {
    if i >= |ids| then x
    else
      var r := NextRun(x.keys, ids, i);
      RemovedAll(if r.begin + r.count <= |x.keys| then Removed(x, r.begin, r.count) else x, ids, i + r.count)
  }

  /** The length of the block that a writer gets. */
  function HandedOut(r: Room, mode: Protocols.Mode, rows: nat): nat {
    if mode == Protocols.Buffered then RoomPrepared(r, rows).backLength else r.length
  }

  function RoomRewritten(r: Room, mode: Protocols.Mode, rows: nat): Room {
    if mode == Protocols.Buffered then RoomSwapped(RoomPrepared(r, rows)) else r
  }

  ghost predicate AllSized(rooms: seq<Room>, total: nat) {
    forall c :: 0 <= c < |rooms| ==> Sized(rooms[c], total)
  }

  ghost function RoomsGrown<T>(rooms: seq<Room>, values: Batch<T>, total: nat): (r: seq<Room>)
    requires |values| == |rooms| && AllSized(rooms, total)
    ensures |r| == |rooms| && forall c :: 0 <= c < |r| ==> r[c] == RoomGrown(rooms[c], values[c].Some?, total)
  {
    seq(|rooms|, c requires 0 <= c < |rooms| => RoomGrown(rooms[c], values[c].Some?, total))
  }

  ghost function Next<T>(hash: Uint64 -> Uint64, e: Engine, req: Request<T>): (u: Engine)
    requires Owed(e, req)
    ensures |u.rooms| == |e.rooms|
  {
    var rows := |e.index.keys|;
    match req
    case Insert(ids, values) =>
      Engine(PushedN(hash, e.index, ids), RoomsGrown(e.rooms, values, rows + |ids|))
    case Update(_, _) => e
    case Remove(ids) => e.(index := RemovedAll(e.index, ids, 0))
    case Rewrite(c, mode, _) => e.(rooms := e.rooms[c := RoomRewritten(e.rooms[c], mode, rows)])
  }

  lemma AfterInsert<T>(hash: Uint64 -> Uint64, e: Engine, ids: seq<Uint64>, values: Batch<T>)
    requires Owed(e, Request.Insert(ids, values))
    ensures Next(hash, e, Request.Insert(ids, values))
      == Engine(PushedN(hash, e.index, ids), RoomsGrown(e.rooms, values, |e.index.keys| + |ids|))
  {
  }

  /** The operation is what the request asks for; columns inserted without values get
      whatever their block held. */
  ghost predicate Answers<T>(req: Request<T>, op: Op<T>) {
    match req
    case Insert(ids, values) =>
      && op.Insert? && op.ids == ids && |op.added| == |values|
      && forall c :: 0 <= c < |values| ==> |op.added[c]| == |ids| && (values[c].Some? ==> op.added[c] == values[c].value)
    case Update(ids, values) => op == Op.Update(ids, values)
    case Remove(ids) => op == Op.Remove(ids)
    case Rewrite(c, _, contents) => op == Op.Publish(c, contents)
  }

  /** The engine of these rows. */
  ghost predicate Drives<T>(e: Engine, s: Store<T>) {
    e.index.keys == s.ids && |e.rooms| == |s.cols|
  }

  lemma {:induction false} RemovedAllKeys<T>(s: Store<T>, x: Index, ids: seq<Uint64>, i: nat)
    requires Aligned(s) && x.keys == s.ids
    ensures RemovedAll(x, ids, i).keys == RemovedBy(s, RemovalRuns(s.ids, ids, i)).ids
    decreases |ids| - i
  {
    hide NextRun, CutFast, RemovedChains;
    if i < |ids| {
      var r := NextRun(s.ids, ids, i);
      NextRunDescribes(s.ids, ids, i);
      if r.begin + r.count <= |s.ids| {
        RemovedAllKeys(RemovedRun(s, r), Removed(x, r.begin, r.count), ids, i + r.count);
        RemovedByCons(s, r, RemovalRuns(RemovedRun(s, r).ids, ids, i + r.count));
      } else {
        RemovedAllKeys(s, x, ids, i + r.count);
        RemovedByCons(s, r, RemovalRuns(s.ids, ids, i + r.count));
      }
    }
  }

  lemma RequestIsRight<T>(hash: Uint64 -> Uint64, e: Engine, s: Store<T>, req: Request<T>, op: Op<T>)
    requires WellFormed(s) && Drives(e, s) && Owed(e, req) && Answers(req, op)
    ensures Allowed(s, op) && WellFormed(Apply(s, op)) && Drives(Next(hash, e, req), Apply(s, op))
  {
    hide CutFast, View, Carries;
    assert Allowed(s, op);
    OperationIsRight(s, op);
    if req.Remove? {
      RemovedAllKeys(s, e.index, req.ids, 0);
    }
  }

  // ---------- Every run ----------

  ghost predicate AllPermitted<T>(hash: Uint64 -> Uint64, e: Engine, reqs: seq<Request<T>>)
    decreases |reqs|
  {
    reqs == [] || (Permitted(hash, e, reqs[0]) && AllPermitted(hash, Next(hash, e, reqs[0]), reqs[1..]))
  }

  ghost function RunEngine<T>(hash: Uint64 -> Uint64, e: Engine, reqs: seq<Request<T>>): Engine
    requires AllPermitted(hash, e, reqs)
    decreases |reqs|
  {
    if reqs == [] then e else RunEngine(hash, Next(hash, e, reqs[0]), reqs[1..])
  }

  ghost predicate AllAnswer<T>(reqs: seq<Request<T>>, ops: seq<Op<T>>) {
    |reqs| == |ops| && forall k :: 0 <= k < |reqs| ==> Answers(reqs[k], ops[k])
  }

  /** What answers a permitted run is allowed on the rows, step by step. */
  lemma {:induction false} RunIsAllowed<T>(hash: Uint64 -> Uint64, e: Engine, s: Store<T>, reqs: seq<Request<T>>, ops: seq<Op<T>>)
    requires WellFormed(s) && Drives(e, s) && AllPermitted(hash, e, reqs) && AllAnswer(reqs, ops)
    ensures AllAllowed(s, ops) && Drives(RunEngine(hash, e, reqs), RunOps(s, ops))
    decreases |reqs|
  {
    hide Owed, Served, Next, Answers, Apply, Allowed;
    if reqs != [] {
      assert Answers(reqs[0], ops[0]);
      RequestIsRight(hash, e, s, reqs[0], ops[0]);
      RunIsAllowed(hash, Next(hash, e, reqs[0]), Apply(s, ops[0]), reqs[1..], ops[1..]);
    }
  }

  /** Over every run that the code can carry out the storage stays well formed, and a
      mirror fed with all its events ends up holding exactly its ids and columns. */
  lemma MirrorFollowsEveryRun<T>(hash: Uint64 -> Uint64, e: Engine, s: Store<T>, reqs: seq<Request<T>>, ops: seq<Op<T>>)
    requires WellFormed(s) && Drives(e, s) && AllPermitted(hash, e, reqs) && AllAnswer(reqs, ops)
    ensures AllAllowed(s, ops) && WellFormed(RunOps(s, ops))
    ensures Carries(s, RunEmitted(s, ops), RunOps(s, ops))
  {
    hide AllPermitted, Carries;
    RunIsAllowed(hash, e, s, reqs, ops);
    MirrorFollows(s, ops);
  }

  /** Over every run that the code can carry out the storage refines the map from ids to
      tuples. */
  lemma EveryRunRefinesMap<T>(hash: Uint64 -> Uint64, e: Engine, s: Store<T>, reqs: seq<Request<T>>, ops: seq<Op<T>>)
    requires WellFormed(s) && Drives(e, s) && AllPermitted(hash, e, reqs) && AllAnswer(reqs, ops)
    ensures AllAllowed(s, ops) && WellFormed(RunOps(s, ops))
    ensures View(RunOps(s, ops)) == RunOnView(View(s), s, ops)
  {
    hide AllPermitted, View;
    RunIsAllowed(hash, e, s, reqs, ops);
    RefinesMap(s, ops);
  }

  // ---------- Runs that ids and sizes alone decide ----------

  /** Every column has the slots its capacity claims, and a slot for every row. */
  ghost predicate Full(e: Engine) {
    forall c :: 0 <= c < |e.rooms| ==> HasSlots(e.rooms[c], |e.index.keys|)
  }

  predicate HasSlots(r: Room, rows: nat) {
    r.capacity <= r.length && rows <= r.length && r.backCount <= r.backLength
  }

  /** One id removed at a time, and no buffer published that is shorter than the capacity
      it comes under. */
  predicate Plain<T>(e: Engine, req: Request<T>) {
    match req
    case Insert(_, _) => true
    case Update(_, _) => true
    case Remove(ids) => |ids| == 1
    case Rewrite(c, mode, contents) =>
      contents != [] && (c < |e.rooms| && mode == Protocols.Buffered ==>
        e.rooms[c].capacity <= RoomPrepared(e.rooms[c], |e.index.keys|).backLength)
  }

  ghost predicate AllPlain<T>(hash: Uint64 -> Uint64, e: Engine, reqs: seq<Request<T>>)
    decreases |reqs|
  {
    reqs == [] || (Owed(e, reqs[0]) && Plain(e, reqs[0]) && AllPlain(hash, Next(hash, e, reqs[0]), reqs[1..]))
  }

  /** One id can be removed from any state. */
  lemma OneIdIsRemovable(hash: Uint64 -> Uint64, x: Index, id: Uint64)
    requires id in x.keys
    ensures Removable(hash, x, [id], 0)
  {
    hide NextRun, CutFast, RemovedChains, Movable;
    NextRunDescribes(x.keys, [id], 0);
    var r := NextRun(x.keys, [id], 0);
    NoneLeft(hash, Removed(x, r.begin, r.count), [id], r.count);
  }

  lemma NoneLeft(hash: Uint64 -> Uint64, x: Index, ids: seq<Uint64>, i: nat)
    requires i >= |ids|
    ensures Removable(hash, x, ids, i) && RemovedAll(x, ids, i) == x
  {
  }

  /** A batch that is one run of rows can be removed while chains descend, as they do after
      any pushes and rehashes. */
  lemma OneRunIsRemovable(hash: Uint64 -> Uint64, x: Index, ids: seq<Uint64>)
    requires Partitions(Home(hash, |x.chains|), x.keys, x.chains, 0, 0) && Descending(x.chains)
    requires |x.keys| <= INVALID && ids != [] && ids[0] in x.keys && NextRun(x.keys, ids, 0).count == |ids|
    ensures Removable(hash, x, ids, 0)
  {
    hide Descending, TailOrdered, NextRun, Partitions, CutFast, RemovedChains, Movable;
    var r := NextRun(x.keys, ids, 0);
    NextRunDescribes(x.keys, ids, 0);
    var h := HoleIn(hash, x, r.begin, r.count);
    DescendingIsTailOrdered(x.chains, FirstMoved(h), MoveCount(|x.keys|, r.begin, r.count));
    TailOrderedIsMovable(h);
    NoneLeft(hash, Removed(x, r.begin, r.count), ids, r.count);
  }

  /** A plain request is served, and leaves the slots in place. */
  lemma PlainIsServed<T>(hash: Uint64 -> Uint64, e: Engine, req: Request<T>)
    requires Full(e) && Owed(e, req) && Plain(e, req)
    ensures Served(hash, e, req) && Full(Next(hash, e, req))
  {
    hide Removable, PushedN, NextPow2, Fresh, Present;
    match req
    case Insert(ids, values) =>
      var total := |e.index.keys| + |ids|;
      forall c | 0 <= c < |e.rooms|
        ensures RoomFor(e.rooms[c], total) && HasSlots(RoomGrown(e.rooms[c], values[c].Some?, total), total)
      {
        assert HasSlots(e.rooms[c], |e.index.keys|);
        GrowMakesRoom(total, e.rooms[c].elemSize);
      }
    case Update(_, _) =>
    case Remove(ids) =>
      OneIdLeaves(hash, e.index, ids);
      assert forall c :: 0 <= c < |e.rooms| ==> HasSlots(e.rooms[c], |e.index.keys|);
    case Rewrite(c, _, _) =>
      assert HasSlots(e.rooms[c], |e.index.keys|);
  }

  lemma OneIdLeaves(hash: Uint64 -> Uint64, x: Index, ids: seq<Uint64>)
    requires |ids| == 1 && Present(x.keys, ids)
    ensures Removable(hash, x, ids, 0) && |RemovedAll(x, ids, 0).keys| <= |x.keys|
  {
    hide NextRun, Removable, RemovedChains;
    assert ids == [ids[0]];
    OneIdIsRemovable(hash, x, ids[0]);
    var r := NextRun(x.keys, ids, 0);
    NextRunDescribes(x.keys, ids, 0);
    NoneLeft(hash, Removed(x, r.begin, r.count), ids, r.count);
  }

  /** Starting with full columns, inserts, updates, removals one id at a time and rewrites
      that are not shorter than the capacity are carried out whenever ids and sizes are
      right: neither the order of the chains nor the capacities can stand in the way. */
  lemma {:induction false} PlainRunIsPermitted<T>(hash: Uint64 -> Uint64, e: Engine, reqs: seq<Request<T>>)
    requires Full(e) && AllPlain(hash, e, reqs)
    ensures AllPermitted(hash, e, reqs) && Full(RunEngine(hash, e, reqs))
    decreases |reqs|
  {
    hide Owed, Served, Next, Plain, Full;
    if reqs != [] {
      PlainIsServed(hash, e, reqs[0]);
      PlainRunIsPermitted(hash, Next(hash, e, reqs[0]), reqs[1..]);
    }
  }
}
