/** Tables a program can reach with keys that share a bucket: one on which removing two rows
    at once ends in the error branch, and one on which it goes well although the moved rows
    are out of order. And two runs of a storage to where the rows allow more than the code
    can carry out. */
module Witnesses {
  import opened Common
  import opened DynArrays
  import opened Chains
  import opened Relinks
  import opened Removals
  import opened Indexes
  import opened Hashes
  import opened Stores
  import opened Selections
  import opened Engines
  import opened Columns
  import Protocols

  // ---------- Keys that share a bucket ----------

  /** Among 16 buckets, as many as pushing five to eight keys at once makes. Equal keys share
      one under every hash function. */
  predicate Collide(hash: Uint64 -> Uint64, keys: seq<Uint64>, b: nat) {
    b < 16 && forall i :: 0 <= i < |keys| ==> hash(keys[i]) % 16 == b
  }

  /** m - 1, ..., 1, 0. */
  function Falling(m: nat): Chain {
    if m == 0 then [] else [m - 1] + Falling(m - 1)
  }

  /** All rows lie in bucket b, and `c` is its chain. */
  ghost predicate OneBucket(h: Hole, b: nat, c: Chain) {
    (forall r :: 0 <= r < |h.keys| ==> h.home(h.keys[r]) == b) && b < |h.chains| && h.chains[b] == c
  }

  lemma {:induction false} ThreadedFalls(home: Uint64 -> nat, keys: seq<Uint64>, chains: seq<Chain>, row: nat, b: nat)
    requires (forall r :: 0 <= r < |keys| ==> home(keys[r]) == b) && b < |chains| && row <= |keys|
    requires chains[b] == Falling(row)
    ensures Threaded(home, keys, chains, row)[b] == Falling(|keys|)
    decreases |keys| - row
  {
    ThreadedStep(home, keys, chains, row);
    if row < |keys| {
      hide Threaded;
      ThreadedFalls(home, keys, WithRow(home, keys, chains, row), row + 1, b);
    }
  }

  lemma EightIsNext(n: nat)
    requires 5 <= n <= 8
    ensures NextPow2(n) == 8
  {
    hide NextPow2;
    NextPow2IsLeast(n);
    var r := NextPow2(n);
    assert IsPow2(8) by {
      assert Pow2(3) == 8;
    }
    assert r <= 8;
    var k :| Pow2(k) == r;
    Powers(k);
  }

  lemma Powers(k: nat)
    ensures Pow2(k) <= 4 || Pow2(k) >= 8
  {
    if k <= 2 {
      assert Pow2(k) <= 4;
    } else {
      Eight(k);
    }
  }

  lemma {:induction false} Eight(k: nat)
    requires k >= 3
    ensures Pow2(k) >= 8
  {
    if k > 3 {
      Eight(k - 1);
    }
  }

  /** Pushed at once into an empty hash, they make a falling chain in one of 16 buckets. */
  lemma PushedTogether(hash: Uint64 -> Uint64, keys: seq<Uint64>, b: nat)
    requires 5 <= |keys| <= 8 && Collide(hash, keys, b)
    ensures var x := PushedN(hash, Index([], [], 0), keys);
      x.keys == keys && |x.chains| == 16 && OneBucket(HoleIn(hash, x, 0, 0), b, Falling(|keys|))
  {
    EightIsNext(|keys|);
    hide NextPow2, Threaded;
    ThreadedStep(Home(hash, 16), [], NoRows(16), 0);
    ThreadedFalls(Home(hash, 16), keys, NoRows(16), 0, b);
  }

  /** Row `row` removed from between `front` and `back`. */
  lemma RemovedTogether(hash: Uint64 -> Uint64, x: Index, b: nat, front: Chain, row: nat, back: Chain)
    requires row < |x.keys| && row !in front && row !in back
    requires OneBucket(HoleIn(hash, x, 0, 0), b, front + [row] + back)
    ensures OneBucket(HoleIn(hash, Removed(x, row, 1), 0, 0), b, Relocated(front + back, |x.keys|, row, 1))
  {
    hide CutFast, Kept, Relocated;
    CutFastAt(x.keys, row, 1);
    KeptTwoSides(front, row, back);
  }

  lemma KeptTwoSides(a: Chain, row: nat, c: Chain)
    requires row !in a && row !in c
    ensures Kept(a + [row] + c, row, row + 1) == a + c
  {
    hide Kept;
    KeptConcat(a + [row], c, row, row + 1);
    KeptConcat(a, [row], row, row + 1);
    KeptAll(a, row, row + 1);
    KeptAll(c, row, row + 1);
    KeptNone(row);
  }

  method PushTogether(hash: Uint64 -> Uint64, keys: seq<Uint64>, ghost b: nat) returns (h: Hash)
    requires 5 <= |keys| <= 8 && Collide(hash, keys, b)
    ensures fresh(h) && fresh(h.Repr()) && h.Valid() && h.hash == hash && h.State().keys == keys && |h.State().chains| == 16
    ensures OneBucket(HoleIn(hash, h.State(), 0, 0), b, Falling(|keys|))
  {
    hide Threads, Partitions, Descending, PushedN, Falling, Home;
    h := new Hash(hash);
    h.PushBackN(keys);
    PushedTogether(hash, keys, b);
  }

  method RemoveTogether(h: Hash, row: nat, ghost b: nat, ghost front: Chain, ghost back: Chain)
    requires h.Valid() && row < h.keys.count && row !in front && row !in back
    requires OneBucket(HoleIn(h.hash, h.State(), 0, 0), b, front + [row] + back)
    modifies h`chains, h.keys`count, h.next`count, h.keys.data, h.heads.data, h.next.data
    ensures h.Valid() && h.State() == Removed(old(h.State()), row, 1)
    ensures OneBucket(HoleIn(h.hash, h.State(), 0, 0), b, Relocated(front + back, old(h.keys.count), row, 1))
  {
    hide Threads, Partitions, RemovedChains, Relocated, CutFast, Home, Movable, Removal, Descending;
    RemovedTogether(h.hash, h.State(), b, front, row, back);
    h.RemoveFast(row, 1);
  }

  lemma TableFits(h: Hash, pos: nat, n: nat)
    requires h.Valid() && pos + n <= h.keys.count
    ensures Fits(h.HoleAt(pos, n)) && h.HoleAt(pos, n) == HoleIn(h.hash, h.State(), pos, n)
    ensures Threads(Home(h.hash, h.heads.count), h.Table(), h.chains, 0, 0)
  {
  }

  // ---------- The removal that fails ----------

  /** Five keys of one bucket, row 2 removed: the chain is 2, 3, 1, 0. */
  method SpoiledHash(hash: Uint64 -> Uint64, keys: seq<Uint64>, ghost b: nat) returns (h: Hash)
    requires |keys| == 5 && Collide(hash, keys, b)
    ensures fresh(h) && h.Valid() && h.hash == hash && h.Keys() == CutFast(keys, 2, 1)
    ensures OneBucket(h.HoleAt(0, 2), b, [2, 3, 1, 0])
    ensures !TailOrdered(h.chains, MoveSource(4, 0, 2), MoveCount(4, 0, 2)) && !Movable(h.HoleAt(0, 2))
    ensures forall steps: nat :: Removal(Home(hash, h.heads.count), h.Table(), 0, 2, steps) == Failed
  {
    hide Movable, TailOrdered, Removal, Threads, Partitions, Relocated, Falling, Home, CutFast;
    h := PushTogether(hash, keys, b);
    FiveFalling();
    RemoveTogether(h, 2, b, [4, 3], [1, 0]);
    ghost var hole := h.HoleAt(0, 2);
    TableFits(h, 0, 2);
    forall steps: nat
      ensures Removal(Home(hash, h.heads.count), h.Table(), 0, 2, steps) == Failed
    {
      EndsInError(hole, h.Table(), b, steps);
    }
    NotMovable(hole, b);
  }

  // ---------- The removal that goes well out of order ----------

  /** Six keys of one bucket, row 0 removed, then row 2: the chain is 0, 2, 3, 1. The walk
      for row 3 reads row 2 at its new number 0, whose stale cell leads back to row 2. */
  method LuckyHash(hash: Uint64 -> Uint64, keys: seq<Uint64>, ghost b: nat) returns (h: Hash)
    requires |keys| == 6 && Collide(hash, keys, b)
    ensures fresh(h) && h.Valid() && h.hash == hash && h.keys.count == 4
    ensures OneBucket(h.HoleAt(0, 2), b, [0, 2, 3, 1])
    ensures !TailOrdered(h.chains, MoveSource(4, 0, 2), MoveCount(4, 0, 2)) && Movable(h.HoleAt(0, 2))
  {
    hide Movable, TailOrdered, Removal, Threads, Partitions, Relocated, Falling, Home, CutFast;
    h := PushTogether(hash, keys, b);
    SixFalling();
    RemoveTogether(h, 0, b, [5, 4, 3, 2, 1], []);
    RemoveTogether(h, 2, b, [0, 4, 3], [1]);
    TableFits(h, 0, 2);
    Lucky(h.HoleAt(0, 2), b);
  }

  lemma SixFalling()
    ensures Falling(6) == [5, 4, 3, 2, 1] + [0] + []
    ensures Relocated([5, 4, 3, 2, 1] + [], 6, 0, 1) == [0, 4, 3] + [2] + [1]
    ensures Relocated([0, 4, 3] + [1], 5, 2, 1) == [0, 2, 3, 1]
  {
    assert Relocated([5, 4, 3, 2, 1] + [], 6, 0, 1) == [0, 4, 3] + [2] + [1];
    assert Relocated([0, 4, 3] + [1], 5, 2, 1) == [0, 2, 3, 1];
  }

  lemma Lucky(h: Hole, b: nat)
    requires OneBucket(h, b, [0, 2, 3, 1]) && |h.keys| == 4 && h.pos == 0 && h.n == 2
    ensures !TailOrdered(h.chains, MoveSource(4, 0, 2), MoveCount(4, 0, 2)) && Movable(h)
  {
    hide TrailArrives;
    var c := h.chains[b];
    assert c[1] == 2 && c[2] == 3;
    assert !TailFalls(c, 2, 2);
    LuckyTrails(h, b);
  }

  lemma LuckyTrails(h: Hole, b: nat)
    requires OneBucket(h, b, [0, 2, 3, 1]) && |h.keys| == 4 && h.pos == 0 && h.n == 2
    ensures TrailArrives(h, 0) && TrailArrives(h, 1)
  {
    var c := h.chains[b];
    assert ChainOf(h, 0) == ChainOf(h, 2) == ChainOf(h, 3) == c;
    BehindAt(c, 0);
    BehindAt(c, 1);
    KeptStep(c, 0, 2);
    KeptStep(c[1..], 0, 2);
    KeptStep(c[2..], 0, 2);
    TrailStep(h, 0, 2, 4);
    TrailStep(h, 1, 2, 4);
    TrailStep(h, 1, 3, 3);
  }

  lemma FiveFalling()
    ensures Falling(5) == [4, 3] + [2] + [1, 0] && Relocated([4, 3] + [1, 0], 5, 2, 1) == [2, 3, 1, 0]
  {
    assert Relocated([4, 3] + [1, 0], 5, 2, 1) == [2, 3, 1, 0];
  }

  lemma NotMovable(h: Hole, b: nat)
    requires OneBucket(h, b, [2, 3, 1, 0]) && |h.keys| == 4 && h.pos == 0 && h.n == 2
    ensures !TailOrdered(h.chains, MoveSource(4, 0, 2), MoveCount(4, 0, 2)) && !Movable(h)
  {
    var c := h.chains[b];
    assert c[0] == 2 && c[1] == 3;
    assert !TailFalls(c, 2, 2);
    Trails(h, b);
    assert !TrailArrives(h, 1);
  }

  /** The trail for row 3 reads row 2 at its new number 0, and nothing survives behind 0. */
  lemma Trails(h: Hole, b: nat)
    requires OneBucket(h, b, [2, 3, 1, 0]) && |h.keys| == 4 && h.pos == 0 && h.n == 2
    ensures FirstMoved(h) == 2 && Entry(h, 0) == Entry(h, 1) == 2 && Survivor(h, 0) == INVALID
    ensures !TrailArrives(h, 1)
  {
    var c := h.chains[b];
    assert ChainOf(h, 0) == ChainOf(h, 2) == ChainOf(h, 3) == c;
    BehindAt(c, 3);
    KeptStep(c, 0, 2);
    TrailStep(h, 1, 2, 4);
  }

  lemma EndsInError(h: Hole, t: Cells, b: nat, steps: nat)
    requires Fits(h) && OneBucket(h, b, [2, 3, 1, 0]) && |h.keys| == 4 && h.pos == 0 && h.n == 2
    requires t.keys == h.keys && Threads(h.home, t, h.chains, 0, 0)
    ensures Removal(h.home, t, 0, 2, steps) == Failed
  {
    hide DeletePass, Removes, UnlinkedTo, EveryWalkArrives, RelinkPass, Partitions, Between;
    assert |t.next| == |t.keys|;
    hide Threads;
    RemovesIffArrives(h, t, steps);
    var p := DeletePass(h.home, t, 0, 0, 2, steps);
    if p.Done? {
      SecondPassFails(h, p.t, b, steps);
    }
  }

  lemma SecondPassFails(h: Hole, t: Cells, b: nat, steps: nat)
    requires Fits(h) && OneBucket(h, b, [2, 3, 1, 0]) && |h.keys| == 4 && h.pos == 0 && h.n == 2
    requires Between(h, t) && t.keys == h.keys && |t.next| == |t.keys|
    ensures RelinkPass(h.home, t, 2, 0, 0, 2, steps) == Failed
  {
    hide UnlinkedTo, RelinkPass, PassFrom, Arrives, StepWalk, Survivors, Kept, Threads, Entry, Survivor, Renamed;
    Trails(h, b);
    InTable(h, t);
    FirstArrives(h, t, b, steps);
    SecondIsLost(h, t, steps);
    PassStart(h.home, t, 0, 2, steps);
    PassAdvances(h.home, t, Survivors(h), 0, 2, 0, steps);
    PassStep(h.home, t, 0, 2, 1, steps);
  }

  lemma FirstArrives(h: Hole, t: Cells, b: nat, steps: nat)
    requires Fits(h) && OneBucket(h, b, [2, 3, 1, 0]) && |h.keys| == 4 && h.pos == 0 && h.n == 2
    requires Between(h, t) && |t.next| == |t.keys| && t.keys == h.keys && Entry(h, 0) == 2
    ensures WalkArrives(h, t, 0, steps)
  {
    hide UnlinkedTo, Threads, Kept, Walking, StepWalk, Entry;
    var d, k := MovedPlace(h, t, 0);
    EntryName(h, t, 0, d, k, steps);
    WalkBasics(h, t, 0, 2, INVALID, steps);
  }

  lemma SecondIsLost(h: Hole, t: Cells, steps: nat)
    requires Fits(h) && |h.keys| == 4 && h.pos == 0 && h.n == 2
    requires Between(h, t) && |t.next| == |t.keys| && t.keys == h.keys && Entry(h, 1) == 2 && Survivor(h, 0) == INVALID
    ensures !StepWalk(h.home, t, 0, 2, 1, false, steps).Reached?
  {
    hide UnlinkedTo, Threads, Kept, Walking, StepWalk, Entry, Survivor, StaleCell;
    var d, k := MovedPlace(h, t, 1);
    EntryName(h, t, 1, d, k, steps);
    var m := RunLength(h, 0);
    var rest := if steps < m then 0 else steps - m;
    StaleRunOn(h, t, 1, 0, INVALID, rest);
    WalkBasics(h, t, 1, INVALID, RunEnd(h, 0), rest);
  }

  // ---------- The same in a storage ----------

  lemma OneIdGone(hash: Uint64 -> Uint64, x: Index, row: nat)
    requires Unique(x.keys) && row < |x.keys|
    ensures RemovedAll(x, [x.keys[row]], 0) == Removed(x, row, 1)
  {
    hide NextRun, CutFast, RemovedChains;
    var ids := [x.keys[row]];
    NextRunDescribes(x.keys, ids, 0);
    var r := NextRun(x.keys, ids, 0);
    SliceAt(x.keys, r.begin, ids, 0, 1, 0);
    NoneLeft(hash, Removed(x, row, 1), ids, 1);
  }

  lemma TwoInARow(keys: seq<Uint64>)
    requires |keys| >= 2 && Unique(keys)
    ensures NextRun(keys, [keys[0], keys[1]], 0) == Run(0, 0, 0, 2)
  {
    IndexIsRow(keys, 0);
    assert Extent(keys, [keys[0], keys[1]], 2, 2) == 0;
  }

  /** The hash after the ids and the first removal. */
  function Spoiled(hash: Uint64 -> Uint64, ids: seq<Uint64>): (x: Index)
    requires |ids| == 5
    ensures |x.keys| == 4
  {
    Removed(PushedN(hash, Index([], [], 0), ids), 2, 1)
  }

  lemma SpoiledByOne(hash: Uint64 -> Uint64, ids: seq<Uint64>, b: nat)
    requires |ids| == 5 && Unique(ids) && Collide(hash, ids, b)
    ensures var x := Spoiled(hash, ids);
      && Unique(x.keys) && x.keys[0] == ids[0] && x.keys[1] == ids[1]
      && !Movable(HoleIn(hash, x, 0, 2))
  {
    hide PushedN, RemovedChains, Relocated, Movable, Falling;
    PushedTogether(hash, ids, b);
    FiveFalling();
    RemovedTogether(hash, PushedN(hash, Index([], [], 0), ids), b, [4, 3], 2, [1, 0]);
    CutStaysUnique(ids, 2, 1);
    NotMovable(HoleIn(hash, Spoiled(hash, ids), 0, 2), b);
  }

  /** Five distinct ids of one bucket inserted, the third removed: the first two are present
      and side by side, yet cannot be removed as one batch; one after the other they can. */
  lemma RowsAreNotEnough(hash: Uint64 -> Uint64, ids: seq<Uint64>, b: nat)
    requires |ids| == 5 && Unique(ids) && Collide(hash, ids, b)
    ensures var start := Engine(Index([], [], 0), []);
      var reqs: seq<Request<int>> := [Request.Insert(ids, []), Request.Remove([ids[2]])];
      var e := Engine(Spoiled(hash, ids), []);
      && AllPermitted(hash, start, reqs) && RunEngine(hash, start, reqs) == e
      && Owed<int>(e, Request.Remove([ids[0], ids[1]])) && !Permitted<int>(hash, e, Request.Remove([ids[0], ids[1]]))
      && AllPermitted<int>(hash, e, [Request.Remove([ids[0]]), Request.Remove([ids[1]])])
  {
    hide PushedN, Removable, RemovedAll, Removed, CutFast, Movable, NextRun, Collide;
    var x := PushedN(hash, Index([], [], 0), ids);
    SpoiledByOne(hash, ids, b);
    FirstTwoSteps(hash, ids);
    var y := Spoiled(hash, ids);
    TwoInARow(y.keys);
    NotAsOne(hash, y);
    OneThenOther(hash, y);
  }

  lemma FirstTwoSteps(hash: Uint64 -> Uint64, ids: seq<Uint64>)
    requires |ids| == 5 && Unique(ids)
    ensures var start := Engine(Index([], [], 0), []);
      var reqs: seq<Request<int>> := [Request.Insert(ids, []), Request.Remove([ids[2]])];
      AllPermitted(hash, start, reqs) && RunEngine(hash, start, reqs) == Engine(Spoiled(hash, ids), [])
  {
    hide PushedN, Removable, RemovedAll, CutFast, RemovedChains;
    var start := Engine(Index([], [], 0), []);
    var reqs: seq<Request<int>> := [Request.Insert(ids, []), Request.Remove([ids[2]])];
    var x := PushedN(hash, start.index, ids);
    assert Next(hash, start, reqs[0]) == Engine(x, []);
    OneIdIsRemovable(hash, x, ids[2]);
    OneIdGone(hash, x, 2);
    assert Next(hash, Engine(x, []), reqs[1]) == Engine(Spoiled(hash, ids), []);
    TwoPermitted(hash, start, reqs[0], reqs[1]);
  }

  lemma TwoPermitted<T>(hash: Uint64 -> Uint64, e: Engine, first: Request<T>, second: Request<T>)
    requires Permitted(hash, e, first) && Permitted(hash, Next(hash, e, first), second)
    ensures AllPermitted(hash, e, [first, second])
    ensures RunEngine(hash, e, [first, second]) == Next(hash, Next(hash, e, first), second)
  {
    hide Owed, Served, Next;
    var f := Next(hash, e, first);
    assert [first, second][1..] == [second] && [second][1..] == [];
    assert AllPermitted(hash, f, [second]) && RunEngine(hash, f, [second]) == Next(hash, f, second);
  }

  lemma NotAsOne(hash: Uint64 -> Uint64, x: Index)
    requires |x.keys| >= 2 && !Movable(HoleIn(hash, x, 0, 2))
    requires NextRun(x.keys, [x.keys[0], x.keys[1]], 0) == Run(0, 0, 0, 2)
    ensures !Removable(hash, x, [x.keys[0], x.keys[1]], 0)
  {
  }

  lemma OneThenOther(hash: Uint64 -> Uint64, x: Index)
    requires 2 <= |x.keys| <= LIMIT && Unique(x.keys)
    ensures AllPermitted<int>(hash, Engine(x, []), [Request.Remove([x.keys[0]]), Request.Remove([x.keys[1]])])
  {
    hide Removable, RemovedAll, CutFast, RemovedChains;
    var first: Request<int>, second: Request<int> := Request.Remove([x.keys[0]]), Request.Remove([x.keys[1]]);
    OneIdIsRemovable(hash, x, x.keys[0]);
    OneIdGone(hash, x, 0);
    var y := Removed(x, 0, 1);
    CutKeepsOthers(x.keys, 0, 1, 1);
    assert Next(hash, Engine(x, []), first) == Engine(y, []);
    OneIdIsRemovable(hash, y, x.keys[1]);
    TwoPermitted(hash, Engine(x, []), first, second);
  }

  /** The hash after four ids and the removal of the last two. */
  function Halved(hash: Uint64 -> Uint64, ids: seq<Uint64>): (x: Index)
    requires |ids| == 4
  {
    Removed(Removed(PushedN(hash, Index([], [], 0), ids), 3, 1), 2, 1)
  }

  /** Four rows in one column, cut to two, rewritten through a buffer: the column claims four
      slots and has two, and one more row, whatever its id, cannot be inserted. */
  lemma CapacityIsNotEnough(hash: Uint64 -> Uint64, ids: seq<Uint64>, id: Uint64, contents: seq<int>)
    requires |ids| == 4 && Unique(ids) && id !in ids && |contents| == 2
    ensures var start := Engine(Index([], [], 0), [Room(8, 0, 0, 0, 0)]);
      var reqs := [Request.Insert(ids, [None]), Request.Remove([ids[3]]), Request.Remove([ids[2]]), Request.Rewrite(0, Protocols.Buffered, contents)];
      var e := Engine(Halved(hash, ids), [Room(8, 4, 2, 4, 2)]);
      && AllPermitted(hash, start, reqs) && RunEngine(hash, start, reqs) == e
      && Owed<int>(e, Request.Insert([id], [None])) && !Permitted<int>(hash, e, Request.Insert([id], [None]))
  {
    hide PushedN, Removed, Owed, Served, Next;
    var start := Engine(Index([], [], 0), [Room(8, 0, 0, 0, 0)]);
    var x := PushedN(hash, start.index, ids);
    FourRows(hash, ids);
    LastGoes(hash, x, [Room(8, 4, 4, 0, 0)], ids, 3);
    var y := Removed(x, 3, 1);
    LastGoes(hash, y, [Room(8, 4, 4, 0, 0)], ids[..3], 2);
    var z := Removed(y, 2, 1);
    TwoRewritten(hash, z, contents);
    FourPermitted(hash, start, Request.Insert(ids, [None]), Request.Remove([ids[3]]), Request.Remove([ids[2]]),
                  Request.Rewrite(0, Protocols.Buffered, contents));
    assert z.keys == ids[..2];
    NoThirdRow(hash, z, id);
  }

  lemma FourRows(hash: Uint64 -> Uint64, ids: seq<Uint64>)
    requires |ids| == 4 && Unique(ids)
    ensures var e := Engine(Index([], [], 0), [Room(8, 0, 0, 0, 0)]);
      Permitted<int>(hash, e, Request.Insert(ids, [None]))
      && Next<int>(hash, e, Request.Insert(ids, [None])) == Engine(PushedN(hash, e.index, ids), [Room(8, 4, 4, 0, 0)])
  {
    hide PushedN;
    assert RoomsGrown<int>([Room(8, 0, 0, 0, 0)], [None], 4) == [Room(8, 4, 4, 0, 0)];
  }

  lemma TwoRewritten(hash: Uint64 -> Uint64, x: Index, contents: seq<int>)
    requires |x.keys| == |contents| == 2
    ensures var e := Engine(x, [Room(8, 4, 4, 0, 0)]);
      Permitted(hash, e, Request.Rewrite(0, Protocols.Buffered, contents))
      && Next(hash, e, Request.Rewrite(0, Protocols.Buffered, contents)) == Engine(x, [Room(8, 4, 2, 4, 2)])
  {
  }

  lemma NoThirdRow(hash: Uint64 -> Uint64, x: Index, id: Uint64)
    requires |x.keys| == 2 && id !in x.keys
    ensures var e := Engine(x, [Room(8, 4, 2, 4, 2)]);
      Owed<int>(e, Request.Insert([id], [None])) && !Permitted<int>(hash, e, Request.Insert([id], [None]))
  {
    assert !RoomFor([Room(8, 4, 2, 4, 2)][0], 2 + 1);
  }

  lemma LastGoes(hash: Uint64 -> Uint64, x: Index, rooms: seq<Room>, ids: seq<Uint64>, last: nat)
    requires x.keys == ids && |ids| == last + 1 <= LIMIT && Unique(ids)
    ensures var e := Engine(x, rooms);
      Permitted<int>(hash, e, Request.Remove([ids[last]]))
      && Next<int>(hash, e, Request.Remove([ids[last]])) == Engine(Removed(x, last, 1), rooms)
    ensures Removed(x, last, 1).keys == ids[..last]
  {
    hide Removable, RemovedAll, RemovedChains;
    OneIdIsRemovable(hash, x, ids[last]);
    OneIdGone(hash, x, last);
  }

  lemma FourPermitted<T>(hash: Uint64 -> Uint64, e: Engine, a: Request<T>, b: Request<T>, c: Request<T>, d: Request<T>)
    requires Permitted(hash, e, a) && Permitted(hash, Next(hash, e, a), b)
    requires var f := Next(hash, Next(hash, e, a), b); Permitted(hash, f, c) && Permitted(hash, Next(hash, f, c), d)
    ensures AllPermitted(hash, e, [a, b, c, d])
    ensures RunEngine(hash, e, [a, b, c, d]) == Next(hash, Next(hash, Next(hash, Next(hash, e, a), b), c), d)
  {
    hide Owed, Served, Next;
    var f := Next(hash, e, a);
    TwoPermitted(hash, Next(hash, f, b), c, d);
    assert [a, b, c, d][1..] == [b, c, d] && [b, c, d][1..] == [c, d];
    assert AllPermitted(hash, f, [b, c, d]) && RunEngine(hash, f, [b, c, d]) == RunEngine(hash, Next(hash, f, b), [c, d]);
  }
}
