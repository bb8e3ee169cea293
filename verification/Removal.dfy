/** The whole of dsim_hash_remove_fast as a function of the table before the call, and
    exactly when it is right, decided by the chains before the call. */
module Removals {
  import opened Common
  import opened DynArrays
  import opened Chains
  import opened Relinks

  // ---------- The code ----------

  /** The first pass of _dsim_hash_key_move_n, from the removed row number i on. */
  function DeletePass(home: Uint64 -> nat, t: Cells, pos: nat, i: nat, n: nat, steps: nat): (p: Pass)
    requires i <= n && |t.next| == |t.keys| && pos + n <= |t.keys|
    ensures p.Done? ==> p.t.keys == t.keys && |p.t.next| == |t.next| && |p.t.heads| == |t.heads|
    decreases n - i
  {
    if i == n then Done(t)
    else
      var b := home(t.keys[pos + i]);
      if b >= |t.heads| then Failed
      else
        match WalkFrom(t.next, t.heads[b], INVALID, pos + i, pos, pos, steps)
        case Reached(prev) => DeletePass(home, SetCell(t, b, prev, t.next[pos + i]), pos, i + 1, n, steps)
        case _ => Failed
  }

  /** Both passes, the copies and the pop; walks longer than `steps` count as endless. */
  function Removal(home: Uint64 -> nat, t: Cells, pos: nat, n: nat, steps: nat): (p: Pass)
    requires |t.next| == |t.keys| <= INVALID && pos + n <= |t.keys|
    ensures p.Done? ==> p.t.keys == CutFast(t.keys, pos, n)
  {
    match DeletePass(home, t, pos, 0, n, steps)
    case Done(u) =>
      (match RelinkPass(home, u, MoveSource(|t.keys|, pos, n), pos, 0, MoveCount(|t.keys|, pos, n), steps)
       case Done(v) => Done(Compacted(v, pos, n))
       case _ => Failed)
    case _ => Failed
  }

  // ---------- What a caller can see before the call ----------

  /** The rows [pos, pos+n) to be removed, and the table's keys and chains before the call. */
  datatype Hole = Hole(home: Uint64 -> nat, keys: seq<Uint64>, chains: seq<Chain>, pos: nat, n: nat)

  ghost predicate Fits(h: Hole) {
    h.pos + h.n <= |h.keys| <= INVALID && Partitions(h.home, h.keys, h.chains, 0, 0)
  }

  /** The rows behind `row` on a chain. */
  function Behind(c: Chain, row: nat): Chain {
    if c == [] then [] else if c[0] == row then c[1..] else Behind(c[1..], row)
  }

  function ChainOf(h: Hole, row: nat): Chain {
    if row < |h.keys| && h.home(h.keys[row]) < |h.chains| then h.chains[h.home(h.keys[row])] else []
  }

  /** The first row behind `row` on its chain that lies outside [lo, hi), or the end. */
  function Follower(h: Hole, row: nat, lo: nat, hi: nat): nat {
    At(Kept(Behind(ChainOf(h, row), row), lo, hi), 0)
  }

  /** The first surviving row behind `row` on its chain. */
  function Survivor(h: Hole, row: nat): nat {
    Follower(h, row, h.pos, h.pos + h.n)
  }

  /** What the cell of a removed row still holds when the relinking starts. */
  function StaleCell(h: Hole, row: nat): nat {
    Follower(h, row, h.pos, row)
  }

  function FirstMoved(h: Hole): nat
    requires h.pos + h.n <= |h.keys|
  {
    MoveSource(|h.keys|, h.pos, h.n)
  }

  /** The row that the walk for moved row number `done` comes to when it reads the name of
      row z: a row already renamed is looked for at its new number, where the cell is still
      the removed row's, which leads to the first survivor behind that one. */
  function Detour(h: Hole, done: nat, z: nat): nat
    requires h.pos + h.n <= |h.keys|
  {
    if FirstMoved(h) <= z < FirstMoved(h) + done then Survivor(h, h.pos + z - FirstMoved(h)) else z
  }

  /** Reading the true name z next, the walk for moved row number `done` comes to that
      row through the cell in front of it. */
  predicate Trail(h: Hole, done: nat, z: nat, fuel: nat)
    requires h.pos + h.n <= |h.keys|
    decreases fuel
  {
    z == FirstMoved(h) + done ||
    (z < |h.keys| && fuel > 0 &&
     var x := Detour(h, done, z);
     x < |h.keys| && x != FirstMoved(h) + done && Trail(h, done, Survivor(h, x), fuel - 1))
  }

  /** The first survivor of the chain that moved row number `done` is on. */
  function Entry(h: Hole, done: nat): nat
    requires h.pos + h.n <= |h.keys|
  {
    At(Kept(ChainOf(h, FirstMoved(h) + done), h.pos, h.pos + h.n), 0)
  }

  predicate TrailArrives(h: Hole, done: nat)
    requires h.pos + h.n <= |h.keys|
  {
    Trail(h, done, Entry(h, done), |h.keys|)
  }

  /** The removal's exact condition. */
  ghost predicate Movable(h: Hole)
    requires h.pos + h.n <= |h.keys|
  {
    forall done :: 0 <= done < MoveCount(|h.keys|, h.pos, h.n) ==> TrailArrives(h, done)
  }

  // ---------- Rows behind a row ----------

  lemma {:induction false} BehindAt(c: Chain, k: nat)
    requires Distinct(c) && k < |c|
    ensures Behind(c, c[k]) == c[k + 1..]
  {
    if k > 0 {
      assert Distinct(c[1..]);
      BehindAt(c[1..], k - 1);
    }
  }

  lemma {:induction false} BehindKept(c: Chain, row: nat, lo: nat, hi: nat)
    requires !(lo <= row < hi)
    ensures Behind(Kept(c, lo, hi), row) == Kept(Behind(c, row), lo, hi)
  {
    if c != [] {
      var rest := Kept(c[1..], lo, hi);
      BehindKept(c[1..], row, lo, hi);
      if lo <= c[0] < hi {
        assert [] + rest == rest;
      } else {
        assert ([c[0]] + rest)[1..] == rest;
      }
    }
  }

  /** Behind the first row outside a smaller range, or at it, lies the first outside a larger. */
  lemma {:induction false} FirstOutside(c: Chain, lo: nat, mid: nat, hi: nat)
    requires lo <= mid <= hi && Distinct(c)
    ensures var f := At(Kept(c, lo, mid), 0);
      At(Kept(c, lo, hi), 0) == if mid <= f < hi && f in c then At(Kept(Behind(c, f), lo, hi), 0) else f
  {
    if c != [] && lo <= c[0] < mid {
      assert Distinct(c[1..]);
      FirstOutside(c[1..], lo, mid, hi);
      KeptMembers(c[1..], lo, mid);
      hide Kept;
      KeptStep(c, lo, mid);
      KeptStep(c, lo, hi);
    } else if c != [] {
      hide Kept;
      KeptStep(c, lo, mid);
      KeptStep(c, lo, hi);
    }
  }

  // ---------- The first pass ----------

  /** The table t once the removed rows [pos, hi) are unlinked: the other rows are threaded
      as before, the unlinked rows' cells are stale. */
  ghost predicate UnlinkedTo(h: Hole, t: Cells, kept: seq<Chain>, hi: nat)
    requires h.pos <= hi
  {
    && t.keys == h.keys && |kept| == |h.chains|
    && Threads(h.home, t, kept, h.pos, hi)
    && (forall b :: 0 <= b < |kept| ==> kept[b] == Kept(h.chains[b], h.pos, hi))
    && forall d :: h.pos <= d < hi && d < |t.next| ==> t.next[d] == StaleCell(h, d)
  }

  /** The place of a threaded row, before and after unlinking. */
  lemma RowPlace(h: Hole, t: Cells, kept: seq<Chain>, hi: nat, row: nat) returns (b: nat, k: nat)
    requires Fits(h) && h.pos <= hi && UnlinkedTo(h, t, kept, hi) && row < |h.keys| && !(h.pos <= row < hi)
    ensures b == h.home(h.keys[row]) < |kept| && k < |kept[b]| && kept[b][k] == row
    ensures OwnRows(h.home, t.keys, kept[b], b, h.pos, hi) && Linked(t.heads[b], t.next, kept[b])
    ensures At(kept[b], k + 1) == Follower(h, row, h.pos, hi) == t.next[row]
  {
    assert Covered(h.home, t.keys, kept, row);
    b := h.home(h.keys[row]);
    k :| 0 <= k < |kept[b]| && kept[b][k] == row;
    assert OwnRows(h.home, t.keys, kept[b], b, h.pos, hi);
    BehindAt(kept[b], k);
    BehindKept(h.chains[b], row, h.pos, hi);
    assert t.next[kept[b][k]] == At(kept[b], k + 1);
  }

  /** A walk over fresh cells to a threaded row, with steps enough. */
  lemma FreshArrival(h: Hole, t: Cells, kept: seq<Chain>, hi: nat, row: nat, b: nat, k: nat, steps: nat)
    requires Fits(h) && h.pos <= hi && UnlinkedTo(h, t, kept, hi)
    requires b < |kept| && k < |kept[b]| && kept[b][k] == row
    ensures var w := WalkFrom(t.next, t.heads[b], INVALID, row, h.pos, h.pos, steps);
      && (steps >= |h.keys| ==> w.Reached?)
      && (w.Reached? ==> w.prev == Before(kept[b], k))
  {
    ChainFits(h.home, t, kept, h.pos, hi, b);
    assert OwnRows(h.home, t.keys, kept[b], b, h.pos, hi) && Linked(t.heads[b], t.next, kept[b]);
    var enough := steps + |h.keys|;
    forall i | 0 <= i < k
      ensures t.next[kept[b][i]] == kept[b][i + 1]
    {
      assert t.next[kept[b][i]] == At(kept[b], i + 1);
    }
    WalkAlong(t.next, kept[b], 0, k, h.pos, h.pos, enough);
    if steps >= |h.keys| {
      WalkAlong(t.next, kept[b], 0, k, h.pos, h.pos, steps);
    }
    MoreSteps(t.next, t.heads[b], INVALID, row, h.pos, h.pos, steps, enough);
  }

  /** A walk that arrives does so with any more steps too. */
  lemma {:induction false} MoreSteps(next: seq<Uint32>, i: nat, prev: nat, pos: nat, watched: nat, end: nat, steps: nat, more: nat)
    requires steps <= more
    ensures var w := WalkFrom(next, i, prev, pos, watched, end, steps);
      w.Reached? ==> WalkFrom(next, i, prev, pos, watched, end, more) == w
    decreases steps
  {
    if i != pos && !(watched <= i < end) && i < |next| && steps > 0 {
      MoreSteps(next, next[i], i, pos, watched, end, steps - 1, more - 1);
    }
  }

  /** The chains without the rows [lo, hi). */
  function KeptChains(chains: seq<Chain>, lo: nat, hi: nat): (r: seq<Chain>)
    ensures |r| == |chains| && forall b :: 0 <= b < |chains| ==> r[b] == Kept(chains[b], lo, hi)
  {
    seq(|chains|, b requires 0 <= b < |chains| => Kept(chains[b], lo, hi))
  }

  /** Unlinking one more row. */
  lemma UnlinkOne(h: Hole, t: Cells, row: nat, b: nat, k: nat)
    requires Fits(h) && h.pos <= row < h.pos + h.n && UnlinkedTo(h, t, KeptChains(h.chains, h.pos, row), row)
    requires b < |h.chains| && k < |Kept(h.chains[b], h.pos, row)| && Kept(h.chains[b], h.pos, row)[k] == row
    requires b == h.home(h.keys[row])
    ensures UnlinkedTo(h, SetCell(t, b, Before(Kept(h.chains[b], h.pos, row), k), t.next[row]), KeptChains(h.chains, h.pos, row + 1), row + 1)
  {
    var was := KeptChains(h.chains, h.pos, row);
    var c := was[b];
    var u := SetCell(t, b, Before(c, k), t.next[row]);
    assert OwnRows(h.home, t.keys, c, b, h.pos, row);
    assert u == Relinked(t, b, c, k, t.next[row]);
    UnlinkThreads(h.home, t, was, b, k, h.pos, row);
    var now := was[b := Dropped(c, k)];
    forall d | 0 <= d < |was|
      ensures UnlinkedFrom(was[d], now[d], row)
    {
      if d != b {
        OtherChain(h.home, t.keys, was, h.pos, row, b, k, d);
      }
    }
    KeptAdvances(h.home, t, h.chains, was, now, h.pos, row);
    assert now == KeptChains(h.chains, h.pos, row + 1);
    UnlinkStale(h, t, u, was, row, b, k);
  }

  lemma UnlinkStale(h: Hole, t: Cells, u: Cells, was: seq<Chain>, row: nat, b: nat, k: nat)
    requires Fits(h) && h.pos <= row < h.pos + h.n && UnlinkedTo(h, t, was, row)
    requires b == h.home(h.keys[row]) < |was| && k < |was[b]| && was[b][k] == row
    requires u == SetCell(t, b, Before(was[b], k), t.next[row])
    ensures forall d :: h.pos <= d < row + 1 && d < |u.next| ==> u.next[d] == StaleCell(h, d)
  {
    hide Follower, Threads, Partitions, Linked, SetCell;
    var _, _ := RowPlace(h, t, was, row, row);
    assert k > 0 ==> !(h.pos <= was[b][k - 1] < row) && was[b][k - 1] != row;
    hide StaleCell, OwnRows;
    forall d | h.pos <= d < row + 1 && d < |u.next|
      ensures u.next[d] == StaleCell(h, d)
    {
      KeepsCell(t, b, Before(was[b], k), t.next[row], d);
    }
  }

  lemma KeepsCell(t: Cells, b: nat, prev: nat, dst: Uint32, d: nat)
    requires d != prev
    ensures var u := SetCell(t, b, prev, dst); |u.next| == |t.next| && (d < |t.next| ==> u.next[d] == t.next[d])
  {
  }

  lemma DeleteStep(home: Uint64 -> nat, t: Cells, pos: nat, i: nat, n: nat, steps: nat)
    requires i < n && |t.next| == |t.keys| && pos + n <= |t.keys| && home(t.keys[pos + i]) < |t.heads|
    ensures var b := home(t.keys[pos + i]);
      var w := WalkFrom(t.next, t.heads[b], INVALID, pos + i, pos, pos, steps);
      DeletePass(home, t, pos, i, n, steps) ==
        if w.Reached? then DeletePass(home, SetCell(t, b, w.prev, t.next[pos + i]), pos, i + 1, n, steps) else Failed
  {
    hide WalkFrom;
  }

  lemma DeleteEnd(home: Uint64 -> nat, t: Cells, pos: nat, n: nat, steps: nat)
    requires |t.next| == |t.keys| && pos + n <= |t.keys|
    ensures DeletePass(home, t, pos, n, n, steps) == Done(t)
  {
  }

  lemma {:induction false} DeletePassRight(h: Hole, t: Cells, i: nat, steps: nat)
    requires Fits(h) && i <= h.n && UnlinkedTo(h, t, KeptChains(h.chains, h.pos, h.pos + i), h.pos + i)
    ensures var p := DeletePass(h.home, t, h.pos, i, h.n, steps);
      && (steps >= |h.keys| ==> p.Done?)
      && (p.Done? ==> UnlinkedTo(h, p.t, KeptChains(h.chains, h.pos, h.pos + h.n), h.pos + h.n))
    decreases h.n - i
  {
    hide UnlinkedTo, WalkFrom, DeletePass, Partitions, SetCell, OwnRows, Linked, Follower, Kept, Threads;
    if i < h.n {
      var row := h.pos + i;
      var kept := KeptChains(h.chains, h.pos, row);
      UnlinkedShape(h, t, kept, row);
      var b, k := RowPlace(h, t, kept, row, row);
      DeleteStep(h.home, t, h.pos, i, h.n, steps);
      FreshArrival(h, t, kept, row, row, b, k, steps);
      UnlinkOne(h, t, row, b, k);
      UnlinkedShape(h, SetCell(t, b, Before(kept[b], k), t.next[row]), KeptChains(h.chains, h.pos, row + 1), row + 1);
      DeletePassRight(h, SetCell(t, b, Before(kept[b], k), t.next[row]), i + 1, steps);
    } else {
      UnlinkedShape(h, t, KeptChains(h.chains, h.pos, h.pos + i), h.pos + i);
      DeleteEnd(h.home, t, h.pos, h.n, steps);
    }
  }

  lemma UnlinkedShape(h: Hole, t: Cells, kept: seq<Chain>, hi: nat)
    requires h.pos <= hi && UnlinkedTo(h, t, kept, hi)
    ensures t.keys == h.keys && |t.next| == |t.keys| && |kept| == |h.chains| == |t.heads|
    ensures Threads(h.home, t, kept, h.pos, hi)
  {
  }

  /** Before the first pass nothing is unlinked. */
  lemma NothingUnlinked(h: Hole, t: Cells)
    requires Fits(h) && t.keys == h.keys && Threads(h.home, t, h.chains, 0, 0)
    ensures UnlinkedTo(h, t, KeptChains(h.chains, h.pos, h.pos), h.pos)
  {
    NothingGone(h.home, t, h.chains, h.pos);
    assert KeptChains(h.chains, h.pos, h.pos) == h.chains;
  }

  // ---------- Walks between the passes ----------

  /** The chains without the removed rows. */
  function Survivors(h: Hole): (r: seq<Chain>)
    ensures |r| == |h.chains| && forall b :: 0 <= b < |h.chains| ==> r[b] == Kept(h.chains[b], h.pos, h.pos + h.n)
  {
    KeptChains(h.chains, h.pos, h.pos + h.n)
  }

  ghost predicate Between(h: Hole, t: Cells) {
    Fits(h) && UnlinkedTo(h, t, Survivors(h), h.pos + h.n)
  }

  /** The table when `done` rows are renamed, seen by the walk for the next. */
  function Midway(h: Hole, t: Cells, done: nat): Cells
    requires h.pos + h.n <= |h.keys| && h.pos + done <= INVALID
  {
    Renamed(t, FirstMoved(h), h.pos, done, h.pos, h.pos + h.n)
  }

  function Walking(h: Hole, t: Cells, done: nat, i: nat, prev: nat, steps: nat): Walk
    requires h.pos + h.n <= |h.keys| && h.pos + done <= INVALID
  {
    WalkFrom(Midway(h, t, done).next, i, prev, FirstMoved(h) + done, h.pos, h.pos, steps)
  }

  /** The number under which row z is read. */
  function NameOf(h: Hole, done: nat, z: nat): nat
    requires h.pos + h.n <= |h.keys|
  {
    Moved(z, FirstMoved(h), h.pos, done)
  }

  ghost predicate Step(h: Hole, t: Cells, done: nat) {
    Between(h, t) && done < MoveCount(|h.keys|, h.pos, h.n)
  }

  /** A surviving row's cell names the next survivor, a removed row's is stale. */
  lemma CellOf(h: Hole, t: Cells, done: nat, x: nat)
    requires Step(h, t, done) && x < |h.keys|
    ensures Fits(h) && |t.next| == |h.keys| && h.pos + done < |h.keys|
    ensures Midway(h, t, done).next[x] ==
      if h.pos <= x < h.pos + h.n then StaleCell(h, x) else NameOf(h, done, Survivor(h, x))
  {
    hide StaleCell, Kept, Behind, ChainOf, Survivors, Linked, OwnRows, MovedCell, Moved;
    if !(h.pos <= x < h.pos + h.n) {
      var _, _ := RowPlace(h, t, Survivors(h), h.pos + h.n, x);
    }
  }

  /** Survivors survive. */
  lemma SurvivorLives(h: Hole, x: nat)
    requires Fits(h)
    ensures var s := Survivor(h, x); s == INVALID || (s < |h.keys| && !(h.pos <= s < h.pos + h.n))
  {
    var c := ChainOf(h, x);
    BehindMembers(c, x);
    KeptMembers(Behind(c, x), h.pos, h.pos + h.n);
    ChainRows(h, x);
    var s := Kept(Behind(c, x), h.pos, h.pos + h.n);
    assert s != [] ==> s[0] in s;
  }

  lemma {:induction false} BehindMembers(c: Chain, row: nat)
    ensures forall r :: r in Behind(c, row) ==> r in c
    ensures Distinct(c) ==> Distinct(Behind(c, row)) && row !in Behind(c, row)
  {
    if c != [] && c[0] != row {
      BehindMembers(c[1..], row);
    }
  }

  lemma ChainRows(h: Hole, x: nat)
    requires Fits(h)
    ensures Distinct(ChainOf(h, x)) && forall r :: r in ChainOf(h, x) ==> r < |h.keys| && ChainOf(h, r) == ChainOf(h, x)
  {
    if x < |h.keys| && h.home(h.keys[x]) < |h.chains| {
      var b := h.home(h.keys[x]);
      assert OwnRows(h.home, h.keys, h.chains[b], b, 0, 0);
    }
  }

  lemma {:induction false} BehindBehind(c: Chain, d: nat, f: nat)
    requires Distinct(c) && f in Behind(c, d)
    ensures Behind(Behind(c, d), f) == Behind(c, f)
  {
    if c != [] {
      assert Distinct(c[1..]);
      if c[0] == d {
        assert f != d;
      } else {
        BehindBehind(c[1..], d, f);
        BehindMembers(c[1..], d);
      }
    }
  }

  /** A stale cell leads to a later removed row, with the same survivor behind, or to that
      survivor. */
  lemma StaleNext(h: Hole, d: nat)
    requires Fits(h) && h.pos <= d < h.pos + h.n
    ensures var f := StaleCell(h, d);
      if d < f < h.pos + h.n then Survivor(h, f) == Survivor(h, d) else f == Survivor(h, d) && !(h.pos <= f < h.pos + h.n)
  {
    var c := ChainOf(h, d);
    var rest := Behind(c, d);
    ChainRows(h, d);
    BehindMembers(c, d);
    FirstOutside(rest, h.pos, d, h.pos + h.n);
    KeptMembers(rest, h.pos, d);
    var f := StaleCell(h, d);
    var k := Kept(rest, h.pos, d);
    if k != [] {
      assert f in k;
      BehindBehind(c, d, f);
    }
  }

  /** How many cells of removed rows a walk reads from removed row d on, and the last one. */
  function RunLength(h: Hole, d: nat): (m: nat)
    ensures m >= 1
    decreases h.pos + h.n - d
  {
    if d < StaleCell(h, d) < h.pos + h.n then 1 + RunLength(h, StaleCell(h, d)) else 1
  }

  function RunEnd(h: Hole, d: nat): (last: nat)
    ensures d <= last && (d < h.pos + h.n ==> last < h.pos + h.n)
    decreases h.pos + h.n - d
  {
    if d < StaleCell(h, d) < h.pos + h.n then RunEnd(h, StaleCell(h, d)) else d
  }

  lemma WalkOne(h: Hole, t: Cells, done: nat, i: nat, prev: nat, steps: nat)
    requires Step(h, t, done) && i < |h.keys| && i != FirstMoved(h) + done
    ensures h.pos + done <= INVALID && |t.next| == |h.keys|
    ensures Walking(h, t, done, i, prev, steps + 1) == Walking(h, t, done, Midway(h, t, done).next[i], i, steps)
    ensures Walking(h, t, done, i, prev, 0) == Lost
  {
    CellOf(h, t, done, i);
    hide Midway;
  }

  /** From a removed row's cell a walk goes on to the survivor behind it. */
  lemma {:induction false} StaleRunOn(h: Hole, t: Cells, done: nat, d: nat, prev: nat, steps: nat)
    requires Step(h, t, done) && h.pos <= d < h.pos + h.n
    ensures h.pos + done <= INVALID
    ensures Walking(h, t, done, d, prev, steps + RunLength(h, d)) == Walking(h, t, done, Survivor(h, d), RunEnd(h, d), steps)
    ensures forall s: nat :: s < RunLength(h, d) ==> !Walking(h, t, done, d, prev, s).Reached?
    decreases h.pos + h.n - d
  {
    hide Walking, Between, StaleCell, Survivor;
    var f := StaleCell(h, d);
    CellOf(h, t, done, d);
    StaleNext(h, d);
    WalkOne(h, t, done, d, prev, steps + RunLength(h, d) - 1);
    if d < f < h.pos + h.n {
      StaleRunOn(h, t, done, f, d, steps);
    }
    forall s: nat | s < RunLength(h, d)
      ensures !Walking(h, t, done, d, prev, s).Reached?
    {
      if s > 0 {
        WalkOne(h, t, done, d, prev, s - 1);
      }
    }
  }

  // ---------- Walks and trails ----------

  lemma {:induction false} TrailMore(h: Hole, done: nat, z: nat, fuel: nat, more: nat)
    requires h.pos + h.n <= |h.keys| && fuel <= more && Trail(h, done, z, fuel)
    ensures Trail(h, done, z, more)
    decreases fuel
  {
    hide Survivor, Detour;
    if z != FirstMoved(h) + done {
      TrailMore(h, done, Survivor(h, Detour(h, done, z)), fuel - 1, more - 1);
    }
  }

  /** A walk that comes to its row from a surviving row, or straight from the head, has
      followed the trail. */
  lemma {:induction false} ToTrail(h: Hole, t: Cells, done: nat, z: nat, prev: nat, steps: nat)
    requires Step(h, t, done) && h.pos + h.n <= |h.keys| && h.pos + done <= INVALID
    requires !(h.pos <= z < h.pos + h.n)
    requires var w := Walking(h, t, done, NameOf(h, done, z), prev, steps);
      w.Reached? && !(h.pos <= w.prev < h.pos + h.n)
    ensures Trail(h, done, z, steps)
    decreases steps
  {
    hide Walking, Between, StaleCell, Survivor, Trail;
    TrailStep(h, done, z, steps);
    if z != FirstMoved(h) + done {
      var x, left := ToSurvivor(h, t, done, z, prev, steps);
      SurvivorLives(h, x);
      ToTrail(h, t, done, Survivor(h, x), x, left);
      TrailMore(h, done, Survivor(h, x), left, steps - 1);
    }
  }

  lemma TrailStep(h: Hole, done: nat, z: nat, fuel: nat)
    requires h.pos + h.n <= |h.keys|
    ensures Trail(h, done, z, fuel) <==>
      z == FirstMoved(h) + done ||
      (z < |h.keys| && fuel > 0 && Detour(h, done, z) < |h.keys| && Detour(h, done, z) != FirstMoved(h) + done
       && Trail(h, done, Survivor(h, Detour(h, done, z)), fuel - 1))
  {
  }

  /** One hop of such a walk: to the next surviving row, and out of its cell. */
  lemma ToSurvivor(h: Hole, t: Cells, done: nat, z: nat, prev: nat, steps: nat) returns (x: nat, left: nat)
    requires Step(h, t, done) && h.pos + h.n <= |h.keys| && h.pos + done <= INVALID
    requires z != FirstMoved(h) + done
    requires !(h.pos <= z < h.pos + h.n)
    requires var w := Walking(h, t, done, NameOf(h, done, z), prev, steps);
      w.Reached? && !(h.pos <= w.prev < h.pos + h.n)
    ensures z < |h.keys| && x == Detour(h, done, z) < |h.keys| && x != FirstMoved(h) + done && left < steps
    ensures Fits(h) && |t.next| == |h.keys|
    ensures Walking(h, t, done, NameOf(h, done, Survivor(h, x)), x, left) == Walking(h, t, done, NameOf(h, done, z), prev, steps)
  {
    hide Between, Walking, StaleCell, Survivor, Midway, FirstMoved, MoveCount, Fits;
    InTable(h, t);
    NamesFit(h, done, z);
    x := Detour(h, done, z);
    if FirstMoved(h) <= z < FirstMoved(h) + done {
      left := OverStaleRun(h, t, done, h.pos + z - FirstMoved(h), prev, steps);
    } else {
      WalkBasics(h, t, done, x, prev, steps);
      left := steps - 1;
      CellOf(h, t, done, x);
      WalkOne(h, t, done, x, prev, left);
    }
  }

  lemma NamesFit(h: Hole, done: nat, z: nat)
    requires h.pos + h.n <= |h.keys| && done <= MoveCount(|h.keys|, h.pos, h.n)
    ensures FirstMoved(h) <= z < FirstMoved(h) + done ==>
      h.pos <= h.pos + z - FirstMoved(h) < h.pos + h.n && z < |h.keys|
    ensures FirstMoved(h) >= h.pos + h.n
  {
  }

  lemma OverStaleRun(h: Hole, t: Cells, done: nat, d: nat, prev: nat, steps: nat) returns (left: nat)
    requires Step(h, t, done) && h.pos + h.n <= |h.keys| && h.pos + done <= INVALID && h.pos <= d < h.pos + h.n
    requires var w := Walking(h, t, done, d, prev, steps); w.Reached? && !(h.pos <= w.prev < h.pos + h.n)
    ensures var x := Survivor(h, d);
      && x < |h.keys| && x != FirstMoved(h) + done && left < steps
      && Walking(h, t, done, NameOf(h, done, Survivor(h, x)), x, left) == Walking(h, t, done, d, prev, steps)
  {
    hide Between, Walking, StaleCell, Survivor, Midway, RunLength, RunEnd, NameOf, FirstMoved, MoveCount, Fits;
    InTable(h, t);
    var x := Survivor(h, d);
    StaleRunOn(h, t, done, d, prev, if steps < RunLength(h, d) then 0 else steps - RunLength(h, d));
    var rest, from := steps - RunLength(h, d), RunEnd(h, d);
    SurvivorLives(h, d);
    WalkBasics(h, t, done, x, from, rest);
    left := rest - 1;
    CellOf(h, t, done, x);
    WalkOne(h, t, done, x, from, left);
  }

  lemma WalkBasics(h: Hole, t: Cells, done: nat, i: nat, prev: nat, steps: nat)
    requires h.pos + h.n <= |h.keys| && h.pos + done <= INVALID && |t.next| == |h.keys|
    ensures var w := Walking(h, t, done, i, prev, steps);
      if i == FirstMoved(h) + done then w == Reached(prev) else w.Reached? ==> i < |h.keys| && steps > 0
  {
  }

  /** Following the trail, a walk comes to its row from the only surviving row that has it
      behind itself, or straight from the head. */
  lemma {:induction false} FromTrail(h: Hole, t: Cells, done: nat, z: nat, prev: nat, fuel: nat, front: nat) returns (steps: nat)
    requires Step(h, t, done) && h.pos + h.n <= |h.keys| && h.pos + done <= INVALID
    requires !(h.pos <= z < h.pos + h.n) && Trail(h, done, z, fuel)
    requires z == FirstMoved(h) + done ==> prev == front
    requires forall x :: 0 <= x < |h.keys| && !(h.pos <= x < h.pos + h.n) && Survivor(h, x) == FirstMoved(h) + done ==> x == front
    ensures Walking(h, t, done, NameOf(h, done, z), prev, steps) == Reached(front)
    decreases fuel
  {
    hide Walking, Between, StaleCell, Survivor, Trail;
    TrailStep(h, done, z, fuel);
    InTable(h, t);
    if z == FirstMoved(h) + done {
      steps := 0;
      WalkBasics(h, t, done, z, prev, steps);
    } else {
      var x := Detour(h, done, z);
      TrailLives(h, done, z);
      CellOf(h, t, done, x);
      SurvivorLives(h, x);
      var left := FromTrail(h, t, done, Survivor(h, x), x, fuel - 1, front);
      steps := left + 1;
      if FirstMoved(h) <= z < FirstMoved(h) + done {
        var d := h.pos + z - FirstMoved(h);
        StaleRunOn(h, t, done, d, prev, steps);
        WalkOne(h, t, done, x, RunEnd(h, d), left);
        steps := steps + RunLength(h, d);
      } else {
        WalkOne(h, t, done, x, prev, left);
      }
    }
  }

  lemma InTable(h: Hole, t: Cells)
    requires Between(h, t)
    ensures Fits(h) && |t.next| == |h.keys| && t.keys == h.keys && |t.heads| == |h.chains|
    ensures UnlinkedTo(h, t, Survivors(h), h.pos + h.n)
  {
  }

  lemma TrailLives(h: Hole, done: nat, z: nat)
    requires Fits(h) && !(h.pos <= z < h.pos + h.n) && done <= MoveCount(|h.keys|, h.pos, h.n)
    ensures var x := Detour(h, done, z); x < |h.keys| ==> !(h.pos <= x < h.pos + h.n)
  {
    hide Survivor, Partitions;
    if FirstMoved(h) <= z < FirstMoved(h) + done {
      SurvivorLives(h, h.pos + z - FirstMoved(h));
    }
  }

  // ---------- A trail that arrives is short ----------

  /** The trail from z arrives after exactly f hops. */
  ghost predicate ArrivesAfter(h: Hole, done: nat, z: nat, f: nat)
    requires h.pos + h.n <= |h.keys|
    decreases f
  {
    if z == FirstMoved(h) + done then f == 0
    else
      z < |h.keys| && f > 0 && Detour(h, done, z) < |h.keys| && Detour(h, done, z) != FirstMoved(h) + done
      && ArrivesAfter(h, done, Survivor(h, Detour(h, done, z)), f - 1)
  }

  lemma {:induction false} HopsOfTrail(h: Hole, done: nat, z: nat, fuel: nat) returns (f: nat)
    requires h.pos + h.n <= |h.keys| && Trail(h, done, z, fuel)
    ensures f <= fuel && ArrivesAfter(h, done, z, f)
    decreases fuel
  {
    hide Survivor, Detour;
    if z == FirstMoved(h) + done {
      f := 0;
    } else {
      f := HopsOfTrail(h, done, Survivor(h, Detour(h, done, z)), fuel - 1);
      f := f + 1;
    }
  }

  lemma {:induction false} TrailOfHops(h: Hole, done: nat, z: nat, f: nat)
    requires h.pos + h.n <= |h.keys| && ArrivesAfter(h, done, z, f)
    ensures Trail(h, done, z, f)
    decreases f
  {
    hide Survivor, Detour;
    if z != FirstMoved(h) + done {
      TrailOfHops(h, done, Survivor(h, Detour(h, done, z)), f - 1);
    }
  }

  lemma {:induction false} HopsAreFixed(h: Hole, done: nat, z: nat, f: nat, g: nat)
    requires h.pos + h.n <= |h.keys| && ArrivesAfter(h, done, z, f) && ArrivesAfter(h, done, z, g)
    ensures f == g
    decreases f
  {
    hide Survivor, Detour;
    if z != FirstMoved(h) + done {
      HopsAreFixed(h, done, Survivor(h, Detour(h, done, z)), f - 1, g - 1);
    }
  }

  ghost predicate ArrivesWithin(h: Hole, done: nat, z: nat, f: int)
    requires h.pos + h.n <= |h.keys|
  {
    exists g: nat :: g <= f && ArrivesAfter(h, done, z, g)
  }

  /** The names read on the way are all different. */
  lemma {:induction false} NamesOnTrail(h: Hole, done: nat, z: nat, f: nat) returns (names: set<nat>)
    requires h.pos + h.n <= |h.keys| && FirstMoved(h) + done < |h.keys| && ArrivesAfter(h, done, z, f)
    ensures |names| == f + 1 && forall r :: r in names ==> r < |h.keys| && ArrivesWithin(h, done, r, f)
    decreases f
  {
    hide Survivor, Detour;
    if z == FirstMoved(h) + done {
      names := {z};
    } else {
      hide ArrivesAfter;
      HopOn(h, done, z, f);
      var rest := NamesOnTrail(h, done, Survivor(h, Detour(h, done, z)), f - 1);
      if z in rest {
        var g: nat :| g <= f - 1 && ArrivesAfter(h, done, z, g);
        HopsAreFixed(h, done, z, f, g);
        assert false;
      }
      names := rest + {z};
      forall r | r in names
        ensures r < |h.keys| && ArrivesWithin(h, done, r, f)
      {
        if r in rest {
          var g: nat :| g <= f - 1 && ArrivesAfter(h, done, r, g);
        }
      }
    }
  }

  lemma HopOn(h: Hole, done: nat, z: nat, f: nat)
    requires h.pos + h.n <= |h.keys| && z != FirstMoved(h) + done && ArrivesAfter(h, done, z, f)
    ensures z < |h.keys| && f > 0 && ArrivesAfter(h, done, Survivor(h, Detour(h, done, z)), f - 1)
  {
  }

  /** So a trail that arrives at all does so within as many hops as there are rows. */
  lemma TrailIsShort(h: Hole, done: nat, z: nat, fuel: nat)
    requires h.pos + h.n <= |h.keys| && done < MoveCount(|h.keys|, h.pos, h.n) && Trail(h, done, z, fuel)
    ensures Trail(h, done, z, |h.keys|)
  {
    hide Trail, ArrivesAfter;
    var f := HopsOfTrail(h, done, z, fuel);
    var names := NamesOnTrail(h, done, z, f);
    FitsBelow(names, |h.keys|);
    TrailOfHops(h, done, z, f);
    TrailMore(h, done, z, f, |h.keys|);
  }

  // ---------- The whole removal ----------

  /** Where the walk starts. */
  lemma EntryName(h: Hole, t: Cells, done: nat, b: nat, k: nat, steps: nat)
    requires Step(h, t, done) && Fits(h) && |t.next| == |t.keys| && t.keys == h.keys && |t.heads| == |h.chains|
    requires b == h.home(h.keys[FirstMoved(h) + done]) < |h.chains|
    requires k < |Survivors(h)[b]| && Survivors(h)[b][k] == FirstMoved(h) + done
    requires OwnRows(h.home, t.keys, Survivors(h)[b], b, h.pos, h.pos + h.n) && Linked(t.heads[b], t.next, Survivors(h)[b])
    ensures h.pos + done <= INVALID && !(h.pos <= Entry(h, done) < h.pos + h.n)
    ensures Entry(h, done) == FirstMoved(h) + done ==> k == 0
    ensures StepWalk(h.home, t, h.pos, h.n, done, false, steps) == Walking(h, t, done, NameOf(h, done, Entry(h, done)), INVALID, steps)
    ensures !(h.pos <= Before(Survivors(h)[b], k) < h.pos + h.n)
  {
    hide WalkFrom, Threads, Between, Partitions;
    var c := Survivors(h)[b];
    assert Entry(h, done) == At(c, 0) == t.heads[b];
    hide Kept;
  }

  /** Only the row in front of a row has it behind itself. */
  lemma OnlyFront(h: Hole, t: Cells, done: nat, b: nat, k: nat)
    requires Step(h, t, done) && Fits(h) && b == h.home(h.keys[FirstMoved(h) + done]) < |h.chains|
    requires k < |Survivors(h)[b]| && Survivors(h)[b][k] == FirstMoved(h) + done
    requires OwnRows(h.home, h.keys, Survivors(h)[b], b, h.pos, h.pos + h.n)
    ensures forall x :: 0 <= x < |h.keys| && !(h.pos <= x < h.pos + h.n) && Survivor(h, x) == FirstMoved(h) + done ==>
      x == Before(Survivors(h)[b], k)
  {
    hide Threads, Survivor, Partitions, Kept;
    forall x | 0 <= x < |h.keys| && !(h.pos <= x < h.pos + h.n) && Survivor(h, x) == FirstMoved(h) + done
      ensures x == Before(Survivors(h)[b], k)
    {
      IsFront(h, t, done, b, k, x);
    }
  }

  lemma IsFront(h: Hole, t: Cells, done: nat, b: nat, k: nat, x: nat)
    requires Step(h, t, done) && Fits(h) && b == h.home(h.keys[FirstMoved(h) + done]) < |h.chains|
    requires k < |Survivors(h)[b]| && Survivors(h)[b][k] == FirstMoved(h) + done
    requires OwnRows(h.home, h.keys, Survivors(h)[b], b, h.pos, h.pos + h.n)
    requires x < |h.keys| && !(h.pos <= x < h.pos + h.n) && Survivor(h, x) == FirstMoved(h) + done
    ensures x == Before(Survivors(h)[b], k)
  {
    hide Threads, Partitions, Kept, Follower, Linked, StaleCell;
    var d, j := RowPlace(h, t, Survivors(h), h.pos + h.n, x);
    var c := Survivors(h)[d];
    assert At(c, j + 1) == FirstMoved(h) + done;
    assert j + 1 < |c| && c[j + 1] == FirstMoved(h) + done;
    assert d == b;
  }

  ghost predicate WalkArrives(h: Hole, t: Cells, done: nat, steps: nat)
    requires h.pos + h.n <= |h.keys| && |t.next| == |t.keys| == |h.keys| <= INVALID && done < MoveCount(|h.keys|, h.pos, h.n)
  {
    Arrives(h.home, t, Survivors(h), h.pos, h.n, done, steps)
  }

  /** The place of the moved row between the passes. */
  lemma MovedPlace(h: Hole, t: Cells, done: nat) returns (b: nat, k: nat)
    requires Step(h, t, done)
    ensures Fits(h) && |t.next| == |t.keys| && t.keys == h.keys && |t.heads| == |h.chains|
    ensures b == h.home(h.keys[FirstMoved(h) + done]) < |h.chains|
    ensures k < |Survivors(h)[b]| && Survivors(h)[b][k] == FirstMoved(h) + done
    ensures OwnRows(h.home, h.keys, Survivors(h)[b], b, h.pos, h.pos + h.n) && Linked(t.heads[b], t.next, Survivors(h)[b])
  {
    hide Threads, Kept, Follower, StaleCell, Partitions, Between, UnlinkedTo, OwnRows, Linked;
    InTable(h, t);
    b, k := RowPlace(h, t, Survivors(h), h.pos + h.n, FirstMoved(h) + done);
  }

  lemma WalkHasTrail(h: Hole, t: Cells, done: nat, steps: nat)
    requires Step(h, t, done) && Fits(h) && |t.next| == |t.keys| == |h.keys| && WalkArrives(h, t, done, steps)
    ensures TrailArrives(h, done)
  {
    hide Between, Threads, Survivor, Midway, Entry, Trail, Walking, NameOf, Kept, Partitions, StepWalk, Survivors, UnlinkedTo;
    var b, _ := MovedPlace(h, t, done);
    var row := FirstMoved(h) + done;
    var j :| 0 <= j < |Survivors(h)[b]| && Survivors(h)[b][j] == row
      && StepWalk(h.home, t, h.pos, h.n, done, false, steps) == Reached(Before(Survivors(h)[b], j));
    EntryName(h, t, done, b, j, steps);
    ToTrail(h, t, done, Entry(h, done), INVALID, steps);
    TrailIsShort(h, done, Entry(h, done), steps);
  }

  lemma TrailHasWalk(h: Hole, t: Cells, done: nat) returns (steps: nat)
    requires Step(h, t, done) && Fits(h) && |t.next| == |t.keys| == |h.keys| && TrailArrives(h, done)
    ensures WalkArrives(h, t, done, steps)
  {
    hide Between, Threads, Survivor, Midway, Entry, Trail, Walking, NameOf, Kept, Partitions, StepWalk, Survivors, UnlinkedTo;
    var b, k := MovedPlace(h, t, done);
    EntryName(h, t, done, b, k, 0);
    OnlyFront(h, t, done, b, k);
    steps := FromTrail(h, t, done, Entry(h, done), INVALID, |h.keys|, Before(Survivors(h)[b], k));
    EntryName(h, t, done, b, k, steps);
  }

  /** The walk for moved row number `done` arrives, given steps enough, exactly when its
      trail does. */
  lemma ArrivesIffTrail(h: Hole, t: Cells, done: nat)
    requires Step(h, t, done)
    ensures h.pos + h.n <= |h.keys| && |t.next| == |t.keys| == |h.keys| <= INVALID
    ensures (exists steps: nat :: WalkArrives(h, t, done, steps)) <==> TrailArrives(h, done)
  {
    hide Between, WalkArrives, TrailArrives;
    InTable(h, t);
    if steps: nat :| WalkArrives(h, t, done, steps) {
      WalkHasTrail(h, t, done, steps);
    }
    if TrailArrives(h, done) {
      var steps := TrailHasWalk(h, t, done);
    }
  }

  /** The removal went well within so many steps per walk: no error branch, and every
      survivor on exactly one chain of the new table, its own bucket's, exactly once. */
  ghost predicate Removes(home: Uint64 -> nat, t: Cells, chains: seq<Chain>, pos: nat, n: nat, steps: nat)
    requires |t.next| == |t.keys| <= INVALID && pos + n <= |t.keys|
  {
    var p := Removal(home, t, pos, n, steps);
    p.Done? && Threads(home, p.t, RemovedChains(chains, |t.keys|, pos, n), 0, 0)
  }

  /** The first pass always ends well; then the walks of the second decide. */
  lemma RemovesIffArrives(h: Hole, t: Cells, steps: nat)
    requires Fits(h) && t.keys == h.keys && Threads(h.home, t, h.chains, 0, 0)
    ensures var p := DeletePass(h.home, t, h.pos, 0, h.n, steps);
      && (steps >= |h.keys| ==> p.Done?)
      && (p.Failed? ==> !Removes(h.home, t, h.chains, h.pos, h.n, steps))
      && (p.Done? ==> DecidedBy(h, t, p.t, steps))
  {
    hide Partitions, DeletePass, RelinkPass, EveryWalkArrives, UnlinkedTo;
    NothingUnlinked(h, t);
    DeletePassRight(h, t, 0, steps);
    var p := DeletePass(h.home, t, h.pos, 0, h.n, steps);
    if p.Done? {
      UnlinkedShape(h, p.t, Survivors(h), h.pos + h.n);
      hide Threads, Relocated, RemovedChains, Survivors;
      RightIffEveryWalkArrives(h.home, p.t, Survivors(h), RemovedChains(h.chains, |h.keys|, h.pos, h.n), h.pos, h.n, steps);
    }
  }

  /** u is the table between the passes, and its walks decide about the removal. */
  ghost predicate DecidedBy(h: Hole, t: Cells, u: Cells, steps: nat)
    requires |t.next| == |t.keys| == |h.keys| <= INVALID && h.pos + h.n <= |h.keys|
  {
    && Between(h, u) && u.keys == t.keys && |u.next| == |t.next|
    && (Removes(h.home, t, h.chains, h.pos, h.n, steps)
        <==> EveryWalkArrives(h.home, u, Survivors(h), h.pos, h.n, steps))
  }

  /** The removal of n rows at `pos` ends and is right, for some number of steps per walk,
      if and only if every trail arrives, which the chains before the call decide. */
  lemma RemovalIsRightIff(home: Uint64 -> nat, t: Cells, chains: seq<Chain>, pos: nat, n: nat)
    requires Threads(home, t, chains, 0, 0) && pos + n <= |t.keys|
    ensures (exists steps: nat :: Removes(home, t, chains, pos, n, steps)) <==> Movable(Hole(home, t.keys, chains, pos, n))
  {
    var h := Hole(home, t.keys, chains, pos, n);
    if steps: nat :| Removes(home, t, chains, pos, n, steps) {
      RightMeansMovable(h, t, steps);
    }
    if Movable(h) {
      var steps := MovableMeansRight(h, t);
    }
  }

  lemma RightMeansMovable(h: Hole, t: Cells, steps: nat)
    requires Fits(h) && t.keys == h.keys && Threads(h.home, t, h.chains, 0, 0)
    requires Removes(h.home, t, h.chains, h.pos, h.n, steps)
    ensures Movable(h)
  {
    hide DeletePass, Removes, Between, Arrives, TrailArrives, Partitions, Survivors;
    RemovesIffArrives(h, t, steps);
    var u := DeletePass(h.home, t, h.pos, 0, h.n, steps).t;
    hide Threads;
    forall done | 0 <= done < MoveCount(|h.keys|, h.pos, h.n)
      ensures TrailArrives(h, done)
    {
      assert WalkArrives(h, u, done, steps);
      ArrivesIffTrail(h, u, done);
    }
  }

  lemma {:induction false} MoreDeleting(home: Uint64 -> nat, t: Cells, pos: nat, i: nat, n: nat, steps: nat, more: nat)
    requires i <= n && |t.next| == |t.keys| && pos + n <= |t.keys| && steps <= more
    ensures var p := DeletePass(home, t, pos, i, n, steps); p.Done? ==> DeletePass(home, t, pos, i, n, more) == p
    decreases n - i
  {
    hide WalkFrom;
    if i < n {
      var b := home(t.keys[pos + i]);
      if b < |t.heads| {
        var w := WalkFrom(t.next, t.heads[b], INVALID, pos + i, pos, pos, steps);
        MoreSteps(t.next, t.heads[b], INVALID, pos + i, pos, pos, steps, more);
        if w.Reached? {
          MoreDeleting(home, SetCell(t, b, w.prev, t.next[pos + i]), pos, i + 1, n, steps, more);
        }
      }
    }
  }

  /** Steps enough for the first m walks. */
  lemma {:induction false} EnoughSteps(h: Hole, t: Cells, m: nat) returns (steps: nat)
    requires Between(h, t) && Movable(h) && m <= MoveCount(|h.keys|, h.pos, h.n)
    ensures |t.next| == |t.keys| == |h.keys| <= INVALID && steps >= |h.keys|
    ensures forall done :: 0 <= done < m ==> WalkArrives(h, t, done, steps)
  {
    hide Between, TrailArrives, WalkArrives, Survivors;
    InTable(h, t);
    if m == 0 {
      steps := |h.keys|;
    } else {
      var before := EnoughSteps(h, t, m - 1);
      ArrivesIffTrail(h, t, m - 1);
      assert TrailArrives(h, m - 1);
      var last: nat :| WalkArrives(h, t, m - 1, last);
      steps := before + last;
      forall done | 0 <= done < m
        ensures WalkArrives(h, t, done, steps)
      {
        ArrivesMore(h, t, done, if done < m - 1 then before else last, steps);
      }
    }
  }

  lemma ArrivesMore(h: Hole, t: Cells, done: nat, steps: nat, more: nat)
    requires h.pos + h.n <= |h.keys| && |t.next| == |t.keys| == |h.keys| <= INVALID && done < MoveCount(|h.keys|, h.pos, h.n)
    requires steps <= more && WalkArrives(h, t, done, steps)
    ensures WalkArrives(h, t, done, more)
  {
    hide Renamed, WalkFrom, Survivors;
    var src := MoveSource(|t.keys|, h.pos, h.n);
    var u := Renamed(t, src, h.pos, done, h.pos, h.pos + h.n);
    var b := h.home(t.keys[src + done]);
    if b < |t.heads| {
      MoreSteps(u.next, u.heads[b], INVALID, src + done, h.pos, h.pos, steps, more);
    }
  }

  lemma MovableMeansRight(h: Hole, t: Cells) returns (steps: nat)
    requires Fits(h) && t.keys == h.keys && Threads(h.home, t, h.chains, 0, 0)
    requires Movable(h)
    ensures steps >= |h.keys| && Removes(h.home, t, h.chains, h.pos, h.n, steps)
  {
    hide DeletePass, Removes, Between, Arrives, TrailArrives, Movable, Partitions, Survivors;
    RemovesIffArrives(h, t, |h.keys|);
    var u := DeletePass(h.home, t, h.pos, 0, h.n, |h.keys|).t;
    steps := EnoughSteps(h, u, MoveCount(|h.keys|, h.pos, h.n));
    MoreDeleting(h.home, t, h.pos, 0, h.n, |h.keys|, steps);
    RemovesIffArrives(h, t, steps);
    hide Threads;
    forall done | 0 <= done < MoveCount(|h.keys|, h.pos, h.n)
      ensures Arrives(h.home, u, Survivors(h), h.pos, h.n, done, steps)
    {
      assert WalkArrives(h, u, done, steps);
    }
  }

  /** The second pass of a removal reads no stale cell if and only if, before the call, the
      rows to be moved lie on their chains highest row first. */
  lemma CleanRemovalIff(home: Uint64 -> nat, t: Cells, chains: seq<Chain>, pos: nat, n: nat, steps: nat)
    requires Threads(home, t, chains, 0, 0) && pos + n <= |t.keys| && steps >= |t.keys|
    ensures var p := DeletePass(home, t, pos, 0, n, steps);
      && p.Done?
      && (ReadsNoStaleCell(home, p.t, pos, n, steps) <==> TailOrdered(chains, MoveSource(|t.keys|, pos, n), MoveCount(|t.keys|, pos, n)))
  {
    hide DeletePass, Removes, TailOrdered, ReadsNoStaleCell, Partitions, EveryWalkArrives;
    var h := Hole(home, t.keys, chains, pos, n);
    RemovesIffArrives(h, t, steps);
    var u := DeletePass(home, t, pos, 0, n, steps).t;
    CleanIffTailOrdered(home, u, Survivors(h), pos, n, steps);
    KeptTailOrderedIff(chains, Survivors(h), pos, pos + n, FirstMoved(h), MoveCount(|t.keys|, pos, n));
  }

  // ---------- Enough for a removal ----------

  /** Moved rows that lie on their chains highest row first have straight trails. */
  lemma TailOrderedIsMovable(h: Hole)
    requires Fits(h) && TailOrdered(h.chains, FirstMoved(h), MoveCount(|h.keys|, h.pos, h.n))
    ensures Movable(h)
  {
    forall done | 0 <= done < MoveCount(|h.keys|, h.pos, h.n)
      ensures TrailArrives(h, done)
    {
      StraightTrail(h, done);
    }
  }

  lemma StraightTrail(h: Hole, done: nat)
    requires Fits(h) && done < MoveCount(|h.keys|, h.pos, h.n)
    requires TailOrdered(h.chains, FirstMoved(h), MoveCount(|h.keys|, h.pos, h.n))
    ensures TrailArrives(h, done)
  {
    hide Kept, Survivors, OwnRows, TailFalls, Trail;
    var row := FirstMoved(h) + done;
    assert Covered(h.home, h.keys, h.chains, row);
    var b := h.home(h.keys[row]);
    SurvivorRows(h, b);
    KeptTailFalls(h.chains[b], h.pos, h.pos + h.n, FirstMoved(h), MoveCount(|h.keys|, h.pos, h.n));
    KeptMembers(h.chains[b], h.pos, h.pos + h.n);
    hide Partitions;
    var k :| 0 <= k < |Survivors(h)[b]| && Survivors(h)[b][k] == row;
    AlongChain(h, done, b, 0, k, |h.keys|);
  }

  /** The survivors of a chain. */
  lemma SurvivorRows(h: Hole, b: nat)
    requires Fits(h) && b < |h.chains|
    ensures OwnRows(h.home, h.keys, Survivors(h)[b], b, h.pos, h.pos + h.n) && |Survivors(h)[b]| <= |h.keys|
  {
    assert OwnRows(h.home, h.keys, h.chains[b], b, 0, 0);
    var c := Survivors(h)[b];
    KeptDistinct(h.chains[b], h.pos, h.pos + h.n);
    KeptMembers(h.chains[b], h.pos, h.pos + h.n);
    hide Kept, Partitions, Survivors;
    forall k | 0 <= k < |c|
      ensures c[k] < |h.keys| && h.home(h.keys[c[k]]) == b && !(h.pos <= c[k] < h.pos + h.n)
    {
      assert c[k] in c;
      var j :| 0 <= j < |h.chains[b]| && h.chains[b][j] == c[k];
    }
    var rows := set r | r in c;
    DistinctCount(c, rows);
    FitsBelow(rows, |h.keys|);
  }

  lemma {:induction false} KeptDistinct(c: Chain, lo: nat, hi: nat)
    requires Distinct(c)
    ensures Distinct(Kept(c, lo, hi))
  {
    if c != [] {
      var rest := Kept(c[1..], lo, hi);
      assert Distinct(c[1..]);
      KeptDistinct(c[1..], lo, hi);
      KeptMembers(c[1..], lo, hi);
      assert c[0] !in rest;
      if lo <= c[0] < hi {
        assert [] + rest == rest;
      } else {
        ConsDistinct(c[0], rest);
      }
    }
  }

  lemma ConsDistinct(x: nat, r: Chain)
    requires x !in r && Distinct(r)
    ensures Distinct([x] + r)
  {
  }

  lemma {:induction false} AlongChain(h: Hole, done: nat, b: nat, j: nat, k: nat, fuel: nat)
    requires Fits(h) && b < |h.chains| && done < MoveCount(|h.keys|, h.pos, h.n)
    requires var c := Survivors(h)[b];
      && j <= k < |c| && c[k] == FirstMoved(h) + done && fuel >= k - j
      && TailFalls(c, FirstMoved(h), MoveCount(|h.keys|, h.pos, h.n))
      && OwnRows(h.home, h.keys, c, b, h.pos, h.pos + h.n)
    ensures Trail(h, done, Survivors(h)[b][j], fuel)
    decreases k - j
  {
    hide Survivor, Trail, Kept, Partitions, Follower;
    var c := Survivors(h)[b];
    TrailStep(h, done, c[j], fuel);
    if j < k {
      NextOnChain(h, b, j);
      AlongChain(h, done, b, j + 1, k, fuel - 1);
    }
  }

  lemma NextOnChain(h: Hole, b: nat, j: nat)
    requires b < |h.chains| && j + 1 < |Survivors(h)[b]| && Distinct(Survivors(h)[b])
    requires var x := Survivors(h)[b][j]; x < |h.keys| && !(h.pos <= x < h.pos + h.n) && h.home(h.keys[x]) == b
    ensures Survivor(h, Survivors(h)[b][j]) == Survivors(h)[b][j + 1]
  {
    BehindAt(Survivors(h)[b], j);
    BehindKept(h.chains[b], Survivors(h)[b][j], h.pos, h.pos + h.n);
  }

  /** One row can be removed from any table. */
  lemma OneRowIsMovable(h: Hole)
    requires Fits(h) && h.n <= 1
    ensures Movable(h)
  {
    SingleIsTailOrdered(h.home, h.keys, h.chains, FirstMoved(h), MoveCount(|h.keys|, h.pos, h.n), 0, 0);
    TailOrderedIsMovable(h);
  }
}
