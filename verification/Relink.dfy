/** The relink pass of _dsim_hash_key_move_n on every table, also where it goes wrong:
    exactly when its walks stay clear of stale cells, and exactly when its result is right. */
module Relinks {
  import opened Common
  import opened DynArrays
  import opened Chains

  /** How one walk of _dsim_hash_set_prev ends: at the row looked for, coming from
      `prev`; on a row of the watched range; or in the error branch or an endless walk. */
  datatype Walk = Reached(prev: nat) | Stale | Lost

  function WalkFrom(next: seq<Uint32>, i: nat, prev: nat, pos: nat, watched: nat, end: nat, steps: nat): Walk
    decreases steps
  {
    if i == pos then Reached(prev)
    else if watched <= i < end then Stale
    else if i >= |next| || steps == 0 then Lost
    else WalkFrom(next, next[i], i, pos, watched, end, steps - 1)
  }

  /** The row in front of position k, or INVALID for the head. */
  function Before(c: Chain, k: nat): nat
    requires k <= |c|
  {
    if k == 0 then INVALID else c[k - 1]
  }

  function SetCell(t: Cells, b: nat, prev: nat, dst: Uint32): Cells {
    if prev == INVALID then (if b < |t.heads| then t.(heads := t.heads[b := dst]) else t)
    else if prev < |t.next| then t.(next := t.next[prev := dst]) else t
  }

  datatype Pass = Done(t: Cells) | Failed

  /** The pass itself, from row src + done on; walks longer than `steps` count as endless. */
  function RelinkPass(home: Uint64 -> nat, t: Cells, src: nat, dst: nat, done: nat, n: nat, steps: nat): (p: Pass)
    requires done <= n && src + n <= |t.keys| && dst + n <= INVALID
    ensures p.Done? ==> p.t.keys == t.keys && |p.t.next| == |t.next| && |p.t.heads| == |t.heads|
    decreases n - done
  {
    if done == n then Done(t)
    else
      var b := home(t.keys[src + done]);
      if b >= |t.heads| then Failed
      else
        match WalkFrom(t.next, t.heads[b], INVALID, src + done, dst, dst, steps)
        case Reached(prev) => RelinkPass(home, SetCell(t, b, prev, dst + done), src, dst, done + 1, n, steps)
        case _ => Failed
  }

  lemma RelinkStep(home: Uint64 -> nat, t: Cells, src: nat, dst: nat, done: nat, n: nat, steps: nat)
    requires done < n && src + n <= |t.keys| && dst + n <= INVALID && home(t.keys[src + done]) < |t.heads|
    ensures var b := home(t.keys[src + done]);
      var w := WalkFrom(t.next, t.heads[b], INVALID, src + done, dst, dst, steps);
      RelinkPass(home, t, src, dst, done, n, steps) ==
        if w.Reached? then RelinkPass(home, SetCell(t, b, w.prev, dst + done), src, dst, done + 1, n, steps) else Failed
  {
    hide WalkFrom;
  }

  lemma RelinkEnd(home: Uint64 -> nat, t: Cells, src: nat, dst: nat, n: nat, steps: nat)
    requires src + n <= |t.keys| && dst + n <= INVALID
    ensures RelinkPass(home, t, src, dst, n, n, steps) == Done(t)
  {
  }

  /** The table after the first `done` relinks, if they went right: every cell outside
      the removed rows [lo, hi) reads the relinked rows under their new numbers, the
      removed rows' cells are as the unlinking left them. */
  function Renamed(t: Cells, src: nat, dst: nat, done: nat, lo: nat, hi: nat): (r: Cells)
    requires dst + done <= INVALID
    ensures r.keys == t.keys && |r.next| == |t.next| && |r.heads| == |t.heads|
  {
    Cells(t.keys,
          seq(|t.next|, x requires 0 <= x < |t.next| =>
            if lo <= x < hi then t.next[x] else MovedCell(t.next[x], src, dst, done)),
          seq(|t.heads|, b requires 0 <= b < |t.heads| => MovedCell(t.heads[b], src, dst, done)))
  }

  function MovedCell(v: Uint32, src: nat, dst: nat, done: nat): (r: Uint32)
    requires dst + done <= INVALID
    ensures r == Moved(v, src, dst, done)
  {
    Moved(v, src, dst, done)
  }

  /** The situation between the two passes of a removal of n rows at `pos`. */
  ghost predicate BetweenPasses(home: Uint64 -> nat, t: Cells, chains: seq<Chain>, pos: nat, n: nat) {
    Threads(home, t, chains, pos, pos + n) && pos + n <= |t.keys|
  }

  /** The walk for the moved row number `done`: watching the cells of the new places
      relinked so far, or not watching. */
  function StepWalk(home: Uint64 -> nat, t: Cells, pos: nat, n: nat, done: nat, watch: bool, steps: nat): Walk
    requires |t.next| == |t.keys| <= INVALID && pos + n <= |t.keys| && done < MoveCount(|t.keys|, pos, n)
  {
    var src := MoveSource(|t.keys|, pos, n);
    var u := Renamed(t, src, pos, done, pos, pos + n);
    var b := home(t.keys[src + done]);
    if b >= |t.heads| then Lost
    else WalkFrom(u.next, u.heads[b], INVALID, src + done, pos, if watch then pos + done else pos, steps)
  }

  /** No walk of the pass reads a cell of a row already renumbered. */
  ghost predicate ReadsNoStaleCell(home: Uint64 -> nat, t: Cells, pos: nat, n: nat, steps: nat)
    requires |t.next| == |t.keys| <= INVALID && pos + n <= |t.keys|
  {
    forall done :: 0 <= done < MoveCount(|t.keys|, pos, n) ==> StepWalk(home, t, pos, n, done, true, steps) != Stale
  }

  /** Every walk comes to its row from the row in front of it on the chain. */
  ghost predicate EveryWalkArrives(home: Uint64 -> nat, t: Cells, chains: seq<Chain>, pos: nat, n: nat, steps: nat)
    requires |t.next| == |t.keys| <= INVALID && pos + n <= |t.keys|
  {
    forall done :: 0 <= done < MoveCount(|t.keys|, pos, n) ==> Arrives(home, t, chains, pos, n, done, steps)
  }

  ghost predicate Arrives(home: Uint64 -> nat, t: Cells, chains: seq<Chain>, pos: nat, n: nat, done: nat, steps: nat)
    requires |t.next| == |t.keys| <= INVALID && pos + n <= |t.keys| && done < MoveCount(|t.keys|, pos, n)
  {
    var row := MoveSource(|t.keys|, pos, n) + done;
    var b := home(t.keys[row]);
    && b < |chains|
    && exists k :: 0 <= k < |chains[b]| && chains[b][k] == row && StepWalk(home, t, pos, n, done, false, steps) == Reached(Before(chains[b], k))
  }

  // ---------- Walks along a chain ----------

  /** A walk over fresh cells arrives. */
  lemma {:induction false} WalkAlong(next: seq<Uint32>, c: Chain, j: nat, k: nat, watched: nat, end: nat, steps: nat)
    requires j <= k < |c| && Distinct(c) && steps >= k - j
    requires forall i :: 0 <= i < k ==> c[i] < |next| && !(watched <= c[i] < end)
    requires forall i {:trigger next[c[i]]} :: 0 <= i < k ==> next[c[i]] == c[i + 1]
    ensures WalkFrom(next, c[j], Before(c, j), c[k], watched, end, steps) == Reached(Before(c, k))
    decreases k - j
  {
    if j < k {
      assert next[c[j]] == c[j + 1];
      WalkAlong(next, c, j + 1, k, watched, end, steps - 1);
    }
  }

  /** A walk that meets a watched row first stops there. */
  lemma {:induction false} WalkIntoStale(next: seq<Uint32>, c: Chain, j: nat, m: nat, stop: nat, pos: nat, watched: nat, end: nat, steps: nat)
    requires j <= m <= |c| && steps >= m - j && pos !in c[..m]
    requires forall i :: 0 <= i < m ==> c[i] < |next| && !(watched <= c[i] < end)
    requires forall i {:trigger next[c[i]]} :: 0 <= i < m ==> next[c[i]] == if i + 1 < m then c[i + 1] else stop
    requires watched <= stop < end && stop != pos
    ensures WalkFrom(next, if j < m then c[j] else stop, Before(c, j), pos, watched, end, steps) == Stale
    decreases m - j
  {
    if j < m {
      assert c[j] == c[..m][j];
      assert next[c[j]] == if j + 1 < m then c[j + 1] else stop;
      WalkIntoStale(next, c, j + 1, m, stop, pos, watched, end, steps - 1);
    }
  }

  lemma ChainFits(home: Uint64 -> nat, t: Cells, chains: seq<Chain>, lo: nat, hi: nat, b: nat)
    requires Threads(home, t, chains, lo, hi) && b < |chains|
    ensures |chains[b]| <= |t.keys| == |t.next| <= INVALID && |chains| == |t.heads|
    ensures OwnRows(home, t.keys, chains[b], b, lo, hi)
  {
    assert OwnRows(home, t.keys, chains[b], b, lo, hi);
    var rows := set r | r in chains[b];
    DistinctCount(chains[b], rows);
    FitsBelow(rows, |t.keys|);
  }

  lemma {:induction false} FitsBelow(rows: set<nat>, n: nat)
    requires forall r :: r in rows ==> r < n
    ensures |rows| <= n
  {
    if n == 0 {
      assert rows == {};
    } else {
      FitsBelow(rows - {n - 1}, n - 1);
    }
  }

  /** What an arrival says about the cell it came through. */
  lemma {:induction false} WalkCell(next: seq<Uint32>, i: nat, prev: nat, pos: nat, watched: nat, end: nat, steps: nat)
    ensures var w := WalkFrom(next, i, prev, pos, watched, end, steps);
      w.Reached? ==> (i == pos && w.prev == prev) || (w.prev < |next| && next[w.prev] == pos)
    decreases steps
  {
    if i != pos && !(watched <= i < end) && i < |next| && steps > 0 {
      WalkCell(next, next[i], i, pos, watched, end, steps - 1);
    }
  }

  // ---------- When the walks are clean ----------

  /** The place on its chain of the moved row number `done`. */
  lemma MovedRowPlace(home: Uint64 -> nat, t: Cells, chains: seq<Chain>, pos: nat, n: nat, done: nat) returns (b: nat, k: nat)
    requires BetweenPasses(home, t, chains, pos, n) && done < MoveCount(|t.keys|, pos, n)
    ensures b == home(t.keys[MoveSource(|t.keys|, pos, n) + done]) < |chains| && k < |chains[b]|
    ensures chains[b][k] == MoveSource(|t.keys|, pos, n) + done
    ensures OwnRows(home, t.keys, chains[b], b, pos, pos + n) && Linked(t.heads[b], t.next, chains[b])
    ensures |chains[b]| <= |t.keys|
  {
    var row := MoveSource(|t.keys|, pos, n) + done;
    assert Covered(home, t.keys, chains, row);
    b := home(t.keys[row]);
    k :| 0 <= k < |chains[b]| && chains[b][k] == row;
    ChainFits(home, t, chains, pos, pos + n, b);
  }

  /** The renamed table's cells along one chain. */
  lemma RenamedLinks(home: Uint64 -> nat, t: Cells, chains: seq<Chain>, pos: nat, n: nat, done: nat, b: nat)
    requires BetweenPasses(home, t, chains, pos, n) && done <= MoveCount(|t.keys|, pos, n) && b < |chains|
    ensures var src := MoveSource(|t.keys|, pos, n);
      var u := Renamed(t, src, pos, done, pos, pos + n);
      LinkedMoved(u.heads[b], u.next, chains[b], src, pos, done)
  {
    assert Linked(t.heads[b], t.next, chains[b]);
    assert OwnRows(home, t.keys, chains[b], b, pos, pos + n);
  }

  lemma FreshWalk(head: Uint32, next: seq<Uint32>, c: Chain, k: nat, src: nat, dst: nat, done: nat, watched: nat, end: nat, steps: nat)
    requires LinkedMoved(head, next, c, src, dst, done) && Distinct(c) && k < |c| && steps >= |c|
    requires forall j :: 0 <= j <= k ==> !(src <= c[j] < src + done) && !(watched <= c[j] < end)
    ensures WalkFrom(next, head, INVALID, c[k], watched, end, steps) == Reached(Before(c, k))
  {
    forall i | 0 <= i < k
      ensures next[c[i]] == c[i + 1]
    {
      assert next[c[i]] == Moved(At(c, i + 1), src, dst, done);
    }
    WalkAlong(next, c, 0, k, watched, end, steps);
  }

  /** No row in front of it renumbered yet: the walk arrives from the row in front. */
  lemma StepFresh(home: Uint64 -> nat, t: Cells, chains: seq<Chain>, pos: nat, n: nat, done: nat, watch: bool, steps: nat, b: nat, k: nat)
    requires BetweenPasses(home, t, chains, pos, n) && done < MoveCount(|t.keys|, pos, n)
    requires var src := MoveSource(|t.keys|, pos, n);
      && b == home(t.keys[src + done]) < |chains| && k < |chains[b]| && chains[b][k] == src + done
      && forall j :: 0 <= j < k ==> !(src <= chains[b][j] < src + done)
    requires steps >= |t.keys|
    ensures StepWalk(home, t, pos, n, done, watch, steps) == Reached(Before(chains[b], k))
  {
    hide Renamed, LinkedMoved, Threads, WalkFrom;
    ChainFits(home, t, chains, pos, pos + n, b);
    var src := MoveSource(|t.keys|, pos, n);
    var u := Renamed(t, src, pos, done, pos, pos + n);
    RenamedLinks(home, t, chains, pos, n, done, b);
    FreshWalk(u.heads[b], u.next, chains[b], k, src, pos, done, pos, if watch then pos + done else pos, steps);
  }

  lemma FirstRenumbered(c: Chain, k: nat, src: nat, done: nat, j: nat) returns (m: nat)
    requires j < k <= |c| && src <= c[j] < src + done
    ensures m < k && src <= c[m] < src + done
    ensures forall i :: 0 <= i < m ==> !(src <= c[i] < src + done)
  {
    m := 0;
    while !(src <= c[m] < src + done)
      invariant m <= j && forall i :: 0 <= i < m ==> !(src <= c[i] < src + done)
      decreases j - m
    {
      m := m + 1;
    }
  }

  lemma StaleWalk(head: Uint32, next: seq<Uint32>, c: Chain, k: nat, j: nat, src: nat, dst: nat, done: nat, steps: nat)
    requires LinkedMoved(head, next, c, src, dst, done) && Distinct(c) && j < k < |c| && steps >= |c|
    requires src <= c[j] < src + done && c[k] >= dst + done
    requires forall i :: 0 <= i < |c| ==> !(dst <= c[i] < dst + done)
    ensures WalkFrom(next, head, INVALID, c[k], dst, dst + done, steps) == Stale
  {
    var m := FirstRenumbered(c, k, src, done, j);
    var stop := Moved(c[m], src, dst, done);
    forall i | 0 <= i < m
      ensures next[c[i]] == if i + 1 < m then c[i + 1] else stop
    {
      assert next[c[i]] == Moved(At(c, i + 1), src, dst, done);
    }
    WalkIntoStale(next, c, 0, m, stop, c[k], dst, dst + done, steps);
  }

  /** A renumbered row in front of it: the watched walk runs into its stale cell. */
  lemma StepStale(home: Uint64 -> nat, t: Cells, chains: seq<Chain>, pos: nat, n: nat, done: nat, steps: nat, b: nat, k: nat, j: nat)
    requires BetweenPasses(home, t, chains, pos, n) && done < MoveCount(|t.keys|, pos, n)
    requires var src := MoveSource(|t.keys|, pos, n);
      && b == home(t.keys[src + done]) < |chains| && j < k < |chains[b]| && chains[b][k] == src + done
      && src <= chains[b][j] < src + done
    requires steps >= |t.keys|
    ensures StepWalk(home, t, pos, n, done, true, steps) == Stale
  {
    hide Renamed, LinkedMoved, Threads, WalkFrom;
    ChainFits(home, t, chains, pos, pos + n, b);
    var src := MoveSource(|t.keys|, pos, n);
    var u := Renamed(t, src, pos, done, pos, pos + n);
    RenamedLinks(home, t, chains, pos, n, done, b);
    StaleWalk(u.heads[b], u.next, chains[b], k, j, src, pos, done, steps);
  }

  /** The pass stays clear of stale cells exactly when moved rows sharing a bucket lie
      on its chain highest row first. */
  lemma CleanIffTailOrdered(home: Uint64 -> nat, t: Cells, chains: seq<Chain>, pos: nat, n: nat, steps: nat)
    requires BetweenPasses(home, t, chains, pos, n) && steps >= |t.keys|
    ensures ReadsNoStaleCell(home, t, pos, n, steps)
      <==> TailOrdered(chains, MoveSource(|t.keys|, pos, n), MoveCount(|t.keys|, pos, n))
  {
    var src, count := MoveSource(|t.keys|, pos, n), MoveCount(|t.keys|, pos, n);
    if TailOrdered(chains, src, count) {
      forall done | 0 <= done < count
        ensures StepWalk(home, t, pos, n, done, true, steps) != Stale
      {
        var b, k := MovedRowPlace(home, t, chains, pos, n, done);
        assert TailFalls(chains[b], src, count);
        StepFresh(home, t, chains, pos, n, done, true, steps, b, k);
      }
    }
    if ReadsNoStaleCell(home, t, pos, n, steps) {
      forall b | 0 <= b < |chains|
        ensures TailFalls(chains[b], src, count)
      {
        CleanChainFalls(home, t, chains, pos, n, steps, b);
      }
    }
  }

  lemma CleanChainFalls(home: Uint64 -> nat, t: Cells, chains: seq<Chain>, pos: nat, n: nat, steps: nat, b: nat)
    requires BetweenPasses(home, t, chains, pos, n) && steps >= |t.keys| && b < |chains|
    requires ReadsNoStaleCell(home, t, pos, n, steps)
    ensures TailFalls(chains[b], MoveSource(|t.keys|, pos, n), MoveCount(|t.keys|, pos, n))
  {
    var src, count := MoveSource(|t.keys|, pos, n), MoveCount(|t.keys|, pos, n);
    var c := chains[b];
    assert OwnRows(home, t.keys, c, b, pos, pos + n);
    forall j, k | 0 <= j < k < |c| && src <= c[j] < src + count && src <= c[k] < src + count
      ensures c[j] > c[k]
    {
      if c[j] < c[k] {
        StepStale(home, t, chains, pos, n, c[k] - src, steps, b, k, j);
        assert false;
      }
    }
  }

  // ---------- When the result is right ----------

  lemma NothingRenamed(t: Cells, src: nat, dst: nat, lo: nat, hi: nat)
    requires dst <= INVALID
    ensures Renamed(t, src, dst, 0, lo, hi) == t
  {
    assert Renamed(t, src, dst, 0, lo, hi).next == t.next;
    assert Renamed(t, src, dst, 0, lo, hi).heads == t.heads;
  }

  /** Relinking through the right cell takes the renamed table one row further. */
  lemma RenameStep(home: Uint64 -> nat, t: Cells, chains: seq<Chain>, pos: nat, n: nat, done: nat, b: nat, k: nat)
    requires BetweenPasses(home, t, chains, pos, n) && done < MoveCount(|t.keys|, pos, n)
    requires b < |chains| && k < |chains[b]| && chains[b][k] == MoveSource(|t.keys|, pos, n) + done
    ensures var src := MoveSource(|t.keys|, pos, n);
      SetCell(Renamed(t, src, pos, done, pos, pos + n), b, Before(chains[b], k), pos + done)
      == Renamed(t, src, pos, done + 1, pos, pos + n)
  {
    var src := MoveSource(|t.keys|, pos, n);
    var u := SetCell(Renamed(t, src, pos, done, pos, pos + n), b, Before(chains[b], k), pos + done);
    var v := Renamed(t, src, pos, done + 1, pos, pos + n);
    assert OwnRows(home, t.keys, chains[b], b, pos, pos + n);
    assert Linked(t.heads[b], t.next, chains[b]);
    forall d | 0 <= d < |t.heads|
      ensures u.heads[d] == v.heads[d]
    {
      assert Linked(t.heads[d], t.next, chains[d]);
      if t.heads[d] == src + done {
        HeadPlace(home, t, chains, pos, n, b, k, d);
      }
    }
    forall x | 0 <= x < |t.next|
      ensures u.next[x] == v.next[x]
    {
      if !(pos <= x < pos + n) {
        CellPlace(home, t, chains, pos, n, b, k, x);
      }
    }
    assert u.next == v.next && u.heads == v.heads;
  }

  lemma HeadPlace(home: Uint64 -> nat, t: Cells, chains: seq<Chain>, pos: nat, n: nat, b: nat, k: nat, d: nat)
    requires BetweenPasses(home, t, chains, pos, n)
    requires b < |chains| && k < |chains[b]| && d < |chains| && t.heads[d] == chains[b][k]
    ensures d == b && k == 0
  {
    assert Linked(t.heads[d], t.next, chains[d]);
    assert OwnRows(home, t.keys, chains[b], b, pos, pos + n);
    assert OwnRows(home, t.keys, chains[d], d, pos, pos + n);
  }

  /** Only the cell in front of a row holds it. */
  lemma CellPlace(home: Uint64 -> nat, t: Cells, chains: seq<Chain>, pos: nat, n: nat, b: nat, k: nat, x: nat)
    requires BetweenPasses(home, t, chains, pos, n)
    requires b < |chains| && k < |chains[b]| && x < |t.next| && !(pos <= x < pos + n)
    ensures t.next[x] == chains[b][k] <==> x == Before(chains[b], k)
  {
    assert Covered(home, t.keys, chains, x);
    var d := home(t.keys[x]);
    var j :| 0 <= j < |chains[d]| && chains[d][j] == x;
    assert Linked(t.heads[d], t.next, chains[d]) && Linked(t.heads[b], t.next, chains[b]);
    assert OwnRows(home, t.keys, chains[d], d, pos, pos + n);
    assert OwnRows(home, t.keys, chains[b], b, pos, pos + n);
    assert t.next[chains[d][j]] == At(chains[d], j + 1);
    if k > 0 {
      assert t.next[chains[b][k - 1]] == At(chains[b], k);
    }
  }

  /** The pass over the renamed table, from row `done` on. */
  function PassFrom(home: Uint64 -> nat, t: Cells, pos: nat, n: nat, done: nat, steps: nat): Pass
    requires |t.next| == |t.keys| <= INVALID && pos + n <= |t.keys| && done <= MoveCount(|t.keys|, pos, n)
  {
    var src, count := MoveSource(|t.keys|, pos, n), MoveCount(|t.keys|, pos, n);
    RelinkPass(home, Renamed(t, src, pos, done, pos, pos + n), src, pos, done, count, steps)
  }

  lemma PassStep(home: Uint64 -> nat, t: Cells, pos: nat, n: nat, done: nat, steps: nat)
    requires |t.next| == |t.keys| <= INVALID && pos + n <= |t.keys| && done < MoveCount(|t.keys|, pos, n)
    requires home(t.keys[MoveSource(|t.keys|, pos, n) + done]) < |t.heads|
    ensures var src, count := MoveSource(|t.keys|, pos, n), MoveCount(|t.keys|, pos, n);
      var u := Renamed(t, src, pos, done, pos, pos + n);
      var w := StepWalk(home, t, pos, n, done, false, steps);
      PassFrom(home, t, pos, n, done, steps) ==
        if w.Reached? then RelinkPass(home, SetCell(u, home(t.keys[src + done]), w.prev, pos + done), src, pos, done + 1, count, steps)
        else Failed
  {
  }

  lemma PassAdvances(home: Uint64 -> nat, t: Cells, chains: seq<Chain>, pos: nat, n: nat, done: nat, steps: nat)
    requires BetweenPasses(home, t, chains, pos, n) && done < MoveCount(|t.keys|, pos, n)
    requires Arrives(home, t, chains, pos, n, done, steps)
    ensures PassFrom(home, t, pos, n, done, steps) == PassFrom(home, t, pos, n, done + 1, steps)
  {
    hide RelinkPass, Renamed, StepWalk, SetCell;
    var row := MoveSource(|t.keys|, pos, n) + done;
    var b := home(t.keys[row]);
    var k :| 0 <= k < |chains[b]| && chains[b][k] == row
      && StepWalk(home, t, pos, n, done, false, steps) == Reached(Before(chains[b], k));
    PassStep(home, t, pos, n, done, steps);
    RenameStep(home, t, chains, pos, n, done, b, k);
  }

  lemma {:induction false} RightPass(home: Uint64 -> nat, t: Cells, chains: seq<Chain>, pos: nat, n: nat, done: nat, steps: nat)
    requires |t.next| == |t.keys| <= INVALID && pos + n <= |t.keys|
    requires BetweenPasses(home, t, chains, pos, n) && done <= MoveCount(|t.keys|, pos, n)
    requires EveryWalkArrives(home, t, chains, pos, n, steps)
    ensures var src, count := MoveSource(|t.keys|, pos, n), MoveCount(|t.keys|, pos, n);
      PassFrom(home, t, pos, n, done, steps) == Done(Renamed(t, src, pos, count, pos, pos + n))
    decreases MoveCount(|t.keys|, pos, n) - done
  {
    hide BetweenPasses, Renamed, StepWalk, Arrives;
    if done < MoveCount(|t.keys|, pos, n) {
      hide PassFrom;
      PassAdvances(home, t, chains, pos, n, done, steps);
      RightPass(home, t, chains, pos, n, done + 1, steps);
    }
  }

  /** A cell holding no row still to come is not written again. */
  lemma {:induction false} PassKeepsCell(home: Uint64 -> nat, t: Cells, src: nat, dst: nat, done: nat, n: nat, steps: nat, x: nat)
    requires done <= n && src + n <= |t.keys| && dst + n <= INVALID && x < |t.next| <= INVALID
    requires t.next[x] < src + done || t.next[x] >= src + n
    ensures var p := RelinkPass(home, t, src, dst, done, n, steps); p.Done? ==> p.t.next[x] == t.next[x]
    decreases n - done
  {
    if done < n {
      var b := home(t.keys[src + done]);
      if b < |t.heads| {
        var w := WalkFrom(t.next, t.heads[b], INVALID, src + done, dst, dst, steps);
        WalkCell(t.next, t.heads[b], INVALID, src + done, dst, dst, steps);
        if w.Reached? {
          PassKeepsCell(home, SetCell(t, b, w.prev, dst + done), src, dst, done + 1, n, steps, x);
        }
      }
    }
  }

  /** A walk that does not arrive from the row in front leaves that row's cell behind. */
  lemma {:induction false} WrongPass(home: Uint64 -> nat, t: Cells, chains: seq<Chain>, pos: nat, n: nat, done: nat, steps: nat)
    returns (bad: nat, b: nat, k: nat)
    requires BetweenPasses(home, t, chains, pos, n) && done <= MoveCount(|t.keys|, pos, n)
    requires exists d :: done <= d < MoveCount(|t.keys|, pos, n) && !Arrives(home, t, chains, pos, n, d, steps)
    ensures bad < MoveCount(|t.keys|, pos, n) && b < |chains| && 0 < k < |chains[b]|
    ensures chains[b][k] == MoveSource(|t.keys|, pos, n) + bad && chains[b][k - 1] < |t.next|
    ensures var p := PassFrom(home, t, pos, n, done, steps);
      p.Done? ==> chains[b][k - 1] < |p.t.next| && p.t.next[chains[b][k - 1]] == chains[b][k]
    decreases MoveCount(|t.keys|, pos, n) - done
  {
    hide Arrives, PassFrom, Renamed;
    if Arrives(home, t, chains, pos, n, done, steps) {
      PassAdvances(home, t, chains, pos, n, done, steps);
      bad, b, k := WrongPass(home, t, chains, pos, n, done + 1, steps);
    } else {
      bad := done;
      b, k := WrongStep(home, t, chains, pos, n, done, steps);
    }
  }

  lemma WrongStep(home: Uint64 -> nat, t: Cells, chains: seq<Chain>, pos: nat, n: nat, done: nat, steps: nat)
    returns (b: nat, k: nat)
    requires BetweenPasses(home, t, chains, pos, n) && done < MoveCount(|t.keys|, pos, n)
    requires !Arrives(home, t, chains, pos, n, done, steps)
    ensures b < |chains| && 0 < k < |chains[b]|
    ensures chains[b][k] == MoveSource(|t.keys|, pos, n) + done && chains[b][k - 1] < |t.next|
    ensures var p := PassFrom(home, t, pos, n, done, steps);
      p.Done? ==> chains[b][k - 1] < |p.t.next| && p.t.next[chains[b][k - 1]] == chains[b][k]
  {
    hide RelinkPass, StepWalk;
    var src, count := MoveSource(|t.keys|, pos, n), MoveCount(|t.keys|, pos, n);
    b, k := MovedRowPlace(home, t, chains, pos, n, done);
    HeadArrives(home, t, chains, pos, n, done, steps, b, k);
    var u := Renamed(t, src, pos, done, pos, pos + n);
    var x := chains[b][k - 1];
    assert t.next[x] == At(chains[b], k);
    assert u.next[x] == chains[b][k];
    PassStep(home, t, pos, n, done, steps);
    var w := StepWalk(home, t, pos, n, done, false, steps);
    if w.Reached? {
      var v := SetCell(u, b, w.prev, pos + done);
      assert w.prev != x;
      PassKeepsCell(home, v, src, pos, done + 1, count, steps, x);
    }
  }

  lemma HeadArrives(home: Uint64 -> nat, t: Cells, chains: seq<Chain>, pos: nat, n: nat, done: nat, steps: nat, b: nat, k: nat)
    requires BetweenPasses(home, t, chains, pos, n) && done < MoveCount(|t.keys|, pos, n)
    requires b == home(t.keys[MoveSource(|t.keys|, pos, n) + done]) < |chains|
    requires k < |chains[b]| && chains[b][k] == MoveSource(|t.keys|, pos, n) + done
    ensures k == 0 ==> Arrives(home, t, chains, pos, n, done, steps)
  {
    assert Linked(t.heads[b], t.next, chains[b]);
  }

  /** The pass ends with a table that the copies turn into the right one exactly when
      every walk comes to its row from the row in front of it on the chain. */
  lemma RightIffEveryWalkArrives(home: Uint64 -> nat, t: Cells, chains: seq<Chain>, chains': seq<Chain>, pos: nat, n: nat, steps: nat)
    requires BetweenPasses(home, t, chains, pos, n) && |chains'| == |chains|
    requires forall b :: 0 <= b < |chains| ==> chains'[b] == Relocated(chains[b], |t.keys|, pos, n)
    ensures var p := RelinkPass(home, t, MoveSource(|t.keys|, pos, n), pos, 0, MoveCount(|t.keys|, pos, n), steps);
      (p.Done? && Threads(home, Compacted(p.t, pos, n), chains', 0, 0))
      <==> EveryWalkArrives(home, t, chains, pos, n, steps)
  {
    PassStart(home, t, pos, n, steps);
    hide RelinkPass, PassFrom, EveryWalkArrives, Threads, Relocated;
    if EveryWalkArrives(home, t, chains, pos, n, steps) {
      ArrivingIsRight(home, t, chains, chains', pos, n, steps);
    } else {
      StrayingIsWrong(home, t, chains, chains', pos, n, steps);
    }
  }

  lemma PassStart(home: Uint64 -> nat, t: Cells, pos: nat, n: nat, steps: nat)
    requires |t.next| == |t.keys| <= INVALID && pos + n <= |t.keys|
    ensures RelinkPass(home, t, MoveSource(|t.keys|, pos, n), pos, 0, MoveCount(|t.keys|, pos, n), steps)
      == PassFrom(home, t, pos, n, 0, steps)
  {
    hide RelinkPass;
    NothingRenamed(t, MoveSource(|t.keys|, pos, n), pos, pos, pos + n);
  }

  lemma ArrivingIsRight(home: Uint64 -> nat, t: Cells, chains: seq<Chain>, chains': seq<Chain>, pos: nat, n: nat, steps: nat)
    requires BetweenPasses(home, t, chains, pos, n) && |chains'| == |chains|
    requires forall b :: 0 <= b < |chains| ==> chains'[b] == Relocated(chains[b], |t.keys|, pos, n)
    requires EveryWalkArrives(home, t, chains, pos, n, steps)
    ensures var p := PassFrom(home, t, pos, n, 0, steps); p.Done? && Threads(home, Compacted(p.t, pos, n), chains', 0, 0)
  {
    hide PassFrom, Renamed, HalfMoved, EveryWalkArrives;
    assert |t.next| == |t.keys| <= INVALID;
    hide Threads;
    RightPass(home, t, chains, pos, n, 0, steps);
    AllRenamed(home, t, chains, pos, n);
    FinishMove(home, t, PassFrom(home, t, pos, n, 0, steps).t, chains, chains', pos, n);
  }

  lemma StrayingIsWrong(home: Uint64 -> nat, t: Cells, chains: seq<Chain>, chains': seq<Chain>, pos: nat, n: nat, steps: nat)
    requires BetweenPasses(home, t, chains, pos, n) && |chains'| == |chains|
    requires forall b :: 0 <= b < |chains| ==> chains'[b] == Relocated(chains[b], |t.keys|, pos, n)
    requires !EveryWalkArrives(home, t, chains, pos, n, steps)
    ensures var p := PassFrom(home, t, pos, n, 0, steps);
      p.Done? ==> p.t.keys == t.keys && |p.t.next| == |t.next| && !Threads(home, Compacted(p.t, pos, n), chains', 0, 0)
  {
    var p := PassFrom(home, t, pos, n, 0, steps);
    assert p.Done? ==> p.t.keys == t.keys && |p.t.next| == |t.next| && |p.t.heads| == |t.heads|;
    hide PassFrom, Renamed, Threads, Arrives, Compacted;
    var bad, b, k := WrongPass(home, t, chains, pos, n, 0, steps);
    if p.Done? {
      LeftBehind(home, t, p.t, chains, chains', pos, n, b, k);
    }
  }

  lemma AllRenamed(home: Uint64 -> nat, t: Cells, chains: seq<Chain>, pos: nat, n: nat)
    requires BetweenPasses(home, t, chains, pos, n)
    ensures var src, count := MoveSource(|t.keys|, pos, n), MoveCount(|t.keys|, pos, n);
      HalfMoved(Renamed(t, src, pos, count, pos, pos + n), chains, src, pos, count)
  {
    forall b | 0 <= b < |chains| {
      RenamedLinks(home, t, chains, pos, n, MoveCount(|t.keys|, pos, n), b);
    }
  }

  /** A cell still naming a row's old place spoils the final table. */
  lemma LeftBehind(home: Uint64 -> nat, t0: Cells, t: Cells, chains: seq<Chain>, chains': seq<Chain>, pos: nat, n: nat, b: nat, k: nat)
    requires BetweenPasses(home, t0, chains, pos, n) && |chains'| == |chains|
    requires t.keys == t0.keys && |t.next| == |t0.next| && |t.heads| == |t0.heads|
    requires forall d :: 0 <= d < |chains| ==> chains'[d] == Relocated(chains[d], |t.keys|, pos, n)
    requires b < |chains| && 0 < k < |chains[b]| && chains[b][k - 1] < |t.next| && t.next[chains[b][k - 1]] == chains[b][k]
    requires MoveSource(|t.keys|, pos, n) <= chains[b][k] < MoveSource(|t.keys|, pos, n) + MoveCount(|t.keys|, pos, n)
    ensures !Threads(home, Compacted(t, pos, n), chains', 0, 0)
  {
    var u := Compacted(t, pos, n);
    var r := chains'[b];
    assert OwnRows(home, t0.keys, chains[b], b, pos, pos + n);
    CutFastAt(t.next, pos, n);
    DestinationInvertsOrigin(|t.keys|, pos, n);
    assert u.next[r[k - 1]] == chains[b][k] != r[k];
    if Threads(home, u, chains', 0, 0) {
      BrokenLink(u.heads[b], u.next, r, k);
    }
  }

  lemma BrokenLink(head: nat, next: seq<Uint32>, c: Chain, k: nat)
    requires 0 < k < |c| && c[k - 1] < |next| && next[c[k - 1]] != c[k]
    ensures !Linked(head, next, c)
  {
    assert next[c[k - 1]] != At(c, k);
  }

  /** The order of the moved rows is enough for every walk to arrive. */
  lemma TailOrderedArrives(home: Uint64 -> nat, t: Cells, chains: seq<Chain>, pos: nat, n: nat, steps: nat)
    requires BetweenPasses(home, t, chains, pos, n) && steps >= |t.keys|
    requires TailOrdered(chains, MoveSource(|t.keys|, pos, n), MoveCount(|t.keys|, pos, n))
    ensures EveryWalkArrives(home, t, chains, pos, n, steps)
  {
    var src, count := MoveSource(|t.keys|, pos, n), MoveCount(|t.keys|, pos, n);
    forall done | 0 <= done < count
      ensures Arrives(home, t, chains, pos, n, done, steps)
    {
      var b, k := MovedRowPlace(home, t, chains, pos, n, done);
      assert TailFalls(chains[b], src, count);
      StepFresh(home, t, chains, pos, n, done, false, steps, b, k);
    }
  }
}
