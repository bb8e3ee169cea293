/** Bucket chains threaded through row numbers, as values: what the arrays of
    src/core/hash.c mean, and what one relinked cell does to that meaning. */
module Chains {
  import opened Common
  import opened DynArrays
  import opened LinearScans

  /** The three arrays of a hash: `heads` is `_hash`, `next` is `_next`. */
  datatype Cells = Cells(keys: seq<Uint64>, next: seq<Uint32>, heads: seq<Uint32>)

  type Chain = seq<nat>

  /** The row at position k of a chain, or the end marker. */
  function At(c: Chain, k: nat): nat {
    if k < |c| then c[k] else INVALID
  }

  ghost predicate Distinct(c: Chain) {
    forall j, k :: 0 <= j < k < |c| ==> c[j] != c[k]
  }

  /** The cells lead from `head` through exactly the rows of c to the end marker. */
  ghost predicate Linked(head: nat, next: seq<Uint32>, c: Chain) {
    && head == At(c, 0)
    && (forall k :: 0 <= k < |c| ==> c[k] < |next|)
    && forall k {:trigger next[c[k]]} :: 0 <= k < |c| ==> next[c[k]] == At(c, k + 1)
  }

  /** The rows of c are distinct, belong to bucket b and lie outside [lo, hi). */
  ghost predicate OwnRows(home: Uint64 -> nat, keys: seq<Uint64>, c: Chain, b: nat, lo: nat, hi: nat) {
    && Distinct(c)
    && forall k :: 0 <= k < |c| ==> c[k] < |keys| && home(keys[c[k]]) == b && !(lo <= c[k] < hi)
  }

  ghost predicate Covered(home: Uint64 -> nat, keys: seq<Uint64>, chains: seq<Chain>, r: nat)
    requires r < |keys|
  {
    home(keys[r]) < |chains| && r in chains[home(keys[r])]
  }

  /** Every row outside [lo, hi) lies on exactly one chain, its own bucket's, exactly
      once; rows in [lo, hi) lie on none. */
  ghost predicate Partitions(home: Uint64 -> nat, keys: seq<Uint64>, chains: seq<Chain>, lo: nat, hi: nat) {
    && (forall b :: 0 <= b < |chains| ==> OwnRows(home, keys, chains[b], b, lo, hi))
    && (forall r :: 0 <= r < |keys| && !(lo <= r < hi) ==> Covered(home, keys, chains, r))
  }

  /** A table whose rows outside [lo, hi) are threaded by `chains`. */
  ghost predicate Threads(home: Uint64 -> nat, t: Cells, chains: seq<Chain>, lo: nat, hi: nat) {
    && |t.next| == |t.keys| <= INVALID
    && |chains| == |t.heads|
    && Partitions(home, t.keys, chains, lo, hi)
    && forall b :: 0 <= b < |chains| ==> Linked(t.heads[b], t.next, chains[b])
  }

  /** The rows of c inside [src, src+n) are met highest row first. */
  ghost predicate TailFalls(c: Chain, src: nat, n: nat) {
    forall j, k :: 0 <= j < k < |c| && src <= c[j] < src + n && src <= c[k] < src + n ==> c[j] > c[k]
  }

  ghost predicate TailOrdered(chains: seq<Chain>, src: nat, n: nat) {
    forall b :: 0 <= b < |chains| ==> TailFalls(chains[b], src, n)
  }

  /** The order that push and rehash create: every chain highest row first. */
  ghost predicate Descending(chains: seq<Chain>) {
    TailOrdered(chains, 0, INVALID)
  }

  /** The write at the end of _dsim_hash_set_prev: the cell in front of position k
      of chain c, bucket b, gets `dst`. */
  function Relinked(t: Cells, b: nat, c: Chain, k: nat, dst: Uint32): Cells
    requires b < |t.heads| && k < |c| && (k > 0 ==> c[k - 1] < |t.next|)
  {
    if k == 0 then t.(heads := t.heads[b := dst]) else t.(next := t.next[c[k - 1] := dst])
  }

  /** A row on chain b is on no other chain. */
  lemma OtherChain(home: Uint64 -> nat, keys: seq<Uint64>, chains: seq<Chain>, lo: nat, hi: nat, b: nat, k: nat, d: nat)
    requires Partitions(home, keys, chains, lo, hi)
    requires b < |chains| && k < |chains[b]| && d < |chains| && d != b
    ensures chains[b][k] !in chains[d]
  {
    assert OwnRows(home, keys, chains[b], b, lo, hi);
    assert OwnRows(home, keys, chains[d], d, lo, hi);
  }

  lemma WriteOffChain(head: nat, next: seq<Uint32>, c: Chain, row: nat, v: Uint32)
    requires Linked(head, next, c) && row !in c && row < |next|
    ensures Linked(head, next[row := v], c)
  {
  }

  // ---------- Inserting ----------

  /** The table after _dsim_hash_key_insert. */
  function Inserted(t: Cells, b: nat, row: nat): Cells
    requires b < |t.heads| && row < |t.next| && row < INVALID
  {
    t.(next := t.next[row := t.heads[b]], heads := t.heads[b := row])
  }

  /** _dsim_hash_key_insert puts the lowest unthreaded row in front of its chain. */
  lemma InsertThreads(home: Uint64 -> nat, t: Cells, chains: seq<Chain>, row: nat, hi: nat)
    requires Threads(home, t, chains, row, hi)
    requires row < hi <= |t.keys|
    requires home(t.keys[row]) < |chains|
    ensures var b := home(t.keys[row]);
      Threads(home, Inserted(t, b, row), chains[b := [row] + chains[b]], row + 1, hi)
  {
    var b := home(t.keys[row]);
    var c := [row] + chains[b];
    var chains' := chains[b := c];
    var t' := Inserted(t, b, row);
    forall d | 0 <= d < |chains|
      ensures OwnRows(home, t.keys, chains'[d], d, row + 1, hi) && Linked(t'.heads[d], t'.next, chains'[d])
    {
      assert OwnRows(home, t.keys, chains[d], d, row, hi);
      assert Linked(t.heads[d], t.next, chains[d]);
      assert row !in chains[d];
      if d == b {
        InsertOwn(home, t.keys, chains[b], b, row, hi);
        InsertLinks(t.heads[b], t.next, chains[b], row);
      } else {
        WriteOffChain(t.heads[d], t.next, chains[d], row, t.heads[b]);
      }
    }
    forall r | 0 <= r < |t.keys| && !(row + 1 <= r < hi)
      ensures Covered(home, t.keys, chains', r)
    {
      if r != row {
        assert Covered(home, t.keys, chains, r);
      }
    }
  }

  lemma InsertOwn(home: Uint64 -> nat, keys: seq<Uint64>, c: Chain, b: nat, row: nat, hi: nat)
    requires OwnRows(home, keys, c, b, row, hi) && row < hi <= |keys| && home(keys[row]) == b
    ensures OwnRows(home, keys, [row] + c, b, row + 1, hi)
  {
    var c' := [row] + c;
    assert forall k :: 0 < k < |c'| ==> c'[k] == c[k - 1];
  }

  lemma InsertLinks(head: Uint32, next: seq<Uint32>, c: Chain, row: nat)
    requires Linked(head, next, c) && row !in c && row < |next|
    ensures Linked(row, next[row := head], [row] + c)
  {
    var c' := [row] + c;
    assert forall k :: 0 < k < |c'| ==> c'[k] == c[k - 1];
    assert forall k :: 0 <= k < |c'| ==> At(c', k + 1) == At(c, k);
  }

  // ---------- Unlinking ----------

  /** The rows of c outside [lo, hi), in chain order. */
  function Kept(c: Chain, lo: nat, hi: nat): (r: Chain) {
    if c == [] then []
    else (if lo <= c[0] < hi then [] else [c[0]]) + Kept(c[1..], lo, hi)
  }

  lemma {:induction false} KeptAll(c: Chain, lo: nat, hi: nat)
    requires forall k :: 0 <= k < |c| ==> !(lo <= c[k] < hi)
    ensures Kept(c, lo, hi) == c
  {
    if c != [] {
      KeptAll(c[1..], lo, hi);
    }
  }

  lemma KeptStep(c: Chain, lo: nat, hi: nat)
    ensures Kept([], lo, hi) == []
    ensures c != [] ==> Kept(c, lo, hi) == (if lo <= c[0] < hi then [] else [c[0]]) + Kept(c[1..], lo, hi)
  {
  }

  lemma {:induction false} KeptConcat(a: Chain, c: Chain, lo: nat, hi: nat)
    ensures Kept(a + c, lo, hi) == Kept(a, lo, hi) + Kept(c, lo, hi)
  {
    hide Kept;
    KeptStep(a, lo, hi);
    KeptStep(a + c, lo, hi);
    if a == [] {
      assert a + c == c;
    } else {
      assert (a + c)[1..] == a[1..] + c;
      KeptConcat(a[1..], c, lo, hi);
    }
  }

  lemma {:induction false} KeptTwice(c: Chain, lo: nat, hi: nat)
    requires lo <= hi
    ensures Kept(Kept(c, lo, hi), hi, hi + 1) == Kept(c, lo, hi + 1)
  {
    if c != [] {
      KeptTwice(c[1..], lo, hi);
      var first := if lo <= c[0] < hi then [] else [c[0]];
      KeptConcat(first, Kept(c[1..], lo, hi), hi, hi + 1);
    }
  }

  lemma {:induction false} KeptMembers(c: Chain, lo: nat, hi: nat)
    ensures forall r :: r in Kept(c, lo, hi) <==> r in c && !(lo <= r < hi)
  {
    if c != [] {
      KeptMembers(c[1..], lo, hi);
    }
  }

  /** The chain without its position k. */
  function Dropped(c: Chain, k: nat): (r: Chain)
    requires k < |c|
    ensures |r| == |c| - 1 && forall j :: 0 <= j < |r| ==> r[j] == if j < k then c[j] else c[j + 1]
  {
    c[..k] + c[k + 1..]
  }

  /** Cutting position k out of a chain already rid of [lo, hi) rids it of row hi. */
  lemma UnlinkIsKept(c: Chain, k: nat, lo: nat, hi: nat)
    requires lo <= hi
    requires var d := Kept(c, lo, hi); k < |d| && d[k] == hi && Distinct(d)
    ensures Dropped(Kept(c, lo, hi), k) == Kept(c, lo, hi + 1)
  {
    var d := Kept(c, lo, hi);
    KeptTwice(c, lo, hi);
    DropOnlyRow(d, k, hi);
  }

  lemma DropOnlyRow(d: Chain, k: nat, row: nat)
    requires k < |d| && d[k] == row && Distinct(d)
    ensures Kept(d, row, row + 1) == Dropped(d, k)
  {
    hide Kept;
    var front, mid, back := d[..k], [d[k]], d[k + 1..];
    assert d == front + (mid + back);
    KeptConcat(front, mid + back, row, row + 1);
    KeptConcat(mid, back, row, row + 1);
    KeptAll(front, row, row + 1);
    KeptAll(back, row, row + 1);
    KeptNone(row);
  }

  lemma KeptNone(row: nat)
    ensures Kept([row], row, row + 1) == []
  {
  }

  lemma KeptUntouched(c: Chain, lo: nat, hi: nat)
    requires lo <= hi && hi !in Kept(c, lo, hi)
    ensures Kept(c, lo, hi + 1) == Kept(c, lo, hi)
  {
    KeptTwice(c, lo, hi);
    KeptAll(Kept(c, lo, hi), hi, hi + 1);
  }

  /** _dsim_hash_key_delete takes row hi off its chain. */
  lemma UnlinkThreads(home: Uint64 -> nat, t: Cells, chains: seq<Chain>, b: nat, k: nat, lo: nat, hi: nat)
    requires Threads(home, t, chains, lo, hi)
    requires lo <= hi && b < |chains| && k < |chains[b]| && chains[b][k] == hi < |t.next|
    requires k > 0 ==> chains[b][k - 1] < |t.next|
    ensures Threads(home, Relinked(t, b, chains[b], k, t.next[hi]), chains[b := Dropped(chains[b], k)], lo, hi + 1)
  {
    var c := chains[b];
    var chains' := chains[b := Dropped(c, k)];
    var t' := Relinked(t, b, c, k, t.next[hi]);
    forall d | 0 <= d < |chains|
      ensures OwnRows(home, t.keys, chains'[d], d, lo, hi + 1) && Linked(t'.heads[d], t'.next, chains'[d])
    {
      assert OwnRows(home, t.keys, chains[d], d, lo, hi);
      assert Linked(t.heads[d], t.next, chains[d]);
      if d == b {
        UnlinkLinks(t, b, c, k);
        DropOwn(home, t.keys, c, k, b, lo, hi);
      } else {
        OtherChain(home, t.keys, chains, lo, hi, b, k, d);
        if k > 0 {
          OtherChain(home, t.keys, chains, lo, hi, b, k - 1, d);
          WriteOffChain(t.heads[d], t.next, chains[d], c[k - 1], t.next[hi]);
        }
      }
    }
    forall r | 0 <= r < |t.keys| && !(lo <= r < hi + 1)
      ensures Covered(home, t.keys, chains', r)
    {
      assert Covered(home, t.keys, chains, r);
      if home(t.keys[r]) == b {
        DropKeepsOthers(c, k, r);
      }
    }
  }

  lemma DropKeepsOthers(c: Chain, k: nat, r: nat)
    requires k < |c| && r in c && r != c[k]
    ensures r in Dropped(c, k)
  {
    var j :| 0 <= j < |c| && c[j] == r;
    assert Dropped(c, k)[if j < k then j else j - 1] == r;
  }

  lemma UnlinkLinks(t: Cells, b: nat, c: Chain, k: nat)
    requires b < |t.heads| && Linked(t.heads[b], t.next, c) && Distinct(c) && k < |c|
    ensures var t' := Relinked(t, b, c, k, t.next[c[k]]); Linked(t'.heads[b], t'.next, Dropped(c, k))
  {
  }

  lemma DropOwn(home: Uint64 -> nat, keys: seq<Uint64>, c: Chain, k: nat, b: nat, lo: nat, hi: nat)
    requires OwnRows(home, keys, c, b, lo, hi) && lo <= hi && k < |c| && c[k] == hi
    ensures OwnRows(home, keys, Dropped(c, k), b, lo, hi + 1)
  {
  }

  /** One deletion: `row` is gone from the chain it was on. */
  ghost predicate Unlinked(was: seq<Chain>, now: seq<Chain>, row: nat) {
    && |now| == |was|
    && forall b :: 0 <= b < |was| ==> UnlinkedFrom(was[b], now[b], row)
  }

  ghost predicate UnlinkedFrom(was: Chain, now: Chain, row: nat) {
    (row !in was && now == was) || exists k :: 0 <= k < |was| && was[k] == row && now == Dropped(was, k)
  }

  lemma NothingGone(home: Uint64 -> nat, t: Cells, chains: seq<Chain>, lo: nat)
    requires Threads(home, t, chains, 0, 0)
    ensures Threads(home, t, chains, lo, lo)
    ensures forall b :: 0 <= b < |chains| ==> chains[b] == Kept(chains[b], lo, lo)
  {
    forall b | 0 <= b < |chains|
      ensures chains[b] == Kept(chains[b], lo, lo) && OwnRows(home, t.keys, chains[b], b, lo, lo)
    {
      assert OwnRows(home, t.keys, chains[b], b, 0, 0);
      KeptAll(chains[b], lo, lo);
    }
  }

  lemma KeptAdvances(home: Uint64 -> nat, t: Cells, chains: seq<Chain>, was: seq<Chain>, now: seq<Chain>, lo: nat, hi: nat)
    requires lo <= hi && |was| == |chains| && Unlinked(was, now, hi)
    requires Threads(home, t, was, lo, hi)
    requires forall b :: 0 <= b < |chains| ==> was[b] == Kept(chains[b], lo, hi)
    ensures forall b :: 0 <= b < |chains| ==> now[b] == Kept(chains[b], lo, hi + 1)
  {
    forall b | 0 <= b < |chains|
      ensures now[b] == Kept(chains[b], lo, hi + 1)
    {
      assert UnlinkedFrom(was[b], now[b], hi) && OwnRows(home, t.keys, was[b], b, lo, hi);
      if hi !in was[b] {
        KeptUntouched(chains[b], lo, hi);
      } else {
        var k :| 0 <= k < |was[b]| && was[b][k] == hi && now[b] == Dropped(was[b], k);
        UnlinkIsKept(chains[b], k, lo, hi);
      }
    }
  }

  // ---------- Moving ----------

  /** The row number while the first `done` rows at src have been relinked to dst. */
  function Moved(row: nat, src: nat, dst: nat, done: nat): nat {
    if src <= row < src + done then row - src + dst else row
  }

  /** Midway through the relink pass of _dsim_hash_key_move_n: every cell, still at its
      old row, already names the new place of each row relinked so far. */
  ghost predicate LinkedMoved(head: nat, next: seq<Uint32>, c: Chain, src: nat, dst: nat, done: nat) {
    && head == Moved(At(c, 0), src, dst, done)
    && (forall k :: 0 <= k < |c| ==> c[k] < |next|)
    && forall k {:trigger next[c[k]]} :: 0 <= k < |c| ==> next[c[k]] == Moved(At(c, k + 1), src, dst, done)
  }

  ghost predicate HalfMoved(t: Cells, chains: seq<Chain>, src: nat, dst: nat, done: nat) {
    && |chains| == |t.heads|
    && forall b :: 0 <= b < |chains| ==> LinkedMoved(t.heads[b], t.next, chains[b], src, dst, done)
  }

  /** Where a surviving row goes: the inverse of Origin. */
  function Destination(size: nat, pos: nat, n: nat, row: nat): nat
    requires pos + n <= size
  {
    if size - pos - n < n then (if row >= pos + n then row - n else row)
    else if row >= size - n then row - (size - n) + pos else row
  }

  lemma DestinationInvertsOrigin(size: nat, pos: nat, n: nat)
    requires pos + n <= size
    ensures forall row :: 0 <= row < size - n ==> Destination(size, pos, n, Origin(size, pos, n, row)) == row
    ensures forall row :: 0 <= row < size && !(pos <= row < pos + n) ==>
      Destination(size, pos, n, row) < size - n && Origin(size, pos, n, Destination(size, pos, n, row)) == row
  {
  }

  function Relocated(c: Chain, size: nat, pos: nat, n: nat): (r: Chain)
    requires pos + n <= size
    ensures |r| == |c| && forall k :: 0 <= k < |c| ==> r[k] == Destination(size, pos, n, c[k])
  {
    seq(|c|, k requires 0 <= k < |c| => Destination(size, pos, n, c[k]))
  }

  /** The chains after a removal: drop the removed rows, rename the moved ones. */
  function RemovedChains(chains: seq<Chain>, size: nat, pos: nat, n: nat): (r: seq<Chain>)
    requires pos + n <= size
    ensures |r| == |chains|
    ensures forall b :: 0 <= b < |chains| ==> r[b] == Relocated(Kept(chains[b], pos, pos + n), size, pos, n)
  {
    seq(|chains|, b requires 0 <= b < |chains| => Relocated(Kept(chains[b], pos, pos + n), size, pos, n))
  }

  /** The table after both passes, the copies and the pop. */
  function Compacted(t: Cells, pos: nat, n: nat): Cells
    requires |t.keys| == |t.next| && pos + n <= |t.keys|
  {
    Cells(CutFast(t.keys, pos, n), CutFast(t.next, pos, n), t.heads)
  }

  lemma RelocatedLinks(head: nat, next: seq<Uint32>, c: Chain, size: nat, pos: nat, n: nat)
    requires |next| == size <= INVALID && pos + n <= size
    requires LinkedMoved(head, next, c, MoveSource(size, pos, n), pos, MoveCount(size, pos, n))
    requires forall k :: 0 <= k < |c| ==> c[k] < size && !(pos <= c[k] < pos + n)
    ensures Linked(head, CutFast(next, pos, n), Relocated(c, size, pos, n))
  {
    var r := Relocated(c, size, pos, n);
    CutFastAt(next, pos, n);
    DestinationInvertsOrigin(size, pos, n);
    forall k | 0 <= k <= |c|
      ensures At(r, k) == Moved(At(c, k), MoveSource(size, pos, n), pos, MoveCount(size, pos, n))
    {
    }
    forall k | 0 <= k < |c|
      ensures r[k] < size - n && CutFast(next, pos, n)[r[k]] == next[c[k]]
    {
    }
  }

  lemma RelocatedOwn(home: Uint64 -> nat, keys: seq<Uint64>, c: Chain, b: nat, pos: nat, n: nat)
    requires pos + n <= |keys| && OwnRows(home, keys, c, b, pos, pos + n)
    ensures OwnRows(home, CutFast(keys, pos, n), Relocated(c, |keys|, pos, n), b, 0, 0)
  {
    CutFastAt(keys, pos, n);
    DestinationInvertsOrigin(|keys|, pos, n);
  }

  lemma RelocatedCovers(home: Uint64 -> nat, keys: seq<Uint64>, chains: seq<Chain>, chains': seq<Chain>, pos: nat, n: nat, r: nat)
    requires pos + n <= |keys| && r < |keys| - n && |chains'| == |chains|
    requires forall b :: 0 <= b < |chains| ==> chains'[b] == Relocated(chains[b], |keys|, pos, n)
    requires Covered(home, keys, chains, Origin(|keys|, pos, n, r))
    ensures Covered(home, CutFast(keys, pos, n), chains', r)
  {
    var o := Origin(|keys|, pos, n, r);
    CutFastAt(keys, pos, n);
    DestinationInvertsOrigin(|keys|, pos, n);
    var c := chains[home(keys[o])];
    var k :| 0 <= k < |c| && c[k] == o;
    assert Relocated(c, |keys|, pos, n)[k] == r;
  }

  /** Once every moved row is relinked, copying the moved rows' keys and cells over
      the hole and popping the tail gives a well-formed table again. */
  lemma FinishMove(home: Uint64 -> nat, t0: Cells, t: Cells, chains: seq<Chain>, chains': seq<Chain>, pos: nat, n: nat)
    requires Threads(home, t0, chains, pos, pos + n)
    requires t.keys == t0.keys && |t.next| == |t0.next| && pos + n <= |t.keys|
    requires HalfMoved(t, chains, MoveSource(|t.keys|, pos, n), pos, MoveCount(|t.keys|, pos, n))
    requires |chains'| == |chains|
    requires forall b :: 0 <= b < |chains| ==> chains'[b] == Relocated(chains[b], |t.keys|, pos, n)
    ensures Threads(home, Compacted(t, pos, n), chains', 0, 0)
  {
    var t' := Compacted(t, pos, n);
    var size := |t.keys|;
    forall b | 0 <= b < |chains'|
      ensures Linked(t'.heads[b], t'.next, chains'[b]) && OwnRows(home, t'.keys, chains'[b], b, 0, 0)
    {
      assert OwnRows(home, t.keys, chains[b], b, pos, pos + n);
      assert LinkedMoved(t.heads[b], t.next, chains[b], MoveSource(size, pos, n), pos, MoveCount(size, pos, n));
      RelocatedLinks(t.heads[b], t.next, chains[b], size, pos, n);
      RelocatedOwn(home, t.keys, chains[b], b, pos, n);
    }
    forall r | 0 <= r < |t'.keys|
      ensures Covered(home, t'.keys, chains', r)
    {
      RelocatedCovers(home, t.keys, chains, chains', pos, n, r);
    }
  }

  // ---------- Order ----------

  lemma {:induction false} KeptTailFalls(c: Chain, lo: nat, hi: nat, src: nat, n: nat)
    requires TailFalls(c, src, n)
    ensures TailFalls(Kept(c, lo, hi), src, n)
  {
    if c != [] {
      var rest := c[1..];
      assert TailFalls(rest, src, n) by {
        assert forall k :: 0 <= k < |rest| ==> rest[k] == c[k + 1];
      }
      KeptTailFalls(rest, lo, hi, src, n);
      KeptMembers(rest, lo, hi);
      var r := Kept(rest, lo, hi);
      forall k | 0 <= k < |r| && src <= c[0] < src + n && src <= r[k] < src + n
        ensures c[0] > r[k]
      {
        assert r[k] in r;
        var j :| 0 <= j < |rest| && rest[j] == r[k];
        assert c[j + 1] == r[k];
      }
    }
  }

  lemma SuffixFalls(a: Chain, r: Chain, src: nat, n: nat)
    requires TailFalls(a + r, src, n)
    ensures TailFalls(r, src, n)
  {
    assert forall k :: 0 <= k < |r| ==> r[k] == (a + r)[|a| + k];
  }

  lemma ConsFalls(head: nat, rest: Chain, src: nat, n: nat)
    requires TailFalls(rest, src, n)
    requires src <= head < src + n ==> forall k :: 0 <= k < |rest| && src <= rest[k] < src + n ==> head > rest[k]
    ensures TailFalls([head] + rest, src, n)
  {
    var c := [head] + rest;
    assert forall k :: 0 < k < |c| ==> c[k] == rest[k - 1];
  }

  lemma {:induction false} KeptTailFallsBack(c: Chain, lo: nat, hi: nat, src: nat, n: nat)
    requires TailFalls(Kept(c, lo, hi), src, n) && hi <= src
    ensures TailFalls(c, src, n)
  {
    if c != [] {
      hide TailFalls;
      KeptStep(c, lo, hi);
      hide Kept;
      var rest, r, d := c[1..], Kept(c[1..], lo, hi), Kept(c, lo, hi);
      SuffixFalls(if lo <= c[0] < hi then [] else [c[0]], r, src, n);
      KeptTailFallsBack(rest, lo, hi, src, n);
      KeptMembers(rest, lo, hi);
      if src <= c[0] < src + n {
        HeadAbove(c[0], rest, r, d, src, n);
      }
      ConsFalls(c[0], rest, src, n);
      assert c == [c[0]] + rest;
    } else {
      assert Kept(c, lo, hi) == c;
    }
  }

  lemma HeadAbove(head: nat, rest: Chain, r: Chain, d: Chain, src: nat, n: nat)
    requires d == [head] + r && TailFalls(d, src, n) && src <= head < src + n
    requires forall x :: x in rest && src <= x < src + n ==> x in r
    ensures forall k :: 0 <= k < |rest| && src <= rest[k] < src + n ==> head > rest[k]
  {
    forall k | 0 <= k < |rest| && src <= rest[k] < src + n
      ensures head > rest[k]
    {
      assert rest[k] in r;
      var i :| 0 <= i < |r| && r[i] == rest[k];
      assert d[0] == head && d[1 + i] == rest[k];
    }
  }

  /** The order of the moved rows is the same question before and after the unlinking. */
  lemma KeptTailOrderedIff(chains: seq<Chain>, kept: seq<Chain>, lo: nat, hi: nat, src: nat, n: nat)
    requires |kept| == |chains| && hi <= src
    requires forall b :: 0 <= b < |chains| ==> kept[b] == Kept(chains[b], lo, hi)
    ensures TailOrdered(kept, src, n) <==> TailOrdered(chains, src, n)
  {
    if TailOrdered(chains, src, n) {
      KeptTailOrdered(chains, kept, lo, hi, src, n);
    }
    if TailOrdered(kept, src, n) {
      forall b | 0 <= b < |chains|
        ensures TailFalls(chains[b], src, n)
      {
        assert TailFalls(kept[b], src, n);
        KeptTailFallsBack(chains[b], lo, hi, src, n);
      }
    }
  }

  /** Dropping the removed rows never spoils the order of the moved ones. */
  lemma KeptTailOrdered(chains: seq<Chain>, kept: seq<Chain>, lo: nat, hi: nat, src: nat, n: nat)
    requires TailOrdered(chains, src, n) && |kept| == |chains|
    requires forall b :: 0 <= b < |chains| ==> kept[b] == Kept(chains[b], lo, hi)
    ensures TailOrdered(kept, src, n)
  {
    forall b | 0 <= b < |kept|
      ensures TailFalls(kept[b], src, n)
    {
      KeptTailFalls(chains[b], lo, hi, src, n);
    }
  }

  /** The compacting branch keeps chains descending, so any removal may follow it. */
  lemma CompactionKeepsDescending(chains: seq<Chain>, size: nat, pos: nat, n: nat)
    requires Descending(chains) && pos + n <= size <= INVALID && size - pos - n < n
    requires forall b, k :: 0 <= b < |chains| && 0 <= k < |chains[b]| ==> chains[b][k] < size
    ensures Descending(RemovedChains(chains, size, pos, n))
  {
    forall b | 0 <= b < |chains|
      ensures TailFalls(RemovedChains(chains, size, pos, n)[b], 0, INVALID)
    {
      var kept := Kept(chains[b], pos, pos + n);
      KeptTailFalls(chains[b], pos, pos + n, 0, INVALID);
      KeptMembers(chains[b], pos, pos + n);
      forall k | 0 <= k < |kept|
        ensures kept[k] < size && !(pos <= kept[k] < pos + n)
      {
        assert kept[k] in kept;
      }
    }
  }

  /** Chains as push and rehash build them allow the removal of any run. */
  lemma DescendingIsTailOrdered(chains: seq<Chain>, src: nat, n: nat)
    requires Descending(chains) && src + n <= INVALID
    ensures TailOrdered(chains, src, n)
  {
    forall b | 0 <= b < |chains|
      ensures TailFalls(chains[b], src, n)
    {
      assert TailFalls(chains[b], 0, INVALID);
    }
  }

  /** One moved row is always in order. */
  lemma SingleIsTailOrdered(home: Uint64 -> nat, keys: seq<Uint64>, chains: seq<Chain>, src: nat, n: nat, lo: nat, hi: nat)
    requires Partitions(home, keys, chains, lo, hi) && n <= 1
    ensures TailOrdered(chains, src, n)
  {
    forall b | 0 <= b < |chains|
      ensures TailFalls(chains[b], src, n)
    {
      assert OwnRows(home, keys, chains[b], b, lo, hi);
    }
  }

  /** A table is determined by its keys and chains. */
  lemma ChainsDetermineCells(home: Uint64 -> nat, t: Cells, u: Cells, chains: seq<Chain>)
    requires Threads(home, t, chains, 0, 0) && Threads(home, u, chains, 0, 0) && t.keys == u.keys
    ensures t == u
  {
    forall b | 0 <= b < |chains|
      ensures t.heads[b] == u.heads[b]
    {
      assert Linked(t.heads[b], t.next, chains[b]);
      assert Linked(u.heads[b], u.next, chains[b]);
    }
    forall r | 0 <= r < |t.keys|
      ensures t.next[r] == u.next[r]
    {
      assert Covered(home, t.keys, chains, r);
      var b := home(t.keys[r]);
      assert Linked(t.heads[b], t.next, chains[b]);
      assert Linked(u.heads[b], u.next, chains[b]);
      var k :| 0 <= k < |chains[b]| && chains[b][k] == r;
      assert t.next[chains[b][k]] == At(chains[b], k + 1);
    }
    assert t.heads == u.heads && t.next == u.next;
  }

  /** A row above all rows of its chain goes in front of it. */
  lemma InsertKeepsDescending(home: Uint64 -> nat, t: Cells, chains: seq<Chain>, row: nat, b: nat)
    requires Threads(home, t, chains, row, |t.keys|) && b < |chains| && Descending(chains)
    ensures Descending(chains[b := [row] + chains[b]])
  {
    var chains' := chains[b := [row] + chains[b]];
    forall d | 0 <= d < |chains|
      ensures TailFalls(chains'[d], 0, INVALID)
    {
      assert TailFalls(chains[d], 0, INVALID);
      assert OwnRows(home, t.keys, chains[d], d, row, |t.keys|);
      if d == b {
        assert forall k :: 0 < k < |chains'[d]| ==> chains'[d][k] == chains[d][k - 1];
      }
    }
  }

  /** With every head at the end marker no row is threaded. */
  lemma EmptyThreads(home: Uint64 -> nat, t: Cells, chains: seq<Chain>)
    requires |t.keys| == |t.next| <= INVALID && |chains| == |t.heads|
    requires forall b :: 0 <= b < |t.heads| ==> t.heads[b] == INVALID
    requires forall b :: 0 <= b < |chains| ==> chains[b] == []
    ensures Threads(home, t, chains, 0, |t.keys|) && Descending(chains)
  {
  }

  /** New rows at the end are threaded nowhere yet. */
  lemma AppendThreads(home: Uint64 -> nat, t: Cells, u: Cells, chains: seq<Chain>)
    requires Threads(home, t, chains, 0, 0)
    requires t.keys <= u.keys && t.next <= u.next && u.heads == t.heads && |u.keys| == |u.next| <= INVALID
    ensures Threads(home, u, chains, |t.keys|, |u.keys|)
  {
    forall b | 0 <= b < |chains|
      ensures OwnRows(home, u.keys, chains[b], b, |t.keys|, |u.keys|) && Linked(u.heads[b], u.next, chains[b])
    {
      assert OwnRows(home, t.keys, chains[b], b, 0, 0);
      assert Linked(t.heads[b], t.next, chains[b]);
    }
    forall r | 0 <= r < |u.keys| && !(|t.keys| <= r < |u.keys|)
      ensures Covered(home, u.keys, chains, r)
    {
      assert Covered(home, t.keys, chains, r);
    }
  }

  // ---------- Looking up ----------

  /** The rows of c holding `key`, in chain order, from position k on. */
  function Matches(keys: seq<Uint64>, c: Chain, key: Uint64, k: nat): Chain
    requires forall j :: 0 <= j < |c| ==> c[j] < |keys|
    decreases |c| - k
  {
    if k >= |c| then []
    else (if keys[c[k]] == key then [c[k]] else []) + Matches(keys, c, key, k + 1)
  }

  lemma {:induction false} MatchesAreFromChain(keys: seq<Uint64>, c: Chain, key: Uint64, k: nat)
    requires forall j :: 0 <= j < |c| ==> c[j] < |keys|
    requires k <= |c|
    ensures forall r :: r in Matches(keys, c, key, k) <==> r in c[k..] && keys[r] == key
    ensures Distinct(c) ==> Distinct(Matches(keys, c, key, k))
    decreases |c| - k
  {
    if k < |c| {
      MatchesAreFromChain(keys, c, key, k + 1);
      assert c[k..] == [c[k]] + c[k + 1..];
    }
  }

  /** The position k finds the first of the remaining matches. */
  function FirstMatch(keys: seq<Uint64>, c: Chain, key: Uint64, k: nat): nat
    requires forall j :: 0 <= j < |c| ==> c[j] < |keys|
  {
    At(Matches(keys, c, key, k), 0)
  }

  lemma {:induction false} DistinctCount(c: Chain, rows: set<nat>)
    requires Distinct(c) && forall r :: r in rows <==> r in c
    ensures |c| == |rows|
  {
    if c == [] {
      assert rows == {};
    } else {
      var rest := c[1..];
      assert c == [c[0]] + rest;
      DistinctTail(c);
      DistinctCount(rest, rows - {c[0]});
    }
  }

  lemma DistinctTail(c: Chain)
    requires c != [] && Distinct(c)
    ensures Distinct(c[1..]) && c[0] !in c[1..]
  {
    assert forall k :: 0 <= k < |c[1..]| ==> c[1..][k] == c[k + 1];
  }

  /** A key's rows all lie on its own chain, each once: following its matches visits
      exactly the rows holding it, as many as the linear scan counts. */
  lemma MatchesAreAllRows(home: Uint64 -> nat, t: Cells, chains: seq<Chain>, key: Uint64)
    requires Threads(home, t, chains, 0, 0) && home(key) < |chains|
    requires forall j :: 0 <= j < |chains[home(key)]| ==> chains[home(key)][j] < |t.keys|
    ensures var m := Matches(t.keys, chains[home(key)], key, 0);
      && Distinct(m)
      && (forall r: nat :: r in m <==> r < |t.keys| && t.keys[r] == key)
      && |m| == Occurrences(t.keys, key)
  {
    var b := home(key);
    var m := Matches(t.keys, chains[b], key, 0);
    assert OwnRows(home, t.keys, chains[b], b, 0, 0);
    MatchesAreFromChain(t.keys, chains[b], key, 0);
    assert chains[b][0..] == chains[b];
    forall r: nat | r < |t.keys| && t.keys[r] == key
      ensures r in m
    {
      assert Covered(home, t.keys, chains, r);
    }
    var rows := set r: nat | r < |t.keys| && t.keys[r] == key;
    DistinctCount(m, rows);
    OccurrencesCountRows(t.keys, key, rows);
  }

  /** While a chain falls, its first match is its highest. */
  lemma {:induction false} MatchesDescend(keys: seq<Uint64>, c: Chain, key: Uint64, k: nat)
    requires (forall j :: 0 <= j < |c| ==> c[j] < |keys|) && |keys| <= INVALID
    requires TailFalls(c, 0, INVALID)
    ensures var m := Matches(keys, c, key, k); forall j :: 0 <= j < |m| ==> m[j] <= m[0]
    decreases |c| - k
  {
    if k < |c| {
      MatchesDescend(keys, c, key, k + 1);
      MatchesAreFromChain(keys, c, key, k + 1);
      var rest := Matches(keys, c, key, k + 1);
      forall j | 0 <= j < |rest|
        ensures rest[j] < c[k]
      {
        LaterMatchIsLower(keys, c, key, k, j);
      }
      if keys[c[k]] == key {
        assert Matches(keys, c, key, k) == [c[k]] + rest;
      }
    }
  }

  lemma LaterMatchIsLower(keys: seq<Uint64>, c: Chain, key: Uint64, k: nat, j: nat)
    requires (forall i :: 0 <= i < |c| ==> c[i] < |keys|) && |keys| <= INVALID
    requires TailFalls(c, 0, INVALID) && k < |c| && j < |Matches(keys, c, key, k + 1)|
    ensures Matches(keys, c, key, k + 1)[j] < c[k]
  {
    var rest := Matches(keys, c, key, k + 1);
    MatchesAreFromChain(keys, c, key, k + 1);
    assert rest[j] in rest;
    var i :| 0 <= i < |c[k + 1..]| && c[k + 1..][i] == rest[j];
    assert c[k + 1 + i] == rest[j];
  }

  /** What the first match of a chain says about the whole table. */
  lemma FirstMatchDecides(home: Uint64 -> nat, t: Cells, chains: seq<Chain>, key: Uint64)
    requires Threads(home, t, chains, 0, 0) && home(key) < |chains|
    requires forall j :: 0 <= j < |chains[home(key)]| ==> chains[home(key)][j] < |t.keys|
    ensures var pos := FirstMatch(t.keys, chains[home(key)], key, 0);
      && (pos == INVALID <==> key !in t.keys)
      && (pos != INVALID ==> pos < |t.keys| && t.keys[pos] == key)
      && (pos != INVALID && Descending(chains) ==> forall r :: pos < r < |t.keys| ==> t.keys[r] != key)
  {
    var c := chains[home(key)];
    var m := Matches(t.keys, c, key, 0);
    MatchesAreAllRows(home, t, chains, key);
    if m != [] {
      assert m[0] in m;
    }
    forall r | 0 <= r < |t.keys| && t.keys[r] == key
      ensures m != [] && (Descending(chains) ==> r <= m[0])
    {
      assert r in m;
      if Descending(chains) {
        assert TailFalls(c, 0, INVALID);
        MatchesDescend(t.keys, c, key, 0);
      }
    }
  }

  /** The position on the chain of the first remaining match. */
  lemma {:induction false} SkipToMatch(keys: seq<Uint64>, c: Chain, key: Uint64, k: nat) returns (at: nat)
    requires forall j :: 0 <= j < |c| ==> c[j] < |keys|
    requires |keys| <= INVALID && FirstMatch(keys, c, key, k) != INVALID
    ensures k <= at < |c| && c[at] == FirstMatch(keys, c, key, k) && keys[c[at]] == key
    ensures Matches(keys, c, key, k) == [c[at]] + Matches(keys, c, key, at + 1)
    decreases |c| - k
  {
    if keys[c[k]] == key {
      at := k;
    } else {
      at := SkipToMatch(keys, c, key, k + 1);
    }
  }

  lemma NoMatchLeft(keys: seq<Uint64>, c: Chain, key: Uint64, k: nat)
    requires (forall j :: 0 <= j < |c| ==> c[j] < |keys|) && |keys| <= INVALID && k <= |c|
    requires FirstMatch(keys, c, key, k) == INVALID
    ensures Matches(keys, c, key, k) == []
  {
    var m := Matches(keys, c, key, k);
    MatchesAreFromChain(keys, c, key, k);
    assert forall j :: 0 <= j < |m| ==> m[j] in m;
  }
}
