/** Sorting and searching vectors in place: the macros of
    src/storage/flatbuffers_common_reader.h. A vector holds scalars, or offsets relative
    to the cell they stand in; what a cell refers to is its target. */
module Vectors {
  import opened Common

  /** The comparison of what two targets stand for: negative, zero or positive. */
  type Order = (nat, nat) -> int

  ghost predicate Preorder(cmp: Order) {
    && (forall x: nat, y: nat :: cmp(x, y) < 0 <==> cmp(y, x) > 0)
    && (forall x: nat, y: nat, z: nat :: cmp(x, y) <= 0 && cmp(y, z) <= 0 ==> cmp(x, z) <= 0)
  }

  ghost predicate Sorted(cmp: Order, r: seq<nat>) {
    forall i, j :: 0 <= i < j < |r| ==> cmp(r[i], r[j]) <= 0
  }

  function Swapped(r: seq<nat>, a: nat, b: nat): (s: seq<nat>)
    requires a < |r| && b < |r|
    ensures |s| == |r|
  {
    r[a := r[b]][b := r[a]]
  }

  lemma SwapPermutes(r: seq<nat>, a: nat, b: nat)
    requires a < |r| && b < |r|
    ensures multiset(Swapped(r, a, b)) == multiset(r)
  {
  }

  // ---------- Self-relative offsets ----------

  /** The target of a cell: the value itself, or for offsets the address it points to,
      counted in bytes from the first cell. */
  function Target(offsets: bool, i: nat, cell: nat): nat {
    if offsets then 4 * i + cell else cell
  }

  /** The new value of the cell at `a` when it takes over what the cell at `b` refers to:
      `read(b) - (uoffset)((a - b) * 4)`, in 32-bit arithmetic. */
  function Rebased(cell: Uint32, a: nat, b: nat): Uint32 {
    (cell - (4 * (a - b)) % WORD32) % WORD32
  }

  /** The offset stays right exactly when the target is not in front of the cell it moves
      to and not 2^32 or more behind it. */
  lemma RebasedIff(cell: Uint32, a: nat, b: nat)
    ensures Target(true, a, Rebased(cell, a, b)) == Target(true, b, cell)
      <==> 0 <= Target(true, b, cell) - 4 * a < WORD32
  {
    var d := 4 * (a - b);
    SubtractWrapped(cell, d);
    assert cell - d == Target(true, b, cell) - 4 * a;
    FitsIff(cell - d);
  }

  lemma SubtractWrapped(cell: int, d: int)
    ensures (cell - d % WORD32) % WORD32 == (cell - d) % WORD32
  {
    var q := d / WORD32;
    assert cell - d % WORD32 == cell - d + WORD32 * q;
    AddMultiple(cell - d, q);
  }

  lemma AddMultiple(x: int, q: int)
    ensures (x + WORD32 * q) % WORD32 == x % WORD32
  {
  }

  lemma FitsIff(x: int)
    ensures x % WORD32 == x <==> 0 <= x < WORD32
  {
  }

  // ---------- The heap ----------

  /** Node j is not above its parent j/2; node 0 is the parent of node 1 alone. */
  ghost predicate Dominated(cmp: Order, r: seq<nat>, j: nat)
    requires j < |r|
  {
    cmp(r[j], r[j / 2]) <= 0
  }

  /** Below the nodes from `lo` on, up to node `end`, every node but the children of `hole`
      is dominated. */
  ghost predicate HeapBut(cmp: Order, r: seq<nat>, lo: nat, end: nat, hole: nat)
    requires end < |r|
  {
    forall j {:trigger Dominated(cmp, r, j)} :: 1 <= j <= end && lo <= j / 2 && j / 2 != hole ==> Dominated(cmp, r, j)
  }

  ghost predicate Heap(cmp: Order, r: seq<nat>, lo: nat, end: nat)
    requires end < |r|
  {
    forall j {:trigger Dominated(cmp, r, j)} :: 1 <= j <= end && lo <= j / 2 ==> Dominated(cmp, r, j)
  }

  /** The children of the hole are not above the hole's parent. */
  ghost predicate Bridged(cmp: Order, r: seq<nat>, lo: nat, end: nat, hole: nat)
    requires end < |r| && hole <= end
  {
    hole >= 1 && lo <= hole / 2 ==>
      && (2 * hole <= end ==> cmp(r[2 * hole], r[hole / 2]) <= 0)
      && (2 * hole + 1 <= end ==> cmp(r[2 * hole + 1], r[hole / 2]) <= 0)
  }

  /** `child` is the child of `root` that the loop picks. */
  ghost predicate Picks(cmp: Order, r: seq<nat>, root: nat, end: nat, child: nat)
    requires end < |r| && 2 * root <= end
  {
    if 2 * root < end && cmp(r[2 * root], r[2 * root + 1]) < 0 then child == 2 * root + 1 else child == 2 * root
  }

  /** One turn of the sift loop moves the hole to the picked child. */
  lemma SiftStep(cmp: Order, r: seq<nat>, lo: nat, end: nat, root: nat, child: nat)
    requires Preorder(cmp) && end < |r| && lo <= root && 2 * root <= end
    requires HeapBut(cmp, r, lo, end, root) && Bridged(cmp, r, lo, end, root)
    requires Picks(cmp, r, root, end, child) && cmp(r[root], r[child]) < 0
    ensures root < child <= end
    ensures HeapBut(cmp, Swapped(r, root, child), lo, end, child)
    ensures Bridged(cmp, Swapped(r, root, child), lo, end, child)
  {
    NotAboveItself(cmp, r[root]);
    hide Preorder, HeapBut, Swapped;
    var s := Swapped(r, root, child);
    forall j | 1 <= j <= end && lo <= j / 2 && j / 2 != child
      ensures Dominated(cmp, s, j)
    {
      SiftNode(cmp, r, lo, end, root, child, j);
    }
    NewHole(cmp, s, lo, end, child);
    SiftBridge(cmp, r, lo, end, root, child);
  }

  lemma NotAboveItself(cmp: Order, x: nat)
    requires Preorder(cmp)
    ensures cmp(x, x) == 0
  {
  }

  lemma NewHole(cmp: Order, s: seq<nat>, lo: nat, end: nat, hole: nat)
    requires end < |s|
    requires forall j {:trigger Dominated(cmp, s, j)} :: 1 <= j <= end && lo <= j / 2 && j / 2 != hole ==> Dominated(cmp, s, j)
    ensures HeapBut(cmp, s, lo, end, hole)
  {
  }

  lemma SiftBridge(cmp: Order, r: seq<nat>, lo: nat, end: nat, root: nat, child: nat)
    requires end < |r| && lo <= root < child <= end
    requires HeapBut(cmp, r, lo, end, root) && (child == 2 * root || child == 2 * root + 1)
    ensures Bridged(cmp, Swapped(r, root, child), lo, end, child)
  {
    var s := Swapped(r, root, child);
    if 2 * child <= end {
      assert Dominated(cmp, r, 2 * child);
      assert s[2 * child] == r[2 * child] && s[child / 2] == r[child];
    }
    if 2 * child + 1 <= end {
      assert Dominated(cmp, r, 2 * child + 1);
      assert s[2 * child + 1] == r[2 * child + 1] && s[child / 2] == r[child];
    }
  }

  lemma SiftNode(cmp: Order, r: seq<nat>, lo: nat, end: nat, root: nat, child: nat, j: nat)
    requires Preorder(cmp) && end < |r| && lo <= root && 2 * root <= end && root < child
    requires HeapBut(cmp, r, lo, end, root) && Bridged(cmp, r, lo, end, root)
    requires Picks(cmp, r, root, end, child) && cmp(r[root], r[child]) < 0
    requires 1 <= j <= end && lo <= j / 2 && j / 2 != child
    ensures Dominated(cmp, Swapped(r, root, child), j)
  {
    hide Preorder;
    var s := Swapped(r, root, child);
    if j == root {
      assert s[j] == r[child] && s[j / 2] == r[j / 2];
    } else if j / 2 == root {
      assert s[j / 2] == r[child];
      assert j == 2 * root || j == 2 * root + 1;
      NotAboveItself(cmp, r[child]);
      PickedIsHigher(cmp, r, root, end, child, j);
      Below(cmp, r[root], r[child]);
    } else {
      assert Dominated(cmp, r, j);
    }
  }

  lemma Below(cmp: Order, x: nat, y: nat)
    requires Preorder(cmp)
    ensures cmp(x, y) <= 0 <==> cmp(y, x) >= 0
  {
  }

  lemma Transitive(cmp: Order, x: nat, y: nat, z: nat)
    requires Preorder(cmp) && cmp(x, y) <= 0 && cmp(y, z) <= 0
    ensures cmp(x, z) <= 0
  {
  }

  /** The picked child is not below its sibling; node 0 has itself for a sibling. */
  lemma PickedIsHigher(cmp: Order, r: seq<nat>, root: nat, end: nat, child: nat, j: nat)
    requires Preorder(cmp) && end < |r| && 2 * root <= end && Picks(cmp, r, root, end, child)
    requires j <= end && (j == 2 * root || j == 2 * root + 1)
    ensures child <= end && cmp(r[j], r[child]) <= 0
  {
    hide Preorder;
    NotAboveItself(cmp, r[child]);
    if 2 * root < end {
      Below(cmp, r[2 * root], r[2 * root + 1]);
      Below(cmp, r[2 * root + 1], r[2 * root]);
    }
  }

  /** When the picked child is not above the hole, or the hole has no child, the heap is whole. */
  lemma SiftEnds(cmp: Order, r: seq<nat>, lo: nat, end: nat, root: nat, child: nat)
    requires Preorder(cmp) && end < |r| && lo <= root
    requires HeapBut(cmp, r, lo, end, root)
    requires 2 * root > end || (Picks(cmp, r, root, end, child) && cmp(r[root], r[child]) >= 0)
    ensures Heap(cmp, r, lo, end)
  {
    hide Preorder;
    forall j | 1 <= j <= end && lo <= j / 2
      ensures Dominated(cmp, r, j)
    {
      if j / 2 == root {
        assert j == 2 * root || j == 2 * root + 1;
        PickedIsHigher(cmp, r, root, end, child, j);
        Below(cmp, r[child], r[root]);
        Transitive(cmp, r[j], r[child], r[root]);
      }
    }
  }

  /** The root of a heap is a maximum. */
  lemma {:induction false} RootIsMax(cmp: Order, r: seq<nat>, end: nat, j: nat)
    requires Preorder(cmp) && end < |r| && Heap(cmp, r, 0, end) && j <= end
    ensures cmp(r[j], r[0]) <= 0
  {
    hide Preorder;
    if j > 0 {
      RootIsMax(cmp, r, end, j / 2);
      assert Dominated(cmp, r, j);
      Transitive(cmp, r[j], r[j / 2], r[0]);
    } else {
      NotAboveItself(cmp, r[0]);
    }
  }

  // ---------- Sorted tails ----------

  /** Nothing up to `end` is above anything behind it. */
  ghost predicate Split(cmp: Order, r: seq<nat>, end: nat)
    requires end < |r|
  {
    forall i, j :: 0 <= i <= end < j < |r| ==> cmp(r[i], r[j]) <= 0
  }

  lemma SwapInPrefix(r: seq<nat>, a: nat, b: nat, n: nat)
    requires a < n && b < n && n <= |r|
    ensures multiset(Swapped(r, a, b)[..n]) == multiset(r[..n]) && Swapped(r, a, b)[n..] == r[n..]
  {
    assert Swapped(r, a, b)[..n] == Swapped(r[..n], a, b);
    SwapPermutes(r[..n], a, b);
  }

  /** Reordering the front keeps it below the tail. */
  lemma SplitKept(cmp: Order, r: seq<nat>, s: seq<nat>, end: nat)
    requires end < |r| == |s| && Split(cmp, r, end)
    requires multiset(s[..end + 1]) == multiset(r[..end + 1]) && s[end + 1..] == r[end + 1..]
    ensures Split(cmp, s, end)
  {
    forall i, j | 0 <= i <= end < j < |s|
      ensures cmp(s[i], s[j]) <= 0
    {
      assert s[..end + 1][i] in multiset(s[..end + 1]);
      assert s[i] in r[..end + 1];
      var k :| 0 <= k <= end && r[k] == s[i];
      assert s[end + 1..][j - (end + 1)] == s[j] && r[end + 1..][j - (end + 1)] == r[j];
    }
  }

  /** Taking the root to the end of the heap makes the sorted tail one longer. */
  lemma TailGrows(cmp: Order, r: seq<nat>, end: nat)
    requires Preorder(cmp) && 0 < end < |r| && Heap(cmp, r, 0, end)
    requires Split(cmp, r, end) && Sorted(cmp, r[end + 1..])
    ensures var s := Swapped(r, 0, end);
      Heap(cmp, s, 1, end - 1) && Split(cmp, s, end - 1) && Sorted(cmp, s[end..])
  {
    hide Preorder;
    var s := Swapped(r, 0, end);
    forall j | 1 <= j <= end - 1 && 1 <= j / 2
      ensures Dominated(cmp, s, j)
    {
      assert Dominated(cmp, r, j);
    }
    forall j | 0 <= j <= end
      ensures cmp(r[j], r[0]) <= 0
    {
      RootIsMax(cmp, r, end, j);
    }
    SplitAfterSwap(cmp, r, end);
    forall i, j | 0 <= i < j < |s[end..]|
      ensures cmp(s[end..][i], s[end..][j]) <= 0
    {
      assert s[end..][j] == r[end + j] == r[end + 1..][j - 1];
      if i > 0 {
        assert s[end..][i] == r[end + 1..][i - 1];
      } else {
        assert s[end..][0] == r[0];
      }
    }
  }

  lemma SplitAfterSwap(cmp: Order, r: seq<nat>, end: nat)
    requires 0 < end < |r| && Split(cmp, r, end) && forall j :: 0 <= j <= end ==> cmp(r[j], r[0]) <= 0
    ensures Split(cmp, Swapped(r, 0, end), end - 1)
  {
  }

  /** A heap of one node, below a sorted tail. */
  lemma AllSorted(cmp: Order, r: seq<nat>)
    requires |r| > 0 && Split(cmp, r, 0) && Sorted(cmp, r[1..])
    ensures Sorted(cmp, r)
  {
    forall i, j | 0 <= i < j < |r|
      ensures cmp(r[i], r[j]) <= 0
    {
      if i > 0 {
        assert r[1..][i - 1] == r[i] && r[1..][j - 1] == r[j];
      }
    }
  }

  lemma EmptyIsSorted(cmp: Order, r: seq<nat>)
    requires |r| <= 1
    ensures Sorted(cmp, r)
  {
  }

  lemma NothingBehind(cmp: Order, r: seq<nat>, end: nat)
    requires end + 1 == |r|
    ensures Split(cmp, r, end) && Sorted(cmp, r[end + 1..])
  {
  }

  /** The upper half of the nodes has no children. */
  lemma NoParents(cmp: Order, r: seq<nat>, lo: nat, end: nat)
    requires end < |r| && 2 * lo > end
    ensures Heap(cmp, r, lo, end)
  {
  }

  lemma WholePrefix(s: seq<nat>, r: seq<nat>, end: nat)
    requires end < |r| == |s|
    requires multiset(s[..end + 1]) == multiset(r[..end + 1]) && s[end + 1..] == r[end + 1..]
    ensures multiset(s) == multiset(r)
  {
    assert s == s[..end + 1] + s[end + 1..];
    assert r == r[..end + 1] + r[end + 1..];
  }

  /** Nothing is out of place before the first turn: the hole is the node to sift down. */
  lemma HoleAtStart(cmp: Order, r: seq<nat>, start: nat, end: nat)
    requires start <= end < |r| && Heap(cmp, r, start + 1, end)
    ensures HeapBut(cmp, r, start, end, start) && Bridged(cmp, r, start, end, start)
  {
  }

  lemma PicksChild(cmp: Order, r: seq<nat>, root: nat, end: nat, child: nat)
    requires end < |r| && 2 * root <= end
    requires child == if 2 * root < end && cmp(r[2 * root], r[2 * root + 1]) < 0 then 2 * root + 1 else 2 * root
    ensures Picks(cmp, r, root, end, child) && child <= end
  {
  }

  // ---------- Searching ----------

  /** Comparing targets with a key: first those below it, then its matches, then those above. */
  ghost predicate Ordered(sign: nat -> int, r: seq<nat>) {
    forall i, j :: 0 <= i < j < |r| ==> (sign(r[i]) >= 0 ==> sign(r[j]) >= 0) && (sign(r[i]) > 0 ==> sign(r[j]) > 0)
  }

  /** The key is compared in the order of the vector. */
  ghost predicate Agrees(cmp: Order, sign: nat -> int) {
    forall x: nat, y: nat :: cmp(x, y) <= 0 ==> (sign(x) >= 0 ==> sign(y) >= 0) && (sign(x) > 0 ==> sign(y) > 0)
  }

  lemma SortedIsOrdered(cmp: Order, sign: nat -> int, r: seq<nat>)
    requires Sorted(cmp, r) && Agrees(cmp, sign)
    ensures Ordered(sign, r)
  {
  }

  /** Comparing with something the order itself knows agrees with it. */
  lemma KeyAgrees(cmp: Order, key: nat)
    requires Preorder(cmp)
    ensures Agrees(cmp, (x: nat) => cmp(x, key))
  {
    var sign := (x: nat) => cmp(x, key);
    forall x: nat, y: nat | cmp(x, y) <= 0
      ensures (sign(x) >= 0 ==> sign(y) >= 0) && (sign(x) > 0 ==> sign(y) > 0)
    {
      hide Preorder;
      Below(cmp, x, key);
      Below(cmp, key, x);
      Below(cmp, y, key);
      Below(cmp, key, y);
      if cmp(key, x) <= 0 {
        Transitive(cmp, key, x, y);
      }
      if cmp(y, key) <= 0 {
        Transitive(cmp, x, y, key);
      }
    }
  }

  /** The answer of a search: the lowest matching index, if there is a match. */
  ghost predicate IsLowestMatch(sign: nat -> int, r: seq<nat>, at: Option<nat>) {
    match at
    case None => forall i :: 0 <= i < |r| ==> sign(r[i]) != 0
    case Some(i) => i < |r| && sign(r[i]) == 0 && forall j :: 0 <= j < i ==> sign(r[j]) != 0
  }

  ghost predicate IsHighestMatch(sign: nat -> int, r: seq<nat>, at: Option<nat>) {
    match at
    case None => forall i :: 0 <= i < |r| ==> sign(r[i]) != 0
    case Some(i) => i < |r| && sign(r[i]) == 0 && forall j :: i < j < |r| ==> sign(r[j]) != 0
  }

  /** Any two correct searches agree. */
  lemma LowestMatchIsUnique(sign: nat -> int, r: seq<nat>, a: Option<nat>, b: Option<nat>)
    requires IsLowestMatch(sign, r, a) && IsLowestMatch(sign, r, b)
    ensures a == b
  {
  }

  lemma BelowToo(sign: nat -> int, r: seq<nat>, m: nat)
    requires Ordered(sign, r) && m < |r| && sign(r[m]) < 0
    ensures forall i :: 0 <= i <= m ==> sign(r[i]) < 0
  {
  }

  lemma SameMatches(sign: nat -> int, r: seq<nat>, s: seq<nat>)
    requires multiset(r) == multiset(s)
    ensures (exists i :: 0 <= i < |r| && sign(r[i]) == 0) <==> (exists i :: 0 <= i < |s| && sign(s[i]) == 0)
  {
    if i :| 0 <= i < |r| && sign(r[i]) == 0 {
      assert r[i] in multiset(s);
      var j :| 0 <= j < |s| && s[j] == r[i];
    }
    if i :| 0 <= i < |s| && sign(s[i]) == 0 {
      assert s[i] in multiset(r);
      var j :| 0 <= j < |r| && r[j] == s[i];
    }
  }

  // ---------- The vector ----------

  class Vector {
    const cells: array<nat>
    const offsets: bool
    const cmp: Order

    constructor (cells: array<nat>, offsets: bool, cmp: Order)
      ensures this.cells == cells && this.offsets == offsets && this.cmp == cmp
    {
      this.cells := cells;
      this.offsets := offsets;
      this.cmp := cmp;
    }

    /** The element at index i: what its cell refers to. */
    function At(i: nat): nat
      reads cells
      requires i < cells.Length
    {
      Target(offsets, i, cells[i])
    }

    ghost function Targets(): (r: seq<nat>)
      reads cells
      ensures |r| == cells.Length && forall i :: 0 <= i < |r| ==> r[i] == At(i)
    {
      seq(cells.Length, i requires 0 <= i < cells.Length reads cells => At(i))
    }

    ghost predicate Valid()
      reads cells
    {
      Preorder(cmp) && InReach(cells.Length) && (offsets ==> forall i :: 0 <= i < cells.Length ==> cells[i] < WORD32)
    }

    /** Every target lies behind the vector and within 2^32 of its first cell. */
    ghost predicate InReach(n: nat)
      reads cells
    {
      offsets ==> forall i :: 0 <= i < cells.Length ==> 4 * n - 4 <= At(i) < WORD32
    }

    /** Exchanges what two cells refer to. */
    method Swap(a: nat, b: nat)
      requires Valid() && a < cells.Length && b < cells.Length
      modifies cells
      ensures Valid() && Targets() == Swapped(old(Targets()), a, b)
    {
      hide Preorder;
      var ta, tb := cells[b], cells[a];
      if offsets {
        assert At(a) == Target(true, a, cells[a]) && At(b) == Target(true, b, cells[b]);
        ta, tb := Rebase(cells[a], cells[b], a, b);
      }
      cells[a] := ta;
      cells[b] := tb;
      assert forall i | 0 <= i < cells.Length :: At(i) == Swapped(old(Targets()), a, b)[i];
    }

    method SiftDown(start: nat, end: nat)
      requires Valid() && start <= end < cells.Length && Heap(cmp, Targets(), start + 1, end)
      modifies cells
      ensures Valid() && Heap(cmp, Targets(), start, end)
      ensures multiset(Targets()[..end + 1]) == multiset(old(Targets())[..end + 1])
      ensures Targets()[end + 1..] == old(Targets())[end + 1..]
    {
      hide Preorder, HeapBut, Heap, Bridged, Picks, Valid, Swapped, Target;
      ghost var was := Targets();
      HoleAtStart(cmp, was, start, end);
      var root := start;
      while 2 * root <= end
        invariant start <= root <= end && Valid()
        invariant HeapBut(cmp, Targets(), start, end, root) && Bridged(cmp, Targets(), start, end, root)
        invariant multiset(Targets()[..end + 1]) == multiset(was[..end + 1]) && Targets()[end + 1..] == was[end + 1..]
        decreases end - root
      {
        ghost var r := Targets();
        var child := 2 * root;
        if child < end {
          var v1 := At(child);
          var v2 := At(child + 1);
          if cmp(v1, v2) < 0 {
            child := child + 1;
          }
        }
        PicksChild(cmp, r, root, end, child);
        if cmp(At(root), At(child)) < 0 {
          SiftTurn(start, end, root, child);
          Swap(root, child);
          root := child;
        } else {
          SiftStops(start, end, root, child);
          return;
        }
      }
      SiftStops(start, end, root, root);
    }

    lemma SiftTurn(start: nat, end: nat, root: nat, child: nat)
      requires Valid() && end < cells.Length && start <= root && 2 * root <= end
      requires HeapBut(cmp, Targets(), start, end, root) && Bridged(cmp, Targets(), start, end, root)
      requires Picks(cmp, Targets(), root, end, child) && cmp(At(root), At(child)) < 0
      ensures root < child <= end
      ensures var s := Swapped(Targets(), root, child);
        && HeapBut(cmp, s, start, end, child) && Bridged(cmp, s, start, end, child)
        && multiset(s[..end + 1]) == multiset(Targets()[..end + 1]) && s[end + 1..] == Targets()[end + 1..]
    {
      SiftStep(cmp, Targets(), start, end, root, child);
      SwapInPrefix(Targets(), root, child, end + 1);
    }

    lemma SiftStops(start: nat, end: nat, root: nat, child: nat)
      requires Valid() && end < cells.Length && start <= root && child <= end
      requires HeapBut(cmp, Targets(), start, end, root)
      requires 2 * root > end || (Picks(cmp, Targets(), root, end, child) && cmp(At(root), At(child)) >= 0)
      ensures Heap(cmp, Targets(), start, end)
    {
      SiftEnds(cmp, Targets(), start, end, root, child);
    }

    /** The first loop of the heap sort. */
    method Heapify()
      requires Valid() && cells.Length > 0
      modifies cells
      ensures Valid() && Heap(cmp, Targets(), 0, cells.Length - 1)
      ensures multiset(Targets()) == multiset(old(Targets()))
    {
      hide Preorder, Heap, Valid, Target;
      var size := cells.Length;
      var end: nat := size - 1;
      var start: nat := size / 2;
      NoParents(cmp, Targets(), start + 1, end);
      SiftDown(start, end);
      WholePrefix(Targets(), old(Targets()), end);
      while start > 0
        invariant start <= end && Valid() && Heap(cmp, Targets(), start, end)
        invariant multiset(Targets()) == multiset(old(Targets()))
      {
        start := start - 1;
        ghost var r := Targets();
        SiftDown(start, end);
        WholePrefix(Targets(), r, end);
      }
    }

    /** One turn of the second loop: the maximum goes behind the heap, which is mended. */
    method SortOne(end: nat)
      requires Valid() && 0 < end < cells.Length && Heap(cmp, Targets(), 0, end)
      requires Split(cmp, Targets(), end) && Sorted(cmp, Targets()[end + 1..])
      modifies cells
      ensures Valid() && Heap(cmp, Targets(), 0, end - 1)
      ensures Split(cmp, Targets(), end - 1) && Sorted(cmp, Targets()[end..])
      ensures multiset(Targets()) == multiset(old(Targets()))
    {
      hide Heap, Swapped, Target, Split, Sorted;
      ghost var r := Targets();
      TailGrows(cmp, r, end);
      SwapPermutes(r, 0, end);
      Swap(0, end);
      ghost var s := Targets();
      SiftDown(0, end - 1);
      SplitKept(cmp, s, Targets(), end - 1);
      WholePrefix(Targets(), s, end - 1);
    }

    /** The heap sort: a sorted permutation of what the vector held, empty or not. */
    method HeapSort()
      requires Valid()
      modifies cells
      ensures Valid() && Sorted(cmp, Targets()) && multiset(Targets()) == multiset(old(Targets()))
    {
      hide Preorder, Heap, Swapped, Target, Split, Valid, Sorted;
      var size := cells.Length;
      if size == 0 {
        EmptyIsSorted(cmp, Targets());
        return;
      }
      var end: nat := size - 1;
      Heapify();
      NothingBehind(cmp, Targets(), end);
      while end > 0
        invariant end < size && Valid() && Heap(cmp, Targets(), 0, end)
        invariant Split(cmp, Targets(), end) && Sorted(cmp, Targets()[end + 1..])
        invariant multiset(Targets()) == multiset(old(Targets()))
      {
        SortOne(end);
        end := end - 1;
      }
      AllSorted(cmp, Targets());
    }

    // ---------- Searching ----------

    /** __flatbuffers_find_by_field: bisection. */
    method FindByField(sign: nat -> int) returns (at: Option<nat>)
      requires Ordered(sign, Targets())
      ensures IsLowestMatch(sign, Targets(), at)
    {
      var b: nat := cells.Length;
      if b == 0 {
        return None;
      }
      var a: nat := 0;
      b := b - 1;
      while a < b
        invariant a <= b < cells.Length
        invariant forall i :: 0 <= i < a ==> sign(Targets()[i]) < 0
        invariant b + 1 < cells.Length ==> sign(Targets()[b]) >= 0
        decreases b - a
      {
        var m := a + (b - a) / 2;
        var v := At(m);
        if sign(v) < 0 {
          BelowToo(sign, Targets(), m);
          a := m + 1;
        } else {
          b := m;
        }
      }
      if a == b {
        var v := At(a);
        if sign(v) == 0 {
          return Some(a);
        }
      }
      return None;
    }

    /** __flatbuffers_scan_by_field over [b, e), here the whole vector. */
    method ScanByField(sign: nat -> int) returns (at: Option<nat>)
      ensures IsLowestMatch(sign, Targets(), at)
    {
      for i := 0 to cells.Length
        invariant forall j :: 0 <= j < i ==> sign(Targets()[j]) != 0
      {
        var v := At(i);
        if sign(v) == 0 {
          return Some(i);
        }
      }
      return None;
    }

    /** __flatbuffers_rscan_by_field over the whole vector. */
    method RscanByField(sign: nat -> int) returns (at: Option<nat>)
      ensures IsHighestMatch(sign, Targets(), at)
    {
      var i := cells.Length;
      while i > 0
        invariant 0 <= i <= cells.Length
        invariant forall j :: i <= j < cells.Length ==> sign(Targets()[j]) != 0
      {
        i := i - 1;
        var v := At(i);
        if sign(v) == 0 {
          return Some(i);
        }
      }
      return None;
    }

    /** Sorting, then bisecting, decides whether the vector held a match to begin with. */
    method SortThenFind(sign: nat -> int) returns (at: Option<nat>)
      requires Valid() && Agrees(cmp, sign)
      modifies cells
      ensures Valid() && multiset(Targets()) == multiset(old(Targets()))
      ensures at.Some? <==> exists i :: 0 <= i < cells.Length && sign(old(Targets())[i]) == 0
    {
      hide Preorder, Agrees, Valid, Target;
      ghost var r := Targets();
      HeapSort();
      SortedIsOrdered(cmp, sign, Targets());
      at := FindByField(sign);
      SameMatches(sign, r, Targets());
    }

    /** The same for a key that the order itself compares. */
    method SortThenFindKey(key: nat) returns (at: Option<nat>)
      requires Valid()
      modifies cells
      ensures Valid() && multiset(Targets()) == multiset(old(Targets()))
      ensures at.Some? <==> exists i :: 0 <= i < cells.Length && cmp(old(Targets())[i], key) == 0
    {
      hide Preorder, Valid, Target, Agrees;
      ghost var r := Targets();
      IsPreorder();
      KeyAgrees(cmp, key);
      at := SortThenFind((x: nat) => cmp(x, key));
      assert forall i :: 0 <= i < |r| ==> ((x: nat) => cmp(x, key))(r[i]) == cmp(r[i], key);
    }

    lemma IsPreorder()
      requires Valid()
      ensures Preorder(cmp)
    {
    }
  }

  /** The arithmetic of __flatbuffers_string_swap. */
  method Rebase(ca: Uint32, cb: Uint32, a: nat, b: nat) returns (ta: Uint32, tb: Uint32)
    requires 0 <= Target(true, b, cb) - 4 * a < WORD32
    requires 0 <= Target(true, a, ca) - 4 * b < WORD32
    ensures Target(true, a, ta) == Target(true, b, cb) && Target(true, b, tb) == Target(true, a, ca)
  {
    RebasedIff(cb, a, b);
    RebasedIff(ca, b, a);
    OppositeDistance(ca, 4 * (a - b));
    assert -(4 * (a - b)) == 4 * (b - a);
    var d: Uint32 := (4 * (a - b)) % WORD32;
    ta := (cb - d) % WORD32;
    tb := (ca + d) % WORD32;
  }

  lemma OppositeDistance(cell: int, d: int)
    ensures (cell + d % WORD32) % WORD32 == (cell - (-d) % WORD32) % WORD32
  {
    SubtractWrapped(cell, -d);
    var q := d / WORD32;
    assert cell + d % WORD32 == cell + d + WORD32 * (-q);
    AddMultiple(cell + d, -q);
  }
}
