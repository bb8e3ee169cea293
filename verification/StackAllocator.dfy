/** The bump allocator of src/core/stack_allocator.c. Addresses are offsets into the
    arena; which blocks the callers hold is ghost, the code itself knows only the last. */
module StackAllocators {
  import opened Common

  type Byte = x: int | 0 <= x < 0x100

  /** `live` gives the size of every block that callers hold. */
  datatype Arena = Arena(bytes: seq<Byte>, used: nat, last: Option<nat>, lastSize: nat, live: map<nat, nat>)

  datatype Op =
    | Allocate(size: nat)
    | Reallocate(data: Option<nat>, size: nat)
    | Deallocate(data: Option<nat>)
    | Reset
    | Store(block: nat, i: nat, value: Byte)   // a caller writes into a block it holds

  // ---------- The operations ----------

  /** The guard of stack_allocate, in 64-bit arithmetic. */
  predicate Fits(a: Arena, size: nat) {
    !((a.used + size) % WORD64 > |a.bytes|)
  }

  /** The guard of the in-place branch of stack_reallocate, in 64-bit arithmetic. */
  predicate FitsResized(a: Arena, size: nat) {
    !((a.used + size - a.lastSize) % WORD64 > |a.bytes|)
  }

  function Allocated(a: Arena, size: nat): (r: (Arena, Option<nat>)) {
    if !Fits(a, size) then (a, None)
    else (a.(used := (a.used + size) % WORD64, last := Some(a.used), lastSize := size,
             live := a.live[a.used := size]), Some(a.used))
  }

  /** `size` bytes copied from src to dst as if through a buffer. */
  function Moved(bytes: seq<Byte>, dst: nat, src: nat, size: nat): (r: seq<Byte>)
    ensures |r| == |bytes|
  {
    if dst + size <= |bytes| && src + size <= |bytes|
    then bytes[..dst] + bytes[src..src + size] + bytes[dst + size..] else bytes
  }

  function Reallocated(a: Arena, data: Option<nat>, size: nat): (r: (Arena, Option<nat>)) {
    if data == None then Allocated(a, size)
    else if data == a.last then
      if !FitsResized(a, size) then (a, None)
      else (a.(used := (a.used + size - a.lastSize) % WORD64, lastSize := size,
               live := a.live[data.value := size]), data)
    else
      var (b, moved) := Allocated(a, size);
      if moved.None? then (b, None)
      else (b.(bytes := Moved(b.bytes, moved.value, data.value, size), live := b.live - {data.value}), moved)
  }

  function Deallocated(a: Arena, data: Option<nat>): Arena {
    if data == None then a
    else if data == a.last then
      a.(used := if a.lastSize <= a.used then a.used - a.lastSize else 0,
         last := None, lastSize := 0, live := a.live - {data.value})
    else a.(live := a.live - {data.value})
  }

  function Step(a: Arena, op: Op): Arena {
    match op
    case Allocate(size) => Allocated(a, size).0
    case Reallocate(data, size) => Reallocated(a, data, size).0
    case Deallocate(data) => Deallocated(a, data)
    case Reset => a.(used := 0, last := None, lastSize := 0, live := map[])
    case Store(p, i, v) => if p + i < |a.bytes| then a.(bytes := a.bytes[p + i := v]) else a
  }

  // ---------- What holds in every reachable state ----------

  ghost predicate Inv(a: Arena) {
    && a.used <= |a.bytes| < WORD64
    && (forall p :: p in a.live ==> Inside(a, p))
    && (forall p, q {:trigger Below(a, p, q)} :: p in a.live && q in a.live && p < q ==> Below(a, p, q))
    && (a.last.Some? ==> LastEnds(a, a.last.value))
  }

  predicate Inside(a: Arena, p: nat)
    requires p in a.live
  {
    a.live[p] > 0 && p + a.live[p] <= a.used
  }

  /** The block at p ends before the block at q. */
  predicate Below(a: Arena, p: nat, q: nat)
    requires p in a.live
  {
    p + a.live[p] <= q
  }

  /** The last block is live and ends where the free space begins. */
  ghost predicate LastEnds(a: Arena, p: nat) {
    p in a.live && a.live[p] == a.lastSize && p + a.lastSize == a.used
  }

  ghost predicate Initial(a: Arena) {
    |a.bytes| < WORD64 && a.used == 0 && a.last == None && a.lastSize == 0 && a.live == map[]
  }

  /** A request whose end wraps past 2^64 and comes down inside the arena. */
  predicate WrapsInto(a: Arena, end: nat) {
    end >= WORD64 && end - WORD64 <= |a.bytes|
  }

  /** What the callers owe: sizes that are not zero and do not wrap into the arena,
      pointers to blocks they hold, stores inside them. */
  predicate Enabled(a: Arena, op: Op) {
    match op
    case Allocate(size) => 0 < size < WORD64 && !WrapsInto(a, a.used + size)
    case Reallocate(data, size) =>
      && 0 < size < WORD64
      && (data.Some? ==> data.value in a.live)
      && !WrapsInto(a, (if data.Some? && data == a.last then data.value else a.used) + size)
    case Deallocate(data) => data.Some? ==> data.value in a.live
    case Reset => true
    case Store(p, i, _) => p in a.live && i < a.live[p]
  }

  /** The guard decides rightly exactly when the request does not wrap into the arena. */
  lemma GuardIsRight(a: Arena, size: nat)
    requires Inv(a) && size < WORD64
    ensures (Fits(a, size) <==> a.used + size <= |a.bytes|) <==> !WrapsInto(a, a.used + size)
    ensures a.last.Some? ==>
      ((FitsResized(a, size) <==> a.last.value + size <= |a.bytes|) <==> !WrapsInto(a, a.last.value + size))
  {
    WrapOnce(a.used + size);
    if a.last.Some? {
      WrapOnce(a.last.value + size);
    }
  }

  lemma WrapOnce(x: nat)
    requires x < 2 * WORD64
    ensures x % WORD64 == if x < WORD64 then x else x - WORD64
  {
  }

  /** What the callers see: every block they hold, with its bytes. */
  ghost function View(a: Arena): map<nat, seq<Byte>>
    requires Inv(a)
  {
    map p | p in a.live :: a.bytes[p..p + a.live[p]]
  }

  lemma StepKeepsInv(a: Arena, op: Op)
    requires Inv(a) && Enabled(a, op)
    ensures Inv(Step(a, op)) && |Step(a, op).bytes| == |a.bytes|
  {
    match op
    case Allocate(size) => AllocateKeepsInv(a, size);
    case Reallocate(data, size) => ReallocateKeepsInv(a, data, size);
    case Deallocate(data) => DeallocateKeepsInv(a, data);
    case Reset =>
    case Store(p, i, v) => StoreKeepsInv(a, p, i, v);
  }

  lemma DeallocateKeepsInv(a: Arena, data: Option<nat>)
    requires Inv(a) && Enabled(a, Deallocate(data))
    ensures Inv(Deallocated(a, data)) && Deallocated(a, data).bytes == a.bytes
    ensures data.Some? ==> Deallocated(a, data).live == a.live - {data.value}
  {
    if data.Some? && data == a.last {
      LastIsHighest(a, data.value);
      DropLastKeepsInv(a, data.value);
    } else if data.Some? {
      DropKeepsInv(a, data.value, a.bytes);
    }
  }

  lemma StoreKeepsInv(a: Arena, p: nat, i: nat, v: Byte)
    requires Inv(a) && Enabled(a, Op.Store(p, i, v))
    ensures Inv(Step(a, Op.Store(p, i, v)))
  {
    SameLayout(a, Step(a, Op.Store(p, i, v)));
  }

  /** Everything but the bytes decides. */
  lemma SameLayout(a: Arena, u: Arena)
    requires Inv(a) && u == a.(bytes := u.bytes) && |u.bytes| == |a.bytes|
    ensures Inv(u)
  {
    forall q, r | q in u.live && r in u.live && q < r
      ensures Below(u, q, r)
    {
      assert Below(a, q, r);
    }
  }

  lemma LastIsHighest(a: Arena, p: nat)
    requires Inv(a) && a.last == Some(p)
    ensures forall q :: q in a.live && q != p ==> q + a.live[q] <= p
  {
    forall q | q in a.live && q != p
      ensures q + a.live[q] <= p
    {
      assert p < q ==> Below(a, p, q);
      assert q < p ==> Below(a, q, p);
    }
  }

  lemma DropLastKeepsInv(a: Arena, p: nat)
    requires Inv(a) && a.last == Some(p)
    requires forall q :: q in a.live && q != p ==> q + a.live[q] <= p
    ensures Inv(a.(used := p, last := None, lastSize := 0, live := a.live - {p}))
  {
    var u := a.(used := p, last := None, lastSize := 0, live := a.live - {p});
    forall q, r | q in u.live && r in u.live && q < r
      ensures Below(u, q, r)
    {
      assert Below(a, q, r);
    }
  }

  lemma AllocateKeepsInv(a: Arena, size: nat)
    requires Inv(a) && Enabled(a, Allocate(size))
    ensures var (u, data) := Allocated(a, size);
      && Inv(u) && u.bytes == a.bytes && a.used !in a.live
      && (data.Some? <==> a.used + size <= |a.bytes|)
      && (data.None? ==> u == a)
      && (data.Some? ==> data.value == a.used && u.live == a.live[data.value := size])
  {
    GuardIsRight(a, size);
    WrapOnce(a.used + size);
    var u := Allocated(a, size).0;
    forall q, r | q in u.live && r in u.live && q < r
      ensures Below(u, q, r)
    {
      if r in a.live && q in a.live {
        assert Below(a, q, r);
      }
    }
  }

  lemma ReallocateKeepsInv(a: Arena, data: Option<nat>, size: nat)
    requires Inv(a) && Enabled(a, Reallocate(data, size))
    ensures var u := Reallocated(a, data, size).0; Inv(u) && |u.bytes| == |a.bytes|
  {
    if data.None? {
      AllocateKeepsInv(a, size);
    } else if data == a.last {
      ResizeKeepsInv(a, data.value, size);
    } else {
      MoveKeepsInv(a, data.value, size);
    }
  }

  lemma ResizeKeepsInv(a: Arena, p: nat, size: nat)
    requires Inv(a) && Enabled(a, Reallocate(Some(p), size)) && a.last == Some(p)
    ensures var (u, data) := Reallocated(a, Some(p), size);
      && Inv(u) && u.bytes == a.bytes
      && (data.Some? <==> p + size <= |a.bytes|)
      && (if data.None? then u == a else data.value == p && u.live == a.live[p := size])
  {
    GuardIsRight(a, size);
    WrapOnce(p + size);
    LastIsHighest(a, p);
    var u := Reallocated(a, Some(p), size).0;
    forall q, r | q in u.live && r in u.live && q < r
      ensures Below(u, q, r)
    {
      assert q != p;
      if r != p {
        assert Below(a, q, r);
      }
    }
  }

  lemma MoveKeepsInv(a: Arena, p: nat, size: nat)
    requires Inv(a) && Enabled(a, Reallocate(Some(p), size)) && a.last != Some(p)
    ensures var (u, data) := Reallocated(a, Some(p), size);
      && Inv(u) && |u.bytes| == |a.bytes|
      && (data.Some? <==> a.used + size <= |a.bytes|)
      && (if data.None? then u == a
          else data.value == a.used && u.live == a.live[a.used := size] - {p} && u.bytes == Moved(a.bytes, a.used, p, size))
  {
    AllocateKeepsInv(a, size);
    var b := Allocated(a, size).0;
    hide Moved;
    hide Allocated;
    if a.used + size <= |a.bytes| {
      AllocatedLast(a, size);
      DropKeepsInv(b, p, Moved(b.bytes, a.used, p, size));
    }
  }

  lemma AllocatedLast(a: Arena, size: nat)
    requires Inv(a) && Enabled(a, Allocate(size)) && a.used + size <= |a.bytes|
    ensures Allocated(a, size).0.last == Some(a.used)
  {
    GuardIsRight(a, size);
  }

  /** Any block but the last may go, and the bytes do not matter. */
  lemma DropKeepsInv(a: Arena, p: nat, bytes: seq<Byte>)
    requires Inv(a) && p in a.live && a.last != Some(p) && |bytes| == |a.bytes|
    ensures Inv(a.(bytes := bytes, live := a.live - {p}))
  {
    var u := a.(bytes := bytes, live := a.live - {p});
    forall q | q in u.live
      ensures Inside(u, q)
    {
      assert Inside(a, q);
    }
    forall q, r | q in u.live && r in u.live && q < r
      ensures Below(u, q, r)
    {
      assert Below(a, q, r);
    }
  }

  // ---------- What the operations mean to the callers ----------

  lemma AllocateMeans(a: Arena, size: nat)
    requires Inv(a) && Enabled(a, Allocate(size))
    ensures var (u, data) := Allocated(a, size);
      && Inv(u) && (data.Some? <==> a.used + size <= |a.bytes|)
      && (data.None? ==> u == a)
      && (data.Some? ==>
           && data.value == a.used && u.last == data && u.used == a.used + size
           && data.value !in View(a) && data.value + size <= |u.bytes|
           && View(u) == View(a)[data.value := u.bytes[data.value..data.value + size]])
  {
    AllocateKeepsInv(a, size);
    WrapOnce(a.used + size);
  }

  /** Without a block to resize a new one is taken, as by stack_allocate. A resized block
      keeps its first bytes, wherever it ends up; it becomes the last block. All other blocks
      keep everything; a refused request changes nothing. */
  lemma ReallocateMeans(a: Arena, data: Option<nat>, size: nat)
    requires Inv(a) && Enabled(a, Reallocate(data, size))
    ensures var (u, p) := Reallocated(a, data, size);
      && Inv(u) && (p.None? ==> u == a)
      && (p.Some? <==> (if data.Some? && a.last == data then data.value else a.used) + size <= |a.bytes|)
      && (p.Some? ==>
           && p.value in View(u) && |View(u)[p.value]| == size && u.last == p && u.used == p.value + size
           && (if data.Some? && a.last == data then p == data else p.value !in View(a))
           && View(u) == (if data.Some? then View(a) - {data.value} else View(a))[p.value := View(u)[p.value]]
           && (data.Some? ==> var kept := Min(a.live[data.value], size); View(u)[p.value][..kept] == View(a)[data.value][..kept])
           && (if data.Some? && a.last != data
               then data.value + size <= |a.bytes| && View(u)[p.value] == a.bytes[data.value..data.value + size] else u.bytes == a.bytes))
  {
    if data.None? {
      AllocateMeans(a, size);
      AllocateKeepsInv(a, size);
    } else if a.last == data {
      ResizeMeans(a, data.value, size);
      ResizeKeepsInv(a, data.value, size);
    } else {
      MoveMeans(a, data.value, size);
      AllocateKeepsInv(a, size);
      if a.used + size <= |a.bytes| {
        MoveView(a, data.value, size);
      }
    }
    if Reallocated(a, data, size).1.Some? {
      MarksTheLast(a, data, size);
    }
  }

  lemma MarksTheLast(a: Arena, data: Option<nat>, size: nat)
    requires Inv(a) && Enabled(a, Reallocate(data, size)) && Reallocated(a, data, size).1.Some?
    ensures var (u, p) := Reallocated(a, data, size); u.last == p && u.used == p.value + size
  {
    WrapOnce(a.used + size);
    if data.Some? && a.last == data {
      WrapOnce(data.value + size);
    }
  }

  lemma ResizeMeans(a: Arena, p: nat, size: nat)
    requires Inv(a) && Enabled(a, Reallocate(Some(p), size)) && a.last == Some(p)
    ensures var (u, data) := Reallocated(a, Some(p), size);
      && Inv(u) && (data.None? ==> u == a)
      && (data.Some? <==> p + size <= |a.bytes|)
      && (data.Some? ==>
           && data.value == p && p in View(u) && |View(u)[p]| == size
           && View(u) == View(a)[p := View(u)[p]]
           && var kept := Min(a.live[p], size); View(u)[p][..kept] == View(a)[p][..kept])
  {
    ResizeKeepsInv(a, p, size);
    hide Reallocated;
    var (u, data) := Reallocated(a, Some(p), size);
    assert a.live[p] == a.lastSize;
    forall q | q in a.live
      ensures q + a.live[q] <= |a.bytes|
    {
      assert Inside(a, q);
    }
  }

  lemma MoveMeans(a: Arena, p: nat, size: nat)
    requires Inv(a) && Enabled(a, Reallocate(Some(p), size)) && a.last != Some(p)
    ensures var (u, data) := Reallocated(a, Some(p), size);
      && Inv(u) && (data.None? ==> u == a)
      && (data.Some? <==> a.used + size <= |a.bytes|)
      && (data.Some? ==>
           && data.value == a.used && data.value in View(u) && |View(u)[data.value]| == size
           && View(u) == (View(a) - {p})[data.value := View(u)[data.value]]
           && var kept := Min(a.live[p], size); View(u)[data.value][..kept] == View(a)[p][..kept])
  {
    MoveKeepsInv(a, p, size);
    hide Reallocated, Moved;
    assert Inside(a, p) && View(a)[p] == a.bytes[p..p + a.live[p]];
    if a.used + size <= |a.bytes| {
      MoveView(a, p, size);
      hide View, Inv;
      SamePrefix(a.bytes, p, size, a.live[p], Min(a.live[p], size));
    }
  }

  lemma SamePrefix(b: seq<Byte>, p: nat, m: nat, n: nat, kept: nat)
    requires p + m <= |b| && p + n <= |b| && kept <= m && kept <= n
    ensures b[p..p + m][..kept] == b[p..p + n][..kept]
  {
  }

  lemma MoveView(a: Arena, p: nat, size: nat)
    requires Inv(a) && Enabled(a, Reallocate(Some(p), size)) && a.last != Some(p)
    requires a.used + size <= |a.bytes|
    ensures var u := Reallocated(a, Some(p), size).0;
      Inv(u) && p + size <= |a.bytes| && View(u) == (View(a) - {p})[a.used := a.bytes[p..p + size]]
  {
    MoveKeepsInv(a, p, size);
    hide Reallocated, Moved;
    var u := Reallocated(a, Some(p), size).0;
    assert Inside(a, p);
    MoveKeepsBytes(a, p, size);
    forall q | q in a.live
      ensures q + a.live[q] <= a.used && u.bytes[q..q + a.live[q]] == a.bytes[q..q + a.live[q]]
    {
      assert Inside(a, q);
      SameBelow(u.bytes, a.bytes, a.used, q, a.live[q]);
    }
    ViewAfterMove(a, u, p, size);
  }

  lemma ViewAfterMove(a: Arena, u: Arena, p: nat, size: nat)
    requires Inv(a) && Inv(u) && a.used !in a.live && p in a.live && |u.bytes| == |a.bytes|
    requires a.used + size <= |a.bytes| && p + size <= |a.bytes|
    requires u.live == a.live[a.used := size] - {p}
    requires u.bytes[a.used..a.used + size] == a.bytes[p..p + size]
    requires forall q :: q in a.live ==> q + a.live[q] <= |a.bytes| && u.bytes[q..q + a.live[q]] == a.bytes[q..q + a.live[q]]
    ensures View(u) == (View(a) - {p})[a.used := a.bytes[p..p + size]]
  {
    hide Inv;
    var m := (View(a) - {p})[a.used := a.bytes[p..p + size]];
    assert View(u).Keys == m.Keys;
    forall q | q in u.live
      ensures View(u)[q] == m[q]
    {
      if q == a.used {
        assert u.live[q] == size;
      } else {
        assert q in a.live && q != p && u.live[q] == a.live[q];
        assert m[q] == a.bytes[q..q + a.live[q]];
      }
    }
  }

  lemma SameBelow(b: seq<Byte>, c: seq<Byte>, n: nat, q: nat, size: nat)
    requires n <= |b| == |c| && b[..n] == c[..n] && q + size <= n
    ensures b[q..q + size] == c[q..q + size]
  {
    assert b[q..q + size] == b[..n][q..q + size];
    assert c[q..q + size] == c[..n][q..q + size];
  }

  lemma MoveKeepsBytes(a: Arena, p: nat, size: nat)
    requires Inv(a) && p in a.live && a.used + size <= |a.bytes|
    ensures var m := Moved(a.bytes, a.used, p, size);
      && m[..a.used] == a.bytes[..a.used]
      && m[a.used..a.used + size] == a.bytes[p..p + size]
  {
  }

  /** The block goes and all others stay; its space comes back exactly for the last block,
      after which no block counts as the last. Nothing passed, nothing happens. */
  lemma DeallocateMeans(a: Arena, data: Option<nat>)
    requires Inv(a) && Enabled(a, Deallocate(data))
    ensures var u := Deallocated(a, data);
      && Inv(u) && View(u) == (if data.Some? then View(a) - {data.value} else View(a))
      && (if data.Some? && a.last == data then u.used == data.value && u.last == None else u.used == a.used && u.last == a.last)
  {
    DeallocateKeepsInv(a, data);
  }

  /** The whole arena is free again. */
  lemma ResetMeans(a: Arena, size: nat)
    requires Inv(a) && size <= |a.bytes|
    ensures var u := Step(a, Reset);
      && Initial(u) && u.bytes == a.bytes && View(u) == map[]
      && Allocated(u, size).1 == Some(0)
  {
    WrapOnce(size);
  }

  function Written(block: seq<Byte>, i: nat, v: Byte): seq<Byte>
    requires i < |block|
  {
    block[i := v]
  }

  /** A store reaches no other block. */
  lemma StoreMeans(a: Arena, p: nat, i: nat, v: Byte)
    requires Inv(a) && Enabled(a, Store(p, i, v))
    ensures Inv(Step(a, Store(p, i, v)))
    ensures View(Step(a, Store(p, i, v))) == View(a)[p := Written(View(a)[p], i, v)]
  {
    StoreKeepsInv(a, p, i, v);
    var u := Step(a, Op.Store(p, i, v));
    forall q | q in a.live
      ensures View(u)[q] == if q == p then Written(View(a)[p], i, v) else View(a)[q]
    {
      if q < p {
        assert Below(a, q, p);
      } else if p < q {
        assert Below(a, p, q);
      }
    }
  }

  /** Giving back a block just taken leaves the arena as it was, except that no block
      counts as the last one any more. */
  lemma DeallocateUndoesAllocate(a: Arena, size: nat)
    requires Inv(a) && Enabled(a, Allocate(size)) && a.used + size <= |a.bytes|
    ensures var (u, data) := Allocated(a, size); Deallocated(u, data) == a.(last := None, lastSize := 0)
  {
    AllocateKeepsInv(a, size);
    var (u, data) := Allocated(a, size);
    WrapOnce(a.used + size);
    assert u.live - {a.used} == a.live;
  }

  /** Why sizes must not be zero: an empty block and the block taken next have the same
      address, which is all that stack_reallocate and stack_deallocate go by. */
  lemma EmptyBlockSharesAddress(a: Arena, size: nat)
    requires Inv(a) && a.used + size <= |a.bytes|
    ensures var (u, p) := Allocated(a, 0); p.Some? && Allocated(u, size).1 == p
  {
    WrapOnce(a.used);
    WrapOnce(a.used + size);
  }

  // ---------- Every run ----------

  ghost predicate AllEnabled(a: Arena, ops: seq<Op>)
    decreases |ops|
  {
    ops == [] || (Enabled(a, ops[0]) && AllEnabled(Step(a, ops[0]), ops[1..]))
  }

  ghost function Run(a: Arena, ops: seq<Op>): Arena
    decreases |ops|
  {
    if ops == [] then a else Run(Step(a, ops[0]), ops[1..])
  }

  lemma {:induction false} RunKeepsInv(a: Arena, ops: seq<Op>)
    requires Inv(a) && AllEnabled(a, ops)
    ensures Inv(Run(a, ops)) && |Run(a, ops).bytes| == |a.bytes|
    decreases |ops|
  {
    if ops != [] {
      StepKeepsInv(a, ops[0]);
      RunKeepsInv(Step(a, ops[0]), ops[1..]);
    }
  }

  /** In every reachable state the blocks held are inside the used part of the arena and
      share no byte, and the last block ends exactly where the free space begins. */
  lemma SafeOverEveryRun(a: Arena, ops: seq<Op>, p: nat, q: nat)
    requires Initial(a) && AllEnabled(a, ops)
    requires p in Run(a, ops).live && q in Run(a, ops).live
    ensures var u := Run(a, ops);
      && 0 < u.live[p] && p + u.live[p] <= u.used <= |a.bytes|
      && (p != q ==> p + u.live[p] <= q || q + u.live[q] <= p)
      && (u.last == Some(p) ==> p + u.live[p] == u.used)
  {
    RunKeepsInv(a, ops);
    var u := Run(a, ops);
    if p < q {
      assert Below(u, p, q);
    } else if q < p {
      assert Below(u, q, p);
    }
  }

  /** The operations that concern the block p. */
  predicate Names(op: Op, p: nat) {
    match op
    case Allocate(_) => false
    case Reallocate(data, _) => data == Some(p)
    case Deallocate(data) => data == Some(p)
    case Reset => true
    case Store(q, _, _) => q == p
  }

  lemma OthersKeepBlock(a: Arena, op: Op, p: nat)
    requires Inv(a) && Enabled(a, op) && p in a.live && !Names(op, p)
    ensures Inv(Step(a, op)) && p in View(Step(a, op)) && View(Step(a, op))[p] == View(a)[p]
  {
    StepKeepsInv(a, op);
    match op
    case Allocate(size) => AllocateMeans(a, size);
    case Reallocate(data, size) =>
      ReallocateMeans(a, data, size);
    case Deallocate(data) =>
      DeallocateMeans(a, data);
    case Store(q, i, v) => StoreMeans(a, q, i, v);
    case Reset =>
  }

  /** However the others allocate, resize, free and write, a block that nobody names keeps
      its address, its size and every byte. */
  lemma {:induction false} UnnamedBlockIsUntouched(a: Arena, ops: seq<Op>, p: nat)
    requires Inv(a) && AllEnabled(a, ops) && p in a.live
    requires forall k :: 0 <= k < |ops| ==> !Names(ops[k], p)
    ensures Inv(Run(a, ops)) && p in View(Run(a, ops)) && View(Run(a, ops))[p] == View(a)[p]
    decreases |ops|
  {
    if ops != [] {
      hide Step, Inv, Enabled, View;
      OthersKeepBlock(a, ops[0], p);
      ViewIsLive(a);
      ViewIsLive(Step(a, ops[0]));
      UnnamedBlockIsUntouched(Step(a, ops[0]), ops[1..], p);
    }
    ViewIsLive(a);
  }

  lemma ViewIsLive(a: Arena)
    requires Inv(a)
    ensures View(a).Keys == a.live.Keys
  {
  }

  lemma LastSpot(a: Arena, p: nat)
    requires Inv(a) && a.last == Some(p)
    ensures a.used == p + a.lastSize <= |a.bytes| < WORD64
  {
  }

  lemma BlocksAreBelow(a: Arena, p: nat)
    requires Inv(a) && p in a.live
    ensures p < a.used
  {
    assert Inside(a, p);
  }

  // ---------- The allocator ----------

  class StackAllocator {
    const data: array<Byte>
    const capacity: nat
    var used: nat
    var lastData: Option<nat>
    var lastSize: nat
    ghost var live: map<nat, nat>

    ghost function State(): Arena
      reads this, data
    {
      Arena(data[..], used, lastData, lastSize, live)
    }

    ghost predicate Valid()
      reads this, data
    {
      capacity == data.Length && Inv(State())
    }

    constructor (data: array<Byte>)
      requires data.Length < WORD64
      ensures Valid() && Initial(State()) && this.data == data
    {
      this.data := data;
      capacity := data.Length;
      used, lastData, lastSize := 0, None, 0;
      live := map[];
    }

    method Allocate(size: nat) returns (p: Option<nat>)
      requires Valid() && Enabled(State(), Op.Allocate(size))
      modifies this
      ensures Valid() && (State(), p) == Allocated(old(State()), size)
      ensures p.Some? <==> old(used) + size <= capacity
      ensures if p.Some?
        then p.value == old(used) && used == old(used) + size && lastData == p && lastSize == size && live == old(live)[old(used) := size]
        else used == old(used) && lastData == old(lastData) && lastSize == old(lastSize) && live == old(live)
    {
      AllocateKeepsInv(State(), size);
      if (used + size) % WORD64 > capacity {
        return None;
      }
      p := Some(used);
      live := live[used := size];
      used := (used + size) % WORD64;
      lastData := p;
      lastSize := size;
    }

    method Reallocate(block: Option<nat>, size: nat) returns (p: Option<nat>)
      requires Valid() && Enabled(State(), Op.Reallocate(block, size))
      modifies this, data
      ensures Valid() && (State(), p) == Reallocated(old(State()), block, size)
      ensures var at := if block.Some? && block == old(lastData) then block.value else old(used);
        && (p.Some? <==> at + size <= capacity)
        && (p.Some? ==> p.value == at && used == at + size && lastData == p && lastSize == size)
      ensures p.None? ==> used == old(used) && lastData == old(lastData) && lastSize == old(lastSize) && data[..] == old(data[..])
    {
      hide Inv, Moved;
      ReallocateKeepsInv(State(), block, size);
      if block == None {
        p := Allocate(size);
        return;
      }
      if block == lastData {
        LastSpot(State(), block.value);
        WrapOnce(block.value + size);
        assert used + size - lastSize == block.value + size;
        if (used + size - lastSize) % WORD64 > capacity {
          return None;
        }
        used := (used + size - lastSize) % WORD64;
        lastSize := size;
        live := live[block.value := size];
        return block;
      }
      ghost var s := State();
      AllocateKeepsInv(s, size);
      p := Allocate(size);
      if p.Some? {
        BlocksAreBelow(s, block.value);
        MoveBlock(p.value, block.value, size);
        live := live - {block.value};
      }
    }

    /** memmove inside the arena: it reads `size` bytes from the old address, also those
        behind the old block, and none outside the arena. */
    method MoveBlock(dst: nat, src: nat, size: nat)
      requires src <= dst && dst + size <= data.Length
      modifies data
      ensures data[..] == Moved(old(data[..]), dst, src, size)
    {
      forall i | 0 <= i < size {
        data[dst + i] := data[src + i];
      }
    }

    method Deallocate(block: Option<nat>)
      requires Valid() && Enabled(State(), Op.Deallocate(block))
      modifies this
      ensures Valid() && State() == Deallocated(old(State()), block)
      ensures live == if block.Some? then old(live) - {block.value} else old(live)
      ensures if block.Some? && block == old(lastData)
        then used == block.value && lastData == None && lastSize == 0
        else used == old(used) && lastData == old(lastData) && lastSize == old(lastSize)
    {
      StepKeepsInv(State(), Op.Deallocate(block));
      if block == None {
        return;
      }
      live := live - {block.value};
      if block == lastData {
        used := used - lastSize;
        lastData := None;
        lastSize := 0;
      }
    }

    method Reset()
      requires Valid()
      modifies this
      ensures Valid() && State() == Step(old(State()), Op.Reset) && Initial(State())
    {
      used, lastData, lastSize := 0, None, 0;
      live := map[];
    }
  }
}
