/** The growable array of src/core/array.c and src/core/array.h, and the row
    rearrangements that the hash and the columns share. */
module DynArrays {
  import opened Common

  // ---------- Row rearrangements ----------

  /** Rows [pos, pos+n) cut out, later rows moved down. */
  function Cut<T>(s: seq<T>, pos: nat, n: nat): (r: seq<T>)
    requires pos + n <= |s|
    ensures |r| == |s| - n
  {
    s[..pos] + s[pos + n..]
  }

  /** Where the row that ends up at `row` comes from when `n` rows at `pos` are
      removed from `size`: the hole is filled by compaction when fewer than `n`
      rows follow it, and by the last `n` rows otherwise. */
  function Origin(size: nat, pos: nat, n: nat, row: nat): (r: nat)
    requires pos + n <= size && row < size - n
    ensures r < size && !(pos <= r < pos + n)
  {
    if row < pos then row
    else if size - pos - n < n then row + n
    else if row < pos + n then size - n + row - pos
    else row
  }

  /** The first row that moves, and how many do. */
  function MoveSource(size: nat, pos: nat, n: nat): (src: nat)
    requires pos + n <= size
    ensures pos + n <= src <= size
  {
    if size - pos - n < n then pos + n else size - n
  }

  function MoveCount(size: nat, pos: nat, n: nat): (count: nat)
    requires pos + n <= size
    ensures count <= n && MoveSource(size, pos, n) + count <= size
  {
    Min(n, size - MoveSource(size, pos, n))
  }

  /** The contents after dsim_array_remove_fast. */
  function CutFast<T>(s: seq<T>, pos: nat, n: nat): (r: seq<T>)
    requires pos + n <= |s|
    ensures |r| == |s| - n
  {
    if |s| - pos - n < n then Cut(s, pos, n)
    else s[..pos] + s[|s| - n..] + s[pos + n..|s| - n]
  }

  lemma CutFastAt<T>(s: seq<T>, pos: nat, n: nat)
    requires pos + n <= |s|
    ensures forall row :: 0 <= row < |s| - n ==> CutFast(s, pos, n)[row] == s[Origin(|s|, pos, n, row)]
  {
  }

  /** Row by row: with fewer than n rows behind the hole those move down, in order; otherwise
      the last n rows fill it, in order; and no other row moves. */
  lemma CutFastRows<T>(s: seq<T>, pos: nat, n: nat, row: nat)
    requires pos + n <= |s| && row < |s| - n
    ensures CutFast(s, pos, n)[row] ==
      if row < pos then s[row]
      else if |s| < pos + n + n then s[row + n]
      else if row < pos + n then s[|s| - n + (row - pos)]
      else s[row]
  {
    CutFastAt(s, pos, n);
  }

  /** Rows [dst, dst+n) replaced by as many values of a caller's buffer. */
  function Overwritten<T>(s: seq<T>, src: seq<T>, srcOffset: nat, dst: nat, n: nat): (r: seq<T>)
    requires srcOffset + n <= |src| && dst + n <= |s|
    ensures |r| == |s|
  {
    s[..dst] + src[srcOffset..srcOffset + n] + s[dst + n..]
  }

  /** Removal only drops the rows named: the survivors are the same, as a multiset. */
  lemma CutFastKeepsSurvivors<T>(s: seq<T>, pos: nat, n: nat)
    requires pos + n <= |s|
    ensures multiset(CutFast(s, pos, n)) + multiset(s[pos..pos + n]) == multiset(s)
  {
    var a, hole, rest := s[..pos], s[pos..pos + n], s[pos + n..];
    assert s == a + hole + rest;
    if |rest| >= n {
      var mid, tail := rest[..|rest| - n], rest[|rest| - n..];
      assert rest == mid + tail;
      assert CutFast(s, pos, n) == a + tail + mid;
    }
  }

  /** The capacity that dsim_array_grow asks for. */
  function GrownCapacity(total: nat, elemSize: nat): nat
    requires elemSize >= 1 && total * elemSize < WORD64
  {
    NextPow2(total * elemSize) / elemSize
  }

  // ---------- The array ----------

  class DynArray<T(0)> {
    var data: array<T>
    var count: nat
    var capacity: nat
    const elemSize: nat

    /** The block really has `capacity` slots. */
    ghost predicate Valid()
      reads this
    {
      Holds() && count <= capacity == data.Length
    }

    /** The block has at least the `count` slots in use, whatever `capacity` says. */
    ghost predicate Holds()
      reads this
    {
      count <= data.Length && elemSize >= 1
    }

    /** The block holds every element and has no more slots than `capacity` says. */
    ghost predicate Sound()
      reads this
    {
      Holds() && data.Length <= capacity
    }

    /** `total` elements fit the slots there are, or make the array reallocate. */
    ghost predicate RoomFor(total: nat)
      reads this
    {
      total > capacity || total <= data.Length
    }

    ghost function Contents(): (s: seq<T>)
      reads this, data
      requires Holds()
    {
      data[..count]
    }

    constructor (elemSize: nat)
      requires elemSize >= 1
      ensures Valid() && fresh(data) && this.elemSize == elemSize
      ensures count == 0 && capacity == 0
    {
      this.elemSize := elemSize;
      data := new T[0];
      count, capacity := 0, 0;
    }

    /** The reallocation keeps the whole old block, not only the first `count` elements. */
    method Reserve(cap: nat)
      requires Sound() && cap * elemSize < WORD32
      modifies this
      ensures Sound() && capacity == Max(old(capacity), cap) && count == old(count)
      ensures data.Length >= old(data).Length && data[..old(data).Length] == old(data[..])
      ensures cap <= old(capacity) ==> data == old(data)
      ensures cap > old(capacity) ==> fresh(data) && Valid()
      ensures Contents() == old(Contents())
    {
      if capacity >= cap { return; }
      var block := new T[cap];
      forall i | 0 <= i < data.Length {
        block[i] := data[i];
      }
      data := block;
      capacity := cap;
    }

    /** Rounding the byte size up to a power of two always leaves room for `n` more. */
    method Grow(n: nat)
      requires Sound() && (count + n) * elemSize <= 0x8000_0000
      modifies this
      ensures Sound() && count == old(count) && Contents() == old(Contents())
      ensures GrownCapacity(count + n, elemSize) >= count + n
      ensures capacity == Max(old(capacity), GrownCapacity(count + n, elemSize))
      ensures capacity == old(capacity) ==> data == old(data)
      ensures capacity > old(capacity) ==> fresh(data) && Valid()
    {
      hide NextPow2;
      var cap: nat := count + n;
      var bytes := cap * elemSize;
      GrowMakesRoom(cap, elemSize);
      cap := NextPow2(bytes) / elemSize;
      Reserve(cap);
    }

    method Resize(n: nat)
      requires Sound() && RoomFor(n) && n * elemSize < WORD32
      modifies this
      ensures Sound() && (old(Valid()) ==> Valid()) && count == n && capacity == Max(old(capacity), n)
      ensures n <= old(capacity) ==> data == old(data)
      ensures n > old(capacity) ==> fresh(data) && data.Length == n
      ensures var kept := Min(old(count), n); Contents()[..kept] == old(Contents())[..kept]
    {
      if capacity < n {
        Reserve(n);
      }
      count := n;
    }

    /** dsim_array_push_back_n: append a caller's buffer. */
    method PushBack(src: seq<T>)
      requires Sound() && RoomFor(count + |src|) && (count + |src|) * elemSize <= 0x8000_0000
      modifies this, data
      ensures Sound() && (old(Valid()) ==> Valid())
      ensures old(count) + |src| <= old(capacity) ==> data == old(data) && capacity == old(capacity)
      ensures old(count) + |src| > old(capacity) ==>
        fresh(data) && data.Length == capacity == GrownCapacity(old(count) + |src|, elemSize)
      ensures Contents() == old(Contents()) + src
    {
      hide GrownCapacity;
      if count + |src| > capacity {
        Grow(|src|);
      }
      forall i | 0 <= i < |src| {
        data[count + i] := src[i];
      }
      count := count + |src|;
    }

    /** dsim_array_push_back: append one value, growing by 8 when full. */
    method PushOne(value: T)
      requires Valid() && (count + 8) * elemSize <= 0x8000_0000
      modifies this, data
      ensures Valid() && (data == old(data) || fresh(data))
      ensures old(count) < old(capacity) ==> data == old(data) && capacity == old(capacity)
      ensures old(count) == old(capacity) ==> capacity == GrownCapacity(old(count) + 8, elemSize) >= old(count) + 8
      ensures Contents() == old(Contents()) + [value]
    {
      hide GrownCapacity;
      if capacity == count {
        Grow(8);
      }
      data[count] := value;
      count := count + 1;
    }

    method PopBack(n: nat)
      requires Valid() && n <= count
      modifies this`count
      ensures Valid() && Contents() == old(Contents())[..old(count) - n]
    {
      count := count - n;
    }

    method Remove(pos: nat, n: nat)
      requires Holds() && pos + n <= count
      modifies this`count, data
      ensures Holds() && (old(Valid()) ==> Valid()) && Contents() == Cut(old(Contents()), pos, n)
    {
      ghost var s := Contents();
      var moveCount := count - pos - n;
      if moveCount != 0 {
        forall i | 0 <= i < moveCount {
          data[pos + i] := data[pos + n + i];
        }
      }
      count := count - n;
      assert forall i | 0 <= i < count :: data[i] == Cut(s, pos, n)[i];
    }

    method RemoveFast(pos: nat, n: nat)
      requires Holds() && pos + n <= count
      modifies this`count, data
      ensures Holds() && (old(Valid()) ==> Valid()) && Contents() == CutFast(old(Contents()), pos, n)
    {
      if count - pos - n < n {
        Remove(pos, n);
        return;
      }
      FillFromEnd(pos, n);
    }

    method FillFromEnd(pos: nat, n: nat)
      requires Holds() && pos + n + n <= count
      modifies this`count, data
      ensures Holds() && (old(Valid()) ==> Valid()) && Contents() == CutFast(old(Contents()), pos, n)
    {
      ghost var s := Contents();
      forall i | 0 <= i < n {
        data[pos + i] := data[count - n + i];
      }
      count := count - n;
      assert forall row | 0 <= row < count :: data[row] == s[Origin(|s|, pos, n, row)];
      CutFastAt(s, pos, n);
    }

    /** The block copy of dsim_storage_array_update. */
    method Overwrite(src: seq<T>, srcOffset: nat, dst: nat, n: nat)
      requires Holds() && srcOffset + n <= |src| && dst + n <= count
      modifies data
      ensures Contents() == Overwritten(old(Contents()), src, srcOffset, dst, n)
    {
      forall i | 0 <= i < n {
        data[dst + i] := src[srcOffset + i];
      }
    }

    /** dsim_fill over [from, from+n). */
    method Fill(value: T, from: nat, n: nat)
      requires Valid() && from + n <= count
      modifies data
      ensures Contents()[..from] == old(Contents())[..from] && Contents()[from + n..] == old(Contents())[from + n..]
      ensures forall i :: from <= i < from + n ==> Contents()[i] == value
    {
      for i := 0 to n
        invariant forall j :: from <= j < from + i ==> data[j] == value
        invariant forall j :: 0 <= j < count && !(from <= j < from + i) ==> data[j] == old(data[j])
      {
        data[from + i] := value;
      }
    }

    /** The block copy with which the hash closes a hole of `hole` rows at `dst`. */
    method CopyRows(dst: nat, src: nat, moved: nat, ghost hole: nat)
      requires Valid() && dst + hole <= count
      requires src == MoveSource(count, dst, hole) && moved == MoveCount(count, dst, hole)
      modifies data
      ensures Contents()[..count - hole] == CutFast(old(Contents()), dst, hole)
    {
      CutFastAt(Contents(), dst, hole);
      forall i | 0 <= i < moved {
        data[dst + i] := data[src + i];
      }
    }

    method Reset()
      requires Holds()
      modifies this
      ensures Valid() && count == 0 && capacity == 0 && fresh(data)
    {
      data := new T[0];
      count, capacity := 0, 0;
    }
  }

  /** Growing fills the least power of two of bytes that holds what is asked for: as many
      elements as fit it, and less than twice as many as asked for. */
  lemma GrownFillsPow2(total: nat, elemSize: nat) returns (bytes: nat)
    requires elemSize >= 1 && 1 <= total && total * elemSize <= 0x8000_0000
    ensures IsPow2(bytes) && total * elemSize <= bytes < 2 * (total * elemSize)
    ensures forall p: nat :: IsPow2(p) && total * elemSize <= p ==> bytes <= p
    ensures var c := GrownCapacity(total, elemSize); c >= total && c * elemSize <= bytes < c * elemSize + elemSize
  {
    hide NextPow2;
    assert total * elemSize >= 1;
    NextPow2IsLeast(total * elemSize);
    bytes := NextPow2(total * elemSize);
    GrowMakesRoom(total, elemSize);
    Quotient(bytes, elemSize);
  }

  lemma Quotient(b: nat, e: nat)
    requires e >= 1
    ensures b / e * e <= b < b / e * e + e
  {
    assert b == b / e * e + b % e;
  }

  /** dsim_array_grow's arithmetic: no element size loses the requested room, and
      the rounded byte size still fits 32 bits. */
  lemma GrowMakesRoom(cap: nat, elemSize: nat)
    requires elemSize >= 1 && cap * elemSize <= 0x8000_0000
    ensures NextPow2(cap * elemSize) / elemSize >= cap
    ensures NextPow2(cap * elemSize) / elemSize * elemSize < WORD32
  {
    hide NextPow2;
    var bytes := cap * elemSize;
    NextPow2IsLeast(bytes);
    if cap > 0 {
      assert bytes >= 1;
      HalfWordIsPow2();
      var r := NextPow2(bytes);
      assert r <= 0x8000_0000;
      QuotientAtLeast(r, elemSize, cap);
    } else {
      assert NextPow2(0) == 0;
    }
  }

  lemma HalfWordIsPow2()
    ensures IsPow2(0x8000_0000)
  {
    var n := 1;
    assert Pow2(n) == 2 * Pow2(n - 1) == 2;
    Doubles(n, 2);
    Doubles(2 * n, 4);
    Doubles(4 * n, 16);
    Doubles(8 * n, 256);
    Doubles(16 * n, 0x1_0000);
    assert Pow2(32 * n) == 2 * Pow2(32 * n - 1);
    assert Pow2(31 * n) == 0x8000_0000;
  }

  lemma QuotientAtLeast(r: nat, e: nat, c: nat)
    requires e >= 1 && r >= c * e
    ensures r / e >= c && r / e * e <= r
  {
    var q := r / e;
    assert r < (q + 1) * e;
    NegativeProduct(c - (q + 1), e);
  }

  lemma NegativeProduct(x: int, e: nat)
    requires x * e < 0
    ensures x < 0
  {
  }
}
