/** The chained hash index of src/core/hash.c over three growable arrays. The hash
    function is a parameter: everything holds for every hash function. */
module Hashes {
  import opened Common
  import opened DynArrays
  import opened Chains
  import opened Relinks
  import opened Removals
  import opened Indexes
  import opened LinearScans

  class Hash {
    const hash: Uint64 -> Uint64
    const keys: DynArray<Uint64>
    const heads: DynArray<Uint32>
    const next: DynArray<Uint32>
    ghost var chains: seq<Chain>

    ghost function Repr(): set<object>
      reads this, keys, heads, next
    {
      {this, keys, heads, next, keys.data, heads.data, next.data}
    }

    /** The arrays are separate, `keys` and `_next` grow together, and there are
        buckets enough for every row the capacity admits. */
    ghost predicate Shape()
      reads this, keys, heads, next
    {
      Parts() && keys.capacity <= heads.count * 11 / 16
    }

    /** Shape without the bound that a rehash restores. */
    ghost predicate Parts()
      reads this, keys, heads, next
    {
      && keys.Valid() && heads.Valid() && next.Valid()
      && keys.elemSize == 8 && heads.elemSize == 4 && next.elemSize == 4
      && heads != next && heads.data != next.data
      && keys as object != heads && keys as object != next
      && keys.data as object != heads.data && keys.data as object != next.data
      && next.count == keys.count && next.capacity == keys.capacity
      && keys.capacity <= LIMIT && heads.count <= 2 * LIMIT
    }

    ghost function Table(): Cells
      reads this, keys, heads, next, keys.data, heads.data, next.data
      requires Parts()
    {
      Cells(keys.Contents(), next.Contents(), heads.Contents())
    }

    ghost function Keys(): seq<Uint64>
      reads this, keys, keys.data
      requires keys.Valid()
    {
      keys.Contents()
    }

    ghost predicate Valid()
      reads this, keys, heads, next, keys.data, heads.data, next.data
    {
      Shape() && Threads(Home(hash, heads.count), Table(), chains, 0, 0)
    }

    ghost function State(): Index
      reads this, keys, keys.data
      requires keys.Valid()
    {
      Index(Keys(), chains, keys.capacity)
    }

    /** The rows [pos, pos+count), about to be removed. */
    ghost function HoleAt(pos: nat, count: nat): Hole
      reads this, keys, heads, keys.data
      requires keys.Valid()
    {
      Hole(Home(hash, heads.count), Keys(), chains, pos, count)
    }

    constructor (hash: Uint64 -> Uint64)
      ensures Valid() && fresh(Repr()) && this.hash == hash
      ensures State() == Index([], [], 0) && Descending(chains)
    {
      this.hash := hash;
      keys := new DynArray<Uint64>(8);
      heads := new DynArray<Uint32>(4);
      next := new DynArray<Uint32>(4);
      chains := [];
    }

    // ---------- Relinking ----------

    /** The walk down the chain of the key at `pos`. */
    ghost function WalkTo(pos: nat, free: nat, steps: nat): Walk
      reads this, keys, heads, next, keys.data, heads.data, next.data
      requires Shape() && heads.count > 0 && pos < keys.count
    {
      WalkFrom(next.Contents(), heads.data[Home(hash, heads.count)(keys.data[pos])], INVALID, pos, free, free, steps)
    }

    /** Walks the key's chain down to `pos` and redirects the cell in front of it. `steps`
        bounds the walk; if it arrives, the error branch is never taken. */
    method SetPrev(pos: nat, dst: Uint32, ghost free: nat, ghost steps: nat)
      requires Shape() && heads.count > 0 && pos < keys.count
      requires WalkTo(pos, free, steps).Reached?
      modifies heads.data, next.data
      ensures Shape()
      ensures Table() == old(SetCell(Table(), Home(hash, heads.count)(keys.data[pos]), WalkTo(pos, free, steps).prev, dst))
    {
      var b := hash(keys.data[pos]) % heads.count;
      var prev: Uint32 := INVALID;
      var i := heads.data[b];
      ghost var cells := next.Contents();
      ghost var left := steps;
      while i != pos
        invariant WalkFrom(cells, i, prev, pos, free, free, left) == WalkFrom(cells, heads.data[b], INVALID, pos, free, free, steps)
        invariant prev == INVALID || prev < next.count
        decreases left
      {
        prev := i;
        i := next.data[i];
        left := left - 1;
        if i == INVALID {
          assert false;
        }
      }
      if prev == INVALID {
        heads.data[b] := dst;
      } else {
        next.data[prev] := dst;
      }
    }

    method KeyDelete(pos: nat, ghost free: nat, ghost steps: nat)
      requires Shape() && heads.count > 0 && pos < keys.count
      requires WalkTo(pos, free, steps).Reached?
      modifies heads.data, next.data
      ensures Shape()
      ensures Table() == old(SetCell(Table(), Home(hash, heads.count)(keys.data[pos]), WalkTo(pos, free, steps).prev, next.data[pos]))
    {
      SetPrev(pos, next.data[pos], free, steps);
    }

    /** The first pass of _dsim_hash_key_move_n: exactly the removed rows leave their chains. */
    method DeleteRange(dst: nat, count: nat, ghost steps: nat)
      requires Valid() && dst + count <= keys.count && steps >= keys.count
      modifies heads.data, next.data
      ensures Shape() && Keys() == old(Keys())
      ensures DeletePass(Home(hash, heads.count), old(Table()), dst, 0, count, steps) == Done(Table())
      ensures Threads(Home(hash, heads.count), Table(), KeptChains(chains, dst, dst + count), dst, dst + count)
    {
      hide Threads, DeletePass, WalkFrom, Home, SetCell, UnlinkedTo;
      ghost var home := Home(hash, heads.count);
      ghost var p := PassOverHole(dst, count, steps);
      var i := 0;
      while i < count
        invariant i <= count && Shape() && Keys() == old(Keys())
        invariant DeletePass(home, Table(), dst, i, count, steps) == p
      {
        HasBuckets(dst + i);
        DeleteStep(home, Table(), dst, i, count, steps);
        KeyDelete(dst + i, dst, steps);
        i := i + 1;
      }
      DeleteEnd(home, Table(), dst, count, steps);
    }

    /** What the first pass is going to leave. */
    lemma PassOverHole(dst: nat, count: nat, steps: nat) returns (p: Pass)
      requires Valid() && dst + count <= keys.count && steps >= keys.count
      ensures p == DeletePass(Home(hash, heads.count), Table(), dst, 0, count, steps) && p.Done?
      ensures Threads(Home(hash, heads.count), p.t, KeptChains(chains, dst, dst + count), dst, dst + count)
    {
      hide DeletePass, UnlinkedTo, Partitions, KeptChains, Home;
      var h := HoleAt(dst, count);
      NothingUnlinked(h, Table());
      DeletePassRight(h, Table(), 0, steps);
      p := DeletePass(Home(hash, heads.count), Table(), dst, 0, count, steps);
      UnlinkedShape(h, p.t, KeptChains(chains, dst, dst + count), dst + count);
    }

    lemma HasBuckets(row: nat)
      requires Shape() && row < keys.count
      ensures heads.count > 0 && Home(hash, heads.count)(keys.data[row]) < heads.count
    {
    }

    /** The second pass of _dsim_hash_key_move_n: every row at src is renamed to its new
        place in the cell in front of it. The `_next` cells of the new places are stale
        throughout. */
    method RelinkRange(src: nat, dst: nat, count: nat, ghost steps: nat)
      requires Shape() && src + count <= keys.count && dst + count <= keys.count
      requires RelinkPass(Home(hash, heads.count), Table(), src, dst, 0, count, steps).Done?
      modifies heads.data, next.data
      ensures Shape() && Keys() == old(Keys())
      ensures RelinkPass(Home(hash, heads.count), old(Table()), src, dst, 0, count, steps) == Done(Table())
    {
      hide RelinkPass, WalkFrom, Home, SetCell;
      ghost var home := Home(hash, heads.count);
      ghost var p := RelinkPass(home, Table(), src, dst, 0, count, steps);
      var i := 0;
      while i < count
        invariant i <= count && Shape() && Keys() == old(Keys())
        invariant RelinkPass(home, Table(), src, dst, i, count, steps) == p
      {
        HasBuckets(src + i);
        RelinkStep(home, Table(), src, dst, i, count, steps);
        SetPrev(src + i, dst + i, dst, steps);
        i := i + 1;
      }
      RelinkEnd(home, Table(), src, dst, count, steps);
    }

    method KeyMoveN(dst: nat, src: nat, count: nat, ghost steps: nat)
      requires Valid() && dst + count <= keys.count && src == MoveSource(keys.count, dst, count) && steps >= keys.count
      requires Removal(Home(hash, heads.count), Table(), dst, count, steps).Done?
      modifies keys.data, heads.data, next.data
      ensures Shape()
      ensures Removal(Home(hash, heads.count), old(Table()), dst, count, steps)
        == Done(Cells(Keys()[..keys.count - count], next.Contents()[..keys.count - count], heads.Contents()))
    {
      hide Threads, DeletePass, RelinkPass, Home;
      var size := keys.count;
      DeleteRange(dst, count, steps);
      var moved := Min(count, size - src);
      RelinkRange(src, dst, moved, steps);
      keys.CopyRows(dst, src, moved, count);
      next.CopyRows(dst, src, moved, count);
    }

    /** Right for one row in every state, and for several rows exactly when every walk's
        trail arrives, as it does when moved rows sharing a bucket lie on its chain highest
        row first. */
    method RemoveFast(pos: nat, count: nat)
      requires Valid() && pos + count <= keys.count
      requires count <= 1 || Movable(HoleAt(pos, count))
      modifies this`chains, keys`count, next`count, keys.data, heads.data, next.data
      ensures Valid() && State() == Removed(old(State()), pos, count)
      ensures exists steps: nat :: Removal(Home(hash, heads.count), old(Table()), pos, count, steps) == Done(Table())
      ensures Descending(old(chains)) && old(keys.count) - pos - count < count ==> Descending(chains)
    {
      hide Threads, RemovedChains, CutFast, Movable, Removal, Home;
      ghost var cs := RemovedChains(chains, keys.count, pos, count);
      StaysDescending(pos, count);
      ghost var steps := StepsToRemove(pos, count);
      ghost var t := Table();
      var leftToEnd := keys.count - pos - count;
      if leftToEnd < count {
        KeyMoveN(pos, pos + count, count, steps);
      } else {
        KeyMoveN(pos, keys.count - count, count, steps);
      }
      PopRows(count, cs);
      assert Removal(Home(hash, heads.count), t, pos, count, steps) == Done(Table());
    }

    lemma StepsToRemove(pos: nat, count: nat) returns (steps: nat)
      requires Valid() && pos + count <= keys.count
      requires count <= 1 || Movable(HoleAt(pos, count))
      ensures steps >= keys.count
      ensures var p := Removal(Home(hash, heads.count), Table(), pos, count, steps);
        p.Done? && Threads(Home(hash, heads.count), p.t, RemovedChains(chains, keys.count, pos, count), 0, 0)
        && p.t.keys == CutFast(Keys(), pos, count)
    {
      var h := HoleAt(pos, count);
      if count <= 1 {
        OneRowIsMovable(h);
      }
      steps := MovableMeansRight(h, Table());
    }

    method PopRows(count: nat, ghost cs: seq<Chain>)
      requires Shape() && count <= keys.count
      requires Threads(Home(hash, heads.count),
                       Cells(Keys()[..keys.count - count], next.Contents()[..keys.count - count], heads.Contents()), cs, 0, 0)
      modifies this`chains, keys`count, next`count
      ensures Valid() && chains == cs
      ensures Table() == old(Cells(Keys()[..keys.count - count], next.Contents()[..keys.count - count], heads.Contents()))
    {
      hide Threads;
      keys.PopBack(count);
      next.PopBack(count);
      chains := cs;
    }

    lemma StaysDescending(pos: nat, count: nat)
      requires Valid() && pos + count <= keys.count
      ensures Descending(chains) && keys.count - pos - count < count ==>
        Descending(RemovedChains(chains, keys.count, pos, count))
    {
      if Descending(chains) && keys.count - pos - count < count {
        forall b, k | 0 <= b < |chains| && 0 <= k < |chains[b]|
          ensures chains[b][k] < keys.count
        {
          assert OwnRows(Home(hash, heads.count), Keys(), chains[b], b, 0, 0);
        }
        CompactionKeepsDescending(chains, keys.count, pos, count);
      }
    }

    // ---------- Inserting ----------

    method KeyInsert(pos: nat)
      requires Shape() && heads.count > 0 && pos < keys.count
      requires Threads(Home(hash, heads.count), Table(), chains, pos, keys.count)
      modifies this`chains, heads.data, next.data
      ensures Shape() && Keys() == old(Keys())
      ensures Threads(Home(hash, heads.count), Table(), chains, pos + 1, keys.count)
      ensures chains == WithRow(Home(hash, heads.count), Keys(), old(chains), pos)
      ensures |chains| == |old(chains)| == heads.count && forall b :: 0 <= b < heads.count ==>
        chains[b] == (if b == hash(keys.data[pos]) % heads.count then [pos] else []) + old(chains)[b]
      ensures Descending(old(chains)) ==> Descending(chains)
    {
      ghost var t := Table();
      ghost var home := Home(hash, heads.count);
      var b := hash(keys.data[pos]) % heads.count;
      InsertThreads(home, t, chains, pos, keys.count);
      if Descending(chains) {
        InsertKeepsDescending(home, t, chains, pos, b);
      }
      next.data[pos] := heads.data[b];
      heads.data[b] := pos;
      chains := chains[b := [pos] + chains[b]];
      assert Table() == Inserted(t, b, pos);
    }

    /** The insertion loops of _dsim_hash_rehash and dsim_hash_push_back_n. */
    method InsertFrom(from: nat)
      requires Shape() && from <= keys.count && (heads.count > 0 || from == keys.count)
      requires Threads(Home(hash, heads.count), Table(), chains, from, keys.count)
      modifies this`chains, heads.data, next.data
      ensures Valid() && Keys() == old(Keys())
      ensures chains == Threaded(Home(hash, heads.count), Keys(), old(chains), from)
      ensures Descending(old(chains)) ==> Descending(chains)
    {
      hide Threads, Descending, Threaded, WithRow;
      var i := from;
      while i < keys.count
        invariant from <= i <= keys.count && Shape() && Keys() == old(Keys())
        invariant Threads(Home(hash, heads.count), Table(), chains, i, keys.count)
        invariant Threaded(Home(hash, heads.count), Keys(), chains, i) == Threaded(Home(hash, heads.count), Keys(), old(chains), from)
        invariant Descending(old(chains)) ==> Descending(chains)
      {
        ThreadedStep(Home(hash, heads.count), Keys(), chains, i);
        KeyInsert(i);
        i := i + 1;
      }
      ThreadedStep(Home(hash, heads.count), Keys(), chains, i);
      AllThreaded(Home(hash, heads.count), Table(), chains);
    }

    /** Rebuilds every chain over `count` buckets, highest row first. */
    method Rehash(count: nat)
      requires Parts() && heads.count < count <= 2 * LIMIT && keys.capacity <= count * 11 / 16
      modifies this`chains, heads, heads.data, next.data
      ensures Valid() && Keys() == old(Keys()) && heads.count == count
      ensures heads.data == old(heads.data) || fresh(heads.data)
      ensures chains == Rebuilt(hash, Keys(), count) && Descending(chains)
    {
      hide Threaded;
      heads.Resize(count);
      heads.Fill(INVALID, 0, count);
      chains := NoRows(count);
      EmptyThreads(Home(hash, heads.count), Table(), chains);
      InsertFrom(0);
    }

    /** Never shrinks the buckets; when it rebuilds them, there are strictly more. */
    method Reserve(count: nat)
      requires Valid() && count <= LIMIT
      modifies this`chains, keys, next, heads, heads.data, next.data
      ensures Valid() && Keys() == old(Keys()) && fresh(Repr() - old(Repr()))
      ensures State() == Reserved(hash, old(State()), count)
      ensures keys.capacity == if count <= keys.count then old(keys.capacity) else Max(old(keys.capacity), count)
      ensures heads.count == if keys.count < count && old(heads.count) * 11 / 16 < count then 2 * count else old(heads.count)
      ensures heads.count == old(heads.count) || (heads.count > old(heads.count) && Descending(chains))
      ensures Descending(old(chains)) ==> Descending(chains)
    {
      hide Threads, Home, Descending, Rebuilt;
      ChainPerBucket();
      if count <= keys.count {
        return;
      }
      keys.Reserve(count);
      next.Reserve(count);
      EnsureBuckets(count);
    }

    lemma ChainPerBucket()
      requires Valid()
      ensures |chains| == heads.count
    {
    }

    /** The load check at the end of dsim_hash_reserve. */
    method EnsureBuckets(count: nat)
      requires Parts() && 0 < count <= LIMIT
      requires keys.capacity <= Max(heads.count * 11 / 16, count)
      requires Threads(Home(hash, heads.count), Table(), chains, 0, 0)
      modifies this`chains, heads, heads.data, next.data
      ensures Valid() && Keys() == old(Keys())
      ensures heads.data == old(heads.data) || fresh(heads.data)
      ensures heads.count == old(heads.count) || (heads.count > old(heads.count) && Descending(chains))
      ensures heads.count == if old(heads.count) * 11 / 16 < count then 2 * count else old(heads.count)
      ensures chains == if old(heads.count) * 11 / 16 < count then Rebuilt(hash, Keys(), 2 * count) else old(chains)
      ensures Descending(old(chains)) ==> Descending(chains)
    {
      hide Threads, Home, Descending, Rebuilt;
      assert heads.count * 11 % WORD32 == heads.count * 11 && 2 * count % WORD32 == 2 * count;
      if (heads.count * 11 % WORD32) / 16 < count {
        Rehash(2 * count % WORD32);
      }
    }

    /** Room for the rows a push is about to add. */
    method MakeRoom(count: nat, wanted: nat)
      requires Valid() && wanted <= count <= LIMIT && keys.count < wanted
      modifies this`chains, keys, next, heads, heads.data, next.data
      ensures Valid() && Keys() == old(Keys()) && fresh(Repr() - old(Repr()))
      ensures keys.capacity >= wanted && heads.count >= old(heads.count)
      ensures State() == Reserved(hash, old(State()), NextPow2(count))
      ensures old(keys.capacity) < wanted ==> RoundedUp(keys.capacity, count)
      ensures old(keys.capacity) < wanted ==> heads.count == if old(heads.count) * 11 / 16 < keys.capacity then 2 * keys.capacity else old(heads.count)
      ensures Descending(old(chains)) ==> Descending(chains)
    {
      hide NextPow2, Rebuilt, Threads, Descending;
      NextPow2IsLeast(count);
      LimitIsPow2();
      Reserve(NextPow2(count));
    }

    /** The appends of dsim_hash_push_back_n; the new rows are threaded nowhere yet. */
    method AppendRows(ks: seq<Uint64>)
      requires Valid() && keys.count + |ks| <= keys.capacity
      modifies keys, next, keys.data, next.data
      ensures Shape() && Keys() == old(Keys()) + ks && Repr() == old(Repr()) && keys.capacity == old(keys.capacity)
      ensures Threads(Home(hash, heads.count), Table(), chains, old(keys.count), keys.count)
    {
      hide Threads, Home;
      ghost var t := Table();
      var startPos := keys.count;
      keys.PushBack(ks);
      next.Resize(startPos + |ks|);
      next.Fill(INVALID, startPos, |ks|);
      AppendThreads(Home(hash, heads.count), t, Table(), chains);
    }

    /** The appends of dsim_hash_push_back. */
    method AppendRow(key: Uint64)
      requires Valid() && keys.count < keys.capacity
      modifies keys, next, keys.data, next.data
      ensures Shape() && Keys() == old(Keys()) + [key] && Repr() == old(Repr()) && keys.capacity == old(keys.capacity)
      ensures Threads(Home(hash, heads.count), Table(), chains, old(keys.count), keys.count)
    {
      hide Threads, Home;
      ghost var t := Table();
      keys.PushOne(key);
      next.PushOne(INVALID);
      AppendThreads(Home(hash, heads.count), t, Table(), chains);
    }

    method PushBack(key: Uint64)
      requires Valid() && keys.count + 8 <= LIMIT
      modifies this`chains, keys, next, heads, keys.data, heads.data, next.data
      ensures Valid() && State() == Pushed(hash, old(State()), key) && fresh(Repr() - old(Repr()))
      ensures Keys() == old(Keys()) + [key]
      ensures if old(keys.count) == old(keys.capacity) then RoundedUp(keys.capacity, old(keys.count) + 8) else keys.capacity == old(keys.capacity)
      ensures heads.count == if keys.capacity != old(keys.capacity) && old(heads.count) * 11 / 16 < keys.capacity then 2 * keys.capacity else old(heads.count)
      ensures Descending(old(chains)) ==> Descending(chains)
    {
      hide Threads, Home, Descending, Reserved, Appended;
      if keys.count == keys.capacity {
        MakeRoom(keys.count + 8, keys.count + 1);
      }
      PushRow(key);
    }

    /** A push into room that is there. */
    method PushRow(key: Uint64)
      requires Valid() && keys.count < keys.capacity
      modifies this`chains, keys, next, keys.data, heads.data, next.data
      ensures Valid() && State() == Appended(hash, old(State()), [key]) && Repr() == old(Repr()) && heads.count == old(heads.count)
      ensures Descending(old(chains)) ==> Descending(chains)
    {
      hide Threads, Home, Descending, Threaded, WithRow;
      ChainPerBucket();
      AppendRow(key);
      KeyInsert(keys.count - 1);
      ThreadedStep(Home(hash, heads.count), Keys(), old(chains), keys.count - 1);
      ThreadedStep(Home(hash, heads.count), Keys(), chains, keys.count);
      AllThreaded(Home(hash, heads.count), Table(), chains);
    }

    method PushBackN(ks: seq<Uint64>)
      requires Valid() && keys.count + |ks| <= LIMIT
      modifies this`chains, keys, next, heads, keys.data, heads.data, next.data
      ensures Valid() && State() == PushedN(hash, old(State()), ks) && fresh(Repr() - old(Repr()))
      ensures Keys() == old(Keys()) + ks
      ensures if old(keys.count) + |ks| > old(keys.capacity) then RoundedUp(keys.capacity, old(keys.count) + |ks|)
        else keys.capacity == old(keys.capacity)
      ensures heads.count == if keys.capacity != old(keys.capacity) && old(heads.count) * 11 / 16 < keys.capacity then 2 * keys.capacity else old(heads.count)
      ensures Descending(old(chains)) ==> Descending(chains)
    {
      hide Threads, Home, Descending, Reserved, Appended, NextPow2;
      if keys.count + |ks| > keys.capacity {
        MakeRoom(keys.count + |ks|, keys.count + |ks|);
      }
      PushRows(ks);
    }

    /** A push of several keys into room that is there. */
    method PushRows(ks: seq<Uint64>)
      requires Valid() && keys.count + |ks| <= keys.capacity
      modifies this`chains, keys, next, keys.data, heads.data, next.data
      ensures Valid() && State() == Appended(hash, old(State()), ks) && Repr() == old(Repr()) && heads.count == old(heads.count)
      ensures Descending(old(chains)) ==> Descending(chains)
    {
      hide Threads, Home, Descending, Threaded;
      ChainPerBucket();
      var startPos := keys.count;
      AppendRows(ks);
      InsertFrom(startPos);
    }

    method Clear()
      requires Valid()
      modifies this`chains, keys`count, next`count, heads.data
      ensures Valid() && State() == Index([], NoRows(heads.count), old(keys.capacity)) && Descending(chains)
    {
      keys.PopBack(keys.count);
      next.PopBack(next.count);
      heads.Fill(INVALID, 0, heads.count);
      chains := NoRows(heads.count);
      EmptyThreads(Home(hash, heads.count), Table(), chains);
    }

    method Reset()
      requires Valid()
      modifies this`chains, keys, next, heads
      ensures Valid() && State() == Index([], [], 0) && Descending(chains)
      ensures fresh(Repr() - old(Repr()))
    {
      keys.Reset();
      heads.Reset();
      next.Reset();
      chains := [];
    }

    // ---------- Looking up ----------

    /** The chain on which a key's rows lie. */
    ghost function ChainOf(key: Uint64): (c: Chain)
      reads this, keys, heads, next, keys.data, heads.data, next.data
      requires Valid() && heads.count > 0
      ensures forall j :: 0 <= j < |c| ==> c[j] < keys.count
    {
      var b := Home(hash, heads.count)(key);
      assert OwnRows(Home(hash, heads.count), Keys(), chains[b], b, 0, 0);
      chains[b]
    }

    /** The first row of the key's chain that holds it; INVALID exactly when the key is
        absent; the highest such row while chains descend. */
    method Find(key: Uint64) returns (pos: Uint32)
      requires Valid()
      ensures pos == INVALID <==> key !in Keys()
      ensures pos != INVALID ==> pos < keys.count && Keys()[pos] == key
      ensures pos != INVALID && Descending(chains) ==> forall r :: pos < r < keys.count ==> Keys()[r] != key
      ensures heads.count > 0 ==> pos == FirstMatch(Keys(), ChainOf(key), key, 0)
    {
      if heads.count == 0 {
        return INVALID;
      }
      ghost var c := ChainOf(key);
      FoundRow(key);
      pos := Scan(heads.data[hash(key) % heads.count], key, c, 0);
    }

    /** The scan shared by dsim_hash_find and dsim_hash_find_next. */
    method Scan(start: Uint32, key: Uint64, ghost c: Chain, ghost k: nat) returns (pos: Uint32)
      requires Valid() && k <= |c| && start == At(c, k)
      requires forall j :: 0 <= j < |c| ==> c[j] < keys.count
      requires forall j {:trigger next.data[c[j]]} :: 0 <= j < |c| ==> next.data[c[j]] == At(c, j + 1)
      ensures pos == FirstMatch(Keys(), c, key, k)
    {
      var i := start;
      ghost var j := k;
      while i != INVALID
        invariant k <= j <= |c| && i == At(c, j)
        invariant FirstMatch(Keys(), c, key, k) == FirstMatch(Keys(), c, key, j)
        decreases |c| - j
      {
        if keys.data[i] == key {
          return i;
        }
        i := next.data[i];
        j := j + 1;
      }
      return INVALID;
    }

    /** What the first match of a chain says about the whole table. */
    lemma FoundRow(key: Uint64)
      requires Valid() && heads.count > 0
      ensures var pos := FirstMatch(Keys(), ChainOf(key), key, 0);
        && (pos == INVALID <==> key !in Keys())
        && (pos != INVALID ==> pos < keys.count && Keys()[pos] == key)
        && (pos != INVALID && Descending(chains) ==> forall r :: pos < r < keys.count ==> Keys()[r] != key)
      ensures var c := ChainOf(key);
        && heads.data[hash(key) % heads.count] == At(c, 0)
        && forall j {:trigger next.data[c[j]]} :: 0 <= j < |c| ==> next.data[c[j]] == At(c, j + 1)
    {
      var home := Home(hash, heads.count);
      FirstMatchDecides(home, Table(), chains, key);
      assert Linked(heads.Contents()[home(key)], next.Contents(), ChainOf(key));
    }

    /** The next match after `pos` on its chain. */
    method FindNext(pos: Uint32, ghost k: nat) returns (r: Uint32)
      requires Valid()
      requires pos != INVALID ==> pos < keys.count && heads.count > 0
      requires pos != INVALID ==> var c := ChainOf(Keys()[pos]); k < |c| && c[k] == pos
      ensures pos == INVALID ==> r == INVALID
      ensures pos != INVALID ==> r == FirstMatch(Keys(), ChainOf(Keys()[pos]), Keys()[pos], k + 1)
    {
      if pos == INVALID {
        return INVALID;
      }
      var key := keys.data[pos];
      ghost var c := ChainOf(key);
      FoundRow(key);
      assert next.data[c[k]] == At(c, k + 1);
      r := Scan(next.data[pos], key, c, k + 1);
    }

    /** One FindNext: the match at `pos` is the first that remained, and is now passed. */
    method Advance(pos: Uint32, ghost key: Uint64, ghost k: nat) returns (r: Uint32, ghost k': nat)
      requires Valid() && heads.count > 0 && pos != INVALID
      requires pos == FirstMatch(Keys(), ChainOf(key), key, k)
      ensures k < k' <= |ChainOf(key)| && r == FirstMatch(Keys(), ChainOf(key), key, k')
      ensures Matches(Keys(), ChainOf(key), key, k) == [pos] + Matches(Keys(), ChainOf(key), key, k')
    {
      hide Threads, Matches, Home;
      ghost var at := SkipToMatch(Keys(), ChainOf(key), key, k);
      k' := at + 1;
      r := FindNext(pos, at);
    }

    method Collect(key: Uint64, start: Uint32) returns (rows: seq<nat>)
      requires Valid() && heads.count > 0 && start == FirstMatch(Keys(), ChainOf(key), key, 0)
      ensures rows == Matches(Keys(), ChainOf(key), key, 0)
    {
      hide Threads, Matches, FirstMatch, Home;
      rows := [];
      var pos := start;
      ghost var k := 0;
      ghost var all := Matches(Keys(), ChainOf(key), key, 0);
      while pos != INVALID
        invariant k <= |ChainOf(key)| && pos == FirstMatch(Keys(), ChainOf(key), key, k)
        invariant rows + Matches(Keys(), ChainOf(key), key, k) == all
        decreases |ChainOf(key)| - k
      {
        rows := rows + [pos];
        pos, k := Advance(pos, key, k);
      }
      NoMatchLeft(Keys(), ChainOf(key), key, k);
    }

    /** Find, then FindNext until the end: exactly the rows holding the key, each once,
        and as many as the linear scan counts. */
    method FindAll(key: Uint64) returns (rows: seq<nat>)
      requires Valid()
      ensures Distinct(rows)
      ensures forall r: nat :: r in rows <==> r < keys.count && Keys()[r] == key
      ensures |rows| == Occurrences(Keys(), key)
    {
      rows := [];
      var pos := Find(key);
      if pos != INVALID {
        MatchesAreAllRows(Home(hash, heads.count), Table(), chains, key);
        rows := Collect(key, pos);
      } else {
        NoOccurrences(Keys(), key, 0, keys.count);
        assert Keys()[..keys.count] == Keys() && Keys()[0..keys.count] == Keys();
      }
    }
  }

  /** The least power of two at or above n. */
  ghost predicate RoundedUp(p: nat, n: nat) {
    IsPow2(p) && n <= p && forall q: nat :: IsPow2(q) && n <= q ==> p <= q
  }

  lemma LimitIsPow2()
    ensures IsPow2(LIMIT)
  {
    var n := 1;
    assert Pow2(n) == 2 * Pow2(n - 1) == 2;
    Doubles(n, 2);
    Doubles(2 * n, 4);
    Doubles(4 * n, 16);
    assert Pow2(9 * n) == 2 * Pow2(8 * n);
    Pow2Adds(9 * n, 9 * n);
    Pow2Adds(18 * n, 9 * n);
    assert Pow2(27 * n) == LIMIT;
  }

  /** A table with nothing left out. */
  lemma AllThreaded(home: Uint64 -> nat, t: Cells, chains: seq<Chain>)
    requires Threads(home, t, chains, |t.keys|, |t.keys|)
    ensures Threads(home, t, chains, 0, 0)
  {
    forall b | 0 <= b < |chains|
      ensures OwnRows(home, t.keys, chains[b], b, 0, 0)
    {
      assert OwnRows(home, t.keys, chains[b], b, |t.keys|, |t.keys|);
    }
  }
}
