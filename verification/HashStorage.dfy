/** The hash storage of src/storage/hash_storage.c: a hash of ids beside a block of
    columns, row for row, with the listener calls of src/storage/storage.c. */
module HashStorages {
  import opened Common
  import opened DynArrays
  import opened Chains
  import opened Removals
  import opened Indexes
  import opened Hashes
  import opened Columns
  import opened Blocks
  import opened Stores
  import opened Selections
  import opened Mirrors
  import opened Engines
  import Protocols

  /** Which hooks the attached listener has. */
  datatype Listener = Listener(onInsert: bool, onRemove: bool, onUpdate: bool)

  predicate Hears(listener: Option<Listener>, e: Event) {
    listener.Some? && match e
      case OnInsert(_, _) => listener.value.onInsert
      case OnRemove(_, _) => listener.value.onRemove
      case OnUpdate(_, _, _) => listener.value.onUpdate
  }

  /** The emissions that reach the listener. */
  function Heard<T>(listener: Option<Listener>, es: seq<Emission<T>>): seq<Emission<T>> {
    if es == [] then []
    else (if Hears(listener, es[0].event) then [es[0]] else []) + Heard(listener, es[1..])
  }

  class HashStorage<T(0)> {
    const ids: Hash
    const data: Block<T>
    var listener: Option<Listener>
    ghost var log: seq<Emission<T>>

    /** An empty storage over a new block, with nobody listening. */
    constructor (hash: Uint64 -> Uint64, data: Block<T>, ghost cols: seq<seq<T>>)
      requires data.Holds(cols) && forall c :: 0 <= c < |cols| ==> cols[c] == []
      ensures Is(Store([], cols)) && ids.hash == hash && this.data == data
      ensures listener == None && log == [] && IndexIs(Index([], [], 0))
      ensures fresh(ids.Repr())
    {
      hide Threads, Protocols.Inv, Descending, Block.Holds;
      ids := new Hash(hash);
      this.data := data;
      listener := None;
      log := [];
    }

    ghost predicate HasIds(keys: seq<Uint64>)
      reads ids, ids.keys, ids.heads, ids.next, ids.keys.data, ids.heads.data, ids.next.data
    {
      ids.Valid() && ids.Keys() == keys
    }

    /** The hash and the columns share no object. */
    ghost predicate Apart()
      reads ids, ids.keys, ids.heads, ids.next, data, data.columns,
            set c | c in data.columns :: c.main, set c | c in data.columns :: c.back
    {
      forall c :: 0 <= c < |data.columns| ==> ApartFrom(data.columns[c])
    }

    ghost predicate ApartFrom(c: Column<T>)
      reads ids, ids.keys, ids.heads, ids.next, c, c.main, c.back
    {
      c.Repr() !! ids.Repr()
    }

    /** The storage holds s: ids and columns side by side, ids unique. */
    ghost predicate Is(s: Store<T>)
      reads ids, ids.keys, ids.heads, ids.next, ids.keys.data, ids.heads.data, ids.next.data,
            data, data.columns, set c | c in data.columns :: c.main, set c | c in data.columns :: c.back,
            set c | c in data.columns :: c.main.data, set c | c in data.columns :: c.back.data
    {
      WellFormed(s) && HasIds(s.ids) && data.Holds(s.cols) && Apart()
    }

    ghost predicate IndexIs(x: Index)
      reads ids, ids.keys, ids.keys.data
    {
      ids.keys.Valid() && ids.State() == x
    }

    /** No session is open on any column. */
    ghost predicate AllFree()
      reads data, data.columns
    {
      forall c :: 0 <= c < |data.columns| ==> data.FreeAt(c)
    }

    /** The storage runs on this engine, with no session open. */
    ghost predicate Engaged(e: Engine)
      reads ids, ids.keys, ids.keys.data, data, data.columns,
            set c | c in data.columns :: c.main, set c | c in data.columns :: c.back
    {
      IndexIs(e.index) && data.RoomsAre(e.rooms) && AllFree()
    }

    ghost function Footprint(): set<object>
      reads ids, ids.keys, ids.heads, ids.next, data, data.columns,
            set c | c in data.columns :: c.main, set c | c in data.columns :: c.back
    {
      ids.Repr() + data.Footprint()
    }

    // ---------- Selecting ----------

    /** One turn of the selection loop: looks the id up and extends the match while the
        following ids sit in the following rows. */
    method FindRun(batch: seq<Uint64>, i: nat) returns (r: Run)
      requires ids.Valid() && Unique(ids.Keys()) && i < |batch|
      ensures r == NextRun(ids.Keys(), batch, i)
    {
      hide Threads, Home, Descending, FirstMatch, IndexOf;
      ghost var keys := ids.Keys();
      var begin := ids.Find(batch[i]);
      var next := i + 1;
      if begin == INVALID {
        return Run(i, INVALID, INVALID, 1);
      }
      IndexIsRow(keys, begin);
      var end := begin + 1;
      while next < |batch| && end < ids.keys.count
        invariant begin < end <= ids.keys.count && next <= |batch|
        invariant Extent(keys, batch, begin + 1, i + 1) == (end - begin - 1) + Extent(keys, batch, end, next)
        decreases |batch| - next
      {
        if ids.keys.data[end] != batch[next] {
          break;
        }
        end := end + 1;
        next := next + 1;
      }
      return Run(i, 0, begin, end - begin);
    }

    /** The callback of dsim_storage_select_buf. */
    method WriteAddresses(r: Run, addr: array<Addr>)
      requires r.pos + r.count <= addr.Length
      modifies addr
      ensures forall j :: r.pos <= j < r.pos + r.count ==> addr[j] == RunAddress(r, j)
      ensures forall j :: 0 <= j < addr.Length && !(r.pos <= j < r.pos + r.count) ==> addr[j] == old(addr[j])
    {
      if r.block == INVALID {
        for i := 0 to r.count
          invariant forall j :: r.pos <= j < r.pos + i ==> addr[j] == Addr(INVALID, INVALID)
          invariant forall j :: 0 <= j < addr.Length && !(r.pos <= j < r.pos + i) ==> addr[j] == old(addr[j])
        {
          addr[r.pos + i] := Addr(INVALID, INVALID);
        }
      } else {
        for i := 0 to r.count
          invariant forall j :: r.pos <= j < r.pos + i ==> addr[j] == Addr(r.block, r.begin + (j - r.pos))
          invariant forall j :: 0 <= j < addr.Length && !(r.pos <= j < r.pos + i) ==> addr[j] == old(addr[j])
        {
          addr[r.pos + i] := Addr(r.block, r.begin + i);
        }
      }
    }

    /** dsim_storage_select_buf: every id gets the address that looking it up alone gives. */
    method SelectBuf(batch: seq<Uint64>, addr: array<Addr>)
      requires ids.Valid() && Unique(ids.Keys()) && |batch| <= addr.Length
      modifies addr
      ensures forall k :: 0 <= k < |batch| ==> addr[k] == AddressOf(ids.Keys(), batch[k])
      ensures forall k :: |batch| <= k < addr.Length ==> addr[k] == old(addr[k])
      ensures forall k :: 0 <= k < |batch| ==>
        if batch[k] in ids.Keys()
        then addr[k].block == 0 && addr[k].index < ids.keys.count && ids.Keys()[addr[k].index] == batch[k]
        else addr[k] == Addr(INVALID, INVALID)
    {
      hide AddressOf, NextRun;
      ghost var keys := ids.Keys();
      var i := 0;
      while i < |batch|
        invariant i <= |batch| && ids.Valid() && ids.Keys() == keys
        invariant forall k :: 0 <= k < i ==> addr[k] == AddressOf(keys, batch[k])
        invariant forall k :: |batch| <= k < addr.Length ==> addr[k] == old(addr[k])
      {
        var r := FindRun(batch, i);
        NextRunDescribes(keys, batch, i);
        forall j | i <= j < i + r.count
          ensures AddressOf(keys, batch[j]) == RunAddress(r, j)
        {
          RunGivesAddresses(keys, batch, i, j);
        }
        WriteAddresses(r, addr);
        i := i + r.count;
      }
      forall k | 0 <= k < |batch|
        ensures if batch[k] in keys
          then AddressOf(keys, batch[k]).block == 0 && AddressOf(keys, batch[k]).index < |keys|
               && keys[AddressOf(keys, batch[k]).index] == batch[k]
          else AddressOf(keys, batch[k]) == Addr(INVALID, INVALID)
      {
        AddressIsRow(keys, batch[k]);
      }
    }

    // ---------- Listeners ----------

    /** dsim_storage_emit_insert. */
    method EmitInsert(pos: nat, n: nat, ghost seen: Store<T>)
      modifies this`log
      ensures log == old(log) + Heard(listener, [Emission(OnInsert(pos, n), seen)])
      ensures log == old(log) + if listener.Some? && listener.value.onInsert then [Emission(OnInsert(pos, n), seen)] else []
    {
      if listener.None? { return; }
      if !listener.value.onInsert { return; }
      log := log + [Emission(OnInsert(pos, n), seen)];
    }

    /** dsim_storage_emit_remove. */
    method EmitRemove(pos: nat, n: nat, ghost seen: Store<T>)
      modifies this`log
      ensures log == old(log) + Heard(listener, [Emission(OnRemove(pos, n), seen)])
      ensures log == old(log) + if listener.Some? && listener.value.onRemove then [Emission(OnRemove(pos, n), seen)] else []
    {
      if listener.None? { return; }
      if !listener.value.onRemove { return; }
      log := log + [Emission(OnRemove(pos, n), seen)];
    }

    /** dsim_storage_emit_update. */
    method EmitUpdate(mask: nat, pos: nat, n: nat, ghost seen: Store<T>)
      modifies this`log
      ensures log == old(log) + Heard(listener, [Emission(OnUpdate(mask, pos, n), seen)])
      ensures log == old(log) + if listener.Some? && listener.value.onUpdate then [Emission(OnUpdate(mask, pos, n), seen)] else []
    {
      if listener.None? { return; }
      if !listener.value.onUpdate { return; }
      log := log + [Emission(OnUpdate(mask, pos, n), seen)];
    }

    // ---------- Inserting ----------

    /** The ids and the columns grow by the same number of rows. */
    method Insert(batch: seq<Uint64>, values: Batch<T>, ghost s: Store<T>, ghost e: Engine) returns (ghost added: seq<seq<T>>)
      requires Is(s) && Engaged(e) && Permitted(ids.hash, e, Request.Insert(batch, values))
      modifies this`log
      modifies ids`chains, ids.keys, ids.next, ids.heads, ids.keys.data, ids.heads.data, ids.next.data
      modifies set c | c in data.columns :: c.main, set c | c in data.columns :: c.main.data
      ensures Answers(Request.Insert(batch, values), Op.Insert(batch, added))
      ensures Allowed(s, Op.Insert(batch, added)) && Is(Apply(s, Op.Insert(batch, added)))
      ensures Engaged(Next(ids.hash, e, Request.Insert(batch, values)))
      ensures log == old(log) + Heard(listener, Emitted(s, Op.Insert(batch, added)))
      ensures fresh(Footprint() - old(Footprint()))
    {
      hide Heard, Is, Engaged, Footprint, Unique, Owed, Served, Next, Drives, Answers, View, Carries;
      IdsAreValid(s);
      EngineDrives(s, e);
      added := AddAll(batch, values, s, e);
      RequestIsRight(ids.hash, e, s, Request.Insert(batch, values), Op.Insert(batch, added));
      IdsAreValid(Stores.Inserted(s, batch, added));
      EmitInsert(ids.keys.count - |batch|, |batch|, Stores.Inserted(s, batch, added));
    }

    method AddAll(batch: seq<Uint64>, values: Batch<T>, ghost s: Store<T>, ghost e: Engine) returns (ghost added: seq<seq<T>>)
      requires Is(s) && Engaged(e) && Permitted(ids.hash, e, Request.Insert(batch, values))
      modifies ids`chains, ids.keys, ids.next, ids.heads, ids.keys.data, ids.heads.data, ids.next.data
      modifies set c | c in data.columns :: c.main, set c | c in data.columns :: c.main.data
      ensures Answers(Request.Insert(batch, values), Op.Insert(batch, added))
      ensures Is(Stores.Inserted(s, batch, added)) && Engaged(Next(ids.hash, e, Request.Insert(batch, values)))
      ensures fresh(Footprint() - old(Footprint()))
    {
      hide HasIds, IndexIs, Unique, View, Footprint, Block.RoomsAre, Block.Holds, Apart, AllFree, PushedN, RoomGrown, RoomFor, Next;
      EngineDrives(s, e);
      AfterInsert(ids.hash, e, batch, values);
      AddIds(batch, s, e);
      added := AddRows(batch, values, s, e.(index := PushedN(ids.hash, e.index, batch)));
      InsertRefines(s, batch, added);
      assert allocated(Footprint());
    }

    twostate lemma OwnsMore()
      requires fresh(ids.Repr() - old(ids.Repr())) && data.OwnBlocks()
      ensures fresh(Footprint() - old(Footprint()))
    {
      hide Block.OwnBlocks, Block.Footprint;
      data.OwnsMore();
    }

    twostate lemma StaysApart()
      requires old(Apart()) && ids.Repr() == old(ids.Repr()) && data.OwnBlocks()
      ensures Apart()
    {
      hide Column.Repr;
      forall c | 0 <= c < |data.columns|
        ensures ApartFrom(data.columns[c])
      {
        assert old(ApartFrom(data.columns[c])) && data.OwnBlocksAt(c);
      }
    }

    /** Insert without a table of column buffers. The count the columns are resized to
        counts the new rows twice, so that ids and columns stay level exactly when nothing
        is inserted. */
    method InsertWithoutData(batch: seq<Uint64>, ghost s: Store<T>, ghost e: Engine)
      requires Is(s) && Engaged(e) && |s.ids| + |batch| <= LIMIT
      requires forall c :: 0 <= c < |s.cols| ==>
        RoomFor(e.rooms[c], |s.ids| + 2 * |batch|) && (|s.ids| + 2 * |batch|) * e.rooms[c].elemSize < WORD32
      modifies this`log
      modifies ids`chains, ids.keys, ids.next, ids.heads, ids.keys.data, ids.heads.data, ids.next.data
      modifies set c | c in data.columns :: c.main
      ensures ids.keys.count == |s.ids| + |batch| && data.Held()
      ensures forall c :: 0 <= c < |s.cols| ==> data.Resized(c, s.cols[c], |s.ids| + 2 * |batch|)
      ensures forall c :: 0 <= c < |s.cols| ==> (data.columns[c].main.count == ids.keys.count <==> batch == [])
      ensures log == old(log) + Heard(listener, [Emission(OnInsert(|s.ids|, |batch|), Store(s.ids + batch, data.Cols()))])
    {
      hide Heard, Is, Engaged, RoomFor, Block.Held, Block.Resized;
      IdsAreColumns(s);
      DoubleRows(batch, s, e);
      EmitInsert(ids.keys.count - |batch|, |batch|, Store(s.ids + batch, data.Cols()));
    }

    method DoubleRows(batch: seq<Uint64>, ghost s: Store<T>, ghost e: Engine)
      requires Is(s) && Engaged(e) && |s.ids| + |batch| <= LIMIT
      requires forall c :: 0 <= c < |s.cols| ==>
        RoomFor(e.rooms[c], |s.ids| + 2 * |batch|) && (|s.ids| + 2 * |batch|) * e.rooms[c].elemSize < WORD32
      modifies ids`chains, ids.keys, ids.next, ids.heads, ids.keys.data, ids.heads.data, ids.next.data
      modifies set c | c in data.columns :: c.main
      ensures ids.keys.count == |s.ids| + |batch| && data.Held()
      ensures forall c :: 0 <= c < |s.cols| ==> data.Resized(c, s.cols[c], |s.ids| + 2 * |batch|)
      ensures forall c :: 0 <= c < |s.cols| ==> data.columns[c].main.count == |s.ids| + 2 * |batch|
    {
      hide HasIds, IndexIs, AllFree, Apart, Aligned, Footprint, PushedN, RoomFor;
      hide Block.Resized, Block.Holds, Block.RoomsAre;
      EngineDrives(s, e);
      AddIds(batch, s, e);
      IdsOnly(Store(s.ids + batch, s.cols));
      ResizeRows(ids.keys.count + |batch|, s, e.rooms);
    }

    method ResizeRows(n: nat, ghost s: Store<T>, ghost rooms: seq<Room>)
      requires data.Holds(s.cols) && Apart() && data.RoomsAre(rooms) && AllFree()
      requires forall c :: 0 <= c < |s.cols| ==> RoomFor(rooms[c], n) && n * rooms[c].elemSize < WORD32
      modifies set c | c in data.columns :: c.main
      ensures ids.keys.count == old(ids.keys.count) && data.Held()
      ensures forall c :: 0 <= c < |s.cols| ==> data.Resized(c, s.cols[c], n) && data.columns[c].main.count == n
    {
      hide Protocols.Inv, Block.Is, Block.RoomIs, RoomFor;
      data.Resize(n, s.cols, rooms);
      forall c | 0 <= c < |s.cols|
        ensures data.columns[c].main.Holds() && data.columns[c].main.count == n
      {
        assert data.Resized(c, s.cols[c], n);
      }
    }

    method AddIds(batch: seq<Uint64>, ghost s: Store<T>, ghost e: Engine)
      requires HasIds(s.ids) && data.Holds(s.cols) && Apart() && |s.ids| + |batch| <= LIMIT
      requires Engaged(e) && e.index.keys == s.ids
      modifies ids`chains, ids.keys, ids.next, ids.heads, ids.keys.data, ids.heads.data, ids.next.data
      ensures HasIds(s.ids + batch) && data.Holds(s.cols) && Apart()
      ensures Engaged(e.(index := PushedN(ids.hash, e.index, batch)))
      ensures forall c :: c in data.columns ==> c.main.data == old(c.main.data)
      ensures fresh(Footprint() - old(Footprint()))
    {
      hide Threads, Descending, PushedN, Block.Footprint, Block.Is, Block.RoomIs, Block.FreeAt, Block.Separate;
      ids.PushBackN(batch);
    }

    method AddRows(batch: seq<Uint64>, values: Batch<T>, ghost s: Store<T>, ghost e: Engine) returns (ghost added: seq<seq<T>>)
      requires Aligned(s) && HasIds(s.ids + batch) && data.Holds(s.cols) && Apart()
      requires IndexIs(e.index) && data.RoomsAre(e.rooms) && AllFree()
      requires |values| == |s.cols| && forall c :: 0 <= c < |values| && values[c].Some? ==> |values[c].value| == |batch|
      requires AllSized(e.rooms, |s.ids| + |batch|) && forall c :: 0 <= c < |s.cols| ==> RoomFor(e.rooms[c], |s.ids| + |batch|)
      modifies set c | c in data.columns :: c.main, set c | c in data.columns :: c.main.data
      ensures |added| == |s.cols| && forall c :: 0 <= c < |s.cols| ==> |added[c]| == |batch|
      ensures forall c :: 0 <= c < |s.cols| && values[c].Some? ==> added[c] == values[c].value
      ensures HasIds(s.ids + batch) && data.Holds(Stores.Inserted(s, batch, added).cols) && Apart()
      ensures IndexIs(e.index) && AllFree()
      ensures |e.rooms| == |s.cols| && data.RoomsAre(RoomsGrown(e.rooms, values, |s.ids| + |batch|))
      ensures fresh(Footprint() - old(Footprint()))
    {
      hide HasIds, IndexIs, Footprint, Block.Is, Block.FreeAt, Block.RoomIs, RoomFor, RoomGrown;
      added := data.PushBack(values, |batch|, s.cols, |s.ids|, e.rooms);
      OwnsMore();
      StaysApart();
    }

    // ---------- Updating ----------

    /** The update callback on one run. */
    method UpdateRun(r: Run, values: Batch<T>, ghost s: Store<T>)
      requires Is(s) && r.begin + r.count <= |s.ids| && Covers(values, |s.cols|, r.pos + r.count)
      requires r.pos < INVALID && FreeWhereWritten(values)
      modifies this`log, set c | c in data.columns :: c.main.data
      ensures Is(UpdatedRun(s, values, r)) && FreeWhereWritten(values)
      ensures log == old(log) + Heard(listener, [UpdateEmission(s, values, r)])
    {
      hide Heard, MaskUpTo, Unique, HasIds, Apart, Block.Holds, UpdatedRun, FreeWhereWritten;
      if r.pos != INVALID {
        var mask := OverlayColumns(r, values, s);
        EmitUpdate(mask, r.begin, r.count, UpdatedRun(s, values, r));
      }
    }

    method OverlayColumns(r: Run, values: Batch<T>, ghost s: Store<T>) returns (mask: nat)
      requires Aligned(s) && HasIds(s.ids) && Apart() && data.Holds(s.cols)
      requires r.begin + r.count <= |s.ids| && Covers(values, |s.cols|, r.pos + r.count) && FreeWhereWritten(values)
      modifies set c | c in data.columns :: c.main.data
      ensures HasIds(s.ids) && Apart() && data.Holds(UpdatedRun(s, values, r).cols) && FreeWhereWritten(values)
      ensures mask == MaskUpTo(values, |values|)
    {
      hide Threads, Overlaid, Block.Is, MaskUpTo;
      mask := data.Update(values, r.pos, r.begin, r.count, s.cols);
    }

    /** No session is open on the columns that come with data. */
    ghost predicate FreeWhereWritten(values: Batch<T>)
      reads data, data.columns
    {
      |values| == |data.columns| && forall c :: 0 <= c < |values| && values[c].Some? ==> data.FreeAt(c)
    }

    /** The whole batch, run by run; the caller owes ids that are present. */
    method Update(batch: seq<Uint64>, values: Batch<T>, ghost s: Store<T>)
      requires Is(s) && Allowed(s, Op.Update(batch, values)) && |batch| <= INVALID && FreeWhereWritten(values)
      modifies this`log, set c | c in data.columns :: c.main.data
      ensures Is(Apply(s, Op.Update(batch, values)))
      ensures log == old(log) + Heard(listener, Emitted(s, Op.Update(batch, values)))
    {
      hide Allowed, Apply, Emitted, Updating, Heard, UpdatedBy, UpdateEmissions, Runs, NextRun;
      hide UpdatedRun, Present, Unique, Descending, Threads, Is;
      IdsAreValid(s);
      UpdateIs(s, batch, values);
      UpdateStarts(listener, s, batch, values);
      ghost var cur, told := s, [];
      var i := 0;
      while i < |batch|
        invariant Updating(listener, s, batch, values, cur, i, told)
        invariant Is(cur) && FreeWhereWritten(values) && log == old(log) + told
        decreases |batch| - i
      {
        IdsAreValid(cur);
        UpdateTurn(listener, s, batch, values, cur, i, told);
        var r := FindRun(batch, i);
        UpdateRun(r, values, cur);
        told := told + Heard(listener, [UpdateEmission(cur, values, r)]);
        cur := UpdatedRun(cur, values, r);
        i := i + r.count;
      }
      UpdateEnds(listener, s, batch, values, cur, i, told);
    }

    // ---------- Removing ----------

    /** The remove callback on one run: the listener first, then ids and columns. */
    method RemoveRun(r: Run, ghost s: Store<T>, ghost e: Engine)
      requires Is(s) && Engaged(e) && e.index.keys == s.ids
      requires r.begin + r.count <= |s.ids| && r.pos < INVALID
      requires r.count <= 1 || Movable(HoleIn(ids.hash, e.index, r.begin, r.count))
      modifies this`log
      modifies ids`chains, ids.keys`count, ids.next`count, ids.keys.data, ids.heads.data, ids.next.data
      modifies (set c | c in data.columns :: c.main)`count, set c | c in data.columns :: c.main.data
      ensures Is(CutRows(s, r.begin, r.count)) && Engaged(e.(index := Removed(e.index, r.begin, r.count)))
      ensures log == old(log) + Heard(listener, [Emission(OnRemove(r.begin, r.count), s)])
    {
      hide Heard, Movable, RemovedChains, CutFast, Unique, Block.Is, HasIds, IndexIs, AllFree, Block.RoomsAre;
      if r.pos != INVALID {
        EmitRemove(r.begin, r.count, s);
        CutIds(r.begin, r.count, s, e);
        CutColumns(r.begin, r.count, s, e.(index := Removed(e.index, r.begin, r.count)));
      }
    }

    method CutIds(pos: nat, n: nat, ghost s: Store<T>, ghost e: Engine)
      requires HasIds(s.ids) && data.Holds(s.cols) && Apart() && Engaged(e) && e.index.keys == s.ids && pos + n <= |s.ids|
      requires n <= 1 || Movable(HoleIn(ids.hash, e.index, pos, n))
      modifies ids`chains, ids.keys`count, ids.next`count, ids.keys.data, ids.heads.data, ids.next.data
      ensures HasIds(CutFast(s.ids, pos, n)) && data.Holds(s.cols) && Apart()
      ensures Engaged(e.(index := Removed(e.index, pos, n)))
    {
      hide Threads, Movable, RemovedChains, CutFast, Descending, Block.Is, Block.RoomIs, Block.FreeAt, Block.Separate;
      ids.ChainPerBucket();
      assert ids.HoleAt(pos, n) == HoleIn(ids.hash, e.index, pos, n);
      ids.RemoveFast(pos, n);
    }

    method CutColumns(pos: nat, n: nat, ghost s: Store<T>, ghost e: Engine)
      requires WellFormed(s) && pos + n <= |s.ids|
      requires HasIds(CutFast(s.ids, pos, n)) && data.Holds(s.cols) && Apart() && Engaged(e)
      modifies (set c | c in data.columns :: c.main)`count, set c | c in data.columns :: c.main.data
      ensures Is(CutRows(s, pos, n)) && Engaged(e)
    {
      hide CutFast, Unique, Block.Is, HasIds, IndexIs, Block.FreeAt, Block.RoomIs;
      data.RemoveFast(pos, n, s.cols, e.rooms);
      StaysApart();
      CutStaysUnique(s.ids, pos, n);
    }

    /** The whole batch, run by run: distinct ids that are present, each run one id or rows
        that can be moved. */
    method Remove(batch: seq<Uint64>, ghost s: Store<T>, ghost e: Engine)
      requires Is(s) && Engaged(e) && e.index.keys == s.ids
      requires Allowed(s, Op.Remove(batch)) && |batch| <= INVALID && Removable(ids.hash, e.index, batch, 0)
      modifies this`log
      modifies ids`chains, ids.keys`count, ids.next`count, ids.keys.data, ids.heads.data, ids.next.data
      modifies (set c | c in data.columns :: c.main)`count, set c | c in data.columns :: c.main.data
      ensures Is(Apply(s, Op.Remove(batch))) && Engaged(e.(index := RemovedAll(e.index, batch, 0)))
      ensures log == old(log) + Heard(listener, Emitted(s, Op.Remove(batch)))
    {
      hide Allowed, Apply, Emitted, Removing, Heard, RemovedBy, RemoveEmissions, RemovalRuns, NextRun, Unique, Present, Descending, Threads;
      hide Removable, RemovedAll, CutRows, Movable, CutFast, RemovedChains, Is, Engaged;
      IdsAreValid(s);
      RemoveIs(s, batch);
      RemoveStarts(ids.hash, listener, s, e.index, batch);
      ghost var cur, x, told := s, e.index, [];
      var i := 0;
      while i < |batch|
        invariant Removing(ids.hash, listener, s, e.index, batch, cur, x, i, told)
        invariant Is(cur) && Engaged(e.(index := x)) && log == old(log) + told
        decreases |batch| - i
      {
        IdsAreValid(cur);
        RemoveTurn(ids.hash, listener, s, e.index, batch, cur, x, i, told);
        var r := FindRun(batch, i);
        RemoveRun(r, cur, e.(index := x));
        told := told + Heard(listener, [Emission(OnRemove(r.begin, r.count), cur)]);
        cur, x := CutRows(cur, r.begin, r.count), Removed(x, r.begin, r.count);
        i := i + r.count;
      }
      RemoveEnds(ids.hash, listener, s, e.index, batch, cur, x, i, told);
    }

    // ---------- Publishing ----------

    /** Ends a write: whatever the writer left behind the pointer becomes the column, and
        the whole column is announced under its own bit. */
    method EndWrite(ptr: array<T>, ghost s: Store<T>, ghost ss: seq<Protocols.Sharing<array<T>, T>>, ghost e: Engine)
      returns (index: Uint32, ghost contents: seq<T>)
      requires Is(s) && data.AllIn(ss) && IndexIs(e.index) && data.RoomsAre(e.rooms) && |data.columns| < INVALID
      requires forall c :: 0 <= c < |data.columns| ==> Protocols.Enabled(ss[c], Protocols.Op.EndWrite(ptr))
      modifies this`log, data.columns
      modifies (set c | c in data.columns :: c.main)`data, (set c | c in data.columns :: c.back)`data
      ensures IndexIs(e.index) && Footprint() == old(Footprint())
      ensures index == INVALID ==> Is(s) && log == old(log) && forall c :: 0 <= c < |ss| ==> !Owns(ss[c], ptr)
      ensures index != INVALID ==>
        && index < |s.cols| && Owns(ss[index], ptr) && ptr in ss[index].data && contents == ss[index].data[ptr]
        && Allowed(s, Op.Publish(index, contents)) && Is(Apply(s, Op.Publish(index, contents)))
        && data.AllIn(ss[index := Protocols.Step(ss[index], Protocols.Op.EndWrite(ptr))])
        && data.RoomsAre(e.rooms[index := if ptr == ss[index].back then RoomSwapped(e.rooms[index]) else e.rooms[index]])
        && log == old(log) + Heard(listener, Emitted(s, Op.Publish(index, contents)))
    {
      hide Heard, Allowed, Apply, Emitted, Pow2, Protocols.Enabled, Protocols.Step, Owns, Is, IndexIs, Footprint, Block.RoomsAre, Block.AllIn;
      IdsAreColumns(s);
      index, contents := Publish(ptr, s, ss, e);
      if index != INVALID {
        IdsAreValid(Published(s, index, contents));
        PublishIs(s, index, contents);
        EmitUpdate(Pow2(index), 0, ids.keys.count, Published(s, index, contents));
      }
    }

    method Publish(ptr: array<T>, ghost s: Store<T>, ghost ss: seq<Protocols.Sharing<array<T>, T>>, ghost e: Engine)
      returns (index: Uint32, ghost contents: seq<T>)
      requires Is(s) && data.AllIn(ss) && IndexIs(e.index) && data.RoomsAre(e.rooms) && |data.columns| < INVALID
      requires forall c :: 0 <= c < |data.columns| ==> Protocols.Enabled(ss[c], Protocols.Op.EndWrite(ptr))
      modifies data.columns
      modifies (set c | c in data.columns :: c.main)`data, (set c | c in data.columns :: c.back)`data
      ensures IndexIs(e.index) && Footprint() == old(Footprint())
      ensures index == INVALID ==> Is(s) && forall c :: 0 <= c < |ss| ==> !Owns(ss[c], ptr)
      ensures index != INVALID ==>
        && index < |s.cols| && Owns(ss[index], ptr) && ptr in ss[index].data && contents == ss[index].data[ptr]
        && |contents| == |s.ids| && Is(Published(s, index, contents))
        && data.AllIn(ss[index := Protocols.Step(ss[index], Protocols.Op.EndWrite(ptr))])
        && data.RoomsAre(e.rooms[index := if ptr == ss[index].back then RoomSwapped(e.rooms[index]) else e.rooms[index]])
    {
      hide Protocols.Step, Protocols.Enabled, Owns, Unique, Aligned, Published, Block.AllIn, Block.RoomsAre, Block.Holds;
      hide HasIds, IndexIs, Apart, Footprint, ColsIn, MainsHeld, HandsOver;
      PublishReady(ptr, s, ss);
      contents := [];
      index := SwapBlocks(ptr, s, ss, e);
      if index != INVALID {
        contents := ss[index].data[ptr];
        PublishedCols(s, ss, index, ptr);
        data.ColumnsOf(ss[index := Protocols.Step(ss[index], Protocols.Op.EndWrite(ptr))]);
      } else {
        data.ColumnsOf(ss);
      }
    }

    method SwapBlocks(ptr: array<T>, ghost s: Store<T>, ghost ss: seq<Protocols.Sharing<array<T>, T>>, ghost e: Engine) returns (index: Uint32)
      requires HasIds(s.ids) && Apart() && data.AllIn(ss) && IndexIs(e.index) && data.RoomsAre(e.rooms) && |data.columns| < INVALID
      requires forall c :: 0 <= c < |data.columns| ==> Protocols.Enabled(ss[c], Protocols.Op.EndWrite(ptr))
      modifies data.columns
      modifies (set c | c in data.columns :: c.main)`data, (set c | c in data.columns :: c.back)`data
      ensures HasIds(s.ids) && Apart() && IndexIs(e.index) && Footprint() == old(Footprint())
      ensures index == INVALID ==> data.AllIn(ss) && forall c :: 0 <= c < |ss| ==> !Owns(ss[c], ptr)
      ensures index != INVALID ==>
        && index < |ss| && Owns(ss[index], ptr)
        && data.AllIn(ss[index := Protocols.Step(ss[index], Protocols.Op.EndWrite(ptr))])
        && data.RoomsAre(e.rooms[index := if ptr == ss[index].back then RoomSwapped(e.rooms[index]) else e.rooms[index]])
    {
      hide Protocols.Step, Protocols.Enabled, Owns, Block.In, Block.Separate, Block.RoomIs;
      hide Block.Footprint, Block.OwnBlocks, Block.Sits;
      index := data.EndWrite(ptr, ss, e.rooms);
      data.SameOwners();
      StaysApart();
    }

    /** A whole write: begin_write, the caller's stores, end_write. */
    method Rewrite(column: nat, mode: Protocols.Mode, contents: seq<T>, ghost s: Store<T>, ghost e: Engine)
      requires Is(s) && Engaged(e) && Permitted(ids.hash, e, Request.Rewrite(column, mode, contents))
      modifies this`log, Footprint()
      ensures Allowed(s, Op.Publish(column, contents)) && Is(Apply(s, Op.Publish(column, contents)))
      ensures Engaged(Next(ids.hash, e, Request.Rewrite(column, mode, contents)))
      ensures listener == old(listener)
      ensures log == old(log) + Heard(listener, Emitted(s, Op.Publish(column, contents)))
      ensures fresh(Footprint() - old(Footprint()))
    {
      hide Heard, Is, Engaged, Footprint, WellFormed, Published, DraftedRows, DraftedRooms, Next;
      hide Block.Drafted, Block.RoomsAre, Block.FreeAt, IndexIs;
      IdsAreColumns(s);
      IdsAreValid(s);
      EngineDrives(s, e);
      OwnsAll();
      DraftIsPublished(s, column, mode, contents);
      DraftedNext(ids.hash, e, column, mode, contents);
      var ptr := Draft(column, mode, contents, s, e);
      FinishWrite(column, mode, ptr, contents, DraftedRows(s, column, mode, contents), e.(rooms := DraftedRooms(e, column, mode)));
    }

    /** end_write of a draft. */
    method FinishWrite(column: nat, mode: Protocols.Mode, ptr: array<T>, contents: seq<T>, ghost s: Store<T>, ghost e: Engine)
      requires Is(s) && column < |s.cols| < INVALID && mode != Protocols.Idle && data.Drafted(column, mode, ptr, contents)
      requires IndexIs(e.index) && data.RoomsAre(e.rooms) && forall c :: 0 <= c < |data.columns| && c != column ==> data.FreeAt(c)
      modifies this`log, data.columns
      modifies (set c | c in data.columns :: c.main)`data, (set c | c in data.columns :: c.back)`data
      ensures Allowed(s, Op.Publish(column, contents)) && Is(Apply(s, Op.Publish(column, contents)))
      ensures Footprint() == old(Footprint()) && Engaged(e.(rooms :=
        e.rooms[column := if mode == Protocols.Buffered then RoomSwapped(e.rooms[column]) else e.rooms[column]]))
      ensures log == old(log) + Heard(listener, Emitted(s, Op.Publish(column, contents)))
    {
      hide Heard, Is, IndexIs, Block.AllIn, Block.RoomsAre, Protocols.Enabled, Protocols.Step, Owns, NoSessions;
      IdsAreColumns(s);
      ghost var ss := StatesOf(s);
      data.DraftIsHeld(column, mode, ptr, contents, ss);
      var index, _ := EndWrite(ptr, s, ss, e);
      data.FreeIn(ss[column := Protocols.Step(ss[column], Protocols.Op.EndWrite(ptr))]);
    }

    /** begin_write and the stores. */
    method Draft(column: nat, mode: Protocols.Mode, contents: seq<T>, ghost s: Store<T>, ghost e: Engine) returns (ptr: array<T>)
      requires Is(s) && Engaged(e) && Permitted(ids.hash, e, Request.Rewrite(column, mode, contents)) && Drives(e, s)
      modifies data.columns[column], data.columns[column].back, data.columns[column].main.data, data.columns[column].back.data
      ensures Is(DraftedRows(s, column, mode, contents)) && IndexIs(e.index) && data.RoomsAre(DraftedRooms(e, column, mode))
      ensures fresh(Footprint() - old(Footprint()))
      ensures data.Drafted(column, mode, ptr, contents) && forall c :: 0 <= c < |data.columns| && c != column ==> data.FreeAt(c)
    {
      hide HasIds, IndexIs, Unique, DraftedRows, Footprint, Block.Is, Block.FreeAt, Block.RoomIs, Block.Drafted, Block.OwnBlocks;
      DraftIsPublished(s, column, mode, contents);
      ptr := data.Draft(column, mode, contents, s.cols, e.rooms);
      OwnsMore();
      StaysApart();
    }

    // ---------- Whole runs ----------

    method ServeUpdate(batch: seq<Uint64>, values: Batch<T>, ghost s: Store<T>, ghost e: Engine)
      requires Is(s) && Engaged(e) && Permitted(ids.hash, e, Request.Update(batch, values)) && Drives(e, s)
      modifies this`log, set c | c in data.columns :: c.main.data
      ensures Is(Apply(s, Op.Update(batch, values))) && Engaged(e) && Footprint() == old(Footprint())
      ensures log == old(log) + Heard(listener, Emitted(s, Op.Update(batch, values)))
    {
      hide HasIds, Block.Holds, Block.FreeAt, Block.RoomsAre, Block.Footprint, Heard, UpdatedBy, UpdateEmissions, Runs, Present;
      IdsAreColumns(s);
      Update(batch, values, s);
    }

    method ServeRemove(batch: seq<Uint64>, ghost s: Store<T>, ghost e: Engine)
      requires Is(s) && Engaged(e) && Permitted<T>(ids.hash, e, Request.Remove(batch)) && Drives(e, s)
      modifies this`log
      modifies ids`chains, ids.keys`count, ids.next`count, ids.keys.data, ids.heads.data, ids.next.data
      modifies (set c | c in data.columns :: c.main)`count, set c | c in data.columns :: c.main.data
      ensures Is(Apply(s, Op.Remove(batch))) && Engaged(e.(index := RemovedAll(e.index, batch, 0)))
      ensures Footprint() == old(Footprint())
      ensures log == old(log) + Heard(listener, Emitted(s, Op.Remove(batch)))
    {
      hide Is, Engaged, Heard, RemovedBy, RemoveEmissions, RemovalRuns, RemovedAll, Removable, Unique, Present;
      Remove(batch, s, e);
      assert forall c: Column<T> :: c in data.columns ==> c.Repr() == old(c.Repr());
    }

    /** One request, carried out. */
    method Serve(req: Request<T>, ghost s: Store<T>, ghost e: Engine) returns (ghost op: Op<T>)
      requires Is(s) && Engaged(e) && Permitted(ids.hash, e, req)
      modifies this`log, Footprint()
      ensures Answers(req, op) && Allowed(s, op) && Is(Apply(s, op)) && Engaged(Next(ids.hash, e, req))
      ensures listener == old(listener)
      ensures log == old(log) + Heard(listener, Emitted(s, op))
      ensures fresh(Footprint() - old(Footprint()))
    {
      hide Is, Engaged, Footprint, Heard, Apply, Emitted;
      IdsAreValid(s);
      EngineDrives(s, e);
      OwnsAll();
      match req
      case Insert(batch, values) =>
        ghost var added := Insert(batch, values, s, e);
        op := Op.Insert(batch, added);
      case Update(batch, values) =>
        ServeUpdate(batch, values, s, e);
        op := Op.Update(batch, values);
      case Remove(batch) =>
        ServeRemove(batch, s, e);
        op := Op.Remove(batch);
      case Rewrite(column, mode, contents) =>
        Rewrite(column, mode, contents, s, e);
        op := Op.Publish(column, contents);
    }

    /** A whole run: whatever can be carried out from here ends in the rows and the
        emissions that the run of operations gives. */
    method Perform(reqs: seq<Request<T>>, ghost s: Store<T>, ghost e: Engine) returns (ghost ops: seq<Op<T>>)
      requires Is(s) && Engaged(e) && AllPermitted(ids.hash, e, reqs)
      modifies this`log, Footprint()
      ensures AllAnswer(reqs, ops) && AllAllowed(s, ops) && Is(RunOps(s, ops)) && Engaged(RunEngine(ids.hash, e, reqs))
      ensures listener == old(listener)
      ensures log == old(log) + Heard(listener, RunEmitted(s, ops))
      ensures fresh(Footprint() - old(Footprint()))
      decreases |reqs|
    {
      hide Is, Engaged, Footprint, Heard, Apply, Emitted, Owed, Served, Next, Answers, Allowed;
      ops := [];
      if reqs != [] {
        IdsAreValid(s);
        ghost var op := Serve(reqs[0], s, e);
        ghost var rest := Perform(reqs[1..], Apply(s, op), Next(ids.hash, e, reqs[0]));
        ops := [op] + rest;
        FirstOfRun(listener, s, reqs, op, rest);
        ghost var told, more := Heard(listener, Emitted(s, op)), Heard(listener, RunEmitted(Apply(s, op), rest));
        assert old(log) + told + more == old(log) + (told + more);
        assert allocated(Footprint());
      } else {
        NothingHeard<T>(listener);
      }
    }

    lemma OwnsAll()
      ensures ids.Repr() <= Footprint()
      ensures forall c: Column<T> :: c in data.columns ==>
        c in Footprint() && c.main in Footprint() && c.back in Footprint()
        && c.main.data in Footprint() && c.back.data in Footprint()
    {
      forall c: Column<T> | c in data.columns
        ensures c in Footprint() && c.main in Footprint() && c.back in Footprint()
        ensures c.main.data in Footprint() && c.back.data in Footprint()
      {
        assert c in c.Repr() && c.main in c.Repr() && c.back in c.Repr() && c.main.data in c.Repr() && c.back.data in c.Repr();
      }
    }

    /** What the columns hold is what their states say, and the owner of the pointer is
        ready to hand it over. */
    lemma PublishReady(ptr: array<T>, s: Store<T>, ss: seq<Protocols.Sharing<array<T>, T>>)
      requires Is(s) && data.AllIn(ss)
      requires forall c :: 0 <= c < |data.columns| ==> Protocols.Enabled(ss[c], Protocols.Op.EndWrite(ptr))
      ensures |ss| == |data.columns| && MainsHeld(ss) && s.cols == ColsIn(ss) && Aligned(s)
      ensures forall c :: 0 <= c < |ss| && Owns(ss[c], ptr) ==> HandsOver(ss[c], ptr) && ptr in ss[c].data
    {
      hide Protocols.Inv, Protocols.Enabled, Protocols.Step, Owns, Unique, Block.In, Block.Is, HasIds;
      data.ColumnsOf(ss);
      data.HoldsOne(s.cols, ColsIn(ss));
      forall c | 0 <= c < |ss| && Owns(ss[c], ptr)
        ensures HandsOver(ss[c], ptr)
      {
        data.WriterFills(c, ss[c], ptr);
      }
    }

    lemma IdsAreColumns(s: Store<T>)
      requires Is(s)
      ensures |s.cols| == |data.columns| && Aligned(s) && |s.ids| <= LIMIT
    {
    }

    lemma StatesOf(s: Store<T>) returns (ss: seq<Protocols.Sharing<array<T>, T>>)
      requires Is(s)
      ensures data.AllIn(ss)
    {
      forall c | 0 <= c < |data.columns|
        ensures data.columns[c].Valid()
      {
        assert data.Is(c, s.cols[c]);
      }
      ss := data.States();
    }

    lemma EngineDrives(s: Store<T>, e: Engine)
      requires Is(s) && Engaged(e)
      ensures Drives(e, s)
    {
    }

    lemma IdsOnly(s: Store<T>)
      requires HasIds(s.ids)
      ensures ids.keys.count == |s.ids| <= LIMIT
    {
    }

    lemma IdsAreValid(s: Store<T>)
      requires Is(s)
      ensures ids.Valid() && ids.Keys() == s.ids && WellFormed(s) && ids.keys.count == |s.ids| <= LIMIT
    {
    }
  }

  /** The rows while a writer holds the column: a direct writer's stores show at once. */
  function DraftedRows<T>(s: Store<T>, column: nat, mode: Protocols.Mode, contents: seq<T>): Store<T>
    requires column < |s.cols|
  {
    if mode == Protocols.Direct then Published(s, column, contents) else s
  }

  lemma DraftedNext<T>(hash: Uint64 -> Uint64, e: Engine, column: nat, mode: Protocols.Mode, contents: seq<T>)
    requires Owed(e, Request.Rewrite(column, mode, contents))
    ensures var d := DraftedRooms(e, column, mode);
      |d| == |e.rooms| && Next(hash, e, Request.Rewrite(column, mode, contents))
        == Engine(e.index, d[column := if mode == Protocols.Buffered then RoomSwapped(d[column]) else d[column]])
  {
  }

  lemma DraftIsPublished<T>(s: Store<T>, column: nat, mode: Protocols.Mode, contents: seq<T>)
    requires WellFormed(s) && column < |s.cols| && |contents| == |s.ids|
    ensures var d := DraftedRows(s, column, mode, contents);
      WellFormed(d) && |d.cols| == |s.cols| && d.cols == (if mode == Protocols.Direct then s.cols[column := contents] else s.cols) && d.ids == s.ids
      && Published(d, column, contents) == Published(s, column, contents)
      && PublishEmissions(d, column, contents) == PublishEmissions(s, column, contents)
  {
  }

  function DraftedRooms(e: Engine, column: nat, mode: Protocols.Mode): seq<Room>
    requires column < |e.rooms|
  {
    if mode == Protocols.Buffered then e.rooms[column := RoomPrepared(e.rooms[column], |e.index.keys|)] else e.rooms
  }

  lemma {:induction false} AllHeard<T>(listener: Option<Listener>, es: seq<Emission<T>>)
    requires listener == Some(Listener(true, true, true))
    ensures Heard(listener, es) == es
  {
    if es != [] {
      AllHeard(listener, es[1..]);
    }
  }

  /** What a listener with every hook has heard at the end of a permitted run is enough to
      take a mirror from the first rows to the last. */
  lemma ListenerFollowsEveryRun<T>(listener: Option<Listener>, hash: Uint64 -> Uint64, e: Engine, s: Store<T>, reqs: seq<Request<T>>, ops: seq<Op<T>>)
    requires listener == Some(Listener(true, true, true))
    requires WellFormed(s) && Drives(e, s) && AllPermitted(hash, e, reqs) && AllAnswer(reqs, ops)
    ensures AllAllowed(s, ops) && Carries(s, Heard(listener, RunEmitted(s, ops)), RunOps(s, ops))
  {
    hide Carries, AllPermitted;
    MirrorFollowsEveryRun(hash, e, s, reqs, ops);
    AllHeard(listener, RunEmitted(s, ops));
  }

  /** dsim_hash_storage_init: an empty storage that can be run from. */
  method StorageFor<T(0)>(hash: Uint64 -> Uint64, sizes: seq<nat>)
    returns (st: HashStorage<T>, ghost s: Store<T>, ghost e: Engine)
    requires forall i :: 0 <= i < |sizes| ==> sizes[i] >= 1
    ensures st.Is(s) && s.ids == [] && st.ids.hash == hash && st.listener == None && st.log == []
    ensures st.Engaged(e) && Full(e) && e.index == Index([], [], 0)
    ensures |e.rooms| == |sizes| && forall c :: 0 <= c < |sizes| ==> e.rooms[c] == Room(sizes[c], 0, 0, 0, 0)
  {
    hide Block.Holds, Block.FreeAt, Block.RoomIs;
    var data, cols := BlockFor<T>(sizes);
    ghost var rooms := seq(|sizes|, c requires 0 <= c < |sizes| => Room(sizes[c], 0, 0, 0, 0));
    e := Engine(Index([], [], 0), rooms);
    s := Store([], cols);
    st := new HashStorage(hash, data, cols);
  }

  lemma PublishedCols<B, T>(s: Store<T>, ss: seq<Protocols.Sharing<B, T>>, index: nat, ptr: B)
    requires Aligned(s) && MainsHeld(ss) && s.cols == ColsIn(ss) && index < |ss|
    requires Protocols.Enabled(ss[index], Protocols.Op.EndWrite(ptr)) && HandsOver(ss[index], ptr)
    ensures var after := ss[index := Protocols.Step(ss[index], Protocols.Op.EndWrite(ptr))];
      |s.cols| == |ss| && |ss[index].data[ptr]| == |s.ids| && MainsHeld(after)
      && Aligned(Published(s, index, ss[index].data[ptr])) && Published(s, index, ss[index].data[ptr]).ids == s.ids
      && ColsIn(after) == Published(s, index, ss[index].data[ptr]).cols
  {
    hide Protocols.Enabled, Protocols.Step;
    assert |ColsIn(ss)[index]| == |s.ids|;
  }

  ghost function UpdateEmission<T>(s: Store<T>, values: Batch<T>, r: Run): Emission<T>
    requires Aligned(s)
  {
    Emission(OnUpdate(MaskUpTo(values, |values|), r.begin, r.count), UpdatedRun(s, values, r))
  }

  lemma {:induction false} HeardAppend<T>(listener: Option<Listener>, a: seq<Emission<T>>, b: seq<Emission<T>>)
    ensures Heard(listener, a + b) == Heard(listener, a) + Heard(listener, b)
    decreases |a|
  {
    hide Hears;
    if a == [] {
      assert a + b == b;
    } else {
      assert (a + b)[0] == a[0] && (a + b)[1..] == a[1..] + b;
      HeardAppend(listener, a[1..], b);
    }
  }

  /** Exactly the events for which the listener has the hook are heard. */
  lemma HeardOne<T>(listener: Option<Listener>, e: Emission<T>)
    ensures Heard(listener, [e]) ==
      if listener == None then []
      else if e.event.OnInsert? && listener.value.onInsert then [e]
      else if e.event.OnRemove? && listener.value.onRemove then [e]
      else if e.event.OnUpdate? && listener.value.onUpdate then [e]
      else []
  {
    assert [e][1..] == [];
  }

  lemma NothingHeard<T>(listener: Option<Listener>)
    ensures forall log: seq<Emission<T>> :: log + Heard<T>(listener, []) == log
  {
  }

  /** A run of operations is its first and then the rest. */
  lemma FirstOfRun<T>(listener: Option<Listener>, s: Store<T>, reqs: seq<Request<T>>, op: Op<T>, rest: seq<Op<T>>)
    requires Aligned(s) && Allowed(s, op) && AllAllowed(Apply(s, op), rest)
    ensures var ops := [op] + rest;
      && AllAllowed(s, ops) && RunOps(s, ops) == RunOps(Apply(s, op), rest)
      && Heard(listener, RunEmitted(s, ops)) == Heard(listener, Emitted(s, op)) + Heard(listener, RunEmitted(Apply(s, op), rest))
    ensures reqs != [] && Answers(reqs[0], op) && AllAnswer(reqs[1..], rest) ==> AllAnswer(reqs, [op] + rest)
  {
    hide Allowed, Apply, Emitted, Heard, Answers;
    var ops := [op] + rest;
    assert ops[0] == op && ops[1..] == rest;
    HeardAppend(listener, Emitted(s, op), RunEmitted(Apply(s, op), rest));
    if reqs != [] && AllAnswer(reqs[1..], rest) {
      assert forall k :: 0 < k < |reqs| ==> reqs[k] == reqs[1..][k - 1] && ops[k] == rest[k - 1];
    }
  }

  /** Where an update is at batch position i: the rows are `cur`, the listener has been
      told `told`, and what is still to come completes the whole. */
  ghost predicate Updating<T>(listener: Option<Listener>, s: Store<T>, batch: seq<Uint64>, values: Batch<T>,
                              cur: Store<T>, i: nat, told: seq<Emission<T>>)
    requires Aligned(s)
  {
    && WellFormed(cur) && |cur.ids| <= LIMIT && |cur.cols| == |s.cols| && cur.ids == s.ids
    && Present(cur.ids, batch) && Covers(values, |cur.cols|, |batch|)
    && UpdatedBy(cur, values, Runs(cur.ids, batch, i)) == UpdatedBy(s, values, Runs(s.ids, batch, 0))
    && told + Heard(listener, UpdateEmissions(cur, values, Runs(cur.ids, batch, i)))
       == Heard(listener, UpdateEmissions(s, values, Runs(s.ids, batch, 0)))
  }

  lemma UpdateStarts<T>(listener: Option<Listener>, s: Store<T>, batch: seq<Uint64>, values: Batch<T>)
    requires WellFormed(s) && |s.ids| <= LIMIT && Present(s.ids, batch) && Covers(values, |s.cols|, |batch|)
    ensures Updating(listener, s, batch, values, s, 0, [])
  {
    hide UpdatedBy, UpdateEmissions, Runs, Heard;
  }

  lemma UpdateTurn<T>(listener: Option<Listener>, s: Store<T>, batch: seq<Uint64>, values: Batch<T>,
                      cur: Store<T>, i: nat, told: seq<Emission<T>>)
    requires Aligned(s) && Updating(listener, s, batch, values, cur, i, told) && i < |batch|
    ensures var r := NextRun(cur.ids, batch, i);
      && WellFormed(cur) && r.pos == i && 1 <= r.count && i + r.count <= |batch|
      && r.begin + r.count <= |cur.ids| && Covers(values, |cur.cols|, r.pos + r.count)
      && Updating(listener, s, batch, values, UpdatedRun(cur, values, r), i + r.count,
                  told + Heard(listener, [UpdateEmission(cur, values, r)]))
  {
    hide NextRun, Heard, Unique, UpdatedRun, Runs, UpdatedBy, UpdateEmissions, UpdateEmission;
    var r := NextRun(cur.ids, batch, i);
    NextRunDescribes(cur.ids, batch, i);
    RunsStep(cur.ids, batch, i);
    var rest := Runs(cur.ids, batch, i + r.count);
    UpdatedByCons(cur, values, r, rest);
    UpdateEmissionsCons(cur, values, r, rest);
    HeardAppend(listener, [UpdateEmission(cur, values, r)], UpdateEmissions(UpdatedRun(cur, values, r), values, rest));
  }

  lemma UpdateEmissionsCons<T>(s: Store<T>, values: Batch<T>, r: Run, rest: seq<Run>)
    requires Aligned(s)
    ensures UpdateEmissions(s, values, [r] + rest) == [UpdateEmission(s, values, r)] + UpdateEmissions(UpdatedRun(s, values, r), values, rest)
  {
    hide UpdatedRun, MaskUpTo;
    assert ([r] + rest)[1..] == rest;
  }

  lemma UpdateEnds<T>(listener: Option<Listener>, s: Store<T>, batch: seq<Uint64>, values: Batch<T>,
                      cur: Store<T>, i: nat, told: seq<Emission<T>>)
    requires Aligned(s) && Updating(listener, s, batch, values, cur, i, told) && i >= |batch|
    ensures cur == UpdatedBy(s, values, Runs(s.ids, batch, 0))
    ensures told == Heard(listener, UpdateEmissions(s, values, Runs(s.ids, batch, 0)))
  {
    assert Runs(cur.ids, batch, i) == [];
    assert told + [] == told;
  }

  lemma RemovableStep(hash: Uint64 -> Uint64, x: Index, batch: seq<Uint64>, i: nat)
    requires i < |batch| && Removable(hash, x, batch, i)
    ensures var r := NextRun(x.keys, batch, i);
      && r.begin + r.count <= |x.keys|
      && (r.count <= 1 || Movable(HoleIn(hash, x, r.begin, r.count)))
      && Removable(hash, Removed(x, r.begin, r.count), batch, i + r.count)
      && RemovedAll(x, batch, i) == RemovedAll(Removed(x, r.begin, r.count), batch, i + r.count)
  {
    hide NextRun, Movable, CutFast, RemovedChains;
  }

  /** Where a removal is at batch position i: rows and hash are `cur` and `x`, the listener
      has been told `told`, and what is still to come completes the whole. */
  ghost predicate Removing<T>(hash: Uint64 -> Uint64, listener: Option<Listener>, s: Store<T>, from: Index, batch: seq<Uint64>,
                              cur: Store<T>, x: Index, i: nat, told: seq<Emission<T>>)
    requires Aligned(s)
  {
    && WellFormed(cur) && x.keys == cur.ids && UniqueFrom(batch, 0) && PresentFrom(cur.ids, batch, i)
    && Removable(hash, x, batch, i) && RemovedAll(x, batch, i) == RemovedAll(from, batch, 0)
    && RemovedBy(cur, RemovalRuns(cur.ids, batch, i)) == RemovedBy(s, RemovalRuns(s.ids, batch, 0))
    && told + Heard(listener, RemoveEmissions(cur, RemovalRuns(cur.ids, batch, i)))
       == Heard(listener, RemoveEmissions(s, RemovalRuns(s.ids, batch, 0)))
  }

  lemma RemoveStarts<T>(hash: Uint64 -> Uint64, listener: Option<Listener>, s: Store<T>, x: Index, batch: seq<Uint64>)
    requires WellFormed(s) && x.keys == s.ids && Present(s.ids, batch) && Unique(batch) && Removable(hash, x, batch, 0)
    ensures Removing(hash, listener, s, x, batch, s, x, 0, [])
  {
    hide Removable, RemovedAll, RemovedBy, RemovalRuns, RemoveEmissions, Heard;
  }

  lemma RemoveTurn<T>(hash: Uint64 -> Uint64, listener: Option<Listener>, s: Store<T>, from: Index, batch: seq<Uint64>,
                      cur: Store<T>, x: Index, i: nat, told: seq<Emission<T>>)
    requires Aligned(s) && Removing(hash, listener, s, from, batch, cur, x, i, told) && i < |batch|
    ensures var r := NextRun(cur.ids, batch, i);
      && WellFormed(cur) && x.keys == cur.ids && r.pos == i && 1 <= r.count && i + r.count <= |batch|
      && r.begin + r.count <= |cur.ids| && (r.count <= 1 || Movable(HoleIn(hash, x, r.begin, r.count)))
      && Removing(hash, listener, s, from, batch, CutRows(cur, r.begin, r.count), Removed(x, r.begin, r.count), i + r.count,
                  told + Heard(listener, [Emission(OnRemove(r.begin, r.count), cur)]))
  {
    hide Removable, RemovedAll, NextRun, Heard, RemovedBy, RemovalRuns, RemoveEmissions, Unique, UniqueFrom, PresentFrom;
    hide Movable, CutFast, RemovedChains;
    RemovableStep(hash, x, batch, i);
    NextTurn(listener, cur, batch, i);
  }

  lemma NextTurn<T>(listener: Option<Listener>, s: Store<T>, batch: seq<Uint64>, i: nat)
    requires WellFormed(s) && UniqueFrom(batch, 0) && i < |batch| && PresentFrom(s.ids, batch, i)
    ensures var r := NextRun(s.ids, batch, i);
      && r.pos == i && 1 <= r.count && i + r.count <= |batch| && r.begin + r.count <= |s.ids|
      && var u := CutRows(s, r.begin, r.count);
      && WellFormed(u) && u.ids == CutFast(s.ids, r.begin, r.count) && PresentFrom(u.ids, batch, i + r.count)
      && RemovedBy(s, RemovalRuns(s.ids, batch, i)) == RemovedBy(u, RemovalRuns(u.ids, batch, i + r.count))
      && Heard(listener, RemoveEmissions(s, RemovalRuns(s.ids, batch, i)))
        == Heard(listener, [Emission(OnRemove(r.begin, r.count), s)])
          + Heard(listener, RemoveEmissions(u, RemovalRuns(u.ids, batch, i + r.count)))
  {
    hide NextRun, Heard, Unique, RemovalRuns, RemovedBy, RemoveEmissions, PresentFrom, CutFast, View, IdsIn;
    var r := NextRun(s.ids, batch, i);
    assert UniqueFrom(batch, i);
    StillPresent(s, batch, i);
    RemovalRunsStep(s.ids, batch, i);
    CutStaysUnique(s.ids, r.begin, r.count);
    var u := CutRows(s, r.begin, r.count);
    var rest := RemovalRuns(u.ids, batch, i + r.count);
    RemovedByCons(s, r, rest);
    RemoveEmissionsCons(s, r, rest);
    HeardAppend(listener, [Emission(OnRemove(r.begin, r.count), s)], RemoveEmissions(u, rest));
  }

  lemma RemoveEmissionsCons<T>(s: Store<T>, r: Run, rest: seq<Run>)
    requires Aligned(s)
    ensures RemoveEmissions(s, [r] + rest) == [Emission(OnRemove(r.begin, r.count), s)] + RemoveEmissions(RemovedRun(s, r), rest)
  {
    hide RemovedRun;
    assert ([r] + rest)[1..] == rest;
  }

  lemma RemoveEnds<T>(hash: Uint64 -> Uint64, listener: Option<Listener>, s: Store<T>, from: Index, batch: seq<Uint64>,
                      cur: Store<T>, x: Index, i: nat, told: seq<Emission<T>>)
    requires Aligned(s) && Removing(hash, listener, s, from, batch, cur, x, i, told) && i >= |batch|
    ensures cur == RemovedBy(s, RemovalRuns(s.ids, batch, 0)) && x == RemovedAll(from, batch, 0)
    ensures told == Heard(listener, RemoveEmissions(s, RemovalRuns(s.ids, batch, 0)))
  {
    assert RemovalRuns(cur.ids, batch, i) == [];
    assert told + [] == told;
  }
}
