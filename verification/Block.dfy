/** All columns of a storage: src/storage/storage_block.c. */
module Blocks {
  import opened Common
  import opened DynArrays
  import opened Protocols
  import opened Columns
  import opened Stores
  import opened Mirrors

  class Block<T(0)> {
    const columns: seq<Column<T>>

    constructor (columns: seq<Column<T>>)
      ensures this.columns == columns
    {
      this.columns := columns;
    }

    /** No two columns share an object. */
    ghost predicate Separate()
      reads this, columns, set c | c in columns :: c.main, set c | c in columns :: c.back
    {
      forall i, j :: 0 <= i < j < |columns| ==> Apart(columns[i], columns[j])
    }

    static ghost predicate Apart(c: Column<T>, d: Column<T>)
      reads c, c.main, c.back, d, d.main, d.back
    {
      && c != d && c.main != d.main && c.main != d.back && c.back != d.main && c.back != d.back
      && c.main.data != d.main.data && c.main.data != d.back.data && c.back.data != d.main.data && c.back.data != d.back.data
    }

    /** Column i is well formed and holds the rows `was`. */
    ghost predicate Is(i: nat, was: seq<T>)
      requires i < |columns|
      reads columns[i], columns[i].main, columns[i].back, columns[i].main.data, columns[i].back.data
    {
      columns[i].Valid() && columns[i].Contents() == was
    }

    /** Column i is reserved like this. */
    ghost predicate RoomIs(i: nat, r: Room)
      requires i < |columns|
      reads columns[i].main, columns[i].back
    {
      columns[i].Reserved() == r
    }

    ghost predicate RoomsAre(rooms: seq<Room>)
      reads this, columns, set c | c in columns :: c.main, set c | c in columns :: c.back
    {
      |rooms| == |columns| && forall i :: 0 <= i < |columns| ==> RoomIs(i, rooms[i])
    }

    ghost predicate Held()
      reads this, columns, set c | c in columns :: c.main
    {
      forall c :: 0 <= c < |columns| ==> columns[c].main.Holds()
    }

    /** No session is open on column i. */
    ghost predicate FreeAt(i: nat)
      requires i < |columns|
      reads columns[i]
    {
      columns[i].Free()
    }

    ghost function Cols(): (s: seq<seq<T>>)
      reads this, columns, set c | c in columns :: c.main, set c | c in columns :: c.main.data
      requires Held()
      ensures |s| == |columns| && forall i :: 0 <= i < |columns| ==> s[i] == columns[i].Contents()
    {
      seq(|columns|, i requires 0 <= i < |columns| && columns[i].main.Holds()
                       reads this, columns, set c | c in columns :: c.main, set c | c in columns :: c.main.data
                     => columns[i].Contents())
    }

    /** The columns hold `cols`. */
    ghost predicate Holds(cols: seq<seq<T>>)
      reads this, columns, set c | c in columns :: c.main, set c | c in columns :: c.back,
            set c | c in columns :: c.main.data, set c | c in columns :: c.back.data
    {
      Separate() && |cols| == |columns| && forall i :: 0 <= i < |columns| ==> Is(i, cols[i])
    }

    ghost function Footprint(): set<object>
      reads this, columns, set c | c in columns :: c.main, set c | c in columns :: c.back
    {
      set c, o | c in columns && o in c.Repr() :: o
    }

    /** The columns are built of what they were built of, and new blocks. */
    twostate predicate OwnBlocks()
      reads this, columns, set c | c in columns :: c.main, set c | c in columns :: c.back
    {
      forall c :: 0 <= c < |columns| ==> OwnBlocksAt(c)
    }

    twostate predicate OwnBlocksAt(i: nat)
      requires i < |columns|
      reads columns[i], columns[i].main, columns[i].back
    {
      fresh(columns[i].Repr() - old(columns[i].Repr()))
    }

    twostate lemma OwnsMore()
      requires OwnBlocks()
      ensures fresh(Footprint() - old(Footprint()))
    {
      hide Column.Repr;
      forall o | o in Footprint() && o !in old(Footprint())
        ensures fresh(o)
      {
        var i :| 0 <= i < |columns| && o in columns[i].Repr();
        assert OwnBlocksAt(i);
      }
    }

    lemma BacksApart(cols: seq<seq<T>>)
      requires Holds(cols)
      ensures forall i, j :: 0 <= i < |columns| && 0 <= j < |columns| ==> columns[i].main != columns[j].back
    {
      hide Inv;
      forall i, j | 0 <= i < |columns| && 0 <= j < |columns|
        ensures columns[i].main != columns[j].back
      {
        if i < j {
          assert Apart(columns[i], columns[j]);
        } else if j < i {
          assert Apart(columns[j], columns[i]);
        } else {
          assert Is(i, cols[i]);
        }
      }
    }

    // ---------- Admission ----------

    /** dsim_storage_block_can_modify: no column has a session open. */
    method CanModify() returns (can: bool)
      requires forall i :: 0 <= i < |columns| ==> columns[i].Valid()
      ensures can <==> forall i :: 0 <= i < |columns| ==> FreeAt(i)
    {
      hide Inv;
      for i := 0 to |columns|
        invariant forall j :: 0 <= j < i ==> FreeAt(j)
      {
        var free := columns[i].CanModifyNow();
        if !free {
          assert !FreeAt(i);
          return false;
        }
      }
      return true;
    }

    // ---------- Appending ----------

    /** Column i has grown from the rows `was` to `total` rows, by the caller's values if it passed any. */
    ghost predicate Grown(i: nat, was: seq<T>, data: Option<seq<T>>, total: nat)
      requires i < |columns|
      reads columns[i], columns[i].main, columns[i].back, columns[i].main.data, columns[i].back.data
    {
      && columns[i].Valid() && columns[i].main.count == total >= |was|
      && columns[i].Contents()[..|was|] == was
      && (data.Some? ==> columns[i].Contents()[|was|..] == data.value)
    }

    /** One column's share of PushBack. */
    method PushColumn(i: nat, data: Option<seq<T>>, n: nat, ghost was: seq<T>, ghost total: nat, ghost room: Room)
      requires i < |columns| && Separate() && Is(i, was) && RoomIs(i, room) && FreeAt(i)
      requires total == |was| + n && RoomFor(room, total) && Sized(room, total)
      requires data.Some? ==> |data.value| == n
      modifies columns[i].main, columns[i].main.data
      ensures Separate() && Grown(i, was, data, total) && RoomIs(i, RoomGrown(room, data.Some?, total))
      ensures columns[i].main.data == old(columns[i].main.data) || fresh(columns[i].main.data)
    {
      hide Inv;
      if data.Some? {
        columns[i].PushBack(data.value);
      } else {
        columns[i].Resize(columns[i].main.count + n);
      }
    }

    method PushColumns(data: Batch<T>, n: nat, ghost was: seq<seq<T>>, ghost total: nat, ghost rooms: seq<Room>)
      requires Holds(was) && RoomsAre(rooms) && |data| == |columns|
      requires forall c :: 0 <= c < |columns| ==> FreeAt(c) && |was[c]| + n == total && RoomFor(rooms[c], total) && Sized(rooms[c], total)
      requires forall c :: 0 <= c < |data| && data[c].Some? ==> |data[c].value| == n
      modifies set c | c in columns :: c.main, set c | c in columns :: c.main.data
      ensures Separate()
      ensures forall c :: 0 <= c < |columns| ==> Grown(c, was[c], data[c], total) && RoomIs(c, RoomGrown(rooms[c], data[c].Some?, total))
      ensures forall c :: 0 <= c < |columns| ==> columns[c].main.data == old(columns[c].main.data) || fresh(columns[c].main.data)
    {
      hide Is, Grown, FreeAt, RoomIs, RoomGrown, RoomFor, Sized;
      for i := 0 to |columns|
        invariant Separate()
        invariant forall j :: i <= j < |columns| ==> columns[j].main.data == old(columns[j].main.data)
        invariant forall j :: 0 <= j < i ==> columns[j].main.data == old(columns[j].main.data) || fresh(columns[j].main.data)
        invariant forall j :: i <= j < |columns| ==> Is(j, was[j]) && RoomIs(j, rooms[j])
        invariant forall j :: 0 <= j < |columns| ==> FreeAt(j)
        invariant forall j :: 0 <= j < i ==> Grown(j, was[j], data[j], total) && RoomIs(j, RoomGrown(rooms[j], data[j].Some?, total))
      {
        PushColumn(i, data[i], n, was[i], total, rooms[i]);
      }
    }

    /** The columns with data are appended to, the others resized: what those then hold in
        the new rows is whatever their block held. */
    method PushBack(data: Batch<T>, n: nat, ghost was: seq<seq<T>>, ghost rows: nat, ghost rooms: seq<Room>)
      returns (ghost added: seq<seq<T>>)
      requires Holds(was) && RoomsAre(rooms) && |data| == |columns|
      requires forall c :: 0 <= c < |columns| ==> FreeAt(c) && |was[c]| == rows && RoomFor(rooms[c], rows + n) && Sized(rooms[c], rows + n)
      requires forall c :: 0 <= c < |data| && data[c].Some? ==> |data[c].value| == n
      modifies set c | c in columns :: c.main, set c | c in columns :: c.main.data
      ensures Separate() && |added| == |columns|
      ensures forall c :: 0 <= c < |columns| ==> Is(c, was[c] + added[c]) && FreeAt(c)
      ensures forall c :: 0 <= c < |columns| ==> RoomIs(c, RoomGrown(rooms[c], data[c].Some?, rows + n))
      ensures forall c :: 0 <= c < |columns| ==> |added[c]| == n && (data[c].Some? ==> added[c] == data[c].value)
      ensures forall c :: 0 <= c < |columns| ==> columns[c].main.data == old(columns[c].main.data) || fresh(columns[c].main.data)
      ensures OwnBlocks()
    {
      hide Is, Grown, FreeAt, RoomIs, RoomGrown, RoomFor;
      BacksApart(was);
      PushColumns(data, n, was, rows + n, rooms);
      added := [];
      for i := 0 to |columns|
        invariant |added| == i
        invariant forall c :: 0 <= c < i ==> Is(c, was[c] + added[c])
        invariant forall c :: 0 <= c < i ==> |added[c]| == n && (data[c].Some? ==> added[c] == data[c].value)
      {
        added := added + [GrownBy(i, was[i], data[i], n)];
      }
    }

    ghost function GrownBy(i: nat, was: seq<T>, data: Option<seq<T>>, n: nat): (a: seq<T>)
      requires i < |columns| && Grown(i, was, data, |was| + n)
      reads columns[i], columns[i].main, columns[i].back, columns[i].main.data, columns[i].back.data
      ensures Is(i, was + a) && |a| == n && (data.Some? ==> a == data.value)
    {
      var r := columns[i].Contents();
      assert r == r[..|was|] + r[|was|..];
      r[|was|..]
    }

    // ---------- Resizing ----------

    /** Column i has been given `n` rows; what it held of `was` in them it still holds. */
    ghost predicate Resized(i: nat, was: seq<T>, n: nat)
      requires i < |columns|
      reads columns[i], columns[i].main, columns[i].back, columns[i].main.data, columns[i].back.data
    {
      && columns[i].Valid() && columns[i].main.count == n
      && var kept := Min(|was|, n); columns[i].Contents()[..kept] == was[..kept]
    }

    method ResizeColumn(i: nat, n: nat, ghost was: seq<T>, ghost room: Room)
      requires i < |columns| && Separate() && Is(i, was) && RoomIs(i, room) && FreeAt(i)
      requires RoomFor(room, n) && n * room.elemSize < WORD32
      modifies columns[i].main
      ensures Separate() && Resized(i, was, n) && RoomIs(i, RoomResized(room, n))
      ensures columns[i].main.data == old(columns[i].main.data) || fresh(columns[i].main.data)
    {
      hide Inv;
      columns[i].Resize(n);
    }

    method Resize(n: nat, ghost was: seq<seq<T>>, ghost rooms: seq<Room>)
      requires Holds(was) && RoomsAre(rooms)
      requires forall c :: 0 <= c < |columns| ==> FreeAt(c) && RoomFor(rooms[c], n) && n * rooms[c].elemSize < WORD32
      modifies set c | c in columns :: c.main
      ensures Separate()
      ensures forall c :: 0 <= c < |columns| ==> Resized(c, was[c], n) && RoomIs(c, RoomResized(rooms[c], n))
      ensures forall c :: 0 <= c < |columns| ==> columns[c].main.data == old(columns[c].main.data) || fresh(columns[c].main.data)
    {
      hide Is, Resized, FreeAt, RoomIs, RoomResized, RoomFor;
      for i := 0 to |columns|
        invariant Separate()
        invariant forall j :: i <= j < |columns| ==> columns[j].main.data == old(columns[j].main.data)
        invariant forall j :: 0 <= j < i ==> columns[j].main.data == old(columns[j].main.data) || fresh(columns[j].main.data)
        invariant forall j :: i <= j < |columns| ==> Is(j, was[j]) && RoomIs(j, rooms[j])
        invariant forall j :: 0 <= j < |columns| ==> FreeAt(j)
        invariant forall j :: 0 <= j < i ==> Resized(j, was[j], n) && RoomIs(j, RoomResized(rooms[j], n))
      {
        ResizeColumn(i, n, was[i], rooms[i]);
      }
    }

    // ---------- Updating ----------

    method UpdateColumn(i: nat, src: seq<T>, srcOffset: nat, dst: nat, n: nat, ghost was: seq<T>)
      requires i < |columns| && Separate() && Is(i, was) && FreeAt(i)
      requires srcOffset + n <= |src| && dst + n <= |was|
      modifies columns[i].main.data
      ensures Is(i, Overlaid(was, Some(src), srcOffset, dst, n))
    {
      hide Inv;
      columns[i].Update(src, srcOffset, dst, n);
    }

    /** dsim_storage_block_update: the columns with data are overwritten, and the mask
        returned names them. */
    method Update(data: Batch<T>, srcOffset: nat, dst: nat, n: nat, ghost was: seq<seq<T>>) returns (mask: nat)
      requires Holds(was) && Covers(data, |columns|, srcOffset + n)
      requires forall c :: 0 <= c < |columns| ==> dst + n <= |was[c]|
      requires forall c :: 0 <= c < |columns| && data[c].Some? ==> FreeAt(c)
      modifies set c | c in columns :: c.main.data
      ensures forall c :: 0 <= c < |columns| ==> Is(c, Overlaid(was[c], data[c], srcOffset, dst, n))
      ensures mask == MaskUpTo(data, |data|)
    {
      hide Is, FreeAt, Or, Pow2, Overlaid;
      mask := 0;
      for i := 0 to |columns|
        invariant mask == MaskUpTo(data, i)
        invariant forall c :: 0 <= c < i ==> Is(c, Overlaid(was[c], data[c], srcOffset, dst, n))
        invariant forall c :: i <= c < |columns| ==> Is(c, was[c])
      {
        if data[i].None? {
          NotOverlaid(was[i], srcOffset, dst, n);
          continue;
        }
        UpdateColumn(i, data[i].value, srcOffset, dst, n, was[i]);
        mask := Or(mask, Pow2(i));
      }
    }

    // ---------- Removing ----------

    method RemoveColumn(i: nat, pos: nat, n: nat, ghost was: seq<T>, ghost room: Room)
      requires i < |columns| && Separate() && Is(i, was) && RoomIs(i, room) && FreeAt(i) && pos + n <= |was|
      modifies columns[i].main`count, columns[i].main.data
      ensures Separate() && Is(i, CutFast(was, pos, n)) && RoomIs(i, room)
    {
      hide Inv;
      columns[i].RemoveFast(pos, n);
    }

    method RemoveFast(pos: nat, n: nat, ghost was: seq<seq<T>>, ghost rooms: seq<Room>)
      requires Holds(was) && RoomsAre(rooms)
      requires forall c :: 0 <= c < |columns| ==> FreeAt(c) && pos + n <= |was[c]|
      modifies (set c | c in columns :: c.main)`count, set c | c in columns :: c.main.data
      ensures forall c :: 0 <= c < |columns| ==> Is(c, CutFast(was[c], pos, n)) && RoomIs(c, rooms[c])
      ensures Separate() && OwnBlocks()
    {
      hide Is, FreeAt, CutFast, RoomIs;
      for i := 0 to |columns|
        invariant Separate()
        invariant forall c :: 0 <= c < i ==> Is(c, CutFast(was[c], pos, n)) && RoomIs(c, rooms[c])
        invariant forall c :: i <= c < |columns| ==> Is(c, was[c]) && RoomIs(c, rooms[c])
      {
        RemoveColumn(i, pos, n, was[i], rooms[i]);
      }
    }

    // ---------- Sessions ----------

    /** Column i is well formed and in the protocol state s. */
    ghost predicate In(i: nat, s: Sharing<array<T>, T>)
      requires i < |columns|
      reads columns[i], columns[i].main, columns[i].back, columns[i].main.data, columns[i].back.data
    {
      columns[i].Valid() && columns[i].State() == s
    }

    ghost predicate AllIn(ss: seq<Sharing<array<T>, T>>)
      reads this, columns, set c | c in columns :: c.main, set c | c in columns :: c.back,
            set c | c in columns :: c.main.data, set c | c in columns :: c.back.data
    {
      Separate() && |ss| == |columns| && forall i :: 0 <= i < |columns| ==> In(i, ss[i])
    }

    /** The open reads of column i: both counters, and the sessions. */
    ghost function ReadsAt(i: nat): (nat, nat, seq<Session<array<T>, T>>)
      requires i < |columns|
      reads columns[i]
    {
      (columns[i].mainReads, columns[i].backReads, columns[i].sessions)
    }

    /** On column i, whose open reads were `was`, one of `data` is over: its buffer's counter is
        one less, and exactly one session on it is gone. */
    ghost predicate OneReadOver(i: nat, data: array<T>, was: (nat, nat, seq<Session<array<T>, T>>))
      requires i < |columns|
      reads columns[i], columns[i].main, columns[i].back
    {
      var c := columns[i];
      && (data == c.main.data || data == c.back.data)
      && c.mainReads == was.0 - (if data == c.main.data then 1 else 0)
      && c.backReads == was.1 - (if data == c.main.data then 0 else 1)
      && |c.sessions| == |was.2| - 1 && OneLess(c.sessions, was.2, data)
    }

    method EndReadAt(i: nat, data: array<T>, ghost s: Sharing<array<T>, T>) returns (found: bool)
      requires i < |columns| && In(i, s) && Enabled(s, Protocols.Op.EndRead(data))
      modifies columns[i]
      ensures found <==> Owns(s, data)
      ensures In(i, Step(s, Protocols.Op.EndRead(data)))
      ensures if found then OneReadOver(i, data, old(ReadsAt(i))) else In(i, s) && ReadsAt(i) == old(ReadsAt(i))
    {
      hide Inv, OneLess;
      found := columns[i].EndRead(data);
    }

    method EndReadOf(i: nat, data: array<T>, ghost ss: seq<Sharing<array<T>, T>>) returns (found: bool)
      requires i < |columns| && AllIn(ss) && Enabled(ss[i], Protocols.Op.EndRead(data))
      modifies columns[i]
      ensures found <==> Owns(ss[i], data)
      ensures AllIn(if found then ss[i := Step(ss[i], Protocols.Op.EndRead(data))] else ss)
      ensures if found then OneReadOver(i, data, old(ReadsAt(i))) else ReadsAt(i) == old(ReadsAt(i))
    {
      hide In, Step, Owns, Enabled, OneReadOver;
      found := EndReadAt(i, data, ss[i]);
    }

    /** Asks every column in turn: exactly the owner of the pointer closes a session. */
    method EndRead(data: array<T>, ghost ss: seq<Sharing<array<T>, T>>) returns (index: Uint32)
      requires AllIn(ss) && |columns| < INVALID
      requires forall i :: 0 <= i < |columns| ==> Enabled(ss[i], Protocols.Op.EndRead(data))
      modifies columns
      ensures Separate()
      ensures index == INVALID ==> AllIn(ss) && forall i :: 0 <= i < |columns| ==> !Owns(ss[i], data)
      ensures index != INVALID ==>
        && index < |columns| && Owns(ss[index], data)
        && AllIn(ss[index := Step(ss[index], Protocols.Op.EndRead(data))]) && OneReadOver(index, data, old(ReadsAt(index)))
      ensures forall i :: 0 <= i < |columns| && i != index ==> ReadsAt(i) == old(ReadsAt(i))
    {
      hide AllIn, Step, Owns, Enabled, OneReadOver;
      AllSeparate(ss);
      for i := 0 to |columns|
        invariant AllIn(ss) && |ss| == |columns| && Separate()
        invariant forall j :: 0 <= j < i ==> !Owns(ss[j], data)
        invariant forall j :: 0 <= j < |columns| ==> ReadsAt(j) == old(ReadsAt(j))
      {
        assert forall j :: 0 <= j < i ==> Apart(columns[j], columns[i]);
        var found := EndReadOf(i, data, ss);
        if found {
          return i;
        }
      }
      return INVALID;
    }

    lemma AllSeparate(ss: seq<Sharing<array<T>, T>>)
      requires AllIn(ss)
      ensures Separate() && |ss| == |columns|
    {
    }

    /** What all columns are in. */
    ghost function States(): (ss: seq<Sharing<array<T>, T>>)
      requires Separate() && forall i :: 0 <= i < |columns| ==> columns[i].Valid()
      reads this, columns, set c | c in columns :: c.main, set c | c in columns :: c.back,
            set c | c in columns :: c.main.data, set c | c in columns :: c.back.data
      ensures AllIn(ss)
    {
      seq(|columns|, i requires 0 <= i < |columns| && columns[i].Valid()
                       reads this, columns, set c | c in columns :: c.main, set c | c in columns :: c.back,
                             set c | c in columns :: c.main.data, set c | c in columns :: c.back.data
                     => columns[i].State())
    }

    /** A writer holds the pointer of column i, behind which `contents` is complete; nobody
        reads the column. */
    ghost predicate Drafted(i: nat, m: Mode, ptr: array<T>, contents: seq<T>)
      requires i < |columns|
      reads columns[i], columns[i].main, columns[i].back, columns[i].main.data, columns[i].back.data
    {
      var c := columns[i];
      && c.Valid() && c.mode == m && c.mainReads == 0 == c.backReads
      && ptr == (if m == Direct then c.main.data else c.back.data) && c.State().data[ptr] == contents
    }

    /** begin_write on column i, and the stores of its holder. */
    method DraftColumn(i: nat, m: Mode, contents: seq<T>, ghost was: seq<T>, ghost room: Room) returns (ptr: array<T>)
      requires i < |columns| && Separate() && Is(i, was) && RoomIs(i, room) && FreeAt(i)
      requires m != Idle && |contents| == |was| && |was| * room.elemSize < WORD32
      requires (if m == Buffered then RoomPrepared(room, |was|).backLength else room.length) > 0
      modifies columns[i], columns[i].back, columns[i].main.data, columns[i].back.data
      ensures Separate() && Drafted(i, m, ptr, contents)
      ensures Is(i, if m == Direct then contents else was)
      ensures RoomIs(i, if m == Buffered then RoomPrepared(room, |was|) else room)
      ensures columns[i].back.data == old(columns[i].back.data) || fresh(columns[i].back.data)
    {
      hide Inv;
      AdmissionIsExact(columns[i].State());
      var handed, _, _ := columns[i].BeginWrite(m);
      ptr := handed;
      columns[i].Fill(ptr, contents);
    }

    method Draft(i: nat, m: Mode, contents: seq<T>, ghost was: seq<seq<T>>, ghost rooms: seq<Room>) returns (ptr: array<T>)
      requires i < |columns| && Holds(was) && RoomsAre(rooms) && FreeAt(i)
      requires m != Idle && |contents| == |was[i]| && |was[i]| * rooms[i].elemSize < WORD32
      requires (if m == Buffered then RoomPrepared(rooms[i], |was[i]|).backLength else rooms[i].length) > 0
      modifies columns[i], columns[i].back, columns[i].main.data, columns[i].back.data
      ensures Holds(if m == Direct then was[i := contents] else was)
      ensures RoomsAre(if m == Buffered then rooms[i := RoomPrepared(rooms[i], |was[i]|)] else rooms)
      ensures Drafted(i, m, ptr, contents) && OwnBlocks()
      ensures columns[i].back.data == old(columns[i].back.data) || fresh(columns[i].back.data)
    {
      hide Is, RoomIs, FreeAt, Drafted;
      ptr := DraftColumn(i, m, contents, was[i], rooms[i]);
    }

    /** The drafted column alone owns the pointer, may end the write, and is then free. */
    lemma DraftIsHeld(i: nat, m: Mode, ptr: array<T>, contents: seq<T>, ss: seq<Sharing<array<T>, T>>)
      requires i < |columns| && AllIn(ss) && Drafted(i, m, ptr, contents) && m != Idle
      requires forall c :: 0 <= c < |columns| && c != i ==> FreeAt(c)
      ensures forall c :: 0 <= c < |columns| ==> Enabled(ss[c], Protocols.Op.EndWrite(ptr))
      ensures forall c :: 0 <= c < |columns| ==> (Owns(ss[c], ptr) <==> c == i)
      ensures ptr in ss[i].data && ss[i].data[ptr] == contents && (ptr == ss[i].back <==> m == Buffered)
      ensures NoSessions(ss[i := Step(ss[i], Protocols.Op.EndWrite(ptr))])
    {
      hide Inv;
      assert In(i, ss[i]);
      forall c | 0 <= c < |columns| && c != i
        ensures Enabled(ss[c], Protocols.Op.EndWrite(ptr)) && !Owns(ss[c], ptr) && Protocols.CanModify(ss[c])
      {
        assert In(c, ss[c]) && FreeAt(c);
        assert if c < i then Apart(columns[c], columns[i]) else Apart(columns[i], columns[c]);
      }
    }

    lemma FreeIn(ss: seq<Sharing<array<T>, T>>)
      requires AllIn(ss) && NoSessions(ss)
      ensures forall c :: 0 <= c < |columns| ==> FreeAt(c)
    {
      hide Inv;
      forall c | 0 <= c < |columns|
        ensures FreeAt(c)
      {
        assert In(c, ss[c]) && Protocols.CanModify(ss[c]);
      }
    }

    /** Column i is in the state s and reserved like r. */
    ghost predicate Sits(i: nat, s: Sharing<array<T>, T>, r: Room)
      requires i < |columns|
      reads columns[i], columns[i].main, columns[i].back, columns[i].main.data, columns[i].back.data
    {
      In(i, s) && RoomIs(i, r)
    }

    ghost predicate Seated(ss: seq<Sharing<array<T>, T>>, rooms: seq<Room>)
      reads this, columns, set c | c in columns :: c.main, set c | c in columns :: c.back,
            set c | c in columns :: c.main.data, set c | c in columns :: c.back.data
    {
      Separate() && |ss| == |rooms| == |columns| && forall i :: 0 <= i < |columns| ==> Sits(i, ss[i], rooms[i])
    }

    lemma SeatedIff(ss: seq<Sharing<array<T>, T>>, rooms: seq<Room>)
      ensures Seated(ss, rooms) <==> AllIn(ss) && RoomsAre(rooms)
      ensures Seated(ss, rooms) ==> Separate() && |ss| == |rooms| == |columns|
    {
      hide In, RoomIs;
      assert forall i :: 0 <= i < |columns| && |ss| == |rooms| == |columns| ==> (Sits(i, ss[i], rooms[i]) <==> In(i, ss[i]) && RoomIs(i, rooms[i]));
    }

    method EndWriteAt(i: nat, data: array<T>, ghost s: Sharing<array<T>, T>, ghost room: Room) returns (found: bool)
      requires i < |columns| && Separate() && Sits(i, s, room) && Enabled(s, Protocols.Op.EndWrite(data))
      modifies columns[i], columns[i].main`data, columns[i].back`data
      ensures Separate() && (found <==> Owns(s, data))
      ensures Sits(i, Step(s, Protocols.Op.EndWrite(data)), if data == s.back then RoomSwapped(room) else room)
      ensures columns[i].Repr() == old(columns[i].Repr())
      ensures !found ==> Sits(i, s, room)
    {
      hide Inv;
      found := columns[i].EndWrite(data);
    }

    method EndWriteOf(i: nat, data: array<T>, ghost ss: seq<Sharing<array<T>, T>>, ghost rooms: seq<Room>) returns (found: bool)
      requires i < |columns| && Seated(ss, rooms) && Enabled(ss[i], Protocols.Op.EndWrite(data))
      modifies columns[i], columns[i].main`data, columns[i].back`data
      ensures found <==> Owns(ss[i], data)
      ensures forall j :: 0 <= j < |columns| ==> columns[j].Repr() == old(columns[j].Repr())
      ensures if found
        then Seated(ss[i := Step(ss[i], Protocols.Op.EndWrite(data))],
                    rooms[i := if data == ss[i].back then RoomSwapped(rooms[i]) else rooms[i]])
        else Seated(ss, rooms)
    {
      hide Sits, Step, Owns, Enabled, RoomSwapped, Column.Repr;
      found := EndWriteAt(i, data, ss[i], rooms[i]);
    }

    /** Exactly the owner of the pointer publishes or closes its direct write. */
    method EndWrite(data: array<T>, ghost ss: seq<Sharing<array<T>, T>>, ghost rooms: seq<Room>) returns (index: Uint32)
      requires AllIn(ss) && RoomsAre(rooms) && |columns| < INVALID
      requires forall i :: 0 <= i < |columns| ==> Enabled(ss[i], Protocols.Op.EndWrite(data))
      modifies columns, (set c | c in columns :: c.main)`data, (set c | c in columns :: c.back)`data
      ensures Separate() && forall i :: 0 <= i < |columns| ==> columns[i].Repr() == old(columns[i].Repr())
      ensures index == INVALID ==> AllIn(ss) && RoomsAre(rooms) && forall i :: 0 <= i < |columns| ==> !Owns(ss[i], data)
      ensures index != INVALID ==>
        && index < |columns| && Owns(ss[index], data)
        && AllIn(ss[index := Step(ss[index], Protocols.Op.EndWrite(data))])
        && RoomsAre(rooms[index := if data == ss[index].back then RoomSwapped(rooms[index]) else rooms[index]])
    {
      hide Seated, Sits, AllIn, RoomsAre, Step, Owns, Enabled, RoomSwapped, Column.Repr;
      SeatedIff(ss, rooms);
      for i := 0 to |columns|
        invariant Seated(ss, rooms) && |ss| == |rooms| == |columns|
        invariant forall j :: 0 <= j < |columns| ==> columns[j].Repr() == old(columns[j].Repr())
        invariant forall j :: 0 <= j < i ==> !Owns(ss[j], data)
      {
        var found := EndWriteOf(i, data, ss, rooms);
        if found {
          SeatedIff(ss[i := Step(ss[i], Protocols.Op.EndWrite(data))],
                    rooms[i := if data == ss[i].back then RoomSwapped(rooms[i]) else rooms[i]]);
          return i;
        }
      }
      SeatedIff(ss, rooms);
      return INVALID;
    }

    twostate lemma SameOwners()
      requires forall i :: 0 <= i < |columns| ==> columns[i].Repr() == old(columns[i].Repr())
      ensures Footprint() == old(Footprint()) && OwnBlocks()
    {
      hide Column.Repr;
      assert forall c :: c in columns ==> c.Repr() == old(c.Repr());
    }

    /** What the columns hold, read off their protocol states. */
    lemma ColumnsOf(ss: seq<Sharing<array<T>, T>>)
      requires AllIn(ss)
      ensures MainsHeld(ss) && Holds(ColsIn(ss))
    {
      hide Inv;
      forall c | 0 <= c < |ss|
        ensures ss[c].main in ss[c].data && Is(c, ss[c].data[ss[c].main])
      {
        assert In(c, ss[c]);
      }
    }

    lemma HoldsOne(a: seq<seq<T>>, b: seq<seq<T>>)
      requires Holds(a) && Holds(b)
      ensures a == b
    {
      hide Inv;
      forall c | 0 <= c < |a|
        ensures a[c] == b[c]
      {
        assert Is(c, a[c]) && Is(c, b[c]);
      }
    }

    /** A writer's buffer has the column's length and is what the end of the write leaves
        in front. */
    lemma WriterFills(c: nat, s: Sharing<array<T>, T>, ptr: array<T>)
      requires c < |columns| && In(c, s) && Owns(s, ptr) && Enabled(s, Protocols.Op.EndWrite(ptr))
      ensures HandsOver(s, ptr)
    {
    }
  }

  /** dsim_storage_block_init: one empty column for every element size of the layout. */
  method BlockFor<T(0)>(sizes: seq<nat>) returns (b: Block<T>, ghost cols: seq<seq<T>>)
    requires forall i :: 0 <= i < |sizes| ==> sizes[i] >= 1
    ensures fresh(b) && b.Holds(cols) && |cols| == |b.columns| == |sizes|
    ensures forall i :: 0 <= i < |sizes| ==>
      cols[i] == [] && b.FreeAt(i) && b.RoomIs(i, Room(sizes[i], 0, 0, 0, 0)) && fresh(b.columns[i].Repr())
  {
    hide Inv;
    var columns: seq<Column<T>> := [];
    for i := 0 to |sizes|
      invariant |columns| == i
      invariant forall j :: 0 <= j < i ==> EmptyColumn(columns[j], sizes[j]) && fresh(columns[j].Repr())
      invariant forall j, k :: 0 <= j < k < i ==> Block.Apart(columns[j], columns[k])
    {
      columns := NewColumn(columns, sizes[..i], sizes[i]);
    }
    cols := seq(|sizes|, _ => []);
    b := new Block(columns);
  }

  method NewColumn<T(0)>(before: seq<Column<T>>, ghost sizes: seq<nat>, size: nat) returns (columns: seq<Column<T>>)
    requires |before| == |sizes| && size >= 1
    requires forall j :: 0 <= j < |before| ==> EmptyColumn(before[j], sizes[j])
    requires forall j, k :: 0 <= j < k < |before| ==> Block.Apart(before[j], before[k])
    ensures |columns| == |before| + 1 && columns[..|before|] == before && fresh(columns[|before|].Repr())
    ensures forall j :: 0 <= j < |columns| ==> EmptyColumn(columns[j], (sizes + [size])[j])
    ensures forall j, k :: 0 <= j < k < |columns| ==> Block.Apart(columns[j], columns[k])
  {
    hide Inv;
    var c := new Column(size);
    columns := before + [c];
  }

  ghost predicate EmptyColumn<T(0)>(c: Column<T>, size: nat)
    reads c, c.main, c.back, c.main.data, c.back.data
  {
    c.Valid() && c.Contents() == [] && c.Free() && c.Reserved() == Room(size, 0, 0, 0, 0)
  }

  lemma NotOverlaid<T>(col: seq<T>, srcOffset: nat, dst: nat, n: nat)
    requires dst + n <= |col|
    ensures Overlaid(col, None, srcOffset, dst, n) == col
  {
  }

  ghost predicate NoSessions<B, T>(ss: seq<Sharing<B, T>>) {
    forall c :: 0 <= c < |ss| ==> CanModify(ss[c])
  }

  ghost predicate MainsHeld<B, T>(ss: seq<Sharing<B, T>>) {
    forall c :: 0 <= c < |ss| ==> ss[c].main in ss[c].data
  }

  /** What every column's main buffer holds. */
  ghost function ColsIn<B, T>(ss: seq<Sharing<B, T>>): seq<seq<T>>
    requires MainsHeld(ss)
  {
    seq(|ss|, c requires 0 <= c < |ss| => ss[c].data[ss[c].main])
  }

  /** The buffer behind the pointer has the column's length and becomes its main buffer. */
  ghost predicate HandsOver<B, T>(s: Sharing<B, T>, ptr: B)
    requires Enabled(s, Protocols.Op.EndWrite(ptr))
  {
    && ptr in s.data && s.main in s.data && |s.data[ptr]| == |s.data[s.main]|
    && var u := Step(s, Protocols.Op.EndWrite(ptr));
       u.main == ptr && {u.main, u.back} == {s.main, s.back} && u.data == s.data
  }

  /** The pointer is one of a column's two buffers. */
  ghost predicate Owns<B, T>(s: Sharing<B, T>, data: B) {
    data == s.main || data == s.back
  }
}
