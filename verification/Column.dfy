/** A column of a storage: dsim_storage_array, two growable arrays of which readers and
    writers share one or swap them. */
module Columns {
  import opened Common
  import opened DynArrays
  import opened Protocols

  /** How a column is reserved: what its main array claims and has, what the back buffer has. */
  datatype Room = Room(elemSize: nat, capacity: nat, length: nat, backLength: nat, backCount: nat)

  /** `total` rows fit the main block, or make it reallocate. */
  predicate RoomFor(r: Room, total: nat) {
    total > r.capacity || total <= r.length
  }

  /** The byte size of `total` rows is below the wrap of array.c. */
  predicate Sized(r: Room, total: nat) {
    1 <= r.elemSize && total * r.elemSize <= 0x8000_0000
  }

  /** The column's own values appended, or the column resized. */
  function RoomGrown(r: Room, appended: bool, total: nat): (g: Room)
    requires Sized(r, total)
    ensures g.elemSize == r.elemSize
  {
    if appended then RoomPushed(r, total) else RoomResized(r, total)
  }

  function RoomPushed(r: Room, total: nat): Room
    requires r.elemSize >= 1 && total * r.elemSize < WORD64
  {
    if total > r.capacity
    then r.(capacity := GrownCapacity(total, r.elemSize), length := GrownCapacity(total, r.elemSize)) else r
  }

  function RoomResized(r: Room, total: nat): Room {
    if total > r.capacity then r.(capacity := total, length := total) else r
  }

  /** The back buffer brought to the column's length. */
  function RoomPrepared(r: Room, rows: nat): Room {
    if r.backCount != rows then r.(backLength := rows, backCount := rows) else r
  }

  /** The blocks swapped, the capacities not. */
  function RoomSwapped(r: Room): Room {
    r.(length := r.backLength, backLength := r.length)
  }

  class Column<T(0)> {
    const main: DynArray<T>
    const back: DynArray<T>
    var mode: Mode
    var mainReads: nat
    var backReads: nat
    ghost var sessions: seq<Session<array<T>, T>>

    ghost function Repr(): set<object>
      reads this, main, back
    {
      {this, main, back, main.data, back.data}
    }

    ghost predicate Shape()
      reads this, main, back
    {
      && main != back && main.data != back.data && main.elemSize == back.elemSize
      && main.Sound() && back.Holds() && back.data.Length <= main.capacity
    }

    ghost function Reserved(): Room
      reads main, back
    {
      Room(main.elemSize, main.capacity, main.data.Length, back.data.Length, back.count)
    }

    ghost function State(): Sharing<array<T>, T>
      reads this, main, back, main.data, back.data
      requires Shape()
    {
      Sharing(main.data, back.data, main.count, back.count,
              map[main.data := main.Contents(), back.data := back.Contents()],
              mode, mainReads, backReads, sessions)
    }

    ghost predicate Valid()
      reads this, main, back, main.data, back.data
    {
      Shape() && Inv(State())
    }

    /** dsim_storage_array_can_modify, on the fields. */
    ghost predicate Free()
      reads this
    {
      mainReads == 0 && backReads == 0 && mode == Idle
    }

    ghost function Contents(): seq<T>
      reads this, main, main.data
      requires main.Holds()
    {
      main.Contents()
    }

    constructor (elemSize: nat)
      requires elemSize >= 1
      ensures Valid() && fresh(Repr()) && Initial(State()) && Free()
      ensures Contents() == [] && Reserved() == Room(elemSize, 0, 0, 0, 0)
    {
      main := new DynArray<T>(elemSize);
      back := new DynArray<T>(elemSize);
      mode := Idle;
      mainReads, backReads := 0, 0;
      sessions := [];
    }

    // ---------- Sessions ----------

    /** The pointer to a block; an array that was never reserved has none. */
    static function Pointer(block: array<T>): (p: array?<T>) {
      if block.Length == 0 then null else block
    }

    /** The block a pointer is taken for: the null pointer matches the first array without
        a block. */
    function Named(data: array?<T>): (block: array?<T>)
      reads main, back
    {
      if data != null then data
      else if main.data.Length == 0 then main.data
      else if back.data.Length == 0 then back.data
      else null
    }

    method BeginRead() returns (data: array?<T>)
      requires Valid()
      modifies this`mainReads, this`sessions
      ensures Valid() && State() == Step(old(State()), Op.BeginRead)
      ensures data == if mode == Direct then null else Pointer(main.data)
      ensures (data == null <==> mode == Direct || main.data.Length == 0) && (data != null ==> data == main.data)
      ensures if mode == Direct then mainReads == old(mainReads) && sessions == old(sessions)
        else mainReads == old(mainReads) + 1 && sessions == old(sessions) + [Session(main.data, Contents())]
    {
      StepKeepsInv(State(), Op.BeginRead);
      if mode == Direct {
        return null;
      }
      sessions := sessions + [Session(main.data, main.Contents())];
      mainReads := mainReads + 1;
      data := Pointer(main.data);
    }

    method EndRead(data: array?<T>) returns (found: bool)
      requires Valid() && (Named(data) != null ==> Enabled(State(), Op.EndRead(Named(data))))
      modifies this`mainReads, this`backReads, this`sessions
      ensures Valid()
      ensures State() == if Named(data) == null then old(State()) else Step(old(State()), Op.EndRead(Named(data)))
      ensures found <==> Named(data) == main.data || Named(data) == back.data
      ensures found <==> if data == null then main.data.Length == 0 || back.data.Length == 0 else data == main.data || data == back.data
      ensures mainReads == old(mainReads) - (if Named(data) == main.data then 1 else 0)
      ensures backReads == old(backReads) - (if Named(data) == back.data then 1 else 0)
      ensures |sessions| == |old(sessions)| - (if found then 1 else 0)
      ensures if found then OneLess(sessions, old(sessions), Named(data)) else sessions == old(sessions)
    {
      hide Inv, OneLess, Close, SessionsOn;
      ghost var block := Named(data);
      if block != null {
        StepKeepsInv(State(), Op.EndRead(block));
        EndReadCloses(State(), block);
      }
      if data == main.data || (data == null && main.data.Length == 0) {
        mainReads := mainReads - 1;
        sessions := Close(sessions, main.data);
        return true;
      }
      if data == back.data || (data == null && back.data.Length == 0) {
        backReads := backReads - 1;
        sessions := Close(sessions, back.data);
        return true;
      }
      return false;
    }

    /** `spare` is the block that a back buffer of the wrong length is replaced with. */
    method BeginWrite(m: Mode) returns (data: array?<T>, ghost spare: array<T>, ghost junk: seq<T>)
      requires Valid() && m != Idle && main.count * main.elemSize < WORD32
      modifies this`mode, back
      ensures Shape() && Enabled(old(State()), Op.BeginWrite(m, spare, junk))
      ensures Valid() && State() == Step(old(State()), Op.BeginWrite(m, spare, junk))
      ensures spare == old(main.data) || fresh(spare)
      ensures Reserved() == if Grants(old(State()), m) && m == Buffered then RoomPrepared(old(Reserved()), main.count) else old(Reserved())
      ensures back.data == old(back.data) || fresh(back.data)
      ensures data == if !Grants(old(State()), m) then null else if m == Direct then Pointer(main.data) else Pointer(back.data)
      ensures data != null ==> mode == m && data == (if m == Direct then main.data else back.data)
      ensures m == Direct ==> mode == if old(Free()) then Direct else old(mode)
      ensures m == Buffered ==> mode == if old(mode) == Idle && backReads == 0 then Buffered else old(mode)
      ensures m == Buffered && old(mode) == Idle && backReads == 0 ==> back.count == main.count
    {
      hide Inv;
      spare, junk := main.data, [];
      if m == Direct {
        StepKeepsInv(State(), Op.BeginWrite(m, spare, junk));
        if mainReads != 0 || backReads != 0 || mode != Idle {
          return null, spare, junk;
        }
        mode := m;
        return Pointer(main.data), spare, junk;
      }
      if mode != Idle || backReads != 0 {
        StepKeepsInv(State(), Op.BeginWrite(m, spare, junk));
        return null, spare, junk;
      }
      ghost var s := State();
      if back.count != main.count {
        back.Reset();
        back.Resize(main.count);
        spare, junk := back.data, back.Contents();
      }
      mode := m;
      StepKeepsInv(s, Op.BeginWrite(m, spare, junk));
      data := Pointer(back.data);
    }

    /** A store by the holder of the pointer that begin_write returned. */
    method Store(data: array<T>, i: nat, value: T)
      requires Valid() && Enabled(State(), Op.Write(data, i, value))
      modifies data
      ensures Valid() && State() == Step(old(State()), Op.Write(data, i, value))
    {
      hide Inv;
      ghost var s := State();
      HolderIsWhole(s, data);
      StepKeepsInv(s, Op.Write(data, i, value));
      data[i] := value;
      assert data[..main.count] == s.data[data][i := value];
      assert State() == Step(s, Op.Write(data, i, value));
    }

    /** The holder's stores of all the contents, one after the other. */
    method Fill(data: array<T>, contents: seq<T>)
      requires Valid() && Holds(State(), data) && |contents| == main.count
      modifies data
      ensures Valid() && State() == old(State()).(data := old(State()).data[data := contents])
      ensures Reserved() == old(Reserved())
    {
      hide Inv, Step;
      HolderIsWhole(State(), data);
      ghost var s := State();
      ghost var now := s.data[data];
      for i := 0 to |contents|
        invariant Valid() && |now| == main.count == |contents| && now[..i] == contents[..i]
        invariant State() == s.(data := s.data[data := now])
      {
        StoreIsStep(State(), data, i, contents[i]);
        Store(data, i, contents[i]);
        now := now[i := contents[i]];
      }
      assert now == contents;
    }

    /** Publishing swaps the blocks and the counters, but not the capacities: the main
        array's capacity stays true exactly when the two blocks had the same size. */
    method EndWrite(data: array?<T>) returns (found: bool)
      requires Valid() && (Named(data) != null ==> Enabled(State(), Op.EndWrite(Named(data))))
      modifies this`mode, this`mainReads, this`backReads, main`data, back`data
      ensures Valid()
      ensures State() == if old(Named(data)) == null then old(State()) else Step(old(State()), Op.EndWrite(old(Named(data))))
      ensures found <==> old(Named(data)) == old(main.data) || old(Named(data)) == old(back.data)
      ensures found <==> if data == null then main.data.Length == 0 || back.data.Length == 0 else data == main.data || data == back.data
      ensures main.data == if old(Named(data)) == old(back.data) then old(back.data) else old(main.data)
      ensures mode == (if found then Idle else old(mode)) && sessions == old(sessions)
      ensures if old(Named(data)) == old(back.data) then mainReads == old(backReads) && backReads == old(mainReads)
        else mainReads == old(mainReads) && backReads == old(backReads)
      ensures Reserved() == if old(Named(data)) == old(back.data) then RoomSwapped(old(Reserved())) else old(Reserved())
      ensures old(main.Valid()) && old(Named(data)) == old(back.data) ==>
        (main.Valid() <==> old(back.data).Length == old(main.data).Length)
    {
      hide Inv;
      ghost var block := Named(data);
      if block != null {
        StepKeepsInv(State(), Op.EndWrite(block));
        if block == back.data {
          HolderIsWhole(State(), block);
        }
      }
      if data == main.data || (data == null && main.data.Length == 0) {
        mode := Idle;
        return true;
      }
      if data == back.data || (data == null && back.data.Length == 0) {
        mode := Idle;
        main.data, back.data := back.data, main.data;
        mainReads, backReads := backReads, mainReads;
        assert State() == Step(old(State()), Op.EndWrite(block));
        return true;
      }
      return false;
    }

    /** A buffered write of a column without a block hands out the null pointer, with which
        it cannot be ended: the pointer is taken for the main array. */
    lemma NullCannotPublish()
      requires Valid() && mode == Buffered && main.data.Length == 0
      ensures Named(null) == main.data && !Enabled(State(), Op.EndWrite(main.data))
    {
    }

    // ---------- Changing the rows ----------

    method CanModifyNow() returns (can: bool)
      requires Shape()
      ensures can == Free() == CanModify(State())
    {
      can := !(mainReads != 0 || backReads != 0 || mode != Idle);
    }

    method Resize(n: nat)
      requires Valid() && Free() && RoomFor(Reserved(), n) && n * main.elemSize < WORD32
      modifies main
      ensures Valid() && main.count == n && Reserved() == RoomResized(old(Reserved()), n)
      ensures main.data == old(main.data) || fresh(main.data)
      ensures var kept := Min(old(main.count), n); Contents()[..kept] == old(Contents())[..kept]
    {
      AdmissionIsExact(State());
      main.Resize(n);
    }

    method PushBack(src: seq<T>)
      requires Valid() && Free() && RoomFor(Reserved(), main.count + |src|) && (main.count + |src|) * main.elemSize <= 0x8000_0000
      modifies main, main.data
      ensures Valid() && Reserved() == RoomPushed(old(Reserved()), old(main.count) + |src|)
      ensures main.data == old(main.data) || fresh(main.data)
      ensures Contents() == old(Contents()) + src
    {
      AdmissionIsExact(State());
      main.PushBack(src);
    }

    method Update(src: seq<T>, srcOffset: nat, dst: nat, n: nat)
      requires Valid() && Free() && srcOffset + n <= |src| && dst + n <= main.count
      modifies main.data
      ensures Valid()
      ensures Contents() == Overwritten(old(Contents()), src, srcOffset, dst, n)
    {
      AdmissionIsExact(State());
      main.Overwrite(src, srcOffset, dst, n);
    }

    method RemoveFast(pos: nat, n: nat)
      requires Valid() && Free() && pos + n <= main.count
      modifies main`count, main.data
      ensures Valid() && Reserved() == old(Reserved())
      ensures Contents() == CutFast(old(Contents()), pos, n)
    {
      AdmissionIsExact(State());
      main.RemoveFast(pos, n);
    }

    method Reset()
      requires Valid() && Free()
      modifies main, back
      ensures Valid() && Contents() == [] && Reserved() == Room(main.elemSize, 0, 0, 0, 0)
      ensures fresh(main.data) && fresh(back.data)
    {
      AdmissionIsExact(State());
      main.Reset();
      back.Reset();
    }
  }

  /** A writer's buffer has the column's length. */
  lemma HolderIsWhole<B, T>(s: Sharing<B, T>, b: B)
    requires Inv(s) && Holds(s, b) && |s.data[s.main]| == s.mainCount && |s.data[s.back]| == s.backCount
    ensures b in s.data && |s.data[b]| == s.mainCount
  {
  }

  lemma StoreIsStep<B, T>(s: Sharing<B, T>, b: B, i: nat, value: T)
    requires Holds(s, b) && b in s.data && i < |s.data[b]|
    ensures Enabled(s, Op.Write(b, i, value)) && Step(s, Op.Write(b, i, value)) == s.(data := s.data[b := s.data[b][i := value]])
  {
  }

  /** Four rows, cut to two, rewritten through a buffer and published: the column then
      claims four slots and has two, so that growing it in place would not be sound. */
  method PublishMayOverstateCapacity() returns (c: Column<int>)
    ensures c.Valid() && c.Free() && c.main.count == 2 && c.Reserved() == Room(8, 4, 2, 4, 2)
    ensures !RoomFor(c.Reserved(), 3) && RoomFor(c.Reserved(), 5)
  {
    hide Inv;
    c := ShrunkColumn();
    var data, _, _ := c.BeginWrite(Buffered);
    var _ := c.EndWrite(data);
  }

  method ShrunkColumn() returns (c: Column<int>)
    ensures c.Valid() && c.Free() && c.main.count == 2 && c.Reserved() == Room(8, 4, 4, 0, 0)
    ensures fresh(c.Repr())
  {
    hide Inv;
    c := new Column(8);
    c.Resize(4);
    c.Resize(2);
  }
}
