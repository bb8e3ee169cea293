/** The reader/writer protocol of src/storage/storage_array.c as a state machine: two
    buffers, a read counter for each, a write mode, and the sessions the calls open. */
module Protocols {

  datatype Mode = Idle | Direct | Buffered

  /** An open read: the buffer behind the pointer and what it held when it was handed out. */
  datatype Session<B, T> = Session(buffer: B, snapshot: seq<T>)

  /** `main` and `back` name buffers, `data` says what every buffer holds. The sessions
      are what the callers hold; the code itself has only the two counters. */
  datatype Sharing<B, T> = Sharing(
    main: B, back: B, mainCount: nat, backCount: nat, data: map<B, seq<T>>,
    mode: Mode, mainReads: nat, backReads: nat, sessions: seq<Session<B, T>>)

  datatype Op<B, T> =
    | BeginRead
    | EndRead(buffer: B)
    | BeginWrite(mode: Mode, spare: B, junk: seq<T>)   // `spare`, holding `junk`, is what the allocator returns if asked
    | Write(buffer: B, i: nat, value: T)               // a store through a pointer that begin_write handed out
    | EndWrite(buffer: B)

  /** dsim_storage_array_can_modify. */
  predicate CanModify<B, T>(s: Sharing<B, T>) {
    !(s.mainReads != 0 || s.backReads != 0 || s.mode != Idle)
  }

  /** The first session on a buffer, closed. */
  function Close<B(==), T>(sessions: seq<Session<B, T>>, buffer: B): (r: seq<Session<B, T>>) {
    if sessions == [] then []
    else if sessions[0].buffer == buffer then sessions[1..]
    else [sessions[0]] + Close(sessions[1..], buffer)
  }

  function SessionsOn<B(==), T>(sessions: seq<Session<B, T>>, buffer: B): nat {
    if sessions == [] then 0
    else (if sessions[0].buffer == buffer then 1 else 0) + SessionsOn(sessions[1..], buffer)
  }

  /** What the code asserts, and that callers store only through the pointer they hold. */
  predicate Enabled<B(==), T>(s: Sharing<B, T>, op: Op<B, T>) {
    match op
    case BeginRead => s.main in s.data
    case EndRead(b) => if b == s.main then s.mainReads > 0 else b == s.back ==> s.backReads > 0
    case BeginWrite(m, spare, junk) =>
      && m != Idle && s.main in s.data
      && (Reallocates(s, m) ==> spare != s.main && spare != s.back && |junk| == s.mainCount)
    case Write(b, i, _) => b in s.data && i < |s.data[b]| && Holds(s, b)
    case EndWrite(b) => if b == s.main then s.mode == Direct else b == s.back ==> s.mode == Buffered
  }

  /** The buffer an open writer was given. */
  predicate Holds<B(==), T>(s: Sharing<B, T>, b: B) {
    (s.mode == Direct && b == s.main) || (s.mode == Buffered && b == s.back)
  }

  /** Whether begin_write hands out a buffer. */
  predicate Grants<B, T>(s: Sharing<B, T>, mode: Mode) {
    match mode
    case Idle => false
    case Direct => CanModify(s)
    case Buffered => !(s.mode != Idle || s.backReads != 0)
  }

  /** Whether it first gives the back buffer the length of the main one. */
  predicate Reallocates<B, T>(s: Sharing<B, T>, mode: Mode) {
    Grants(s, mode) && mode == Buffered && s.backCount != s.mainCount
  }

  function Step<B(==), T>(s: Sharing<B, T>, op: Op<B, T>): Sharing<B, T>
    requires Enabled(s, op)
  {
    match op
    case BeginRead =>
      if s.mode == Direct then s
      else s.(mainReads := s.mainReads + 1, sessions := s.sessions + [Session(s.main, s.data[s.main])])
    case EndRead(b) =>
      if b == s.main then s.(mainReads := s.mainReads - 1, sessions := Close(s.sessions, b))
      else if b == s.back then s.(backReads := s.backReads - 1, sessions := Close(s.sessions, b))
      else s
    case BeginWrite(m, spare, junk) =>
      if !Grants(s, m) then s
      else if Reallocates(s, m) then
        s.(mode := m, back := spare, backCount := s.mainCount, data := map[s.main := s.data[s.main], spare := junk])
      else s.(mode := m)
    case Write(b, i, v) => s.(data := s.data[b := s.data[b][i := v]])
    case EndWrite(b) =>
      if b == s.main then s.(mode := Idle)
      else if b == s.back then
        s.(mode := Idle, main := s.back, back := s.main, mainReads := s.backReads, backReads := s.mainReads)
      else s
  }

  predicate AllEnabled<B(==), T>(s: Sharing<B, T>, ops: seq<Op<B, T>>)
    decreases |ops|
  {
    ops == [] || (Enabled(s, ops[0]) && AllEnabled(Step(s, ops[0]), ops[1..]))
  }

  function Run<B(==), T>(s: Sharing<B, T>, ops: seq<Op<B, T>>): Sharing<B, T>
    requires AllEnabled(s, ops)
    decreases |ops|
  {
    if ops == [] then s else Run(Step(s, ops[0]), ops[1..])
  }

  ghost predicate Initial<B, T>(s: Sharing<B, T>) {
    && s.main != s.back && s.main in s.data && s.back in s.data
    && |s.data[s.main]| == s.mainCount
    && s.mode == Idle && s.mainReads == 0 == s.backReads && s.sessions == []
  }

  /** Both counters equal the open sessions on their buffer, every reader still sees its
      snapshot, a direct writer is alone, a buffered writer shares its buffer with no reader. */
  ghost predicate Inv<B, T>(s: Sharing<B, T>) {
    && s.main != s.back && s.main in s.data && s.back in s.data
    && s.mainReads == SessionsOn(s.sessions, s.main)
    && s.backReads == SessionsOn(s.sessions, s.back)
    && (forall k :: 0 <= k < |s.sessions| ==> SeesSnapshot(s, s.sessions[k]))
    && (s.mode == Direct ==> s.sessions == [])
    && (s.mode == Buffered ==> s.backReads == 0 && s.backCount == s.mainCount)
  }

  ghost predicate SeesSnapshot<B, T>(s: Sharing<B, T>, r: Session<B, T>) {
    (r.buffer == s.main || r.buffer == s.back) && r.buffer in s.data && s.data[r.buffer] == r.snapshot
  }

  // ---------- Counting sessions ----------

  lemma {:induction false} SessionsOnAppend<B, T>(a: seq<Session<B, T>>, r: Session<B, T>, b: B)
    ensures SessionsOn(a + [r], b) == SessionsOn(a, b) + (if r.buffer == b then 1 else 0)
  {
    if a == [] {
      assert a + [r] == [r];
    } else {
      assert (a + [r])[1..] == a[1..] + [r];
      SessionsOnAppend(a[1..], r, b);
    }
  }

  lemma {:induction false} CloseOne<B, T>(a: seq<Session<B, T>>, b: B, d: B)
    requires SessionsOn(a, b) > 0
    ensures SessionsOn(Close(a, b), d) == SessionsOn(a, d) - (if b == d then 1 else 0)
    ensures forall r :: r in Close(a, b) ==> r in a
    ensures |Close(a, b)| == |a| - 1
  {
    if a[0].buffer != b {
      CloseOne(a[1..], b, d);
      var c := Close(a[1..], b);
      assert ([a[0]] + c)[1..] == c;
    }
  }

  lemma {:induction false} NoSessionsOn<B, T>(a: seq<Session<B, T>>, b: B)
    ensures SessionsOn(a, b) == 0 <==> forall k :: 0 <= k < |a| ==> a[k].buffer != b
  {
    if a != [] {
      NoSessionsOn(a[1..], b);
      assert forall k :: 0 < k < |a| ==> a[k] == a[1..][k - 1];
    }
  }

  lemma {:induction false} TwoBuffers<B, T>(a: seq<Session<B, T>>, b: B, d: B)
    requires b != d && forall k :: 0 <= k < |a| ==> a[k].buffer == b || a[k].buffer == d
    ensures SessionsOn(a, b) + SessionsOn(a, d) == |a|
  {
    if a != [] {
      assert forall k :: 0 <= k < |a[1..]| ==> a[1..][k] == a[k + 1];
      TwoBuffers(a[1..], b, d);
    }
  }

  // ---------- Every step ----------

  lemma StepKeepsInv<B, T>(s: Sharing<B, T>, op: Op<B, T>)
    requires Inv(s) && Enabled(s, op)
    ensures Inv(Step(s, op))
  {
    match op
    case BeginRead => BeginReadKeepsInv(s);
    case EndRead(b) => EndReadKeepsInv(s, b);
    case BeginWrite(m, spare, junk) => BeginWriteKeepsInv(s, m, spare, junk);
    case Write(b, i, v) => WriteKeepsInv(s, b, i, v);
    case EndWrite(b) =>
  }

  lemma BeginReadKeepsInv<B, T>(s: Sharing<B, T>)
    requires Inv(s)
    ensures Inv(Step(s, BeginRead))
  {
    SessionsOnAppend(s.sessions, Session(s.main, s.data[s.main]), s.main);
    SessionsOnAppend(s.sessions, Session(s.main, s.data[s.main]), s.back);
  }

  lemma EndReadKeepsInv<B, T>(s: Sharing<B, T>, b: B)
    requires Inv(s) && Enabled(s, EndRead(b))
    ensures Inv(Step(s, EndRead(b)))
  {
    if b == s.main || b == s.back {
      CloseOne(s.sessions, b, s.main);
      CloseOne(s.sessions, b, s.back);
      var u := Step(s, EndRead(b));
      forall k | 0 <= k < |u.sessions|
        ensures SeesSnapshot(u, u.sessions[k])
      {
        assert u.sessions[k] in s.sessions;
      }
    }
  }

  lemma BeginWriteKeepsInv<B, T>(s: Sharing<B, T>, m: Mode, spare: B, junk: seq<T>)
    requires Inv(s) && Enabled(s, BeginWrite(m, spare, junk))
    ensures Inv(Step(s, BeginWrite(m, spare, junk)))
  {
    if Grants(s, m) {
      NoSessionsOn(s.sessions, s.back);
      NoSessionsOn(s.sessions, spare);
      if m == Direct {
        AdmissionIsExact(s);
      } else {
        assert forall k :: 0 <= k < |s.sessions| ==> SeesSnapshot(s, s.sessions[k]) && s.sessions[k].buffer == s.main;
      }
    }
  }

  lemma WriteKeepsInv<B, T>(s: Sharing<B, T>, b: B, i: nat, v: T)
    requires Inv(s) && Enabled(s, Write(b, i, v))
    ensures Inv(Step(s, Write(b, i, v)))
  {
    NoSessionsOn(s.sessions, s.back);
  }

  // ---------- What each call does ----------

  /** Under any mode but a direct write, begin_read opens exactly one session, on the main
      buffer as it is now; otherwise it changes nothing. */
  lemma BeginReadOpens<B, T>(s: Sharing<B, T>)
    requires Inv(s)
    ensures var u := Step(s, BeginRead);
      && u.main == s.main && u.back == s.back && u.data == s.data && u.mode == s.mode
      && u.mainCount == s.mainCount && u.backCount == s.backCount && u.backReads == s.backReads
      && if s.mode == Direct then u.mainReads == s.mainReads && u.sessions == s.sessions
         else
           && u.mainReads == s.mainReads + 1 && |u.sessions| == |s.sessions| + 1
           && u.sessions[..|s.sessions|] == s.sessions && u.sessions[|s.sessions|] == Session(s.main, s.data[s.main])
           && SessionsOn(u.sessions, s.main) == SessionsOn(s.sessions, s.main) + 1
           && SessionsOn(u.sessions, s.back) == SessionsOn(s.sessions, s.back)
  {
    SessionsOnAppend(s.sessions, Session(s.main, s.data[s.main]), s.main);
    SessionsOnAppend(s.sessions, Session(s.main, s.data[s.main]), s.back);
  }

  /** `a` is `b` without its session number k, which is on `buffer`. */
  ghost predicate Without<B, T>(a: seq<Session<B, T>>, b: seq<Session<B, T>>, buffer: B, k: nat) {
    k < |b| && b[k].buffer == buffer && a == b[..k] + b[k + 1..]
  }

  ghost predicate OneLess<B, T>(a: seq<Session<B, T>>, b: seq<Session<B, T>>, buffer: B) {
    exists k: nat :: Without(a, b, buffer, k)
  }

  lemma {:induction false} ClosesOne<B, T>(a: seq<Session<B, T>>, b: B) returns (k: nat)
    requires SessionsOn(a, b) > 0
    ensures Without(Close(a, b), a, b, k)
  {
    if a[0].buffer == b {
      k := 0;
    } else {
      var j := ClosesOne(a[1..], b);
      k := j + 1;
      ConsWithout(Close(a[1..], b), a, b, j);
    }
  }

  lemma ConsWithout<B, T>(c: seq<Session<B, T>>, a: seq<Session<B, T>>, b: B, j: nat)
    requires a != [] && Without(c, a[1..], b, j)
    ensures Without([a[0]] + c, a, b, j + 1)
  {
    assert a == [a[0]] + a[1..];
    assert a[..j + 1] == [a[0]] + a[1..][..j];
  }

  /** end_read of a column's own pointer closes exactly one session on that buffer; any
      other pointer changes nothing. */
  lemma EndReadCloses<B, T>(s: Sharing<B, T>, b: B)
    requires Inv(s) && Enabled(s, EndRead(b))
    ensures var u := Step(s, EndRead(b));
      && u.main == s.main && u.back == s.back && u.data == s.data && u.mode == s.mode
      && u.mainCount == s.mainCount && u.backCount == s.backCount
      && u.mainReads == (if b == s.main then s.mainReads - 1 else s.mainReads)
      && u.backReads == (if b == s.back then s.backReads - 1 else s.backReads)
      && (b == s.main || b == s.back ==>
           && |u.sessions| == |s.sessions| - 1 && OneLess(u.sessions, s.sessions, b)
           && SessionsOn(u.sessions, b) == SessionsOn(s.sessions, b) - 1
           && forall d: B :: d != b ==> SessionsOn(u.sessions, d) == SessionsOn(s.sessions, d))
      && (b != s.main && b != s.back ==> u.sessions == s.sessions)
  {
    if b == s.main || b == s.back {
      var k := ClosesOne(s.sessions, b);
      forall d: B
        ensures SessionsOn(Close(s.sessions, b), d) == SessionsOn(s.sessions, d) - (if b == d then 1 else 0)
      {
        CloseOne(s.sessions, b, d);
      }
    }
  }

  /** Reading and ending the read leaves counters, sessions and admission as they were. */
  lemma EndReadUndoesBeginRead<B, T>(s: Sharing<B, T>)
    requires Inv(s) && s.mode != Direct
    ensures Enabled(Step(s, BeginRead), EndRead(s.main))
    ensures var u := Step(Step(s, BeginRead), EndRead(s.main));
      && u.mainReads == s.mainReads && u.backReads == s.backReads && u.mode == s.mode && u.data == s.data
      && u.main == s.main && u.back == s.back && |u.sessions| == |s.sessions|
      && multiset(u.sessions) == multiset(s.sessions)
      && (forall d: B :: SessionsOn(u.sessions, d) == SessionsOn(s.sessions, d))
      && forall m :: Grants(u, m) == Grants(s, m)
  {
    hide OneLess, Close, SessionsOn;
    var r := Session(s.main, s.data[s.main]);
    BeginReadKeepsInv(s);
    BeginReadOpens(s);
    var v := Step(s, BeginRead);
    assert v.sessions == s.sessions + [r];
    EndReadCloses(v, s.main);
    var u := Step(v, EndRead(s.main));
    assert forall k :: 0 <= k < |v.sessions| ==> SeesSnapshot(v, v.sessions[k]);
    assert forall k :: 0 <= k < |v.sessions| && v.sessions[k].buffer == s.main ==> v.sessions[k] == r;
    hide Inv, Step, Enabled, SeesSnapshot;
    SameButOne(u.sessions, s.sessions, r);
    forall d: B
      ensures SessionsOn(u.sessions, d) == SessionsOn(s.sessions, d)
    {
      SessionsOnAppend(s.sessions, r, d);
    }
  }

  lemma SameButOne<B, T>(a: seq<Session<B, T>>, b: seq<Session<B, T>>, r: Session<B, T>)
    requires OneLess(a, b + [r], r.buffer)
    requires forall k :: 0 <= k < |b + [r]| && (b + [r])[k].buffer == r.buffer ==> (b + [r])[k] == r
    ensures multiset(a) == multiset(b)
  {
    var c := b + [r];
    var k: nat :| Without(a, c, r.buffer, k);
    assert c[k] == r && c[..|b|] == b;
    DropOne(c, k, r);
    DropOne(c, |b|, r);
    assert b == c[..|b|] + c[|b| + 1..];
  }

  lemma DropOne<X>(c: seq<X>, k: nat, r: X)
    requires k < |c| && c[k] == r
    ensures multiset(c[..k] + c[k + 1..]) == multiset(c) - multiset{r}
  {
    var x, y := c[..k], c[k + 1..];
    assert c == x + [r] + y;
  }

  /** An admitted begin_write sets the mode and leaves the main buffer, the counters and the
      sessions alone; a buffered writer's buffer then has the column's length, and is the old
      back buffer if that had it already. A refused one changes nothing. */
  lemma BeginWriteOpens<B, T>(s: Sharing<B, T>, m: Mode, spare: B, junk: seq<T>)
    requires Inv(s) && Enabled(s, BeginWrite(m, spare, junk))
    ensures var u := Step(s, BeginWrite(m, spare, junk));
      && u.main == s.main && u.mainCount == s.mainCount && u.main in u.data && u.data[u.main] == s.data[s.main]
      && u.mainReads == s.mainReads && u.backReads == s.backReads && u.sessions == s.sessions
      && (m == Direct ==> u.mode == (if s.sessions == [] && s.mode == Idle then Direct else s.mode))
      && (m == Buffered ==>
           u.mode == if s.mode == Idle && (forall k :: 0 <= k < |s.sessions| ==> s.sessions[k].buffer != s.back) then Buffered else s.mode)
      && (m == Buffered && s.mode == Idle && u.mode == Buffered ==> u.backCount == u.mainCount)
      && (m == Direct || s.backCount == s.mainCount || u.mode == s.mode ==>
           u.back == s.back && u.backCount == s.backCount && u.data == s.data)
  {
    AdmissionIsExact(s);
  }

  /** end_write by the holder ends the write and closes no session: a direct one leaves the
      buffers, a buffered one exchanges them and the counters with them. */
  lemma EndWriteCloses<B, T>(s: Sharing<B, T>, b: B)
    requires Inv(s) && Enabled(s, EndWrite(b))
    ensures var u := Step(s, EndWrite(b));
      && u.sessions == s.sessions && u.data == s.data
      && u.mode == (if b == s.main || b == s.back then Idle else s.mode)
      && (if b == s.back then u.main == s.back && u.back == s.main && u.mainReads == s.backReads && u.backReads == s.mainReads
          else u.main == s.main && u.back == s.back && u.mainReads == s.mainReads && u.backReads == s.backReads)
  {
  }

  // ---------- Every run ----------

  lemma {:induction false} RunKeepsInv<B, T>(s: Sharing<B, T>, ops: seq<Op<B, T>>)
    requires Inv(s) && AllEnabled(s, ops)
    ensures Inv(Run(s, ops))
    decreases |ops|
  {
    if ops != [] {
      StepKeepsInv(s, ops[0]);
      RunKeepsInv(Step(s, ops[0]), ops[1..]);
    }
  }

  /** From any initial state, whatever the callers do: the counters are exact, nobody
      writes under a reader, and what an open reader points at has not changed. */
  lemma SafeOverEveryRun<B, T>(s: Sharing<B, T>, ops: seq<Op<B, T>>)
    requires Initial(s) && AllEnabled(s, ops)
    ensures var u := Run(s, ops);
      && u.mainReads == SessionsOn(u.sessions, u.main) && u.backReads == SessionsOn(u.sessions, u.back)
      && u.mainReads + u.backReads == |u.sessions|
      && (forall k :: 0 <= k < |u.sessions| ==> SeesSnapshot(u, u.sessions[k]) && !Holds(u, u.sessions[k].buffer))
  {
    RunKeepsInv(s, ops);
    var u := Run(s, ops);
    assert forall k :: 0 <= k < |u.sessions| ==> SeesSnapshot(u, u.sessions[k]);
    TwoBuffers(u.sessions, u.main, u.back);
    NoSessionsOn(u.sessions, u.back);
  }

  /** How many sessions a call opens, or closes. */
  function Change<B(==), T>(s: Sharing<B, T>, op: Op<B, T>): int {
    match op
    case BeginRead => if s.mode == Direct then 0 else 1
    case EndRead(b) => if b == s.main || b == s.back then -1 else 0
    case _ => 0
  }

  function Balance<B(==), T>(s: Sharing<B, T>, ops: seq<Op<B, T>>): int
    requires AllEnabled(s, ops)
    decreases |ops|
  {
    if ops == [] then 0 else Change(s, ops[0]) + Balance(Step(s, ops[0]), ops[1..])
  }

  lemma StepChanges<B, T>(s: Sharing<B, T>, op: Op<B, T>)
    requires Inv(s) && Enabled(s, op)
    ensures |Step(s, op).sessions| == |s.sessions| + Change(s, op)
  {
    match op
    case BeginRead => BeginReadOpens(s);
    case EndRead(b) => EndReadCloses(s, b);
    case BeginWrite(m, spare, junk) => BeginWriteOpens(s, m, spare, junk);
    case Write(_, _, _) =>
    case EndWrite(b) => EndWriteCloses(s, b);
  }

  /** Over every run the open sessions, and the two counters together, are the reads begun
      less the reads ended, whatever writers do in between. */
  lemma {:induction false} SessionsBalance<B, T>(s: Sharing<B, T>, ops: seq<Op<B, T>>)
    requires Inv(s) && AllEnabled(s, ops)
    ensures |Run(s, ops).sessions| == |s.sessions| + Balance(s, ops)
    ensures Run(s, ops).mainReads + Run(s, ops).backReads == |s.sessions| + Balance(s, ops)
    decreases |ops|
  {
    if ops != [] {
      hide Inv, Step, Enabled, Change;
      StepKeepsInv(s, ops[0]);
      StepChanges(s, ops[0]);
      SessionsBalance(Step(s, ops[0]), ops[1..]);
    } else {
      assert forall k :: 0 <= k < |s.sessions| ==> SeesSnapshot(s, s.sessions[k]);
      TwoBuffers(s.sessions, s.main, s.back);
    }
  }

  /** Whoever holds an open session can end it, also after a publish. */
  lemma ReaderCanEnd<B, T>(s: Sharing<B, T>, k: nat)
    requires Inv(s) && k < |s.sessions|
    ensures Enabled(s, EndRead(s.sessions[k].buffer)) && Change(s, EndRead(s.sessions[k].buffer)) == -1
  {
    assert SeesSnapshot(s, s.sessions[k]);
    NoSessionsOn(s.sessions, s.sessions[k].buffer);
  }

  /** The counters decide admission exactly: a direct writer enters if and only if there
      is no session at all, a buffered one if and only if there is no writer and no
      reader on the back buffer. */
  lemma AdmissionIsExact<B, T>(s: Sharing<B, T>)
    requires Inv(s)
    ensures CanModify(s) <==> s.sessions == [] && s.mode == Idle
    ensures Grants(s, Direct) <==> s.sessions == [] && s.mode == Idle
    ensures Grants(s, Buffered) <==> s.mode == Idle && forall k :: 0 <= k < |s.sessions| ==> s.sessions[k].buffer != s.back
  {
    assert forall k :: 0 <= k < |s.sessions| ==> SeesSnapshot(s, s.sessions[k]);
    TwoBuffers(s.sessions, s.main, s.back);
    NoSessionsOn(s.sessions, s.back);
  }

  /** Some session on the buffer is open throughout. */
  predicate StaysOpen<B(==), T>(s: Sharing<B, T>, ops: seq<Op<B, T>>, buffer: B)
    requires AllEnabled(s, ops)
    decreases |ops|
  {
    SessionsOn(s.sessions, buffer) > 0 && (ops == [] || StaysOpen(Step(s, ops[0]), ops[1..], buffer))
  }

  /** While a session stays open, its buffer keeps its contents, whatever the others do,
      also when a publish swaps the buffers meanwhile. */
  lemma {:induction false} SnapshotIsolation<B, T>(s: Sharing<B, T>, ops: seq<Op<B, T>>, buffer: B)
    requires Inv(s) && AllEnabled(s, ops) && StaysOpen(s, ops, buffer)
    ensures buffer in s.data && buffer in Run(s, ops).data
    ensures Run(s, ops).data[buffer] == s.data[buffer]
    decreases |ops|
  {
    OnSessionBuffer(s, buffer);
    if ops != [] {
      StepKeepsInv(s, ops[0]);
      StepKeepsData(s, ops[0], buffer);
      SnapshotIsolation(Step(s, ops[0]), ops[1..], buffer);
    }
  }

  lemma OnSessionBuffer<B, T>(s: Sharing<B, T>, buffer: B)
    requires Inv(s) && SessionsOn(s.sessions, buffer) > 0
    ensures (buffer == s.main || buffer == s.back) && buffer in s.data && !Holds(s, buffer)
  {
    NoSessionsOn(s.sessions, buffer);
    var k :| 0 <= k < |s.sessions| && s.sessions[k].buffer == buffer;
    assert SeesSnapshot(s, s.sessions[k]);
  }

  lemma StepKeepsData<B, T>(s: Sharing<B, T>, op: Op<B, T>, buffer: B)
    requires Inv(s) && Enabled(s, op) && SessionsOn(s.sessions, buffer) > 0
    ensures buffer in s.data && buffer in Step(s, op).data && Step(s, op).data[buffer] == s.data[buffer]
  {
    OnSessionBuffer(s, buffer);
  }

  /** A publish makes exactly what the writer left in its buffer the column's contents. */
  lemma PublishSwaps<B, T>(s: Sharing<B, T>)
    requires Inv(s) && s.mode == Buffered
    ensures var u := Step(s, EndWrite(s.back));
      && u.data[u.main] == s.data[s.back] && u.data[u.back] == s.data[s.main]
      && u.mainReads == 0 && u.backReads == |s.sessions|
      && Grants(u, Direct) == (s.sessions == []) == Grants(u, Buffered)
  {
    assert forall k :: 0 <= k < |s.sessions| ==> SeesSnapshot(s, s.sessions[k]);
    TwoBuffers(s.sessions, s.main, s.back);
  }
}
