/** The type layout of tools/ddlc/ddl_json.c. The compiler reads the schema again and
    again, each time taking sizes and alignments from its own previous output, until the
    output stays the same; that output is the layout computed directly along the types. */
module Layouts {
  import opened Common

  type Uint8 = x: int | 0 <= x < 0x100

  // ---------- Schema and output ----------

  datatype Field = Field(name: string, typ: string, offset: Option<Uint32>)

  datatype Data =
    | Numeric(isSigned: bool, isFloat: bool)
    | Struct(fields: seq<Field>)
    | Enum(values: seq<string>)
    | Reference(storages: seq<string>)
    | NoData

  /** A type, in the schema and in the output alike; `None` where the attribute is absent. */
  datatype Type = Type(name: string, ctype: Option<string>, size: Option<Uint8>, align: Option<Uint8>, data: Data)

  /** What a look-up in the previous output yields for a field. */
  datatype Measure = Measure(size: Uint8, align: Uint8)

  function Names(types: seq<Type>): (r: seq<string>)
    ensures |r| == |types| && forall i :: 0 <= i < |types| ==> r[i] == types[i].name
  {
    seq(|types|, i requires 0 <= i < |types| => types[i].name)
  }

  /** dsim_ddl_type_by_name: the first type of that name. */
  function ByName(names: seq<string>, name: string): (r: nat)
    requires name in names
    ensures r < |names| && names[r] == name && name !in names[..r]
  {
    if names[0] == name then 0
    else
      var r := ByName(names[1..], name);
      assert names[..1 + r] == [names[0]] + names[1..][..r];
      1 + r
  }

  /** Every field's type is declared. */
  ghost predicate Declared(types: seq<Type>) {
    forall i :: 0 <= i < |types| ==> FieldsDeclared(types[i], Names(types))
  }

  ghost predicate FieldsDeclared(t: Type, names: seq<string>) {
    t.data.Struct? ==> forall k :: 0 <= k < |t.data.fields| ==> t.data.fields[k].typ in names
  }

  /** Every numeric type says how big it is; the compiler gives up on a schema that does not. */
  predicate Sized(types: seq<Type>) {
    forall i :: 0 <= i < |types| ==> TypeSized(types[i])
  }

  predicate TypeSized(t: Type) {
    t.data.Numeric? ==> t.size.Some?
  }

  // ---------- One type ----------

  /** The bitwise `a & b` on naturals. */
  function And(a: nat, b: nat): nat {
    if a == 0 || b == 0 then 0
    else 2 * And(a / 2, b / 2) + (if a % 2 == 1 && b % 2 == 1 then 1 else 0)
  }

  lemma {:induction false} AndLow(a: nat, b: nat, k: nat, m: nat)
    requires a == Pow2(k) * m && b < Pow2(k)
    ensures And(a, b) == 0
    decreases k
  {
    if k > 0 {
      var half := Pow2(k - 1) * m;
      assert a == 2 * half by {
        Associates(Pow2(k - 1), m);
      }
      AndLow(half, b / 2, k - 1, m);
    }
  }

  lemma Associates(p: nat, m: nat)
    ensures (2 * p) * m == 2 * (p * m)
  {
  }

  lemma ByteWidth(w: nat)
    requires w == 8
    ensures Pow2(w) == 0x100
  {
    var n := w / 8;
    assert Pow2(n) == 2 * Pow2(n - 1) == 2;
    Doubles(n, 2);
    Doubles(2 * n, 4);
    Doubles(4 * n, 16);
  }

  /** A size whose low byte is zero ends the padding loop. */
  lemma PaddingEnds(size: nat, align: Uint8)
    requires And(size, align) != 0
    ensures size % 0x100 != 0
  {
    if size % 0x100 == 0 {
      var w := 8;
      ByteWidth(w);
      AndLow(size, align, w, size / 0x100);
    }
  }

  /** How far the padding loop may still go. */
  function ToByteEnd(size: nat): nat {
    if size % 0x100 == 0 then 0 else 0x100 - size % 0x100
  }

  lemma NextByteIsNearer(size: nat)
    requires size % 0x100 != 0
    ensures ToByteEnd(size + 1) == ToByteEnd(size) - 1
  {
    var q, r := size / 0x100, size % 0x100;
    ModOf(q, r + 1);
  }

  lemma ModOf(q: nat, r: nat)
    requires r <= 0x100
    ensures (0x100 * q + r) % 0x100 == if r == 0x100 then 0 else r
  {
    if r == 0x100 {
      assert 0x100 * q + r == 0x100 * (q + 1);
    }
  }

  /** The padding loop `while( size & align ) ++size`. */
  function Padded(size: nat, align: Uint8): (r: nat)
    ensures size <= r && And(r, align) == 0
    decreases ToByteEnd(size)
  {
    if And(size, align) == 0 then size
    else
      PaddingEnds(size, align);
      NextByteIsNearer(size);
      Padded(size + 1, align)
  }

  /** The loop stops at the first size that shares no bit with the alignment. */
  lemma {:induction false} PaddedIsLeast(size: nat, align: Uint8, s: nat)
    requires size <= s && And(s, align) == 0
    ensures Padded(size, align) <= s
    decreases s - size
  {
    if And(size, align) != 0 {
      PaddedIsLeast(size + 1, align, s);
    }
  }

  lemma {:induction false} AndOneBit(s: nat, k: nat)
    ensures And(s, Pow2(k)) == 0 <==> Shr(s, k) % 2 == 0
  {
    if k == 0 {
      AndZero(s / 2);
    } else if s > 0 {
      assert Pow2(k) / 2 == Pow2(k - 1) && Pow2(k) % 2 == 0;
      AndOneBit(s / 2, k - 1);
    } else {
      ShrVanishes(0, k);
    }
  }

  lemma AndZero(s: nat)
    ensures And(s, 0) == 0
  {
  }

  /** Counting up by one changes the bits from k on only at a multiple of 2^k. */
  lemma {:induction false} ShrStep(s: nat, k: nat)
    ensures Shr(s + 1, k) == Shr(s, k) || s + 1 == Pow2(k) * Shr(s + 1, k)
  {
    if k > 0 && s % 2 == 1 {
      ShrStep(s / 2, k - 1);
      assert (s + 1) / 2 == s / 2 + 1;
      Associates(Pow2(k - 1), Shr(s / 2 + 1, k - 1));
    }
  }

  lemma MultipleMod(p: nat, q: nat)
    requires p >= 1
    ensures (p * q) % p == 0
  {
    var d, r := (p * q) / p, (p * q) % p;
    Distributes(p, q, d);
    SmallMultiple(p, q - d, r);
  }

  lemma Distributes(p: nat, q: nat, d: int)
    ensures p * (q - d) == p * q - p * d
  {
  }

  lemma SmallMultiple(p: nat, x: int, r: nat)
    requires p * x == r < p
    ensures r == 0
  {
  }

  /** For an alignment of 2^k the loop rounds a size up to a multiple of it when bit k of
      the size is set, and leaves the size alone otherwise; so the result is aligned
      exactly when the size was, or had that bit set. */
  lemma PaddingAlignsIff(size: nat, k: nat)
    requires k < 8
    ensures Pow2(k) < 0x100
    ensures Shr(size, k) % 2 == 0 ==> Padded(size, Pow2(k)) == size
    ensures Padded(size, Pow2(k)) % Pow2(k) == 0 <==> size % Pow2(k) == 0 || Shr(size, k) % 2 == 1
  {
    var w := 8;
    ByteWidth(w);
    Pow2Order(k, w);
    AndOneBit(size, k);
    if Shr(size, k) % 2 == 1 {
      PaddedFromSet(size, k);
    }
  }

  lemma {:induction false} PaddedFromSet(size: nat, k: nat)
    requires Pow2(k) < 0x100 && Shr(size, k) % 2 == 1
    ensures Padded(size, Pow2(k)) % Pow2(k) == 0
    decreases ToByteEnd(size)
  {
    hide And, Shr, Pow2, ToByteEnd;
    AndOneBit(size, k);
    AndOneBit(size + 1, k);
    PaddingEnds(size, Pow2(k));
    NextByteIsNearer(size);
    assert Padded(size, Pow2(k)) == Padded(size + 1, Pow2(k));
    if Shr(size + 1, k) % 2 == 1 {
      PaddedFromSet(size + 1, k);
    } else {
      ShrStep(size, k);
      MultipleMod(Pow2(k), Shr(size + 1, k));
    }
  }

  /** Where the first n fields end: each field starts at its own offset if it has one, and
      where the one before it ends otherwise. Without sizes nothing is added. */
  function End(fields: seq<Field>, ms: Option<seq<Measure>>, n: nat): Uint32
    requires n <= |fields| && (ms.Some? ==> |ms.value| == |fields|)
  {
    if n == 0 then 0
    else
      var start := Start(fields[n - 1].offset, End(fields, ms, n - 1));
      if ms.Some? then (start + ms.value[n - 1].size) % WORD32 else start
  }

  function Start(explicit: Option<Uint32>, running: Uint32): Uint32 {
    if explicit.Some? then explicit.value else running
  }

  /** The largest alignment among the first n fields. */
  function Widest(ms: Option<seq<Measure>>, n: nat): Uint8
    requires ms.Some? ==> n <= |ms.value|
  {
    if n == 0 || ms.None? then 0 else Max(Widest(ms, n - 1), ms.value[n - 1].align)
  }

  function PlacedFields(fields: seq<Field>, ms: Option<seq<Measure>>): (r: seq<Field>)
    requires ms.Some? ==> |ms.value| == |fields|
    ensures |r| == |fields|
  {
    seq(|fields|, k requires 0 <= k < |fields| =>
      Field(fields[k].name, fields[k].typ, Some(Start(fields[k].offset, End(fields, ms, k)))))
  }

  /** One type, given what the look-ups of its fields yield (nothing on the first pass). */
  function Processed(t: Type, ms: Option<seq<Measure>>): (r: Type)
    requires TypeSized(t) && (t.data.Struct? && ms.Some? ==> |ms.value| == |t.data.fields|)
    ensures r.name == t.name
  {
    match t.data
    case Numeric(isSigned, isFloat) =>
      var align := if t.align.Some? then t.align.value else NumericAlign(t.size.value);
      Type(t.name, t.ctype, t.size, Some(align), Numeric(isSigned || isFloat, isFloat))
    case Struct(fields) =>
      var widest := Widest(ms, |fields|);
      var size := if t.size.Some? then t.size.value else Padded(End(fields, ms, |fields|), widest) % 0x100;
      Type(t.name, t.ctype, Some(size), if t.align.Some? then t.align else Some(widest), Struct(PlacedFields(fields, ms)))
    case Enum(values) => Type(t.name, t.ctype, Some(4), Some(4), Enum(values))
    case Reference(_) => Type(t.name, t.ctype, Some(8), Some(8), Reference([]))
    case NoData => Type(t.name, t.ctype, None, None, NoData)
  }

  /** The default alignment of a number: its size rounded up to a power of two, at most 16. */
  function NumericAlign(size: Uint8): (r: Uint8) {
    Min(16, NextPow2(size))
  }

  /** A number's default alignment is the least power of two that holds it, up to 16. */
  lemma NumericAlignIsLeast(size: Uint8)
    requires size >= 1
    ensures IsPow2(NumericAlign(size))
    ensures if size <= 16 then size <= NumericAlign(size) < 2 * size else NumericAlign(size) == 16
  {
    hide NextPow2;
    NextPow2IsLeast(size);
    var n := 4;
    assert Pow2(n) == 16 by {
      assert Pow2(1) == 2 * Pow2(0);
      Doubles(1, 2);
      Doubles(2, 4);
    }
    assert IsPow2(16);
  }

  /** A struct is aligned to the widest of its fields. */
  lemma {:induction false} WidestIsMax(ms: seq<Measure>, n: nat)
    requires n <= |ms|
    ensures forall k :: 0 <= k < n ==> ms[k].align <= Widest(Some(ms), n)
    ensures n > 0 ==> exists k :: 0 <= k < n && ms[k].align == Widest(Some(ms), n)
    ensures n == 0 ==> Widest(Some(ms), n) == 0
  {
    if n > 0 {
      WidestIsMax(ms, n - 1);
      assert Widest(Some(ms), n) == Max(Widest(Some(ms), n - 1), ms[n - 1].align);
    }
  }

  // ---------- One pass ----------

  ghost predicate SameNames(types: seq<Type>, prev: seq<Type>) {
    Names(prev) == Names(types)
  }

  /** The look-ups of a type's fields in the previous output. */
  function Measures(fields: seq<Field>, prev: seq<Type>): (r: seq<Measure>)
    requires forall k :: 0 <= k < |fields| ==> fields[k].typ in Names(prev)
    ensures |r| == |fields|
  {
    seq(|fields|, k requires 0 <= k < |fields| => Of(prev[ByName(Names(prev), fields[k].typ)]))
  }

  /** An attribute that is not written reads as 0. */
  function Of(t: Type): Measure {
    Measure(if t.size.Some? then t.size.value else 0, if t.align.Some? then t.align.value else 0)
  }

  function MeasuresFor(t: Type, prev: Option<seq<Type>>): (r: Option<seq<Measure>>)
    requires prev.Some? ==> FieldsDeclared(t, Names(prev.value))
    ensures t.data.Struct? && r.Some? ==> |r.value| == |t.data.fields|
  {
    if prev.Some? && t.data.Struct? then Some(Measures(t.data.fields, prev.value)) else None
  }

  ghost predicate Passable(types: seq<Type>, prev: Option<seq<Type>>) {
    Sized(types) && Declared(types) && (prev.Some? ==> SameNames(types, prev.value))
  }

  /** dsim_process_types: every type again, from the schema and the previous output. */
  function Pass(types: seq<Type>, prev: Option<seq<Type>>): (r: seq<Type>)
    requires Passable(types, prev)
    ensures |r| == |types| && SameNames(types, r)
  {
    seq(|types|, i requires 0 <= i < |types| => Processed(types[i], MeasuresFor(types[i], prev)))
  }

  function Passes(types: seq<Type>, n: nat): (r: seq<Type>)
    requires Passable(types, None) && n >= 1
    ensures |r| == |types| && SameNames(types, r)
  {
    Pass(types, if n == 1 then None else Some(Passes(types, n - 1)))
  }

  // ---------- The layout, directly ----------

  /** Laying out struct t takes the measure of its field k: for the offset of the next field
      or the struct's size, or for its alignment. What the schema states is not taken. */
  predicate Reads(t: Type, k: nat)
    requires t.data.Struct? && k < |t.data.fields|
  {
    t.size.None? || t.align.None? || (k + 1 < |t.data.fields| && t.data.fields[k + 1].offset.None?)
  }

  /** No type's layout takes its own measure, directly or through others: the fields whose
      measure is taken have types of lower rank. */
  ghost predicate Ranked(types: seq<Type>, rank: seq<nat>) {
    |rank| == |types| && Declared(types) && forall i :: 0 <= i < |types| ==> FieldsBelow(types[i], Names(types), rank, rank[i])
  }

  ghost predicate FieldsBelow(t: Type, names: seq<string>, rank: seq<nat>, r: nat)
    requires |rank| == |names| && FieldsDeclared(t, names)
  {
    t.data.Struct? ==> forall k :: 0 <= k < |t.data.fields| && Reads(t, k) ==> rank[ByName(names, t.data.fields[k].typ)] < r
  }

  /** Lays a type out after the types of the fields it reads. */
  ghost function LayoutOf(types: seq<Type>, rank: seq<nat>, i: nat): (r: Type)
    requires Sized(types) && Ranked(types, rank) && i < |types|
    ensures r.name == types[i].name
    decreases rank[i], 1, 0
  {
    Processed(types[i], if types[i].data.Struct? then Some(FieldLayouts(types, rank, i, |types[i].data.fields|)) else None)
  }

  ghost function FieldLayouts(types: seq<Type>, rank: seq<nat>, i: nat, n: nat): (r: seq<Measure>)
    requires Sized(types) && Ranked(types, rank) && i < |types| && types[i].data.Struct? && n <= |types[i].data.fields|
    ensures |r| == n
    decreases rank[i], 0, n
  {
    if n == 0 then []
    else
      assert FieldsBelow(types[i], Names(types), rank, rank[i]);
      FieldLayouts(types, rank, i, n - 1)
      + [if Reads(types[i], n - 1) then Of(LayoutOf(types, rank, ByName(Names(types), types[i].data.fields[n - 1].typ)))
         else Measure(0, 0)]
  }

  ghost function Layout(types: seq<Type>, rank: seq<nat>): (r: seq<Type>)
    requires Sized(types) && Ranked(types, rank)
    ensures |r| == |types| && SameNames(types, r)
  {
    seq(|types|, i requires 0 <= i < |types| => LayoutOf(types, rank, i))
  }

  /** The two lists give the same for every field that is read. */
  ghost predicate AgreeWhereRead(t: Type, ms: seq<Measure>, ns: seq<Measure>)
    requires t.data.Struct? && |ms| == |ns| == |t.data.fields|
  {
    forall k :: 0 <= k < |ms| && Reads(t, k) ==> ms[k] == ns[k]
  }

  /** Only what is read decides where a field starts. */
  lemma {:induction false} SameStart(t: Type, ms: seq<Measure>, ns: seq<Measure>, k: nat)
    requires t.data.Struct? && |ms| == |ns| == |t.data.fields| && AgreeWhereRead(t, ms, ns) && k < |ms|
    ensures Start(t.data.fields[k].offset, End(t.data.fields, Some(ms), k)) == Start(t.data.fields[k].offset, End(t.data.fields, Some(ns), k))
  {
    if k > 0 && t.data.fields[k].offset.None? {
      SameStart(t, ms, ns, k - 1);
      assert Reads(t, k - 1);
    }
  }

  lemma ReadsDecide(t: Type, ms: seq<Measure>, ns: seq<Measure>)
    requires TypeSized(t) && t.data.Struct? && |ms| == |ns| == |t.data.fields| && AgreeWhereRead(t, ms, ns)
    ensures Processed(t, Some(ms)) == Processed(t, Some(ns))
  {
    hide End;
    if t.size.None? || t.align.None? {
      assert ms == ns;
    } else {
      forall k | 0 <= k < |t.data.fields|
        ensures PlacedFields(t.data.fields, Some(ms))[k] == PlacedFields(t.data.fields, Some(ns))[k]
      {
        SameStart(t, ms, ns, k);
      }
      assert PlacedFields(t.data.fields, Some(ms)) == PlacedFields(t.data.fields, Some(ns));
    }
  }

  /** A struct that reads no field comes out the same without look-ups. */
  lemma NothingRead(t: Type, ms: seq<Measure>)
    requires TypeSized(t) && t.data.Struct? && |ms| == |t.data.fields| && forall k :: 0 <= k < |ms| ==> !Reads(t, k)
    ensures Processed(t, None) == Processed(t, Some(ms))
  {
    if ms != [] {
      assert !Reads(t, 0);
    }
    forall k | 0 <= k < |t.data.fields|
      ensures PlacedFields(t.data.fields, None)[k] == PlacedFields(t.data.fields, Some(ms))[k]
    {
      if k > 0 {
        assert !Reads(t, k - 1);
      }
    }
    assert PlacedFields(t.data.fields, None) == PlacedFields(t.data.fields, Some(ms));
  }

  /** Look-ups in an output that is right below a rank yield the field layouts that are read. */
  lemma {:induction false} RightMeasure(types: seq<Type>, rank: seq<nat>, i: nat, n: nat, k: nat, prev: seq<Type>)
    requires Sized(types) && Ranked(types, rank) && i < |types| && types[i].data.Struct? && k < n <= |types[i].data.fields|
    requires SameNames(types, prev)
    requires forall j :: 0 <= j < |types| && rank[j] < rank[i] ==> prev[j] == LayoutOf(types, rank, j)
    requires FieldsDeclared(types[i], Names(prev)) && Reads(types[i], k)
    ensures Measures(types[i].data.fields, prev)[k] == FieldLayouts(types, rank, i, n)[k]
  {
    hide LayoutOf, ByName, Reads;
    if k < n - 1 {
      RightMeasure(types, rank, i, n - 1, k, prev);
    } else {
      assert FieldsBelow(types[i], Names(types), rank, rank[i]);
    }
  }

  /** A pass over an output that is right below a type's rank gets that type right. */
  lemma PassGetsRight(types: seq<Type>, rank: seq<nat>, i: nat, prev: seq<Type>)
    requires Sized(types) && Ranked(types, rank) && i < |types| && SameNames(types, prev)
    requires forall j :: 0 <= j < |types| && rank[j] < rank[i] ==> prev[j] == LayoutOf(types, rank, j)
    ensures Pass(types, Some(prev))[i] == LayoutOf(types, rank, i)
  {
    hide Processed, Reads;
    assert FieldsDeclared(types[i], Names(types));
    if types[i].data.Struct? {
      var n := |types[i].data.fields|;
      var ms := Measures(types[i].data.fields, prev);
      var ns := FieldLayouts(types, rank, i, n);
      forall k | 0 <= k < n && Reads(types[i], k)
        ensures ms[k] == ns[k]
      {
        RightMeasure(types, rank, i, n, k, prev);
      }
      ReadsDecide(types[i], ms, ns);
    }
  }

  /** The first pass gets everything right that needs no look-up. */
  lemma FirstPassGetsRight(types: seq<Type>, rank: seq<nat>, i: nat)
    requires Sized(types) && Ranked(types, rank) && i < |types| && rank[i] == 0
    ensures Pass(types, None)[i] == LayoutOf(types, rank, i)
  {
    if types[i].data.Struct? {
      hide Reads, Processed;
      assert FieldsBelow(types[i], Names(types), rank, rank[i]);
      NothingRead(types[i], FieldLayouts(types, rank, i, |types[i].data.fields|));
    }
  }

  /** The layout is the only output that a pass reproduces. */
  lemma UniqueFixpoint(types: seq<Type>, rank: seq<nat>, out: seq<Type>)
    requires Sized(types) && Ranked(types, rank) && SameNames(types, out)
    ensures out == Pass(types, Some(out)) <==> out == Layout(types, rank)
  {
    if out == Pass(types, Some(out)) {
      forall i | 0 <= i < |types|
        ensures out[i] == LayoutOf(types, rank, i)
      {
        FixpointAt(types, rank, out, i);
      }
      assert out == Layout(types, rank);
    }
    if out == Layout(types, rank) {
      forall i | 0 <= i < |types|
        ensures out[i] == Pass(types, Some(out))[i]
      {
        PassGetsRight(types, rank, i, out);
      }
      assert out == Pass(types, Some(out));
    }
  }

  lemma {:induction false} FixpointAt(types: seq<Type>, rank: seq<nat>, out: seq<Type>, i: nat)
    requires Sized(types) && Ranked(types, rank) && SameNames(types, out) && i < |types|
    requires out == Pass(types, Some(out))
    ensures out[i] == LayoutOf(types, rank, i)
    decreases rank[i]
  {
    hide LayoutOf, Pass;
    forall j | 0 <= j < |types| && rank[j] < rank[i]
      ensures out[j] == LayoutOf(types, rank, j)
    {
      FixpointAt(types, rank, out, j);
    }
    PassGetsRight(types, rank, i, out);
  }

  /** After n passes every type of rank below n is right, and stays right. */
  lemma {:induction false} PassesGetRight(types: seq<Type>, rank: seq<nat>, n: nat, i: nat)
    requires Sized(types) && Ranked(types, rank) && n >= 1 && i < |types| && rank[i] < n
    ensures Passes(types, n)[i] == LayoutOf(types, rank, i)
    decreases n
  {
    hide LayoutOf, Pass;
    if n == 1 {
      FirstPassGetsRight(types, rank, i);
    } else {
      var prev := Passes(types, n - 1);
      forall j | 0 <= j < |types| && rank[j] < rank[i]
        ensures prev[j] == LayoutOf(types, rank, j)
      {
        PassesGetRight(types, rank, n - 1, j);
      }
      PassGetsRight(types, rank, i, prev);
    }
  }

  /** With ranks up to `depth`, the output has settled after depth + 1 passes. */
  lemma Settles(types: seq<Type>, rank: seq<nat>, depth: nat, n: nat)
    requires Sized(types) && Ranked(types, rank) && n > depth && forall i :: 0 <= i < |types| ==> rank[i] <= depth
    ensures Passes(types, n) == Layout(types, rank)
  {
    forall i | 0 <= i < |types|
      ensures Passes(types, n)[i] == LayoutOf(types, rank, i)
    {
      PassesGetRight(types, rank, n, i);
    }
  }

  /** Two passes in a row agree. */
  ghost predicate Settled(types: seq<Type>, n: nat)
    requires Passable(types, None) && n >= 1
  {
    Passes(types, n + 1) == Passes(types, n)
  }

  /** Once two passes agree, all later ones do, and what they give is reproduced by a pass. */
  lemma {:induction false} SettledStays(types: seq<Type>, n: nat, m: nat)
    requires Passable(types, None) && 1 <= n <= m && Settled(types, n)
    ensures Passes(types, m) == Passes(types, n) == Pass(types, Some(Passes(types, n)))
  {
    hide Pass;
    if n < m {
      SettledStays(types, n, m - 1);
    }
  }

  // ---------- What an output says of itself ----------

  /** Bit k is set in both numbers. */
  predicate Shared(a: nat, b: nat, k: nat) {
    Shr(a, k) % 2 == 1 && Shr(b, k) % 2 == 1
  }

  lemma SharedUp(a: nat, b: nat, k: nat)
    ensures Shared(a, b, k + 1) <==> Shared(a / 2, b / 2, k)
  {
  }

  /** `&` gives 0 exactly when two numbers share no bit. */
  lemma {:induction false} AndIffShared(a: nat, b: nat)
    ensures And(a, b) != 0 <==> exists k: nat :: Shared(a, b, k)
    decreases a
  {
    if a == 0 || b == 0 {
      forall k: nat
        ensures Shr(0, k) == 0
      {
        ShrVanishes(0, k);
      }
    } else {
      AndIffShared(a / 2, b / 2);
      assert And(a, b) == 2 * And(a / 2, b / 2) + (if Shared(a, b, 0) then 1 else 0);
      hide Shared, And;
      if k: nat :| Shared(a / 2, b / 2, k) {
        SharedUp(a, b, k);
      }
      if k: nat :| Shared(a, b, k) && k > 0 {
        SharedUp(a, b, k - 1);
      }
    }
  }

  ghost predicate IsFirst(types: seq<Type>, j: nat, name: string) {
    j < |types| && types[j].name == name && forall i :: 0 <= i < j ==> types[i].name != name
  }

  /** The first type of that name says this, and 0 where it says nothing. */
  ghost predicate Says(t: Type, m: Measure) {
    && (if t.size.Some? then m.size == t.size.value else m.size == 0)
    && (if t.align.Some? then m.align == t.align.value else m.align == 0)
  }

  /** What the output before says about the type of that name; nothing on the first pass. */
  ghost predicate LooksUp(prev: Option<seq<Type>>, name: string, m: Measure) {
    match prev
    case None => m.size == 0 && m.align == 0
    case Some(types) => exists j: nat :: IsFirst(types, j, name) && Says(types[j], m)
  }

  ghost predicate AllLookUp(fields: seq<Field>, prev: Option<seq<Type>>, ms: seq<Measure>) {
    |ms| == |fields| && forall k :: 0 <= k < |fields| ==> LooksUp(prev, fields[k].typ, ms[k])
  }

  /** Where field k is put: at its own offset if it has one, and behind the field before it
      otherwise. */
  ghost predicate FieldLaid(fields: seq<Field>, placed: seq<Field>, ms: seq<Measure>, k: nat)
    requires |fields| == |placed| == |ms| && k < |fields|
  {
    && placed[k].name == fields[k].name && placed[k].typ == fields[k].typ && placed[k].offset.Some?
    && (fields[k].offset.Some? ==> placed[k].offset == fields[k].offset)
    && (fields[k].offset.None? ==>
         if k == 0 then placed[k].offset.value == 0
         else placed[k - 1].offset.Some? && placed[k].offset.value == (placed[k - 1].offset.value + ms[k - 1].size) % WORD32)
  }

  /** Where the last field ends. */
  ghost predicate EndsAt(placed: seq<Field>, ms: seq<Measure>, end: nat)
    requires |placed| == |ms|
  {
    if placed == [] then end == 0
    else placed[|placed| - 1].offset.Some? && end == (placed[|placed| - 1].offset.value + ms[|ms| - 1].size) % WORD32
  }

  ghost predicate IsWidest(ms: seq<Measure>, w: nat) {
    && (forall k :: 0 <= k < |ms| ==> ms[k].align <= w)
    && (if ms == [] then w == 0 else exists k :: 0 <= k < |ms| && ms[k].align == w)
  }

  /** The first number from `end` on that shares no bit with w. */
  ghost predicate FirstClear(end: nat, w: nat, s: nat) {
    end <= s && And(s, w) == 0 && forall x :: end <= x < s ==> And(x, w) != 0
  }

  /** A struct as it has to come out, given what its fields' types are said to measure: fields
      one behind the other, the widest alignment among them, the size the first from their
      end on that shares no bit with it; and whatever the schema states, as stated. */
  ghost predicate StructLaid(t: Type, o: Type, ms: seq<Measure>, w: nat, end: nat, s: nat)
    requires t.data.Struct?
  {
    && o.data.Struct? && |o.data.fields| == |t.data.fields| == |ms|
    && (forall k :: 0 <= k < |ms| ==> FieldLaid(t.data.fields, o.data.fields, ms, k))
    && IsWidest(ms, w) && EndsAt(o.data.fields, ms, end) && FirstClear(end, w, s)
    && o.align == (if t.align.Some? then t.align else Some(w))
    && o.size == (if t.size.Some? then t.size else Some(s % 0x100))
  }

  /** The default alignment of a number is the least power of two that holds it, at most 16. */
  ghost predicate NumberAligned(size: nat, align: nat) {
    if size == 0 then align == 0
    else IsPow2(align) && if size <= 16 then size <= align < 2 * size else align == 16
  }

  /** A type as it has to come out of a pass over `prev`, said of the output alone. */
  ghost predicate WellLaid(t: Type, o: Type, prev: Option<seq<Type>>) {
    && o.name == t.name && o.ctype == t.ctype
    && match t.data
       case Numeric(isSigned, isFloat) =>
         && t.size.Some? && o.size == t.size && o.align.Some?
         && (if t.align.Some? then o.align == t.align else NumberAligned(t.size.value, o.align.value))
         && o.data.Numeric? && (o.data.isSigned <==> isSigned || isFloat) && (o.data.isFloat <==> isFloat)
       case Struct(fields) =>
         exists ms: seq<Measure>, w: nat, end: nat, s: nat ::
           AllLookUp(fields, prev, ms) && StructLaid(t, o, ms, w, end, s)
       case Enum(values) => o.size == Some(4) && o.align == Some(4) && o.data == Enum(values)
       case Reference(_) => o.size == Some(8) && o.align == Some(8) && o.data == Reference([])
       case NoData => o.size == None && o.align == None && o.data == NoData
  }

  lemma ByNameIsFirst(types: seq<Type>, name: string)
    requires name in Names(types)
    ensures IsFirst(types, ByName(Names(types), name), name)
  {
    var names, r := Names(types), ByName(Names(types), name);
    forall i | 0 <= i < r
      ensures types[i].name != name
    {
      assert names[..r][i] == types[i].name;
    }
  }

  lemma OneMeasure(prev: Option<seq<Type>>, name: string, m: Measure, n: Measure)
    requires LooksUp(prev, name, m) && LooksUp(prev, name, n)
    ensures m == n
  {
    if prev.Some? {
      var i: nat :| IsFirst(prev.value, i, name) && Says(prev.value[i], m);
      var j: nat :| IsFirst(prev.value, j, name) && Says(prev.value[j], n);
      assert i == j;
    }
  }

  /** What a pass takes its fields to measure. */
  function Taken(fields: seq<Field>, prev: Option<seq<Type>>): (ms: seq<Measure>)
    requires prev.Some? ==> forall k :: 0 <= k < |fields| ==> fields[k].typ in Names(prev.value)
    ensures |ms| == |fields|
  {
    if prev.Some? then Measures(fields, prev.value) else seq(|fields|, _ => Measure(0, 0))
  }

  lemma TakenLooksUp(fields: seq<Field>, prev: Option<seq<Type>>)
    requires prev.Some? ==> forall k :: 0 <= k < |fields| ==> fields[k].typ in Names(prev.value)
    ensures AllLookUp(fields, prev, Taken(fields, prev))
  {
    var ms := Taken(fields, prev);
    forall k | 0 <= k < |fields|
      ensures LooksUp(prev, fields[k].typ, ms[k])
    {
      if prev.Some? {
        ByNameIsFirst(prev.value, fields[k].typ);
        assert Says(prev.value[ByName(Names(prev.value), fields[k].typ)], ms[k]);
      }
    }
  }

  lemma OnlyTaken(fields: seq<Field>, prev: Option<seq<Type>>, ms: seq<Measure>)
    requires prev.Some? ==> forall k :: 0 <= k < |fields| ==> fields[k].typ in Names(prev.value)
    requires AllLookUp(fields, prev, ms)
    ensures ms == Taken(fields, prev)
  {
    TakenLooksUp(fields, prev);
    var ns := Taken(fields, prev);
    forall k | 0 <= k < |fields|
      ensures ms[k] == ns[k]
    {
      OneMeasure(prev, fields[k].typ, ms[k], ns[k]);
    }
  }

  /** The first pass places and pads as if every field measured nothing. */
  lemma {:induction false} NothingTaken(fields: seq<Field>, ms: seq<Measure>, n: nat)
    requires |ms| == |fields| && n <= |fields| && forall k :: 0 <= k < |ms| ==> ms[k] == Measure(0, 0)
    ensures End(fields, None, n) == End(fields, Some(ms), n) && Widest(None, n) == Widest(Some(ms), n)
  {
    if n > 0 {
      NothingTaken(fields, ms, n - 1);
    }
  }

  lemma AsTaken(t: Type, prev: Option<seq<Type>>)
    requires t.data.Struct? && (prev.Some? ==> FieldsDeclared(t, Names(prev.value)))
    ensures Processed(t, MeasuresFor(t, prev)) == Processed(t, Some(Taken(t.data.fields, prev)))
  {
    var fields, ms := t.data.fields, Taken(t.data.fields, prev);
    if prev.None? {
      hide End, Widest;
      NothingTaken(fields, ms, |fields|);
      forall k | 0 <= k < |fields|
        ensures PlacedFields(fields, None)[k] == PlacedFields(fields, Some(ms))[k]
      {
        NothingTaken(fields, ms, k);
      }
      assert PlacedFields(fields, None) == PlacedFields(fields, Some(ms));
    }
  }

  lemma FirstClearIsPadded(end: nat, w: Uint8, s: nat)
    ensures FirstClear(end, w, s) <==> s == Padded(end, w)
  {
    hide And;
    var p := Padded(end, w);
    forall x | end <= x < p
      ensures And(x, w) != 0
    {
      if And(x, w) == 0 {
        PaddedIsLeast(end, w, x);
      }
    }
    if FirstClear(end, w, s) {
      PaddedIsLeast(end, w, s);
    }
  }

  lemma WidestIsWidest(ms: seq<Measure>, w: nat)
    ensures IsWidest(ms, w) <==> w == Widest(Some(ms), |ms|)
  {
    hide Widest;
    WidestIsMax(ms, |ms|);
  }

  /** Laid field by field is placed. */
  lemma PlacedIsLaid(fields: seq<Field>, ms: seq<Measure>, k: nat)
    requires |ms| == |fields| && k < |fields|
    ensures FieldLaid(fields, PlacedFields(fields, Some(ms)), ms, k)
  {
    hide PlacedFields, End, Widest;
    NextField(fields, Some(ms), k);
    if k > 0 {
      NextField(fields, Some(ms), k - 1);
    } else {
      NoFieldsYet(fields, Some(ms));
    }
  }

  lemma {:induction false} LaidIsPlaced(fields: seq<Field>, placed: seq<Field>, ms: seq<Measure>, k: nat)
    requires |ms| == |fields| == |placed| && k < |fields|
    requires forall j :: 0 <= j < |fields| ==> FieldLaid(fields, placed, ms, j)
    ensures placed[k] == PlacedFields(fields, Some(ms))[k]
  {
    PlacedIsLaid(fields, ms, k);
    hide PlacedFields, End;
    if k > 0 {
      LaidIsPlaced(fields, placed, ms, k - 1);
    }
    SamePlace(fields, placed, PlacedFields(fields, Some(ms)), ms, k);
  }

  lemma SamePlace(fields: seq<Field>, a: seq<Field>, b: seq<Field>, ms: seq<Measure>, k: nat)
    requires |ms| == |fields| == |a| == |b| && k < |fields| && FieldLaid(fields, a, ms, k) && FieldLaid(fields, b, ms, k)
    requires k > 0 ==> a[k - 1] == b[k - 1]
    ensures a[k] == b[k]
  {
  }

  lemma EndIsEnd(fields: seq<Field>, ms: seq<Measure>, end: nat)
    requires |ms| == |fields|
    ensures EndsAt(PlacedFields(fields, Some(ms)), ms, end) <==> end == End(fields, Some(ms), |fields|)
  {
    hide PlacedFields, End, Widest;
    NoFieldsYet(fields, Some(ms));
    if fields != [] {
      NextField(fields, Some(ms), |fields| - 1);
    }
  }

  /** A struct comes out of a pass exactly as it has to. */
  lemma StructLaidIff(t: Type, o: Type, ms: seq<Measure>)
    requires t.data.Struct? && |ms| == |t.data.fields| && o.name == t.name && o.ctype == t.ctype
    ensures (exists w: nat, end: nat, s: nat :: StructLaid(t, o, ms, w, end, s)) <==> o == Processed(t, Some(ms))
  {
    hide PlacedFields, End, Widest, Padded, FieldLaid, EndsAt, IsWidest, FirstClear;
    var fields := t.data.fields;
    var w, end := Widest(Some(ms), |ms|), End(fields, Some(ms), |fields|);
    var s := Padded(end, w);
    WidestIsWidest(ms, w);
    EndIsEnd(fields, ms, end);
    FirstClearIsPadded(end, w, s);
    if o == Processed(t, Some(ms)) {
      forall k | 0 <= k < |ms|
        ensures FieldLaid(fields, o.data.fields, ms, k)
      {
        PlacedIsLaid(fields, ms, k);
      }
      assert StructLaid(t, o, ms, w, end, s);
    }
    if w': nat, end': nat, s': nat :| StructLaid(t, o, ms, w', end', s') {
      forall k | 0 <= k < |fields|
        ensures o.data.fields[k] == PlacedFields(fields, Some(ms))[k]
      {
        LaidIsPlaced(fields, o.data.fields, ms, k);
      }
      assert o.data.fields == PlacedFields(fields, Some(ms));
      WidestIsWidest(ms, w');
      EndIsEnd(fields, ms, end');
      FirstClearIsPadded(end', w', s');
    }
  }

  lemma OneNumberAlign(size: Uint8, align: Uint8)
    ensures NumberAligned(size, align) <==> align == NumericAlign(size)
  {
    hide NextPow2;
    if size == 0 {
      NextPow2IsLeast(size);
    } else {
      NumericAlignIsLeast(size);
      if NumberAligned(size, align) && size <= 16 {
        OnePower(align, NumericAlign(size), size);
      }
    }
  }

  /** Between a number and its double there is one power of two. */
  lemma OnePower(p: nat, q: nat, size: nat)
    requires IsPow2(p) && IsPow2(q) && size <= p < 2 * size && size <= q < 2 * size
    ensures p == q
  {
    var a: nat :| Pow2(a) == p;
    var b: nat :| Pow2(b) == q;
    if a < b {
      Pow2Monotone(a + 1, b);
    } else if b < a {
      Pow2Monotone(b + 1, a);
    }
  }

  /** A type comes out of a pass exactly as it has to. */
  lemma LaidIff(t: Type, o: Type, prev: Option<seq<Type>>)
    requires TypeSized(t) && (prev.Some? ==> FieldsDeclared(t, Names(prev.value)))
    ensures WellLaid(t, o, prev) <==> o == Processed(t, MeasuresFor(t, prev))
  {
    hide Taken;
    match t.data
    case Numeric(_, _) => NumberLaidIff(t, o, prev);
    case Struct(_) => FieldsLaidIff(t, o, prev);
    case Enum(_) =>
    case Reference(_) =>
    case NoData =>
  }

  lemma NumberLaidIff(t: Type, o: Type, prev: Option<seq<Type>>)
    requires TypeSized(t) && t.data.Numeric?
    ensures WellLaid(t, o, prev) <==> o == Processed(t, None)
  {
    hide NumericAlign, NumberAligned;
    if o.align.Some? {
      OneNumberAlign(t.size.value, o.align.value);
    }
  }

  lemma FieldsLaidIff(t: Type, o: Type, prev: Option<seq<Type>>)
    requires t.data.Struct? && (prev.Some? ==> FieldsDeclared(t, Names(prev.value)))
    ensures WellLaid(t, o, prev) <==> o == Processed(t, MeasuresFor(t, prev))
  {
    var ms := Taken(t.data.fields, prev);
    AsTaken(t, prev);
    assert Processed(t, Some(ms)).name == t.name && Processed(t, Some(ms)).ctype == t.ctype;
    hide Processed, StructLaid, AllLookUp, Taken, MeasuresFor;
    TakenLooksUp(t.data.fields, prev);
    if o.name == t.name && o.ctype == t.ctype {
      StructLaidIff(t, o, ms);
      if WellLaid(t, o, prev) {
        var ns, w: nat, end: nat, s: nat :| AllLookUp(t.data.fields, prev, ns) && StructLaid(t, o, ns, w, end, s);
        OnlyTaken(t.data.fields, prev, ns);
      }
    }
  }

  /** Every type of the output is as it has to be, going by the output's own measures. */
  ghost predicate LaidOut(types: seq<Type>, out: seq<Type>) {
    |out| == |types| && forall i :: 0 <= i < |types| ==> WellLaid(types[i], out[i], Some(out))
  }

  /** An output is reproduced by a pass if and only if it is laid out by its own measures. */
  lemma ReproducedIffLaidOut(types: seq<Type>, out: seq<Type>)
    requires Passable(types, Some(out))
    ensures out == Pass(types, Some(out)) <==> LaidOut(types, out)
  {
    hide WellLaid, Processed, MeasuresFor;
    forall i | 0 <= i < |types|
      ensures WellLaid(types[i], out[i], Some(out)) <==> out[i] == Pass(types, Some(out))[i]
    {
      assert FieldsDeclared(types[i], Names(types));
      LaidIff(types[i], out[i], Some(out));
    }
  }

  /** The direct layout is laid out by its own measures, and nothing else is. */
  lemma LayoutIffLaidOut(types: seq<Type>, rank: seq<nat>, out: seq<Type>)
    requires Sized(types) && Ranked(types, rank) && SameNames(types, out)
    ensures out == Layout(types, rank) <==> LaidOut(types, out)
  {
    hide Pass, LaidOut, Layout;
    UniqueFixpoint(types, rank, out);
    ReproducedIffLaidOut(types, out);
  }

  // ---------- A struct of floats ----------

  /** float, size 4; vec3 of three floats. */
  function Vectors3(): seq<Type> {
    [Type("float", None, Some(4), None, Numeric(false, true)),
     Type("vec3", None, None, None, Struct([Field("x", "float", None), Field("y", "float", None), Field("z", "float", None)]))]
  }

  /** The one float comes out 4 wide, 4 aligned and signed; three of them are put at 0, 4 and
      8 and padded to 16, aligned to 4. */
  lemma ThreeFloats(out: seq<Type>)
    requires LaidOut(Vectors3(), out)
    ensures out[0].size == Some(4) && out[0].align == Some(4) && out[0].data == Numeric(true, true)
    ensures out[1].size == Some(16) && out[1].align == Some(4) && out[1].data.Struct? && |out[1].data.fields| == 3
    ensures forall k :: 0 <= k < 3 ==> out[1].data.fields[k].offset == Some(4 * k)
  {
    var t := Vectors3()[1];
    assert WellLaid(Vectors3()[0], out[0], Some(out)) && WellLaid(t, out[1], Some(out));
    FloatAlign(out[0].align.value);
    assert out[0].name == "float" && out[0].align == Some(4);
    hide StructLaid, WellLaid, LooksUp;
    var ms: seq<Measure>, w: nat, end: nat, s: nat :| AllLookUp(t.data.fields, Some(out), ms) && StructLaid(t, out[1], ms, w, end, s);
    forall k | 0 <= k < 3
      ensures ms[k] == Measure(4, 4)
    {
      FieldIsFloat(out, t.data.fields[k].typ, ms[k]);
    }
    FloatsLaid(out[1], ms, w, end, s);
  }

  lemma FieldIsFloat(out: seq<Type>, typ: string, m: Measure)
    requires |out| > 0 && out[0].name == "float" && out[0].size == Some(4) && out[0].align == Some(4)
    requires typ == "float" && LooksUp(Some(out), typ, m)
    ensures m == Measure(4, 4)
  {
    var j: nat :| IsFirst(out, j, typ) && Says(out[j], m);
    assert j == 0;
  }

  lemma FloatsLaid(o: Type, ms: seq<Measure>, w: nat, end: nat, s: nat)
    requires |ms| == 3 && (forall k :: 0 <= k < 3 ==> ms[k] == Measure(4, 4)) && StructLaid(Vectors3()[1], o, ms, w, end, s)
    ensures o.size == Some(16) && o.align == Some(4) && o.data.Struct? && |o.data.fields| == 3
    ensures forall k :: 0 <= k < 3 ==> o.data.fields[k].offset == Some(4 * k)
  {
    hide FirstClear;
    var fields := Vectors3()[1].data.fields;
    var placed := o.data.fields;
    assert FieldLaid(fields, placed, ms, 0) && FieldLaid(fields, placed, ms, 1) && FieldLaid(fields, placed, ms, 2);
    assert w == 4 && end == 12;
    PaddedTwelve(s);
  }

  lemma FloatAlign(align: Uint8)
    requires NumberAligned(4, align)
    ensures align == 4
  {
    assert IsPow2(4) by {
      assert Pow2(2) == 4;
    }
    OnePower(align, 4, 4);
  }

  lemma PaddedTwelve(s: nat)
    requires FirstClear(12, 4, s)
    ensures s == 16
  {
    assert And(12, 4) != 0 && And(13, 4) != 0 && And(14, 4) != 0 && And(15, 4) != 0;
    assert And(16, 4) == 0;
  }

  // ---------- Types that contain themselves ----------

  /** struct node { next: node at offset 4 } */
  function Cyclic(): seq<Type> {
    [Type("node", None, None, None, Struct([Field("next", "node", Some(4))]))]
  }

  lemma CyclicIsPassable()
    ensures Passable(Cyclic(), None)
  {
  }

  lemma CyclicPass(prev: seq<Type>)
    requires Passable(Cyclic(), Some(prev)) && Of(prev[0]).align == 0
    ensures Pass(Cyclic(), Some(prev))[0].size == Some((4 + Of(prev[0]).size) % 0x100)
    ensures Pass(Cyclic(), Some(prev))[0].align == Some(0)
  {
    var t := Cyclic()[0];
    var ms := MeasuresFor(t, Some(prev));
    var names := Names(prev);
    assert names[0] == Names(Cyclic())[0] == "node";
    assert ByName(names, "node") == 0;
    assert ms.value[0] == Of(prev[ByName(names, t.data.fields[0].typ)]);
    assert ms.value == [Of(prev[0])];
    var one := 1;
    assert End(t.data.fields, ms, one) == 4 + Of(prev[0]).size && Widest(ms, one) == 0;
    AndZero(4 + Of(prev[0]).size);
  }

  lemma {:induction false} CyclicAlign(n: nat)
    requires n >= 1
    ensures Passable(Cyclic(), None) && Passes(Cyclic(), n)[0].align == Some(0)
  {
    CyclicIsPassable();
    if n > 1 {
      CyclicAlign(n - 1);
      CyclicPass(Passes(Cyclic(), n - 1));
    }
  }

  /** On this schema no two passes in a row agree, so that the loop does not end. */
  lemma CyclicNeverSettles(n: nat)
    requires n >= 1
    ensures Passable(Cyclic(), None) && !Settled(Cyclic(), n)
  {
    hide Pass, Cyclic;
    CyclicAlign(n);
    CyclicPass(Passes(Cyclic(), n));
  }

  /** struct node, size 8, align 8 { next: node } */
  function Stated(): seq<Type> {
    [Type("node", None, Some(8), Some(8), Struct([Field("next", "node", None)]))]
  }

  /** A type that contains itself but states what its layout would take from itself is
      laid out like any other, here within two passes. */
  lemma StatedSettles()
    ensures Passable(Stated(), None) && Ranked(Stated(), [0]) && Settled(Stated(), 1)
  {
    var t := Stated()[0];
    assert Names(Stated())[0] == "node";
    assert !Reads(t, 0);
    var n := 1;
    Settles(Stated(), [0], 0, n);
    Settles(Stated(), [0], 0, n + 1);
  }

  // ---------- Fields side by side ----------

  /** The sizes of the first n fields together. */
  function Total(ms: seq<Measure>, n: nat): nat
    requires n <= |ms|
  {
    if n == 0 then 0 else Total(ms, n - 1) + ms[n - 1].size
  }

  lemma {:induction false} TotalGrows(ms: seq<Measure>, k: nat, n: nat)
    requires k <= n <= |ms|
    ensures Total(ms, k) <= Total(ms, n)
  {
    if k < n {
      TotalGrows(ms, k, n - 1);
    }
  }

  lemma {:induction false} EndIsTotal(fields: seq<Field>, ms: seq<Measure>, n: nat)
    requires |ms| == |fields| && n <= |fields| && Total(ms, n) < WORD32
    requires forall k :: 0 <= k < n ==> fields[k].offset.None?
    ensures End(fields, Some(ms), n) == Total(ms, n)
  {
    if n > 0 {
      EndIsTotal(fields, ms, n - 1);
    }
  }

  /** Fields without offsets of their own follow each other without gap or overlap, as long
      as the running offset does not wrap. */
  lemma FieldsAreAdjacent(fields: seq<Field>, ms: seq<Measure>, n: nat)
    requires |ms| == |fields| && n <= |fields| && Total(ms, n) < WORD32
    requires forall k :: 0 <= k < n ==> fields[k].offset.None?
    ensures End(fields, Some(ms), n) == Total(ms, n)
    ensures forall k :: 0 <= k < n ==> PlacedFields(fields, Some(ms))[k].offset == Some(Total(ms, k))
  {
    hide End, Total, PlacedFields;
    EndIsTotal(fields, ms, n);
    forall k | 0 <= k < n
      ensures PlacedFields(fields, Some(ms))[k].offset == Some(Total(ms, k))
    {
      TotalGrows(ms, k, n);
      EndIsTotal(fields, ms, k);
      NextField(fields, Some(ms), k);
    }
  }

  // ---------- The compiler ----------

  /** dsim_process_struct: the running offset and alignment over the fields, the padding
      loop, and the schema's own size and alignment on top. */
  method ProcessStruct(t: Type, prev: Option<seq<Type>>) returns (r: Type)
    requires t.data.Struct? && (prev.Some? ==> FieldsDeclared(t, Names(prev.value)))
    ensures r == Processed(t, MeasuresFor(t, prev)) && WellLaid(t, r, prev)
  {
    hide End, Widest, WellLaid, PlacedFields, MeasuresFor, Padded, ByName, FieldsDeclared;
    ghost var ms := MeasuresFor(t, prev);
    var fields := t.data.fields;
    NoFieldsYet(fields, ms);
    var offset: Uint32, align: Uint8 := 0, 0;
    var placed: seq<Field> := [];
    for i := 0 to |fields|
      invariant offset == End(fields, ms, i) && align == Widest(ms, i)
      invariant placed == PlacedFields(fields, ms)[..i]
    {
      var field := fields[i];
      NextField(fields, ms, i);
      MeasureAt(t, prev, i);
      if field.offset.Some? {
        offset := field.offset.value;
      }
      placed := placed + [Field(field.name, field.typ, Some(offset))];
      if prev.Some? {
        var of := Of(prev.value[ByName(Names(prev.value), field.typ)]);
        offset := (offset + of.size) % WORD32;
        align := Max(align, of.align);
      }
    }
    assert placed == PlacedFields(fields, ms);
    var size := Pad(offset, align);
    size := size % 0x100;
    if t.size.Some? {
      size := t.size.value;
    }
    if t.align.Some? {
      align := t.align.value;
    }
    r := Type(t.name, t.ctype, Some(size), Some(align), Struct(placed));
    LaidIff(t, r, prev);
  }

  lemma NoFieldsYet(fields: seq<Field>, ms: Option<seq<Measure>>)
    requires ms.Some? ==> |ms.value| == |fields|
    ensures End(fields, ms, 0) == 0 && Widest(ms, 0) == 0
  {
  }

  lemma {:induction false} NextField(fields: seq<Field>, ms: Option<seq<Measure>>, i: nat)
    requires (ms.Some? ==> |ms.value| == |fields|) && i < |fields|
    ensures var start := Start(fields[i].offset, End(fields, ms, i));
      && PlacedFields(fields, ms)[i] == Field(fields[i].name, fields[i].typ, Some(start))
      && End(fields, ms, i + 1) == (if ms.Some? then (start + ms.value[i].size) % WORD32 else start)
      && Widest(ms, i + 1) == (if ms.Some? then Max(Widest(ms, i), ms.value[i].align) else 0)
      && (ms.None? ==> Widest(ms, i) == 0)
  {
  }

  lemma MeasureAt(t: Type, prev: Option<seq<Type>>, i: nat)
    requires t.data.Struct? && (prev.Some? ==> FieldsDeclared(t, Names(prev.value))) && i < |t.data.fields|
    ensures MeasuresFor(t, prev).Some? <==> prev.Some?
    ensures prev.Some? ==>
      && t.data.fields[i].typ in Names(prev.value)
      && MeasuresFor(t, prev).value[i] == Of(prev.value[ByName(Names(prev.value), t.data.fields[i].typ)])
  {
  }

  method Pad(offset: nat, align: Uint8) returns (size: nat)
    ensures size == Padded(offset, align)
    ensures offset <= size < offset + 0x100
  {
    size := offset;
    while And(size, align) != 0
      invariant Padded(offset, align) == Padded(size, align)
      invariant offset <= size && size + ToByteEnd(size) <= offset + ToByteEnd(offset)
      decreases ToByteEnd(size)
    {
      PaddingEnds(size, align);
      NextByteIsNearer(size);
      size := size + 1;
    }
  }

  method ProcessType(t: Type, prev: Option<seq<Type>>) returns (r: Type)
    requires TypeSized(t) && (prev.Some? ==> FieldsDeclared(t, Names(prev.value)))
    ensures r == Processed(t, MeasuresFor(t, prev)) && WellLaid(t, r, prev)
  {
    hide WellLaid;
    match t.data {
      case Struct(_) => r := ProcessStruct(t, prev);
      case Numeric(isSigned, isFloat) =>
        var align := if t.align.Some? then t.align.value else NumericAlign(t.size.value);
        r := Type(t.name, t.ctype, t.size, Some(align), Numeric(isSigned || isFloat, isFloat));
      case Enum(values) => r := Type(t.name, t.ctype, Some(4), Some(4), Enum(values));
      case Reference(_) => r := Type(t.name, t.ctype, Some(8), Some(8), Reference([]));
      case NoData => r := Type(t.name, t.ctype, None, None, NoData);
    }
    LaidIff(t, r, prev);
  }

  /** dsim_process_types; None where the compiler gives up on a number without a size. */
  method ProcessTypes(types: seq<Type>, prev: Option<seq<Type>>) returns (r: Option<seq<Type>>)
    requires Declared(types) && (prev.Some? ==> SameNames(types, prev.value))
    ensures r.Some? <==> Sized(types)
    ensures r.Some? <==> forall i :: 0 <= i < |types| && types[i].data.Numeric? ==> types[i].size.Some?
    ensures r.Some? ==> r.value == Pass(types, prev)
    ensures r.Some? ==> forall i :: 0 <= i < |types| ==> WellLaid(types[i], r.value[i], prev)
  {
    hide Processed, WellLaid;
    var out: seq<Type> := [];
    for i := 0 to |types|
      invariant |out| == i && forall j :: 0 <= j < i ==> TypeSized(types[j])
      invariant forall j :: 0 <= j < i ==> WellLaid(types[j], out[j], prev)
      invariant forall j :: 0 <= j < i ==> FieldsDeclared(types[j], Names(types)) && out[j] == Processed(types[j], MeasuresFor(types[j], prev))
    {
      assert FieldsDeclared(types[i], Names(types));
      if !TypeSized(types[i]) {
        return None;
      }
      var laid := ProcessType(types[i], prev);
      out := out + [laid];
    }
    r := Some(out);
  }

  /** The loop of dsim_ddl_compile_json over two alternating buffers. It ends exactly on the
      schemas whose passes settle, with the first output that repeats; that is the direct
      layout whenever no layout takes its own measure. */
  method Compile(types: seq<Type>, ghost n: nat) returns (r: Option<seq<Type>>, passes: nat)
    requires Declared(types) && n >= 1 && (Sized(types) ==> Settled(types, n))
    ensures r.Some? <==> Sized(types)
    ensures r.Some? <==> forall i :: 0 <= i < |types| && types[i].data.Numeric? ==> types[i].size.Some?
    ensures r.Some? ==> passes <= n + 1 && passes >= 2 && r.value == Passes(types, passes) == Passes(types, passes - 1)
    ensures r.Some? ==> LaidOut(types, r.value)
    ensures r.Some? ==> forall rank: seq<nat> :: Ranked(types, rank) ==> r.value == Layout(types, rank)
  {
    hide Pass, Layout, Ranked, LaidOut, WellLaid;
    var buf: seq<Option<seq<Type>>> := [None, None];
    var pos := 0;
    passes := 0;
    while true
      invariant |buf| == 2 && (pos == 0 || pos == 1)
      invariant passes > 0 ==> Sized(types)
      invariant buf[1 - pos] == if passes == 0 then None else Some(Passes(types, passes))
      invariant passes <= n
      invariant passes == 0 ==> pos == 0
      decreases n + 1 - passes
    {
      var out := ProcessTypes(types, buf[1 - pos]);
      if out.None? {
        return None, passes;
      }
      buf := buf[pos := out];
      passes := passes + 1;
      assert out == Some(Passes(types, passes));
      if buf[0] == buf[1] {
        forall rank: seq<nat> | Ranked(types, rank)
          ensures buf[0].value == Layout(types, rank)
        {
          RepeatedIsLayout(types, rank, passes);
        }
        RepeatedIsLaidOut(types, passes);
        return buf[0], passes;
      }
      if passes == n + 1 {
        assert false;
      }
      pos := 1 - pos;
    }
  }

  /** With ranks up to `depth` the loop ends within depth + 2 passes. */
  lemma RankedSettles(types: seq<Type>, rank: seq<nat>, depth: nat)
    requires Sized(types) && Ranked(types, rank) && forall i :: 0 <= i < |types| ==> rank[i] <= depth
    ensures Settled(types, depth + 1)
  {
    Settles(types, rank, depth, depth + 1);
    Settles(types, rank, depth, depth + 2);
  }

  /** Two equal outputs in a row are laid out by their own measures. */
  lemma RepeatedIsLaidOut(types: seq<Type>, n: nat)
    requires Passable(types, None) && n >= 2 && Passes(types, n) == Passes(types, n - 1)
    ensures LaidOut(types, Passes(types, n))
  {
    hide Pass, LaidOut;
    ReproducedIffLaidOut(types, Passes(types, n));
  }

  /** Two equal outputs in a row are the layout. */
  lemma RepeatedIsLayout(types: seq<Type>, rank: seq<nat>, n: nat)
    requires Sized(types) && Ranked(types, rank) && n >= 2 && Passes(types, n) == Passes(types, n - 1)
    ensures Passes(types, n) == Layout(types, rank)
  {
    UniqueFixpoint(types, rank, Passes(types, n - 1));
  }
}
