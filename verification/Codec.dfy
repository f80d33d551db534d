/**
  The Encode and Decode that proto2bin generates for a message, as one interpreter of the templates over
  a schema: integers, strings, vectors of integers, nested messages and vectors of messages. `len` is the
  room behind the data pointer, positions count from that pointer.
 */
module Codec {
  import opened Bytes
  import opened ByteOrder
  import opened Wrappers

  datatype IntType = U32 | I32 | U64 | I64

  /** The types of a field, with the maximum that the generator reads from the comment. */
  datatype Type =
    | Int(t: IntType)
    | Str(max: nat)
    | IntVec(t: IntType, max: nat)
    | Struct(fields: seq<Type>)
    | StructVec(fields: seq<Type>, max: nat)

  datatype Value =
    | IntV(x: int)
    | StrV(s: seq<Byte>)
    | IntVecV(xs: seq<int>)
    | StructV(vs: seq<Value>)
    | StructVecV(es: seq<seq<Value>>)

  // ---------- Integers ----------

  function Width(t: IntType): nat {
    if t.U32? || t.I32? then 4 else 8
  }

  predicate InRange(t: IntType, x: int) {
    match t
    case U32 => 0 <= x < WORD32
    case I32 => -0x8000_0000 <= x < 0x8000_0000
    case U64 => 0 <= x < WORD64
    case I64 => -0x8000_0000_0000_0000 <= x < 0x8000_0000_0000_0000
  }

  /** Write(value): the bytes in network order; two's complement for the signed types. */
  function Put(t: IntType, x: int): (b: seq<Byte>)
    requires InRange(t, x)
    ensures |b| == Width(t)
  {
    if Width(t) == 4 then BE32(x % WORD32) else BE64(x % WORD64)
  }

  function Get(t: IntType, b: seq<Byte>): (x: int)
    requires |b| == Width(t)
    ensures InRange(t, x)
  {
    Signed(t, if Width(t) == 4 then FromBE32(b) else FromBE64(b))
  }

  /** The unsigned integer taken as one of this type. */
  function Signed(t: IntType, u: nat): int {
    if t.I32? && u >= 0x8000_0000 then u - WORD32
    else if t.I64? && u >= 0x8000_0000_0000_0000 then u - WORD64
    else u
  }

  lemma GetPut(t: IntType, x: int)
    requires InRange(t, x)
    ensures Get(t, Put(t, x)) == x
  {
    hide BE32, BE64, FromBE32, FromBE64;
    if Width(t) == 4 { ReadBack32(x % WORD32); } else { ReadBack64(x % WORD64); }
  }

  // ---------- Values of a schema ----------

  /** The value has the shape of the type; sizes are 32-bit counters. */
  ghost predicate Typed(t: Type, v: Value)
    decreases t
  {
    match t
    case Int(it) => v.IntV? && InRange(it, v.x)
    case Str(_) => v.StrV? && |v.s| < WORD32
    case IntVec(it, _) => v.IntVecV? && |v.xs| < WORD32 && forall i :: 0 <= i < |v.xs| ==> InRange(it, v.xs[i])
    case Struct(fs) => v.StructV? && TypedAll(fs, v.vs)
    case StructVec(fs, _) => v.StructVecV? && |v.es| < WORD32 && forall i :: 0 <= i < |v.es| ==> TypedAll(fs, v.es[i])
  }

  ghost predicate TypedAll(ts: seq<Type>, vs: seq<Value>)
    decreases ts
  {
    |vs| == |ts| && forall i :: 0 <= i < |ts| ==> Typed(ts[i], vs[i])
  }

  // ---------- The bytes of a value ----------

  function PutAll(t: IntType, xs: seq<int>): seq<Byte>
    requires forall i :: 0 <= i < |xs| ==> InRange(t, xs[i])
  {
    if xs == [] then [] else Put(t, xs[0]) + PutAll(t, xs[1..])
  }

  /** A 32-bit length. The lengths that occur are below 2^32. */
  function Len(n: nat): (b: seq<Byte>)
    ensures |b| == 4
  {
    BE32(n % WORD32)
  }

  /** What Encode leaves in the buffer. Of a vector of messages only the first is written. */
  ghost function Wire(t: Type, v: Value): seq<Byte>
    requires Typed(t, v)
    decreases t
  {
    match t
    case Int(it) => Put(it, v.x)
    case Str(_) => Len(|v.s|) + v.s
    case IntVec(it, _) => Len(|v.xs|) + PutAll(it, v.xs)
    case Struct(fs) => var w := WireAll(fs, v.vs); Len(|w|) + w
    case StructVec(fs, _) =>
      Len(|v.es|) + if v.es == [] then [] else var w := WireAll(fs, v.es[0]); Len(|w|) + w
  }

  ghost function WireAll(ts: seq<Type>, vs: seq<Value>): seq<Byte>
    requires TypedAll(ts, vs)
    decreases ts
  {
    if ts == [] then [] else Wire(ts[0], vs[0]) + WireAll(ts[1..], vs[1..])
  }

  /** No counter exceeds its maximum, in the parts that Encode visits. */
  ghost predicate Sized(t: Type, v: Value)
    requires Typed(t, v)
    decreases t
  {
    match t
    case Int(_) => true
    case Str(max) => |v.s| <= max
    case IntVec(_, max) => |v.xs| <= max
    case Struct(fs) => SizedAll(fs, v.vs)
    case StructVec(fs, max) => |v.es| <= max && (v.es == [] || SizedAll(fs, v.es[0]))
  }

  ghost predicate SizedAll(ts: seq<Type>, vs: seq<Value>)
    requires TypedAll(ts, vs)
    decreases ts
  {
    ts == [] || (Sized(ts[0], vs[0]) && SizedAll(ts[1..], vs[1..]))
  }

  // ---------- Encode ----------

  /** An `int` length where a `size_t` is expected. */
  function Room(n: int): nat {
    n % WORD64
  }

  /** The bytes that one field adds at `pos`, or nothing if a check fails. */
  ghost function Encode(t: Type, v: Value, pos: nat, len: nat): Option<seq<Byte>>
    requires Typed(t, v)
    decreases t
  {
    match t
    case Int(it) => if pos + Width(it) > len then None else Some(Put(it, v.x))
    case Str(max) =>
      if |v.s| > max || pos + 4 > len || pos + 4 + |v.s| > len then None else Some(Len(|v.s|) + v.s)
    case IntVec(it, max) =>
      if |v.xs| > max || pos + 4 > len || pos + 4 + |PutAll(it, v.xs)| > len then None
      else Some(Len(|v.xs|) + PutAll(it, v.xs))
    case Struct(fs) => EncodeSub(fs, v.vs, pos, len)
    case StructVec(fs, max) =>
      if |v.es| > max || pos + 4 > len then None
      else if v.es == [] then Some(Len(0))
      else
        var first := EncodeSub(fs, v.es[0], pos + 4, len);
        if first.None? then None else Some(Len(|v.es|) + first.value)
  }

  /** A nested message: encoded behind a gap of four bytes, which then takes its length. */
  ghost function EncodeSub(ts: seq<Type>, vs: seq<Value>, pos: nat, len: nat): Option<seq<Byte>>
    requires TypedAll(ts, vs)
    decreases ts, 1
  {
    var sub := EncodeAll(ts, vs, 0, Room(len - (pos + 4)));
    if sub.None? || pos + 4 > len || pos + 4 + |sub.value| > len then None
    else Some(Len(|sub.value|) + sub.value)
  }

  ghost function EncodeAll(ts: seq<Type>, vs: seq<Value>, pos: nat, len: nat): Option<seq<Byte>>
    requires TypedAll(ts, vs)
    decreases ts, 0
  {
    if ts == [] then Some([])
    else
      var first := Encode(ts[0], vs[0], pos, len);
      if first.None? then None
      else
        var rest := EncodeAll(ts[1..], vs[1..], pos + |first.value|, len);
        if rest.None? then None else Some(first.value + rest.value)
  }

  /** Encode succeeds exactly when no counter exceeds its maximum and the bytes fit; then it writes the wire format. */
  lemma {:induction false} EncodeIff(t: Type, v: Value, pos: nat, len: nat)
    requires Typed(t, v) && len < WORD64
    ensures Encode(t, v, pos, len) == if Sized(t, v) && pos + |Wire(t, v)| <= len then Some(Wire(t, v)) else None
    decreases t
  {
    match t
    case Int(_) =>
    case Str(_) =>
    case IntVec(_, _) =>
    case Struct(fs) => EncodeSubIff(fs, v.vs, pos, len);
    case StructVec(fs, max) =>
      if v.es != [] {
        EncodeSubIff(fs, v.es[0], pos + 4, len);
      } else {
        assert Len(0) + [] == Len(0);
      }
  }

  lemma {:induction false} EncodeSubIff(ts: seq<Type>, vs: seq<Value>, pos: nat, len: nat)
    requires TypedAll(ts, vs) && len < WORD64
    ensures var w := WireAll(ts, vs);
            EncodeSub(ts, vs, pos, len) == if SizedAll(ts, vs) && pos + 4 + |w| <= len then Some(Len(|w|) + w) else None
    decreases ts, 1
  {
    EncodeAllIff(ts, vs, 0, Room(len - (pos + 4)));
  }

  lemma {:induction false} EncodeAllIff(ts: seq<Type>, vs: seq<Value>, pos: nat, len: nat)
    requires TypedAll(ts, vs) && len < WORD64
    ensures var w := WireAll(ts, vs);
            EncodeAll(ts, vs, pos, len) == if SizedAll(ts, vs) && (ts == [] || pos + |w| <= len) then Some(w) else None
    decreases ts, 0
  {
    if ts != [] {
      EncodeIff(ts[0], vs[0], pos, len);
      EncodeAllIff(ts[1..], vs[1..], pos + |Wire(ts[0], vs[0])|, len);
      assert ts[1..] == [] ==> WireAll(ts[1..], vs[1..]) == [];
    }
  }

  // ---------- Decode ----------

  /** A value and the position behind it. */
  datatype Read<V> = Fail | Done(v: V, pos: nat)

  /** Read a length of four bytes. */
  function GetLen(data: seq<Byte>, pos: nat, len: nat): (r: Read<nat>)
    ensures r.Done? ==> r.v < WORD32 && r.pos == pos + 4 <= len && r.pos <= |data|
  {
    if pos + 4 > len || pos + 4 > |data| then Fail else Done(FromBE32(data[pos..pos + 4]), pos + 4)
  }

  /** A `uint32_t` length passed as an `int` and used as a `size_t`. */
  function SubRoom(n: nat): nat
    requires n < WORD32
  {
    if n < 0x8000_0000 then n else n + WORD64 - WORD32
  }

  /** One field at `pos`. Memory behind the end of `data` is not modelled: a read there fails. */
  function Decode(t: Type, data: seq<Byte>, pos: nat, len: nat): (r: Read<Value>)
    decreases t
  {
    match t
    case Int(it) =>
      if pos + Width(it) > len || pos + Width(it) > |data| then Fail
      else Done(IntV(Get(it, data[pos..pos + Width(it)])), pos + Width(it))
    case Str(_) =>
      var n := GetLen(data, pos, len);
      if n.Fail? || n.pos + n.v > len || n.pos + n.v > |data| then Fail
      else Done(StrV(data[n.pos..n.pos + n.v]), n.pos + n.v)
    case IntVec(it, max) =>
      var n := GetLen(data, pos, len);
      if n.Fail? || n.v > max then Fail
      else
        var xs := DecodeInts(it, n.v, data, n.pos, len);
        if xs.Fail? then Fail else Done(IntVecV(xs.v), xs.pos)
    case Struct(fs) =>
      var sub := DecodeSub(fs, data, pos, len);
      if sub.Fail? then Fail else Done(StructV(sub.v), sub.pos)
    case StructVec(fs, max) =>
      var n := GetLen(data, pos, len);
      if n.Fail? || n.v > max then Fail
      else
        var es := DecodeSubs(fs, n.v, data, n.pos, len);
        if es.Fail? then Fail else Done(StructVecV(es.v), es.pos)
  }

  function DecodeInts(t: IntType, n: nat, data: seq<Byte>, pos: nat, len: nat): (r: Read<seq<int>>) {
    if n == 0 then Done([], pos)
    else if pos + Width(t) > len || pos + Width(t) > |data| then Fail
    else
      var rest := DecodeInts(t, n - 1, data, pos + Width(t), len);
      if rest.Fail? then Fail else Done([Get(t, data[pos..pos + Width(t)])] + rest.v, rest.pos)
  }

  /** A nested message: its length, then its own Decode on the bytes behind, then the skip. */
  function DecodeSub(ts: seq<Type>, data: seq<Byte>, pos: nat, len: nat): (r: Read<seq<Value>>)
    decreases ts, 1, 0
  {
    var n := GetLen(data, pos, len);
    if n.Fail? then Fail
    else
      var sub := DecodeAll(ts, data[n.pos..], 0, SubRoom(n.v));
      if sub.Fail? || n.pos + n.v > len then Fail else Done(sub.v, n.pos + n.v)
  }

  function DecodeSubs(ts: seq<Type>, n: nat, data: seq<Byte>, pos: nat, len: nat): (r: Read<seq<seq<Value>>>)
    decreases ts, 2, n
  {
    if n == 0 then Done([], pos)
    else
      var first := DecodeSub(ts, data, pos, len);
      if first.Fail? then Fail
      else
        var rest := DecodeSubs(ts, n - 1, data, first.pos, len);
        if rest.Fail? then Fail else Done([first.v] + rest.v, rest.pos)
  }

  function DecodeAll(ts: seq<Type>, data: seq<Byte>, pos: nat, len: nat): (r: Read<seq<Value>>)
    decreases ts, 0, 0
  {
    if ts == [] then Done([], pos)
    else
      var first := Decode(ts[0], data, pos, len);
      if first.Fail? then Fail
      else
        var rest := DecodeAll(ts[1..], data, first.pos, len);
        if rest.Fail? then Fail else Done([first.v] + rest.v, rest.pos)
  }

  // ---------- The round trip ----------

  /** Every vector of messages that Encode reaches holds at most one message. */
  ghost predicate Single(t: Type, v: Value)
    requires Typed(t, v)
    decreases t
  {
    match t
    case Struct(fs) => SingleAll(fs, v.vs)
    case StructVec(fs, _) => |v.es| <= 1 && (v.es == [] || SingleAll(fs, v.es[0]))
    case _ => true
  }

  ghost predicate SingleAll(ts: seq<Type>, vs: seq<Value>)
    requires TypedAll(ts, vs)
    decreases ts
  {
    ts == [] || (Single(ts[0], vs[0]) && SingleAll(ts[1..], vs[1..]))
  }

  /** `w` lies in `data` at `pos`, within the first `len` bytes. */
  ghost predicate Lies(data: seq<Byte>, pos: nat, len: nat, w: seq<Byte>) {
    pos + |w| <= len && pos + |w| <= |data| && data[pos..pos + |w|] == w
  }

  lemma LiesSplit(data: seq<Byte>, pos: nat, len: nat, a: seq<Byte>, b: seq<Byte>)
    requires Lies(data, pos, len, a + b)
    ensures Lies(data, pos, len, a) && Lies(data, pos + |a|, len, b)
    ensures Lies(data[pos + |a|..], 0, |b|, b)
  {
    var d := data[pos..pos + |a + b|];
    assert data[pos..pos + |a|] == d[..|a|] == a;
    assert data[pos + |a|..pos + |a| + |b|] == d[|a|..] == b;
    assert data[pos + |a|..][0..|b|] == data[pos + |a|..pos + |a| + |b|];
  }

  lemma GetLenBack(data: seq<Byte>, pos: nat, len: nat, n: nat)
    requires n < WORD32 && Lies(data, pos, len, Len(n))
    ensures GetLen(data, pos, len) == Done(n, pos + 4)
  {
    hide BE32, FromBE32;
    ReadBack32(n);
  }

  lemma {:induction false} DecodeIntsBack(t: IntType, xs: seq<int>, data: seq<Byte>, pos: nat, len: nat)
    requires (forall i :: 0 <= i < |xs| ==> InRange(t, xs[i])) && Lies(data, pos, len, PutAll(t, xs))
    ensures DecodeInts(t, |xs|, data, pos, len) == Done(xs, pos + |PutAll(t, xs)|)
    decreases |xs|
  {
    hide Put, Get;
    if xs != [] {
      LiesSplit(data, pos, len, Put(t, xs[0]), PutAll(t, xs[1..]));
      GetPut(t, xs[0]);
      DecodeIntsBack(t, xs[1..], data, pos + Width(t), len);
      assert [xs[0]] + xs[1..] == xs;
    }
  }

  lemma {:induction false} DecodeBack(t: Type, v: Value, data: seq<Byte>, pos: nat, len: nat)
    requires Typed(t, v) && Sized(t, v) && Single(t, v)
    requires Lies(data, pos, len, Wire(t, v)) && |Wire(t, v)| < 0x8000_0000
    ensures Decode(t, data, pos, len) == Done(v, pos + |Wire(t, v)|)
    decreases t, 1
  {
    hide Put, Get, Len, GetLen;
    match t
    case Int(it) => GetPut(it, v.x);
    case Str(_) =>
      LiesSplit(data, pos, len, Len(|v.s|), v.s);
      GetLenBack(data, pos, len, |v.s|);
    case IntVec(it, _) =>
      LiesSplit(data, pos, len, Len(|v.xs|), PutAll(it, v.xs));
      GetLenBack(data, pos, len, |v.xs|);
      DecodeIntsBack(it, v.xs, data, pos + 4, len);
    case Struct(fs) => DecodeSubBack(fs, v.vs, data, pos, len);
    case StructVec(_, _) => DecodeSubsBack(t, v, data, pos, len);
  }

  lemma {:induction false} DecodeSubsBack(t: Type, v: Value, data: seq<Byte>, pos: nat, len: nat)
    requires t.StructVec? && Typed(t, v) && Sized(t, v) && Single(t, v)
    requires Lies(data, pos, len, Wire(t, v)) && |Wire(t, v)| < 0x8000_0000
    ensures Decode(t, data, pos, len) == Done(v, pos + |Wire(t, v)|)
    decreases t, 0
  {
    hide Len, GetLen, DecodeSub;
    if v.es == [] {
      assert Len(0) + [] == Len(0);
      GetLenBack(data, pos, len, 0);
    } else {
      var w := WireAll(t.fields, v.es[0]);
      LiesSplit(data, pos, len, Len(1), Len(|w|) + w);
      GetLenBack(data, pos, len, 1);
      DecodeSubBack(t.fields, v.es[0], data, pos + 4, len);
      OneSub(t.fields, v.es[0], data, pos + 4, len);
      assert v.es == [v.es[0]];
    }
  }

  lemma OneSub(ts: seq<Type>, vs: seq<Value>, data: seq<Byte>, pos: nat, len: nat)
    requires DecodeSub(ts, data, pos, len).Done? && DecodeSub(ts, data, pos, len).v == vs
    ensures DecodeSubs(ts, 1, data, pos, len) == Done([vs], DecodeSub(ts, data, pos, len).pos)
  {
    hide DecodeSub;
    var next := DecodeSub(ts, data, pos, len).pos;
    assert DecodeSubs(ts, 0, data, next, len) == Done([], next);
    assert [vs] + [] == [vs];
  }

  lemma {:induction false} DecodeSubBack(ts: seq<Type>, vs: seq<Value>, data: seq<Byte>, pos: nat, len: nat)
    requires TypedAll(ts, vs) && SizedAll(ts, vs) && SingleAll(ts, vs)
    requires var w := WireAll(ts, vs); Lies(data, pos, len, Len(|w|) + w) && |w| < 0x8000_0000
    ensures DecodeSub(ts, data, pos, len) == Done(vs, pos + 4 + |WireAll(ts, vs)|)
    decreases ts, 1
  {
    hide Len, GetLen;
    var w := WireAll(ts, vs);
    LiesSplit(data, pos, len, Len(|w|), w);
    GetLenBack(data, pos, len, |w|);
    DecodeAllBack(ts, vs, data[pos + 4..], 0, |w|);
  }

  lemma {:induction false} DecodeAllBack(ts: seq<Type>, vs: seq<Value>, data: seq<Byte>, pos: nat, len: nat)
    requires TypedAll(ts, vs) && SizedAll(ts, vs) && SingleAll(ts, vs)
    requires Lies(data, pos, len, WireAll(ts, vs)) && |WireAll(ts, vs)| < 0x8000_0000
    ensures DecodeAll(ts, data, pos, len) == Done(vs, pos + |WireAll(ts, vs)|)
    decreases ts, 0
  {
    hide Decode, Typed;
    if ts != [] {
      var w := Wire(ts[0], vs[0]);
      LiesSplit(data, pos, len, w, WireAll(ts[1..], vs[1..]));
      DecodeBack(ts[0], vs[0], data, pos, len);
      DecodeAllBack(ts[1..], vs[1..], data, pos + |w|, len);
      assert [vs[0]] + vs[1..] == vs;
    }
  }

  // ---------- What a decoded value needs ----------

  /** The bytes that a decoder must read to come up with this value. */
  ghost function Need(t: Type, v: Value): nat
    requires Typed(t, v)
    decreases t
  {
    match t
    case Int(it) => Width(it)
    case Str(_) => 4 + |v.s|
    case IntVec(it, _) => 4 + |PutAll(it, v.xs)|
    case Struct(fs) => 4 + NeedAll(fs, v.vs)
    case StructVec(fs, _) => 4 + NeedEach(fs, v.es)
  }

  ghost function NeedAll(ts: seq<Type>, vs: seq<Value>): nat
    requires TypedAll(ts, vs)
    decreases ts, 0, 0
  {
    if ts == [] then 0 else Need(ts[0], vs[0]) + NeedAll(ts[1..], vs[1..])
  }

  ghost function NeedEach(ts: seq<Type>, es: seq<seq<Value>>): nat
    requires forall i :: 0 <= i < |es| ==> TypedAll(ts, es[i])
    decreases ts, 1, |es|
  {
    if es == [] then 0 else 4 + NeedAll(ts, es[0]) + NeedEach(ts, es[1..])
  }

  /** Encode writes that much, or less, and less exactly when it drops messages of a vector. */
  lemma {:induction false} WireNeeds(t: Type, v: Value)
    requires Typed(t, v)
    ensures |Wire(t, v)| <= Need(t, v) && (|Wire(t, v)| == Need(t, v) <==> Single(t, v))
    decreases t
  {
    hide Put, Len;
    match t
    case Struct(fs) => WireAllNeeds(fs, v.vs);
    case StructVec(fs, _) =>
      if v.es != [] {
        WireAllNeeds(fs, v.es[0]);
        assert if |v.es| == 1 then v.es[1..] == [] && NeedEach(fs, v.es[1..]) == 0 else NeedEach(fs, v.es[1..]) >= 4;
      }
    case _ =>
  }

  lemma {:induction false} WireAllNeeds(ts: seq<Type>, vs: seq<Value>)
    requires TypedAll(ts, vs)
    ensures |WireAll(ts, vs)| <= NeedAll(ts, vs) && (|WireAll(ts, vs)| == NeedAll(ts, vs) <==> SingleAll(ts, vs))
    decreases ts
  {
    if ts != [] {
      WireNeeds(ts[0], vs[0]);
      WireAllNeeds(ts[1..], vs[1..]);
    }
  }

  lemma {:induction false} DecodeIntsNeeds(t: IntType, n: nat, data: seq<Byte>, pos: nat, len: nat)
    requires pos <= len && DecodeInts(t, n, data, pos, len).Done?
    ensures var r := DecodeInts(t, n, data, pos, len);
            && |r.v| == n && (forall i :: 0 <= i < |r.v| ==> InRange(t, r.v[i]))
            && pos + |PutAll(t, r.v)| == r.pos <= len
    decreases n
  {
    hide Put, Get;
    if n > 0 {
      DecodeIntsNeeds(t, n - 1, data, pos + Width(t), len);
      var rest := DecodeInts(t, n - 1, data, pos + Width(t), len);
      var r := DecodeInts(t, n, data, pos, len);
      assert r.v[1..] == rest.v;
    }
  }

  /** A successful Decode yields a value of the type, stays within `len`, and has read what the value needs. */
  lemma {:induction false} DecodeNeeds(t: Type, data: seq<Byte>, pos: nat, len: nat)
    requires pos <= len < 0x8000_0000 && Decode(t, data, pos, len).Done?
    ensures var r := Decode(t, data, pos, len); Typed(t, r.v) && pos + Need(t, r.v) <= r.pos <= len
    decreases t, 0
  {
    hide Put, Get, GetLen;
    match t
    case Int(_) =>
    case Str(_) =>
    case IntVec(it, _) =>
      var n := GetLen(data, pos, len);
      DecodeIntsNeeds(it, n.v, data, n.pos, len);
    case Struct(fs) => DecodeSubNeeds(fs, data, pos, len);
    case StructVec(fs, _) =>
      var n := GetLen(data, pos, len);
      DecodeSubsNeeds(fs, n.v, data, n.pos, len);
  }

  lemma {:induction false} DecodeSubNeeds(ts: seq<Type>, data: seq<Byte>, pos: nat, len: nat)
    requires pos <= len < 0x8000_0000 && DecodeSub(ts, data, pos, len).Done?
    ensures var r := DecodeSub(ts, data, pos, len); TypedAll(ts, r.v) && pos + 4 + NeedAll(ts, r.v) <= r.pos <= len
    decreases ts, 1, 0
  {
    hide GetLen;
    var n := GetLen(data, pos, len);
    DecodeAllNeeds(ts, data[n.pos..], 0, n.v);
  }

  lemma {:induction false} DecodeSubsNeeds(ts: seq<Type>, n: nat, data: seq<Byte>, pos: nat, len: nat)
    requires pos <= len < 0x8000_0000 && DecodeSubs(ts, n, data, pos, len).Done?
    ensures var r := DecodeSubs(ts, n, data, pos, len);
            && |r.v| == n && (forall i :: 0 <= i < |r.v| ==> TypedAll(ts, r.v[i]))
            && pos + NeedEach(ts, r.v) <= r.pos <= len
    decreases ts, 2, n
  {
    hide DecodeSub, TypedAll;
    if n > 0 {
      DecodeSubNeeds(ts, data, pos, len);
      var first := DecodeSub(ts, data, pos, len);
      DecodeSubsNeeds(ts, n - 1, data, first.pos, len);
      var rest := DecodeSubs(ts, n - 1, data, first.pos, len);
      var r := DecodeSubs(ts, n, data, pos, len);
      assert r.v[1..] == rest.v;
    }
  }

  lemma {:induction false} DecodeAllNeeds(ts: seq<Type>, data: seq<Byte>, pos: nat, len: nat)
    requires pos <= len < 0x8000_0000 && DecodeAll(ts, data, pos, len).Done?
    ensures var r := DecodeAll(ts, data, pos, len); TypedAll(ts, r.v) && pos + NeedAll(ts, r.v) <= r.pos <= len
    decreases ts, 0, 0
  {
    hide Decode, Typed, Need;
    if ts != [] {
      DecodeNeeds(ts[0], data, pos, len);
      var first := Decode(ts[0], data, pos, len);
      DecodeAllNeeds(ts[1..], data, first.pos, len);
      var rest := DecodeAll(ts[1..], data, first.pos, len);
      var r := DecodeAll(ts, data, pos, len);
      assert r.v[1..] == rest.v;
    }
  }

  // ---------- The maxima of a decoded value ----------

  /** Every counter at every depth is within its maximum, so that the value fits the generated class. */
  ghost predicate Within(t: Type, v: Value)
    requires Typed(t, v)
    decreases t
  {
    match t
    case Int(_) => true
    case Str(max) => |v.s| <= max
    case IntVec(_, max) => |v.xs| <= max
    case Struct(fs) => WithinAll(fs, v.vs)
    case StructVec(fs, max) => |v.es| <= max && forall i :: 0 <= i < |v.es| ==> WithinAll(fs, v.es[i])
  }

  ghost predicate WithinAll(ts: seq<Type>, vs: seq<Value>)
    requires TypedAll(ts, vs)
    decreases ts
  {
    forall i :: 0 <= i < |ts| ==> Within(ts[i], vs[i])
  }

  /** Every string length that the received bytes announce is within the maximum of its field. */
  predicate Short(t: Type, data: seq<Byte>, pos: nat, len: nat)
    decreases t, 0
  {
    var n := GetLen(data, pos, len);
    n.Done? ==>
      match t
      case Str(max) => n.v <= max
      case Struct(fs) => ShortSub(fs, data, pos, len)
      case StructVec(fs, _) => ShortSubs(fs, n.v, data, n.pos, len)
      case _ => true
  }

  predicate ShortSub(ts: seq<Type>, data: seq<Byte>, pos: nat, len: nat)
    decreases ts, 1, 0
  {
    var n := GetLen(data, pos, len);
    n.Done? ==> ShortAll(ts, data[n.pos..], 0, SubRoom(n.v))
  }

  predicate ShortSubs(ts: seq<Type>, n: nat, data: seq<Byte>, pos: nat, len: nat)
    decreases ts, 2, n
  {
    n > 0 ==>
      && ShortSub(ts, data, pos, len)
      && var first := DecodeSub(ts, data, pos, len);
         first.Done? ==> ShortSubs(ts, n - 1, data, first.pos, len)
  }

  predicate ShortAll(ts: seq<Type>, data: seq<Byte>, pos: nat, len: nat)
    decreases ts, 0, 0
  {
    ts != [] ==>
      && Short(ts[0], data, pos, len)
      && var first := Decode(ts[0], data, pos, len);
         first.Done? ==> ShortAll(ts[1..], data, first.pos, len)
  }

  /**
    A decoded value respects the maxima of its schema exactly when the announced string lengths do: the
    decoder compares the counters of vectors with their maxima, but not those of strings.
   */
  lemma {:induction false} DecodeWithinIff(t: Type, data: seq<Byte>, pos: nat, len: nat)
    requires pos <= len < 0x8000_0000 && Decode(t, data, pos, len).Done?
    ensures var r := Decode(t, data, pos, len); Typed(t, r.v) && (Within(t, r.v) <==> Short(t, data, pos, len))
    decreases t, 0
  {
    hide Get, GetLen;
    DecodeNeeds(t, data, pos, len);
    match t
    case Int(_) =>
    case Str(_) =>
    case IntVec(it, _) =>
      var n := GetLen(data, pos, len);
      DecodeIntsNeeds(it, n.v, data, n.pos, len);
    case Struct(fs) => DecodeSubWithinIff(fs, data, pos, len);
    case StructVec(fs, _) =>
      var n := GetLen(data, pos, len);
      DecodeSubsWithinIff(fs, n.v, data, n.pos, len);
  }

  lemma {:induction false} DecodeSubWithinIff(ts: seq<Type>, data: seq<Byte>, pos: nat, len: nat)
    requires pos <= len < 0x8000_0000 && DecodeSub(ts, data, pos, len).Done?
    ensures var r := DecodeSub(ts, data, pos, len);
            TypedAll(ts, r.v) && (WithinAll(ts, r.v) <==> ShortSub(ts, data, pos, len))
    decreases ts, 1, 0
  {
    hide GetLen;
    DecodeSubNeeds(ts, data, pos, len);
    var n := GetLen(data, pos, len);
    DecodeAllWithinIff(ts, data[n.pos..], 0, n.v);
  }

  lemma {:induction false} DecodeSubsWithinIff(ts: seq<Type>, n: nat, data: seq<Byte>, pos: nat, len: nat)
    requires pos <= len < 0x8000_0000 && DecodeSubs(ts, n, data, pos, len).Done?
    ensures var r := DecodeSubs(ts, n, data, pos, len);
            && |r.v| == n && (forall i :: 0 <= i < |r.v| ==> TypedAll(ts, r.v[i]))
            && ((forall i :: 0 <= i < |r.v| ==> WithinAll(ts, r.v[i])) <==> ShortSubs(ts, n, data, pos, len))
    decreases ts, 2, n
  {
    hide DecodeSub, TypedAll, WithinAll, ShortSub;
    DecodeSubsNeeds(ts, n, data, pos, len);
    if n > 0 {
      var first := DecodeSub(ts, data, pos, len);
      var rest := DecodeSubs(ts, n - 1, data, first.pos, len);
      var r := DecodeSubs(ts, n, data, pos, len);
      assert r.v[0] == first.v && forall i :: 0 <= i < |rest.v| ==> rest.v[i] == r.v[i + 1];
      DecodeSubNeeds(ts, data, pos, len);
      DecodeSubWithinIff(ts, data, pos, len);
      DecodeSubsWithinIff(ts, n - 1, data, first.pos, len);
    }
  }

  lemma {:induction false} DecodeAllWithinIff(ts: seq<Type>, data: seq<Byte>, pos: nat, len: nat)
    requires pos <= len < 0x8000_0000 && DecodeAll(ts, data, pos, len).Done?
    ensures var r := DecodeAll(ts, data, pos, len);
            TypedAll(ts, r.v) && (WithinAll(ts, r.v) <==> ShortAll(ts, data, pos, len))
    decreases ts, 0, 0
  {
    hide Decode, Typed, Within, Short;
    DecodeAllNeeds(ts, data, pos, len);
    if ts != [] {
      var first := Decode(ts[0], data, pos, len);
      var rest := DecodeAll(ts[1..], data, first.pos, len);
      var vs := DecodeAll(ts, data, pos, len).v;
      DecodeNeeds(ts[0], data, pos, len);
      assert vs[0] == first.v && vs[1..] == rest.v;
      DecodeWithinIff(ts[0], data, pos, len);
      DecodeAllWithinIff(ts[1..], data, first.pos, len);
      WithinFirst(ts, vs);
    }
  }

  lemma WithinFirst(ts: seq<Type>, vs: seq<Value>)
    requires TypedAll(ts, vs) && ts != []
    ensures TypedAll(ts[1..], vs[1..])
    ensures WithinAll(ts, vs) <==> Within(ts[0], vs[0]) && WithinAll(ts[1..], vs[1..])
  {
    hide Within, Typed;
    assert forall i :: 0 < i < |ts| ==> ts[i] == ts[1..][i - 1] && vs[i] == vs[1..][i - 1];
  }

  /** A string of any length is taken, whatever the maximum of the field and the array behind it. */
  lemma LongStringTaken(max: nat, s: seq<Byte>)
    requires max < |s| < WORD32
    ensures var data := Len(|s|) + s;
            && Decode(Str(max), data, 0, |data|) == Done(StrV(s), |data|)
            && Typed(Str(max), StrV(s)) && !Within(Str(max), StrV(s))
  {
    hide Len, GetLen;
    var data := Len(|s|) + s;
    LiesSplit(data, 0, |data|, Len(|s|), s);
    GetLenBack(data, 0, |data|, |s|);
  }

  /**
    For every message of every schema that Encode accepts: Decode of what it wrote, with the length it
    reported, gives the message back and uses that length, exactly when no vector of messages in it
    holds more than one. `data` may go on behind the message.
   */
  lemma RoundTripIff(ts: seq<Type>, vs: seq<Value>, len: nat, data: seq<Byte>)
    requires TypedAll(ts, vs) && len < 0x8000_0000 && EncodeAll(ts, vs, 0, len).Some?
    requires EncodeAll(ts, vs, 0, len).value <= data
    ensures var w := EncodeAll(ts, vs, 0, len).value;
            var r := DecodeAll(ts, data, 0, |w|);
            && |w| <= len
            && (r.Done? && r.v == vs <==> SingleAll(ts, vs))
            && (SingleAll(ts, vs) ==> r == Done(vs, |w|))
  {
    EncodeAllIff(ts, vs, 0, len);
    var w := WireAll(ts, vs);
    WireAllNeeds(ts, vs);
    if SingleAll(ts, vs) { DecodeAllBack(ts, vs, data, 0, |w|); }
    if DecodeAll(ts, data, 0, |w|).Done? { DecodeAllNeeds(ts, data, 0, |w|); }
  }
}
