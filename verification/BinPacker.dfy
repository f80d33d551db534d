/**
  The generated Encode and Decode as they run: a BinEncoder that moves a write position through the
  caller's buffer, nested messages written behind a gap that is filled in afterwards, and a read
  position that moves through the received bytes. Both are shown to be the functions of Codec.
 */
module BinPacker {
  import opened Bytes
  import opened ByteOrder
  import opened Codec
  import opened Wrappers

  /** The packer of one Encode call: `len` bytes of `buffer` from `start` on. */
  class BinEncoder {
    const buffer: array<Byte>
    const start: nat
    const len: nat
    var pos: nat

    ghost predicate Valid()
      reads this
    {
      start + len <= buffer.Length
    }

    constructor (buffer: array<Byte>, start: nat, len: nat)
      requires start + len <= buffer.Length
      ensures Valid() && this.buffer == buffer && this.start == start && this.len == len && pos == 0
    {
      this.buffer, this.start, this.len, pos := buffer, start, len, 0;
    }

    /** Write(const void*, size_t). */
    method WriteBytes(b: seq<Byte>) returns (ok: bool)
      requires Valid()
      modifies this, buffer
      ensures ok <==> old(pos) + |b| <= len
      ensures pos == if ok then old(pos) + |b| else old(pos)
      ensures ok ==> buffer[start + old(pos)..start + pos] == b
      ensures forall i :: 0 <= i < buffer.Length && !(ok && start + old(pos) <= i < start + pos) ==>
                buffer[i] == old(buffer[i])
    {
      if pos + |b| > len { return false; }
      for k := 0 to |b|
        invariant pos == old(pos)
        invariant forall i :: 0 <= i < k ==> buffer[start + pos + i] == b[i]
        invariant forall i :: 0 <= i < buffer.Length && !(start + pos <= i < start + pos + k) ==>
                    buffer[i] == old(buffer[i])
      {
        buffer[start + pos + k] := b[k];
      }
      pos := pos + |b|;
      ok := true;
    }

    /** Write of a 32-bit or 64-bit integer: swapped, then copied as the little-endian host holds it. */
    method WriteInt(t: IntType, x: int) returns (ok: bool)
      requires Valid() && InRange(t, x)
      modifies this, buffer
      ensures ok <==> old(pos) + Width(t) <= len
      ensures pos == if ok then old(pos) + Width(t) else old(pos)
      ensures ok ==> buffer[start + old(pos)..start + pos] == Put(t, x)
      ensures forall i :: 0 <= i < buffer.Length && !(ok && start + old(pos) <= i < start + pos) ==>
                buffer[i] == old(buffer[i])
    {
      hide BE32, BE64, LE32, LE64, Swap32, Swap64;
      if Width(t) == 4 {
        NetworkOrder32(x % WORD32);
        ok := WriteBytes(LE32(Swap32(x % WORD32)));
      } else {
        NetworkOrder64(x % WORD64);
        ok := WriteBytes(LE64(Swap64(x % WORD64)));
      }
    }

    method WriteLen(n: nat) returns (ok: bool)
      requires Valid()
      modifies this, buffer
      ensures ok <==> old(pos) + 4 <= len
      ensures pos == if ok then old(pos) + 4 else old(pos)
      ensures ok ==> buffer[start + old(pos)..start + pos] == Len(n)
      ensures forall i :: 0 <= i < buffer.Length && !(ok && start + old(pos) <= i < start + pos) ==>
                buffer[i] == old(buffer[i])
    {
      hide BE32;
      ok := WriteInt(U32, n % WORD32);
    }

    method SkipWritePos(n: nat) returns (ok: bool)
      modifies this
      ensures ok <==> old(pos) + n <= len
      ensures pos == if ok then old(pos) + n else old(pos)
    {
      ok := pos + n <= len;
      if ok { pos := pos + n; }
    }
  }

  /** Bytes of the buffer outside these bounds are as before. */
  twostate predicate Untouched(buffer: array<Byte>, from: int, to: int)
    reads buffer
  {
    forall i :: 0 <= i < buffer.Length && !(from <= i < to) ==> buffer[i] == old(buffer[i])
  }

  lemma {:induction false} PutAllSnoc(t: IntType, xs: seq<int>, k: nat)
    requires k < |xs| && forall i :: 0 <= i < |xs| ==> InRange(t, xs[i])
    ensures PutAll(t, xs[..k + 1]) == PutAll(t, xs[..k]) + Put(t, xs[k])
    ensures |PutAll(t, xs[..k + 1])| <= |PutAll(t, xs)|
    decreases |xs|
  {
    hide Put;
    if k == 0 {
      assert xs[..1][1..] == [] && PutAll(t, xs[..1]) == Put(t, xs[0]) + PutAll(t, []);
    } else {
      PutAllSnoc(t, xs[1..], k - 1);
      assert xs[..k + 1][1..] == xs[1..][..k] && xs[..k][1..] == xs[1..][..k - 1];
    }
  }

  /** The loop over a vector of integers. */
  method EncodeInts(p: BinEncoder, t: IntType, xs: seq<int>) returns (ok: bool)
    requires p.Valid() && p.pos <= p.len && forall i :: 0 <= i < |xs| ==> InRange(t, xs[i])
    modifies p, p.buffer
    ensures ok <==> old(p.pos) + |PutAll(t, xs)| <= p.len
    ensures ok ==> p.pos == old(p.pos) + |PutAll(t, xs)|
    ensures ok ==> p.buffer[p.start + old(p.pos)..p.start + p.pos] == PutAll(t, xs)
    ensures Untouched(p.buffer, p.start + old(p.pos), p.start + p.len)
  {
    hide Put;
    ghost var from := p.start + p.pos;
    for k := 0 to |xs|
      invariant p.pos == old(p.pos) + |PutAll(t, xs[..k])| <= p.len
      invariant p.buffer[from..p.start + p.pos] == PutAll(t, xs[..k])
      invariant Untouched(p.buffer, from, p.start + p.len)
    {
      PutAllSnoc(t, xs, k);
      ghost var mid, done := p.start + p.pos, p.buffer[from..p.start + p.pos];
      ok := p.WriteInt(t, xs[k]);
      if !ok { return; }
      assert p.buffer[from..p.start + p.pos] == done + p.buffer[mid..p.start + p.pos];
    }
    assert xs[..|xs|] == xs;
    ok := true;
  }

  function Join(a: seq<Byte>, r: Option<seq<Byte>>): Option<seq<Byte>> {
    if r.None? then None else Some(a + r.value)
  }

  lemma EncodeNext(ts: seq<Type>, vs: seq<Value>, k: nat, acc: seq<Byte>, pos: nat, len: nat)
    requires TypedAll(ts, vs) && k < |ts|
    ensures TypedAll(ts[k..], vs[k..]) && TypedAll(ts[k + 1..], vs[k + 1..]) && Typed(ts[k], vs[k])
    ensures var first := Encode(ts[k], vs[k], pos, len);
            Join(acc, EncodeAll(ts[k..], vs[k..], pos, len))
              == if first.None? then None
                 else Join(acc + first.value, EncodeAll(ts[k + 1..], vs[k + 1..], pos + |first.value|, len))
  {
    hide Encode, Typed;
    assert ts[k..][1..] == ts[k + 1..] && vs[k..][1..] == vs[k + 1..];
    var first := Encode(ts[k], vs[k], pos, len);
    if first.Some? {
      var rest := EncodeAll(ts[k + 1..], vs[k + 1..], pos + |first.value|, len);
      assert rest.Some? ==> acc + (first.value + rest.value) == acc + first.value + rest.value;
    }
  }

  /** The generated Encode of a message: one packer, one template after the other. */
  method EncodeMessage(ts: seq<Type>, vs: seq<Value>, buffer: array<Byte>, start: nat, len: nat)
    returns (ok: bool, n: nat)
    requires TypedAll(ts, vs) && start + len <= buffer.Length && len < 0x8000_0000
    modifies buffer
    ensures ok <==> EncodeAll(ts, vs, 0, len).Some?
    ensures ok ==> n == |EncodeAll(ts, vs, 0, len).value| <= len
    ensures ok ==> buffer[start..start + n] == EncodeAll(ts, vs, 0, len).value
    ensures Untouched(buffer, start, start + len)
    decreases ts, 2
  {
    hide Typed, Encode, EncodeAll;
    var p := new BinEncoder(buffer, start, len);
    ghost var acc: seq<Byte> := [];
    assert ts[0..] == ts && vs[0..] == vs;
    JoinEmpty(EncodeAll(ts, vs, 0, len));
    for k := 0 to |ts|
      invariant p.Valid() && p.buffer == buffer && p.start == start && p.len == len && p.pos == |acc| <= len && fresh(p)
      invariant TypedAll(ts[k..], vs[k..])
      invariant EncodeAll(ts, vs, 0, len) == Join(acc, EncodeAll(ts[k..], vs[k..], p.pos, len))
      invariant buffer[start..start + p.pos] == acc
      invariant Untouched(buffer, start, start + len)
    {
      EncodeNext(ts, vs, k, acc, p.pos, len);
      ghost var at := p.pos;
      label before:
      ok := EncodeField(p, ts[k], vs[k]);
      if !ok { return false, 0; }
      assert buffer[start..start + p.pos] == buffer[start..start + at] + buffer[start + at..start + p.pos];
      acc := acc + Encode(ts[k], vs[k], at, len).value;
    }
    EncodeNothing(p.pos, len);
    assert ts[|ts|..] == [] && vs[|ts|..] == [];
    ok, n := true, p.pos;
  }

  lemma JoinEmpty(r: Option<seq<Byte>>)
    ensures Join([], r) == r
  {
    if r.Some? { assert [] + r.value == r.value; }
  }

  lemma EncodeNothing(pos: nat, len: nat)
    ensures EncodeAll([], [], pos, len) == Some([])
  {
  }

  /** A nested message: encoded in place behind four bytes, then its length is written into them. */
  method EncodeNested(p: BinEncoder, ts: seq<Type>, vs: seq<Value>) returns (ok: bool)
    requires p.Valid() && p.pos <= p.len < 0x8000_0000 && TypedAll(ts, vs)
    modifies p, p.buffer
    ensures var r := EncodeSub(ts, vs, old(p.pos), p.len);
            && (ok <==> r.Some?)
            && (ok ==> p.pos == old(p.pos) + |r.value| <= p.len)
            && (ok ==> p.buffer[p.start + old(p.pos)..p.start + p.pos] == r.value)
    ensures Untouched(p.buffer, p.start + old(p.pos), p.start + p.len)
    decreases ts, 3
  {
    hide EncodeAll, Len;
    if p.pos + 4 > p.len { return false; }
    var subPos := p.pos + 4;
    var subLen;
    ok, subLen := EncodeMessage(ts, vs, p.buffer, p.start + subPos, p.len - subPos);
    if !ok { return; }
    ghost var sub := p.buffer[p.start + subPos..p.start + subPos + subLen];
    ok := p.WriteLen(subLen);
    if !ok { return; }
    ok := p.SkipWritePos(subLen);
    if !ok { return; }
    ghost var from := p.start + old(p.pos);
    assert p.buffer[p.start + subPos..p.start + subPos + subLen] == sub;
    assert p.buffer[from..p.start + p.pos]
        == p.buffer[from..from + 4] + p.buffer[p.start + subPos..p.start + subPos + subLen];
  }

  /** The packer's buffer holds what Encode gives for this field at `pos`, or Encode gives nothing. */
  ghost predicate Wrote(p: BinEncoder, t: Type, v: Value, pos: nat, ok: bool)
    requires Typed(t, v)
    reads p, p.buffer
  {
    var r := Encode(t, v, pos, p.len);
    && (ok <==> r.Some?)
    && (ok ==> p.pos == pos + |r.value| <= p.len && p.start + p.len <= p.buffer.Length)
    && (ok ==> p.buffer[p.start + pos..p.start + p.pos] == r.value)
  }

  /** The template for a string. */
  method EncodeStr(p: BinEncoder, t: Type, v: Value) returns (ok: bool)
    requires p.Valid() && p.pos <= p.len < 0x8000_0000 && Typed(t, v) && t.Str?
    modifies p, p.buffer
    ensures Wrote(p, t, v, old(p.pos), ok)
    ensures Untouched(p.buffer, p.start + old(p.pos), p.start + p.len)
  {
    hide Len;
    ghost var from := p.start + p.pos;
    if |v.s| > t.max { return false; }
    ok := p.WriteLen(|v.s|);
    if !ok { return; }
    ok := p.WriteBytes(v.s);
    assert ok ==> p.buffer[from..p.start + p.pos] == p.buffer[from..from + 4] + p.buffer[from + 4..p.start + p.pos];
  }

  /** The template for a vector of integers. */
  method EncodeIntVec(p: BinEncoder, t: Type, v: Value) returns (ok: bool)
    requires p.Valid() && p.pos <= p.len < 0x8000_0000 && Typed(t, v) && t.IntVec?
    modifies p, p.buffer
    ensures Wrote(p, t, v, old(p.pos), ok)
    ensures Untouched(p.buffer, p.start + old(p.pos), p.start + p.len)
  {
    hide Len, Put;
    ghost var from := p.start + p.pos;
    if |v.xs| > t.max { return false; }
    ok := p.WriteLen(|v.xs|);
    if !ok { return; }
    ok := EncodeInts(p, t.t, v.xs);
    assert ok ==> p.buffer[from..p.start + p.pos] == p.buffer[from..from + 4] + p.buffer[from + 4..p.start + p.pos];
  }

  /** The template for a vector of messages, whose loop leaves after the first. */
  method EncodeNestedVec(p: BinEncoder, t: Type, v: Value) returns (ok: bool)
    requires p.Valid() && p.pos <= p.len < 0x8000_0000 && Typed(t, v) && t.StructVec?
    modifies p, p.buffer
    ensures Wrote(p, t, v, old(p.pos), ok)
    ensures Untouched(p.buffer, p.start + old(p.pos), p.start + p.len)
    decreases t, 3
  {
    hide Len, EncodeSub;
    ghost var from := p.start + p.pos;
    if |v.es| > t.max { return false; }
    ok := p.WriteLen(|v.es|);
    if !ok { return; }
    for idx := 0 to |v.es|
      invariant idx == 0 && ok && p.pos == old(p.pos) + 4 <= p.len
      invariant p.buffer[from..from + 4] == Len(|v.es|)
      invariant Untouched(p.buffer, from, p.start + p.len)
    {
      ok := EncodeNested(p, t.fields, v.es[idx]);
      assert ok ==> p.buffer[from..p.start + p.pos] == p.buffer[from..from + 4] + p.buffer[from + 4..p.start + p.pos];
      return;
    }
  }

  /** The template that gen_code selects for a field of this type. */
  method EncodeField(p: BinEncoder, t: Type, v: Value) returns (ok: bool)
    requires p.Valid() && p.pos <= p.len < 0x8000_0000 && Typed(t, v)
    modifies p, p.buffer
    ensures Wrote(p, t, v, old(p.pos), ok)
    ensures Untouched(p.buffer, p.start + old(p.pos), p.start + p.len)
    decreases t, 4
  {
    hide Put, Len, EncodeSub;
    match t
    case Int(it) => ok := p.WriteInt(it, v.x);
    case Str(_) => ok := EncodeStr(p, t, v);
    case IntVec(_, _) => ok := EncodeIntVec(p, t, v);
    case Struct(fs) => ok := EncodeNested(p, fs, v.vs);
    case StructVec(_, _) => ok := EncodeNestedVec(p, t, v);
  }

  // ---------- Decode ----------

  /** What a loop that has collected `acc` still has to add. */
  function After<V>(acc: seq<V>, r: Read<seq<V>>): Read<seq<V>> {
    if r.Fail? then Fail else Done(acc + r.v, r.pos)
  }

  lemma AfterSteps<V>(acc: seq<V>, x: V, r: Read<seq<V>>)
    ensures After(acc, After([x], r)) == After(acc + [x], r)
    ensures After([], r) == r
  {
    if r.Done? {
      assert acc + ([x] + r.v) == acc + [x] + r.v;
      assert [] + r.v == r.v;
    }
  }

  /** The packer of one Decode call. */
  class BinDecoder {
    const data: seq<Byte>
    const len: nat
    var pos: nat

    constructor (data: seq<Byte>, len: nat)
      ensures this.data == data && this.len == len && pos == 0
    {
      this.data, this.len, pos := data, len, 0;
    }

    /** Read of an integer: copied as the little-endian host holds it, then swapped. */
    method ReadInt(t: IntType) returns (ok: bool, x: int)
      modifies this
      ensures ok <==> old(pos) + Width(t) <= len && old(pos) + Width(t) <= |data|
      ensures pos == if ok then old(pos) + Width(t) else old(pos)
      ensures ok ==> x == Get(t, data[old(pos)..pos])
    {
      hide FromBE32, FromBE64, FromLE32, FromLE64, Swap32, Swap64, Signed;
      if pos + Width(t) > len || pos + Width(t) > |data| { return false, 0; }
      var b := data[pos..pos + Width(t)];
      if Width(t) == 4 {
        HostOrder32(b);
        x := Signed(t, Swap32(FromLE32(b)));
      } else {
        HostOrder64(b);
        x := Signed(t, Swap64(FromLE64(b)));
      }
      ok, pos := true, pos + Width(t);
    }

    method ReadLen() returns (r: Read<nat>)
      modifies this
      ensures r == GetLen(data, old(pos), len)
      ensures pos == if r.Done? then r.pos else old(pos)
    {
      hide FromBE32;
      var ok, x := ReadInt(U32);
      r := if ok then Done(x, pos) else Fail;
    }
  }

  method DecodeField(p: BinDecoder, t: Type) returns (r: Read<Value>)
    modifies p
    ensures r == Decode(t, p.data, old(p.pos), p.len)
    ensures r.Done? ==> p.pos == r.pos
    decreases t, 4
  {
    hide Get, GetLen;
    match t
    case Int(it) =>
      var ok, x := p.ReadInt(it);
      r := if ok then Done(IntV(x), p.pos) else Fail;
    case Str(_) =>
      var n := p.ReadLen();
      if n.Fail? || p.pos + n.v > p.len || p.pos + n.v > |p.data| { return Fail; }
      r := Done(StrV(p.data[p.pos..p.pos + n.v]), p.pos + n.v);
      p.pos := p.pos + n.v;
    case IntVec(it, max) =>
      var n := p.ReadLen();
      if n.Fail? || n.v > max { return Fail; }
      var xs := DecodeIntLoop(p, it, n.v);
      r := if xs.Fail? then Fail else Done(IntVecV(xs.v), xs.pos);
    case Struct(fs) =>
      var sub := DecodeNested(p, fs);
      r := if sub.Fail? then Fail else Done(StructV(sub.v), sub.pos);
    case StructVec(fs, max) =>
      var n := p.ReadLen();
      if n.Fail? || n.v > max { return Fail; }
      var es := DecodeNestedLoop(p, fs, n.v);
      r := if es.Fail? then Fail else Done(StructVecV(es.v), es.pos);
  }

  method DecodeIntLoop(p: BinDecoder, t: IntType, n: nat) returns (r: Read<seq<int>>)
    modifies p
    ensures r == DecodeInts(t, n, p.data, old(p.pos), p.len)
    ensures r.Done? ==> p.pos == r.pos
  {
    hide Get;
    var xs: seq<int> := [];
    AfterSteps([], 0, DecodeInts(t, n, p.data, p.pos, p.len));
    for k := 0 to n
      invariant DecodeInts(t, n, p.data, old(p.pos), p.len) == After(xs, DecodeInts(t, n - k, p.data, p.pos, p.len))
    {
      ghost var rest := DecodeInts(t, n - k - 1, p.data, p.pos + Width(t), p.len);
      var ok, x := p.ReadInt(t);
      if !ok { return Fail; }
      AfterSteps(xs, x, rest);
      xs := xs + [x];
    }
    assert xs + [] == xs;
    r := Done(xs, p.pos);
  }

  /** A nested message: its length, its own Decode on the bytes behind, then the skip. */
  method DecodeNested(p: BinDecoder, ts: seq<Type>) returns (r: Read<seq<Value>>)
    modifies p
    ensures r == DecodeSub(ts, p.data, old(p.pos), p.len)
    ensures r.Done? ==> p.pos == r.pos
    decreases ts, 5
  {
    hide GetLen, DecodeAll;
    var n := p.ReadLen();
    if n.Fail? { return Fail; }
    var sub := DecodeMessage(ts, p.data[p.pos..], SubRoom(n.v));
    if sub.Fail? || p.pos + n.v > p.len { return Fail; }
    p.pos := p.pos + n.v;
    r := Done(sub.v, p.pos);
  }

  method DecodeNestedLoop(p: BinDecoder, ts: seq<Type>, n: nat) returns (r: Read<seq<seq<Value>>>)
    modifies p
    ensures r == DecodeSubs(ts, n, p.data, old(p.pos), p.len)
    ensures r.Done? ==> p.pos == r.pos
    decreases ts, 6
  {
    hide DecodeSub;
    var es: seq<seq<Value>> := [];
    AfterSteps([], [], DecodeSubs(ts, n, p.data, p.pos, p.len));
    for k := 0 to n
      invariant DecodeSubs(ts, n, p.data, old(p.pos), p.len) == After(es, DecodeSubs(ts, n - k, p.data, p.pos, p.len))
    {
      var sub := DecodeNested(p, ts);
      if sub.Fail? { return Fail; }
      AfterSteps(es, sub.v, DecodeSubs(ts, n - k - 1, p.data, p.pos, p.len));
      es := es + [sub.v];
    }
    assert es + [] == es;
    r := Done(es, p.pos);
  }

  /** The generated Decode of a message. */
  method DecodeMessage(ts: seq<Type>, data: seq<Byte>, len: nat) returns (r: Read<seq<Value>>)
    ensures r == DecodeAll(ts, data, 0, len)
    decreases ts, 3
  {
    hide Decode;
    var p := new BinDecoder(data, len);
    var vs: seq<Value> := [];
    assert ts[0..] == ts;
    AfterSteps([], IntV(0), DecodeAll(ts, data, 0, len));
    for k := 0 to |ts|
      invariant p.data == data && p.len == len && fresh(p)
      invariant DecodeAll(ts, data, 0, len) == After(vs, DecodeAll(ts[k..], data, p.pos, len))
    {
      assert ts[k..][0] == ts[k] && ts[k..][1..] == ts[k + 1..];
      var first := DecodeField(p, ts[k]);
      if first.Fail? { return Fail; }
      AfterSteps(vs, first.v, DecodeAll(ts[k + 1..], data, p.pos, len));
      vs := vs + [first.v];
    }
    assert ts[|ts|..] == [] && vs + [] == vs;
    r := Done(vs, p.pos);
  }
}
