/**
  Which bytes the generated Decode accepts, without reference to positions or lengths left: a grammar of
  encodings. A nested message may be followed by bytes that its Decode leaves unread; every message of a
  vector is written out, which Encode does for the first one only.
 */
module WireGrammar {
  import opened Bytes
  import opened ByteOrder
  import opened Codec

  /** `w` is an encoding of the value. Strings may exceed their maximum, vectors may not. */
  ghost predicate Encodes(t: Type, w: seq<Byte>, v: Value)
    decreases t
  {
    match t
    case Int(it) => v.IntV? && InRange(it, v.x) && w == Put(it, v.x)
    case Str(_) => v.StrV? && |v.s| < WORD32 && w == Len(|v.s|) + v.s
    case IntVec(it, max) =>
      && v.IntVecV? && |v.xs| <= max && |v.xs| < WORD32 && (forall i :: 0 <= i < |v.xs| ==> InRange(it, v.xs[i]))
      && w == Len(|v.xs|) + PutAll(it, v.xs)
    case Struct(fs) => v.StructV? && EncodesSub(fs, w, v.vs)
    case StructVec(fs, max) =>
      && v.StructVecV? && |v.es| <= max && |v.es| < WORD32
      && 4 <= |w| && w[..4] == Len(|v.es|) && EncodesEach(fs, w[4..], v.es)
  }

  /** A length, the message, and as much behind it as the length covers. */
  ghost predicate EncodesSub(ts: seq<Type>, w: seq<Byte>, vs: seq<Value>)
    decreases ts, 1, 0
  {
    && 4 <= |w| < WORD32 && w[..4] == Len(|w| - 4)
    && exists k :: 0 <= k <= |w| - 4 && EncodesAll(ts, w[4..][..k], vs)
  }

  ghost predicate EncodesAll(ts: seq<Type>, w: seq<Byte>, vs: seq<Value>)
    decreases ts, 0, 0
  {
    if ts == [] then w == [] && vs == []
    else vs != [] && exists k :: 0 <= k <= |w| && Encodes(ts[0], w[..k], vs[0]) && EncodesAll(ts[1..], w[k..], vs[1..])
  }

  ghost predicate EncodesEach(ts: seq<Type>, w: seq<Byte>, es: seq<seq<Value>>)
    decreases ts, 2, |es|
  {
    if es == [] then w == []
    else exists k :: 0 <= k <= |w| && EncodesSub(ts, w[..k], es[0]) && EncodesEach(ts, w[k..], es[1..])
  }

  // ---------- Integers, the other way round ----------

  lemma WriteBack32(b: seq<Byte>)
    requires |b| == 4
    ensures BE32(FromBE32(b)) == b
  {
    BytesBack(b[3], b[2], b[1], b[0]);
  }

  lemma WriteBack64(b: seq<Byte>)
    requires |b| == 8
    ensures BE64(FromBE64(b)) == b
  {
    hide BE32, FromBE32;
    Halves(FromBE32(b[..4]), FromBE32(b[4..]), WORD32);
    WriteBack32(b[..4]);
    WriteBack32(b[4..]);
    assert b[..4] + b[4..] == b;
  }

  lemma PutGet(t: IntType, b: seq<Byte>)
    requires |b| == Width(t)
    ensures Put(t, Get(t, b)) == b
  {
    hide BE32, BE64, FromBE32, FromBE64;
    if Width(t) == 4 { WriteBack32(b); } else { WriteBack64(b); }
  }

  lemma LenBack(data: seq<Byte>, pos: nat, len: nat)
    requires GetLen(data, pos, len).Done?
    ensures data[pos..pos + 4] == Len(GetLen(data, pos, len).v)
  {
    hide BE32, FromBE32;
    WriteBack32(data[pos..pos + 4]);
  }

  // ---------- What is accepted is an encoding ----------

  lemma {:induction false} IntsAccepted(t: IntType, n: nat, data: seq<Byte>, pos: nat, len: nat)
    requires pos <= len <= |data| && DecodeInts(t, n, data, pos, len).Done?
    ensures var r := DecodeInts(t, n, data, pos, len);
            && |r.v| == n && (forall i :: 0 <= i < |r.v| ==> InRange(t, r.v[i]))
            && pos <= r.pos <= len && data[pos..r.pos] == PutAll(t, r.v)
    decreases n
  {
    hide Put, Get;
    if n > 0 {
      var next := pos + Width(t);
      IntsAccepted(t, n - 1, data, next, len);
      var rest, r := DecodeInts(t, n - 1, data, next, len), DecodeInts(t, n, data, pos, len);
      PutGet(t, data[pos..next]);
      assert r.v[1..] == rest.v;
      assert data[pos..r.pos] == data[pos..next] + data[next..r.pos];
    }
  }

  lemma {:induction false} Accepted(t: Type, data: seq<Byte>, pos: nat, len: nat)
    requires pos <= len <= |data| && len < 0x8000_0000 && Decode(t, data, pos, len).Done?
    ensures var r := Decode(t, data, pos, len); pos <= r.pos <= len && Encodes(t, data[pos..r.pos], r.v)
    decreases t
  {
    hide Put, Get, GetLen, Len;
    var r := Decode(t, data, pos, len);
    match t
    case Int(it) => PutGet(it, data[pos..pos + Width(it)]);
    case Str(_) =>
      LenBack(data, pos, len);
      assert data[pos..r.pos] == data[pos..pos + 4] + data[pos + 4..r.pos];
    case IntVec(it, _) =>
      LenBack(data, pos, len);
      IntsAccepted(it, GetLen(data, pos, len).v, data, pos + 4, len);
      assert data[pos..r.pos] == data[pos..pos + 4] + data[pos + 4..r.pos];
    case Struct(fs) => SubAccepted(fs, data, pos, len);
    case StructVec(fs, _) =>
      LenBack(data, pos, len);
      EachAccepted(fs, GetLen(data, pos, len).v, data, pos + 4, len);
      assert data[pos..r.pos][..4] == data[pos..pos + 4] && data[pos..r.pos][4..] == data[pos + 4..r.pos];
  }

  lemma {:induction false} SubAccepted(ts: seq<Type>, data: seq<Byte>, pos: nat, len: nat)
    requires pos <= len <= |data| && len < 0x8000_0000 && DecodeSub(ts, data, pos, len).Done?
    ensures var r := DecodeSub(ts, data, pos, len); pos <= r.pos <= len && EncodesSub(ts, data[pos..r.pos], r.v)
    decreases ts, 1, 0
  {
    hide GetLen, Len, EncodesAll, DecodeAll;
    var n, r := GetLen(data, pos, len), DecodeSub(ts, data, pos, len);
    LenBack(data, pos, len);
    var sub := data[n.pos..];
    AllAccepted(ts, sub, 0, n.v);
    var w, k := data[pos..r.pos], DecodeAll(ts, sub, 0, n.v).pos;
    assert w[..4] == data[pos..pos + 4];
    assert w[4..][..k] == sub[0..k];
  }

  lemma {:induction false} EachAccepted(ts: seq<Type>, n: nat, data: seq<Byte>, pos: nat, len: nat)
    requires pos <= len <= |data| && len < 0x8000_0000 && DecodeSubs(ts, n, data, pos, len).Done?
    ensures var r := DecodeSubs(ts, n, data, pos, len);
            |r.v| == n && pos <= r.pos <= len && EncodesEach(ts, data[pos..r.pos], r.v)
    decreases ts, 2, n
  {
    hide EncodesSub, DecodeSub;
    if n > 0 {
      SubAccepted(ts, data, pos, len);
      var first := DecodeSub(ts, data, pos, len);
      EachAccepted(ts, n - 1, data, first.pos, len);
      var rest, r := DecodeSubs(ts, n - 1, data, first.pos, len), DecodeSubs(ts, n, data, pos, len);
      var w, k := data[pos..r.pos], first.pos - pos;
      assert r.v[0] == first.v && r.v[1..] == rest.v;
      assert w[..k] == data[pos..first.pos] && w[k..] == data[first.pos..r.pos];
    }
  }

  lemma {:induction false} AllAccepted(ts: seq<Type>, data: seq<Byte>, pos: nat, len: nat)
    requires pos <= len <= |data| && len < 0x8000_0000 && DecodeAll(ts, data, pos, len).Done?
    ensures var r := DecodeAll(ts, data, pos, len); pos <= r.pos <= len && EncodesAll(ts, data[pos..r.pos], r.v)
    decreases ts, 0, 0
  {
    hide Encodes, Decode;
    if ts != [] {
      Accepted(ts[0], data, pos, len);
      var first := Decode(ts[0], data, pos, len);
      AllAccepted(ts[1..], data, first.pos, len);
      var rest, r := DecodeAll(ts[1..], data, first.pos, len), DecodeAll(ts, data, pos, len);
      var w, k := data[pos..r.pos], first.pos - pos;
      assert r.v[0] == first.v && r.v[1..] == rest.v;
      assert w[..k] == data[pos..first.pos] && w[k..] == data[first.pos..r.pos];
    }
  }

  // ---------- Every encoding is accepted ----------

  lemma LenRead(data: seq<Byte>, pos: nat, len: nat, n: nat)
    requires n < WORD32 && pos + 4 <= len <= |data| && data[pos..pos + 4] == Len(n)
    ensures GetLen(data, pos, len) == Done(n, pos + 4)
  {
    hide BE32, FromBE32;
    ReadBack32(n);
  }

  /** The bytes from `pos` to `e`, split. */
  lemma Parts(data: seq<Byte>, pos: nat, e: nat, k: nat)
    requires pos + k <= e <= |data|
    ensures data[pos..e][..k] == data[pos..pos + k] && data[pos..e][k..] == data[pos + k..e]
  {
  }

  lemma {:induction false} Accepts(t: Type, data: seq<Byte>, pos: nat, e: nat, len: nat, v: Value)
    requires pos <= e <= len <= |data| && len < 0x8000_0000 && Encodes(t, data[pos..e], v)
    ensures Decode(t, data, pos, len) == Done(v, e)
    decreases t
  {
    hide Put, Get, GetLen, Len;
    match t
    case Int(it) => GetPut(it, v.x);
    case Str(_) =>
      Parts(data, pos, e, 4);
      LenRead(data, pos, len, |v.s|);
    case IntVec(it, _) =>
      Parts(data, pos, e, 4);
      LenRead(data, pos, len, |v.xs|);
      DecodeIntsBack(it, v.xs, data, pos + 4, len);
    case Struct(fs) => AcceptsSub(fs, data, pos, e, len, v.vs);
    case StructVec(fs, _) =>
      Parts(data, pos, e, 4);
      LenRead(data, pos, len, |v.es|);
      AcceptsEach(fs, data, pos + 4, e, len, v.es);
  }

  lemma {:induction false} AcceptsSub(ts: seq<Type>, data: seq<Byte>, pos: nat, e: nat, len: nat, vs: seq<Value>)
    requires pos <= e <= len <= |data| && len < 0x8000_0000 && EncodesSub(ts, data[pos..e], vs)
    ensures DecodeSub(ts, data, pos, len) == Done(vs, e)
    decreases ts, 1, 0
  {
    hide GetLen, Len, EncodesAll, DecodeAll;
    var w := data[pos..e];
    Parts(data, pos, e, 4);
    LenRead(data, pos, len, |w| - 4);
    var k :| 0 <= k <= |w| - 4 && EncodesAll(ts, w[4..][..k], vs);
    var sub := data[pos + 4..];
    assert sub[0..k] == w[4..][..k];
    AcceptsAll(ts, sub, 0, k, |w| - 4, vs);
  }

  lemma {:induction false} AcceptsEach(
    ts: seq<Type>, data: seq<Byte>, pos: nat, e: nat, len: nat, es: seq<seq<Value>>)
    requires pos <= e <= len <= |data| && len < 0x8000_0000 && EncodesEach(ts, data[pos..e], es)
    ensures DecodeSubs(ts, |es|, data, pos, len) == Done(es, e)
    decreases ts, 2, |es|
  {
    hide EncodesSub, DecodeSub;
    if es != [] {
      var w := data[pos..e];
      var k :| 0 <= k <= |w| && EncodesSub(ts, w[..k], es[0]) && EncodesEach(ts, w[k..], es[1..]);
      Parts(data, pos, e, k);
      AcceptsSub(ts, data, pos, pos + k, len, es[0]);
      AcceptsEach(ts, data, pos + k, e, len, es[1..]);
      assert [es[0]] + es[1..] == es;
    }
  }

  lemma {:induction false} AcceptsAll(ts: seq<Type>, data: seq<Byte>, pos: nat, e: nat, len: nat, vs: seq<Value>)
    requires pos <= e <= len <= |data| && len < 0x8000_0000 && EncodesAll(ts, data[pos..e], vs)
    ensures DecodeAll(ts, data, pos, len) == Done(vs, e)
    decreases ts, 0, 0
  {
    hide Encodes, Decode;
    if ts != [] {
      var w := data[pos..e];
      var k :| 0 <= k <= |w| && Encodes(ts[0], w[..k], vs[0]) && EncodesAll(ts[1..], w[k..], vs[1..]);
      Parts(data, pos, e, k);
      Accepts(ts[0], data, pos, pos + k, len, vs[0]);
      AcceptsAll(ts[1..], data, pos + k, e, len, vs[1..]);
      assert [vs[0]] + vs[1..] == vs;
    }
  }

  /** Decode of received bytes gives a message and the position behind it exactly when they encode it up to there. */
  lemma DecodesIff(ts: seq<Type>, data: seq<Byte>, len: nat, vs: seq<Value>, e: nat)
    requires e <= len <= |data| && len < 0x8000_0000
    ensures DecodeAll(ts, data, 0, len) == Done(vs, e) <==> EncodesAll(ts, data[..e], vs)
  {
    assert data[0..e] == data[..e];
    if EncodesAll(ts, data[..e], vs) { AcceptsAll(ts, data, 0, e, len, vs); }
    if DecodeAll(ts, data, 0, len) == Done(vs, e) { AllAccepted(ts, data, 0, len); }
  }

  // ---------- The wire format with every message written ----------

  ghost function Full(t: Type, v: Value): seq<Byte>
    requires Typed(t, v)
    decreases t
  {
    match t
    case Int(it) => Put(it, v.x)
    case Str(_) => Len(|v.s|) + v.s
    case IntVec(it, _) => Len(|v.xs|) + PutAll(it, v.xs)
    case Struct(fs) => FullSub(fs, v.vs)
    case StructVec(fs, _) => Len(|v.es|) + FullEach(fs, v.es)
  }

  ghost function FullSub(ts: seq<Type>, vs: seq<Value>): seq<Byte>
    requires TypedAll(ts, vs)
    decreases ts, 1, 0
  {
    var w := FullAll(ts, vs);
    Len(|w|) + w
  }

  ghost function FullAll(ts: seq<Type>, vs: seq<Value>): seq<Byte>
    requires TypedAll(ts, vs)
    decreases ts, 0, 0
  {
    if ts == [] then [] else Full(ts[0], vs[0]) + FullAll(ts[1..], vs[1..])
  }

  ghost function FullEach(ts: seq<Type>, es: seq<seq<Value>>): seq<Byte>
    requires forall i :: 0 <= i < |es| ==> TypedAll(ts, es[i])
    decreases ts, 2, |es|
  {
    if es == [] then [] else FullSub(ts, es[0]) + FullEach(ts, es[1..])
  }

  lemma Joined(a: seq<Byte>, b: seq<Byte>)
    ensures (a + b)[..|a|] == a && (a + b)[|a|..] == b
  {
  }

  lemma {:induction false} FullEncodes(t: Type, v: Value)
    requires Typed(t, v) && Within(t, v) && |Full(t, v)| < WORD32
    ensures Encodes(t, Full(t, v), v)
    decreases t
  {
    hide Put, Len;
    match t
    case Struct(fs) => FullSubEncodes(fs, v.vs);
    case StructVec(fs, _) =>
      FullEachEncodes(fs, v.es);
      Joined(Len(|v.es|), FullEach(fs, v.es));
    case _ =>
  }

  lemma {:induction false} FullSubEncodes(ts: seq<Type>, vs: seq<Value>)
    requires TypedAll(ts, vs) && WithinAll(ts, vs) && |FullSub(ts, vs)| < WORD32
    ensures EncodesSub(ts, FullSub(ts, vs), vs)
    decreases ts, 1, 0
  {
    hide Len, EncodesAll;
    var w := FullAll(ts, vs);
    FullAllEncodes(ts, vs);
    Joined(Len(|w|), w);
    assert w[..|w|] == w;
  }

  lemma {:induction false} FullAllEncodes(ts: seq<Type>, vs: seq<Value>)
    requires TypedAll(ts, vs) && WithinAll(ts, vs) && |FullAll(ts, vs)| < WORD32
    ensures EncodesAll(ts, FullAll(ts, vs), vs)
    decreases ts, 0, 0
  {
    hide Encodes, Full;
    if ts != [] {
      WithinFirst(ts, vs);
      FullEncodes(ts[0], vs[0]);
      FullAllEncodes(ts[1..], vs[1..]);
      Joined(Full(ts[0], vs[0]), FullAll(ts[1..], vs[1..]));
    }
  }

  lemma {:induction false} FullEachEncodes(ts: seq<Type>, es: seq<seq<Value>>)
    requires forall i :: 0 <= i < |es| ==> TypedAll(ts, es[i]) && WithinAll(ts, es[i])
    requires |FullEach(ts, es)| < WORD32
    ensures EncodesEach(ts, FullEach(ts, es), es)
    decreases ts, 2, |es|
  {
    hide EncodesSub, FullSub, TypedAll, WithinAll;
    if es != [] {
      FullSubEncodes(ts, es[0]);
      FullEachEncodes(ts, es[1..]);
      Joined(FullSub(ts, es[0]), FullEach(ts, es[1..]));
    }
  }

  /** A message written out in full is decoded, with vectors of any length that their maxima allow. */
  lemma DecodesFull(ts: seq<Type>, vs: seq<Value>, data: seq<Byte>)
    requires TypedAll(ts, vs) && WithinAll(ts, vs) && FullAll(ts, vs) <= data && |data| < 0x8000_0000
    ensures DecodeAll(ts, data, 0, |data|) == Done(vs, |FullAll(ts, vs)|)
  {
    hide FullAll, EncodesAll, DecodeAll, TypedAll, WithinAll;
    FullAllEncodes(ts, vs);
    assert data[..|FullAll(ts, vs)|] == FullAll(ts, vs);
    DecodesIff(ts, data, |data|, vs, |FullAll(ts, vs)|);
  }
}
