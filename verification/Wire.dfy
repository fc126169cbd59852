/** The wire codec of keymaster/serializable.h: what the bytes mean, and the writers and readers that move a cursor. */
module Wire {
  import opened Bytes
  import opened ByteOrder

  const UINT32_MAX: nat := 0xFFFF_FFFF
  // UINT32_MAX / sizeof(uint32_t), where array codecs refuse to go on
  const ARRAY_LIMIT: nat := UINT32_MAX / 4

  type u32 = v: nat | v <= UINT32_MAX
  type u64 = v: nat | v <= 0xFFFF_FFFF_FFFF_FFFF

  /** The machine the code runs on: its byte order, and the number of values of `size_t` and `uintptr_t`. */
  datatype Machine = Machine(order: Endian, word: nat) {
    predicate Valid() { word > UINT32_MAX }
  }

  // ---------- what is on the wire ----------

  /**
   * One field of a message. `Sized` is a byte array written with its length cut to 32 bits; `Collection` is one whose
   * writer refuses lengths that do not fit; `Array` holds 32-bit values behind a count.
   */
  datatype Field =
    | U32(v: u32)
    | U64(w: u64)
    | Sized(data: seq<byte>)
    | Collection(items: seq<byte>)
    | Array(values: seq<u32>)

  datatype Shape = U32Shape | U64Shape | SizedShape | CollectionShape | ArrayShape

  function ShapeOf(f: Field): Shape {
    match f
    case U32(_) => U32Shape
    case U64(_) => U64Shape
    case Sized(_) => SizedShape
    case Collection(_) => CollectionShape
    case Array(_) => ArrayShape
  }

  /** Fields the format can carry: lengths fit 32 bits, array counts stay below a quarter of that. */
  predicate Encodable(f: Field) {
    match f
    case Sized(data) => |data| <= UINT32_MAX
    case Collection(items) => |items| <= UINT32_MAX
    case Array(values) => |values| < ARRAY_LIMIT
    case _ => true
  }

  function Word32(order: Endian, v: nat): (s: seq<byte>)
    ensures |s| == 4
  {
    MemBytes(order, 4, v)
  }

  function Words32(order: Endian, vs: seq<u32>): (s: seq<byte>)
    ensures |s| == 4 * |vs|
  {
    if vs == [] then [] else Words32(order, vs[..|vs| - 1]) + Word32(order, vs[|vs| - 1])
  }

  /** The bytes the writers produce for one field when there is room for them. */
  function Encode(order: Endian, f: Field): seq<byte> {
    match f
    case U32(v) => Word32(order, v)
    case U64(w) => MemBytes(order, 8, w)
    case Sized(data) => Word32(order, |data|) + data
    case Collection(items) => if |items| > UINT32_MAX then [] else Word32(order, |items|) + items
    case Array(values) => if |values| >= ARRAY_LIMIT then [] else Word32(order, |values|) + Words32(order, values)
  }

  /** What the messages' `SerializedSize` adds up for one field. */
  function FieldSize(f: Field): nat {
    match f
    case U32(_) => 4
    case U64(_) => 8
    case Sized(data) => 4 + |data|
    case Collection(items) => 4 + |items|
    case Array(values) => 4 + 4 * |values|
  }

  function Load32(order: Endian, s: seq<byte>): (v: u32)
    requires |s| == 4
  {
    BytesRoundTrip(order, s);
    assert Pow256(4) == 0x1_0000_0000;
    MemValue(order, s)
  }

  function Load64(order: Endian, s: seq<byte>): (v: u64)
    requires |s| == 8
  {
    BytesRoundTrip(order, s);
    assert Pow256(8) == 0x1_0000_0000_0000_0000;
    MemValue(order, s)
  }

  function Loads32(order: Endian, s: seq<byte>, n: nat): (vs: seq<u32>)
    requires |s| == 4 * n
    ensures |vs| == n
  {
    if n == 0 then [] else Loads32(order, s[..4 * (n - 1)], n - 1) + [Load32(order, s[4 * (n - 1)..])]
  }

  /** The field of the given shape at the start of `s`, and how many bytes it takes; nothing if `s` is too short. */
  function Decode(order: Endian, shape: Shape, s: seq<byte>): (r: Option<(Field, nat)>)
    ensures r.Some? ==> r.value.1 <= |s|
  {
    match shape
    case U32Shape => if |s| < 4 then None else Some((U32(Load32(order, s[..4])), 4))
    case U64Shape => if |s| < 8 then None else Some((U64(Load64(order, s[..8])), 8))
    case SizedShape =>
      if |s| < 4 then None
      else
        var n := Load32(order, s[..4]);
        if 4 + n > |s| then None else Some((Sized(s[4..4 + n]), 4 + n))
    case CollectionShape =>
      if |s| < 4 then None
      else
        var n := Load32(order, s[..4]);
        if 4 + n > |s| then None else Some((Collection(s[4..4 + n]), 4 + n))
    case ArrayShape =>
      if |s| < 4 then None
      else
        var n := Load32(order, s[..4]);
        if n >= ARRAY_LIMIT || 4 + 4 * n > |s| then None
        else Some((Array(Loads32(order, s[4..4 + 4 * n], n)), 4 + 4 * n))
  }

  // ---------- what is written ----------

  /** Collections longer than 32 bits can say, and arrays of a quarter of that or more, are not written at all. */
  lemma WrittenIff(order: Endian, f: Field)
    ensures Encode(order, f) == [] <==>
            (f.Collection? && |f.items| > 0xFFFF_FFFF) || (f.Array? && |f.values| >= 0x3FFF_FFFF)
    ensures Encodable(f) <==>
            !(f.Sized? && |f.data| > 0xFFFF_FFFF) && !(f.Collection? && |f.items| > 0xFFFF_FFFF)
            && !(f.Array? && |f.values| >= 0x3FFF_FFFF)
  {
    hide MemBytes;
  }

  /** The values of an array stand one after the other. */
  lemma {:induction false} ArrayWord(order: Endian, vs: seq<u32>, i: nat)
    requires i < |vs|
    ensures Words32(order, vs)[4 * i..4 * i + 4] == MemBytes(order, 4, vs[i])
  {
    hide MemBytes;
    var n := |vs| - 1;
    var s, head := Words32(order, vs), Words32(order, vs[..n]);
    assert s == head + MemBytes(order, 4, vs[n]) && s[0..4 * n] == head && s[4 * n..] == MemBytes(order, 4, vs[n]);
    if i < n {
      ArrayWord(order, vs[..n], i);
      SubSlice(s, 0, head, 4 * i, 4 * i + 4);
    } else {
      assert s[4 * n..4 * n + 4] == s[4 * n..];
    }
  }

  // ---------- round trips ----------

  lemma Load32RoundTrip(order: Endian, v: u32)
    ensures Load32(order, Word32(order, v)) == v
  {
    assert Pow256(4) == 0x1_0000_0000;
    MemRoundTrip(order, 4, v);
  }

  lemma Load64RoundTrip(order: Endian, v: u64)
    ensures Load64(order, MemBytes(order, 8, v)) == v
  {
    assert Pow256(8) == 0x1_0000_0000_0000_0000;
    MemRoundTrip(order, 8, v);
  }

  lemma {:induction false} LoadsRoundTrip(order: Endian, vs: seq<u32>)
    ensures Loads32(order, Words32(order, vs), |vs|) == vs
  {
    hide Load32, Word32;
    if vs != [] {
      var n := |vs| - 1;
      var s := Words32(order, vs);
      LoadsRoundTrip(order, vs[..n]);
      Load32RoundTrip(order, vs[n]);
      assert s[..4 * n] == Words32(order, vs[..n]) && s[4 * n..] == Word32(order, vs[n]);
    }
  }

  /** A written field is read back, whatever bytes follow it. */
  lemma FieldRoundTrip(order: Endian, f: Field, rest: seq<byte>)
    requires Encodable(f)
    ensures |Encode(order, f)| == FieldSize(f)
    ensures Decode(order, ShapeOf(f), Encode(order, f) + rest) == Some((f, FieldSize(f)))
  {
    hide Load32, Load64, Word32, MemBytes, Loads32, Words32;
    var e := Encode(order, f);
    var s := e + rest;
    match f
    case U32(v) =>
      Load32RoundTrip(order, v);
      assert s[..4] == e;
    case U64(w) =>
      Load64RoundTrip(order, w);
      assert s[..8] == e;
    case Sized(data) =>
      Load32RoundTrip(order, |data|);
      assert s[..4] == Word32(order, |data|) && s[4..4 + |data|] == data;
    case Collection(items) =>
      Load32RoundTrip(order, |items|);
      assert s[..4] == Word32(order, |items|) && s[4..4 + |items|] == items;
    case Array(values) =>
      Load32RoundTrip(order, |values|);
      LoadsRoundTrip(order, values);
      assert s[..4] == Word32(order, |values|) && s[4..4 + 4 * |values|] == Words32(order, values);
  }

  lemma {:induction false} StoredAgain(order: Endian, s: seq<byte>, n: nat)
    requires |s| == 4 * n
    ensures Words32(order, Loads32(order, s, n)) == s
  {
    hide Load32, Word32;
    if n > 0 {
      var vs := Loads32(order, s, n);
      StoredAgain(order, s[..4 * (n - 1)], n - 1);
      WordAgain(order, s[4 * (n - 1)..]);
      assert vs[..n - 1] == Loads32(order, s[..4 * (n - 1)], n - 1);
      assert s == s[..4 * (n - 1)] + s[4 * (n - 1)..];
    }
  }

  lemma WordAgain(order: Endian, s: seq<byte>)
    requires |s| == 4
    ensures Word32(order, Load32(order, s)) == s
  {
    BytesRoundTrip(order, s);
  }

  /** A decoded field, written again, gives exactly the bytes it was read from: there is one encoding of each field. */
  lemma DecodedBytes(order: Endian, shape: Shape, s: seq<byte>)
    requires Decode(order, shape, s).Some?
    ensures var (f, n) := Decode(order, shape, s).value; ShapeOf(f) == shape && Encode(order, f) == s[..n]
  {
    hide Load32, Load64, Word32, Loads32, Words32, MemBytes;
    var (f, n) := Decode(order, shape, s).value;
    if shape == U64Shape {
      BytesRoundTrip(order, s[..8]);
      EightBytes(order, s[..8]);
    } else {
      WordAgain(order, s[..4]);
      assert s[..n] == s[..4] + s[4..n];
      if shape == ArrayShape {
        StoredAgain(order, s[4..n], Load32(order, s[..4]));
      }
    }
  }

  lemma EightBytes(order: Endian, s: seq<byte>)
    requires |s| == 8
    ensures MemBytes(order, 8, Load64(order, s)) == s
  {
    BytesRoundTrip(order, s);
  }

  // ---------- messages: fields one after another ----------

  function Shapes(fs: seq<Field>): (r: seq<Shape>)
    ensures |r| == |fs|
  {
    if fs == [] then [] else [ShapeOf(fs[0])] + Shapes(fs[1..])
  }

  function EncodeAll(order: Endian, fs: seq<Field>): seq<byte> {
    if fs == [] then [] else Encode(order, fs[0]) + EncodeAll(order, fs[1..])
  }

  function SizeOfAll(fs: seq<Field>): nat { if fs == [] then 0 else FieldSize(fs[0]) + SizeOfAll(fs[1..]) }

  predicate AllEncodable(fs: seq<Field>) { forall i :: 0 <= i < |fs| ==> Encodable(fs[i]) }

  /** The fields of these shapes at the start of `s`, and how many bytes they take together. */
  function DecodeAll(order: Endian, shapes: seq<Shape>, s: seq<byte>): (r: Option<(seq<Field>, nat)>)
    ensures r.Some? ==> |r.value.0| == |shapes| && r.value.1 <= |s|
    decreases |shapes|
  {
    if shapes == [] then Some(([], 0))
    else
      match Decode(order, shapes[0], s)
      case None => None
      case Some((f, n)) =>
        match DecodeAll(order, shapes[1..], s[n..])
        case None => None
        case Some((fs, m)) => Some(([f] + fs, n + m))
  }

  /** A written message is read back with the cursor at whatever follows it; its size is as announced. */
  lemma {:induction false} MessageRoundTrip(order: Endian, fs: seq<Field>, rest: seq<byte>)
    requires AllEncodable(fs)
    ensures |EncodeAll(order, fs)| == SizeOfAll(fs)
    ensures DecodeAll(order, Shapes(fs), EncodeAll(order, fs) + rest) == Some((fs, SizeOfAll(fs)))
  {
    hide Encode, Decode, FieldSize, ShapeOf, Encodable;
    if fs != [] {
      var e, tail := Encode(order, fs[0]), EncodeAll(order, fs[1..]);
      FieldRoundTrip(order, fs[0], tail + rest);
      MessageRoundTrip(order, fs[1..], rest);
      ConsStream(e, tail, rest);
      assert Shapes(fs)[1..] == Shapes(fs[1..]);
      assert fs == [fs[0]] + fs[1..];
    }
  }

  lemma ConsStream(e: seq<byte>, tail: seq<byte>, rest: seq<byte>)
    ensures e + tail + rest == e + (tail + rest) && (e + (tail + rest))[|e|..] == tail + rest
  {
  }

  /** Whatever is decoded is a field the format can carry. */
  lemma DecodedIsEncodable(order: Endian, shape: Shape, s: seq<byte>)
    ensures Decode(order, shape, s).Some? ==> Encodable(Decode(order, shape, s).value.0)
  {
    hide Load32, Load64, Loads32;
  }

  lemma {:induction false} AllDecodedEncodable(order: Endian, shapes: seq<Shape>, s: seq<byte>)
    ensures DecodeAll(order, shapes, s).Some? ==> AllEncodable(DecodeAll(order, shapes, s).value.0)
    decreases |shapes|
  {
    hide Decode, Encodable;
    if shapes != [] {
      DecodedIsEncodable(order, shapes[0], s);
      match Decode(order, shapes[0], s)
      case None =>
      case Some((f, n)) => AllDecodedEncodable(order, shapes[1..], s[n..]);
    }
  }

  /**
   * A message comes back from its own bytes exactly when every length fits: a longer byte array is cut or left out
   * by its writer, and no reader ever returns one.
   */
  lemma RoundTripIffEncodable(order: Endian, fs: seq<Field>, rest: seq<byte>)
    ensures DecodeAll(order, Shapes(fs), EncodeAll(order, fs) + rest) == Some((fs, SizeOfAll(fs))) <==> AllEncodable(fs)
  {
    AllDecodedEncodable(order, Shapes(fs), EncodeAll(order, fs) + rest);
    if AllEncodable(fs) {
      MessageRoundTrip(order, fs, rest);
    }
  }

  /** A decoded message, written again, gives exactly the bytes it was read from. */
  lemma {:induction false} DecodedMessageBytes(order: Endian, shapes: seq<Shape>, s: seq<byte>)
    requires DecodeAll(order, shapes, s).Some?
    ensures var (fs, n) := DecodeAll(order, shapes, s).value; Shapes(fs) == shapes && EncodeAll(order, fs) == s[..n]
    decreases |shapes|
  {
    hide Decode, Encode, ShapeOf;
    if shapes != [] {
      var (f, n) := Decode(order, shapes[0], s).value;
      DecodedBytes(order, shapes[0], s);
      DecodedMessageBytes(order, shapes[1..], s[n..]);
      var (fs, m) := DecodeAll(order, shapes[1..], s[n..]).value;
      assert ([f] + fs)[1..] == fs && shapes == [shapes[0]] + shapes[1..];
      assert s[..n + m] == s[..n] + s[n..][..m];
    }
  }

  /** Encodings are prefix-free: two messages of one shape that start the same byte stream are the same message. */
  lemma PrefixFree(order: Endian, fs: seq<Field>, gs: seq<Field>, a: seq<byte>, b: seq<byte>)
    requires AllEncodable(fs) && AllEncodable(gs) && Shapes(fs) == Shapes(gs)
    requires EncodeAll(order, fs) + a == EncodeAll(order, gs) + b
    ensures fs == gs && a == b
  {
    MessageRoundTrip(order, fs, a);
    MessageRoundTrip(order, gs, b);
    assert a == (EncodeAll(order, fs) + a)[|EncodeAll(order, fs)|..];
    assert b == (EncodeAll(order, gs) + b)[|EncodeAll(order, gs)|..];
  }

  /** The announced size is the number of bytes written exactly when no collection or array is too long to write. */
  lemma {:induction false} SizeAgreesIffWritten(order: Endian, fs: seq<Field>)
    ensures |EncodeAll(order, fs)| <= SizeOfAll(fs)
    ensures |EncodeAll(order, fs)| == SizeOfAll(fs) <==>
            forall i :: 0 <= i < |fs| ==> fs[i].Sized? || Encodable(fs[i])
  {
    hide Word32, Words32, MemBytes;
    if fs != [] {
      SizeAgreesIffWritten(order, fs[1..]);
      assert |Encode(order, fs[0])| <= FieldSize(fs[0]);
      assert |Encode(order, fs[0])| == FieldSize(fs[0]) <==> fs[0].Sized? || Encodable(fs[0]);
      assert forall i :: 0 < i < |fs| ==> fs[i] == fs[1..][i - 1];
    }
  }
}
