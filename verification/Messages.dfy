/** Messages of keymaster/android_keymaster_messages.h with inline bodies, over the wire codec. */
module Messages {
  import opened Bytes
  import opened ByteOrder
  import opened Wire
  import opened Cursor

  // ---------- fields read one after another ----------

  /** Reading one more field after what has been read. */
  function AndThen(order: Endian, r: Option<(seq<Field>, nat)>, shape: Shape, s: seq<byte>): Option<(seq<Field>, nat)>
    requires r.Some? ==> r.value.1 <= |s|
  {
    if r.None? then None
    else
      var (fs, n) := r.value;
      match Decode(order, shape, s[n..])
      case None => None
      case Some((f, k)) => Some((fs + [f], n + k))
  }

  lemma {:induction false} DecodeAllSnoc(order: Endian, shapes: seq<Shape>, shape: Shape, s: seq<byte>)
    ensures DecodeAll(order, shapes + [shape], s) == AndThen(order, DecodeAll(order, shapes, s), shape, s)
    decreases |shapes|
  {
    hide Decode, AndThen, DecodeAll;
    if shapes == [] {
      assert shapes + [shape] == [shape];
      SnocFirst(order, shape, s);
    } else {
      assert (shapes + [shape])[1..] == shapes[1..] + [shape];
      if Decode(order, shapes[0], s).Some? {
        DecodeAllSnoc(order, shapes[1..], shape, s[Decode(order, shapes[0], s).value.1..]);
      }
      SnocStep(order, shapes, shape, s);
    }
  }

  lemma SnocFirst(order: Endian, shape: Shape, s: seq<byte>)
    ensures DecodeAll(order, [shape], s) == AndThen(order, DecodeAll(order, [], s), shape, s)
  {
    hide Decode;
    assert s[0..] == s && [shape][1..] == [];
    if Decode(order, shape, s).Some? {
      var (f, k) := Decode(order, shape, s).value;
      assert DecodeAll(order, [], s[k..]) == Some(([], 0));
      assert [f] + [] == [f] == [] + [f];
    }
  }

  /** What has been read, with one more field in front. */
  function Before(f: Field, n: nat, r: Option<(seq<Field>, nat)>): Option<(seq<Field>, nat)> {
    if r.None? then None else Some(([f] + r.value.0, n + r.value.1))
  }

  lemma DecodeCons(order: Endian, shapes: seq<Shape>, s: seq<byte>)
    requires shapes != []
    ensures
      var first := Decode(order, shapes[0], s);
      && (first.None? ==> DecodeAll(order, shapes, s).None?)
      && (first.Some? ==> var (f, n) := first.value;
                          DecodeAll(order, shapes, s) == Before(f, n, DecodeAll(order, shapes[1..], s[n..])))
  {
    hide Decode;
  }

  lemma BeforeThen(order: Endian, f: Field, n: nat, r: Option<(seq<Field>, nat)>, shape: Shape, s: seq<byte>)
    requires n <= |s| && (r.Some? ==> r.value.1 <= |s| - n)
    ensures AndThen(order, Before(f, n, r), shape, s) == Before(f, n, AndThen(order, r, shape, s[n..]))
  {
    hide Decode;
    if r.Some? {
      var (fs, m) := r.value;
      assert s[n..][m..] == s[n + m..];
      if Decode(order, shape, s[n + m..]).Some? {
        var (g, k) := Decode(order, shape, s[n + m..]).value;
        assert [f] + (fs + [g]) == ([f] + fs) + [g];
      }
    }
  }

  /** If one more field can be read after the tail, it can be read after the whole. */
  lemma SnocStep(order: Endian, shapes: seq<Shape>, shape: Shape, s: seq<byte>)
    requires shapes != [] && (shapes + [shape])[1..] == shapes[1..] + [shape]
    requires
      Decode(order, shapes[0], s).Some? ==>
        var rest, tail := s[Decode(order, shapes[0], s).value.1..], shapes[1..];
        DecodeAll(order, tail + [shape], rest) == AndThen(order, DecodeAll(order, tail, rest), shape, rest)
    ensures DecodeAll(order, shapes + [shape], s) == AndThen(order, DecodeAll(order, shapes, s), shape, s)
  {
    hide Decode, DecodeAll, Before;
    DecodeCons(order, shapes, s);
    DecodeCons(order, shapes + [shape], s);
    if Decode(order, shapes[0], s).Some? {
      var (f, n) := Decode(order, shapes[0], s).value;
      BeforeThen(order, f, n, DecodeAll(order, shapes[1..], s[n..]), shape, s);
    }
  }

  /** If reading stops at one field, reading any longer list of fields gives nothing. */
  lemma {:induction false} StuckStaysStuck(order: Endian, shapes: seq<Shape>, more: seq<Shape>, s: seq<byte>)
    requires DecodeAll(order, shapes, s).None?
    ensures DecodeAll(order, shapes + more, s).None?
    decreases |more|
  {
    hide Decode, DecodeAll;
    if more == [] {
      assert shapes + more == shapes;
    } else {
      DecodeAllSnoc(order, shapes, more[0], s);
      StuckStaysStuck(order, shapes + [more[0]], more[1..], s);
      assert shapes + [more[0]] + more[1..] == shapes + more;
    }
  }

  /** After the first `i` fields have been read up to `p`, the next one decides how the message goes on. */
  lemma ReadStep(order: Endian, buf: seq<byte>, pos: nat, p: nat, end: nat, all: seq<Shape>, i: nat, fs: seq<Field>)
    requires pos <= p <= end <= |buf| && i < |all|
    requires DecodeAll(order, all[..i], buf[pos..end]) == Some((fs, p - pos))
    ensures
      match Decode(order, all[i], buf[p..end])
      case None => DecodeAll(order, all, buf[pos..end]).None?
      case Some((f, k)) => DecodeAll(order, all[..i + 1], buf[pos..end]) == Some((fs + [f], p - pos + k))
  {
    hide Decode, DecodeAll;
    DecodeAllSnoc(order, all[..i], all[i], buf[pos..end]);
    assert buf[pos..end][p - pos..] == buf[p..end];
    assert all[..i] + [all[i]] == all[..i + 1];
    if Decode(order, all[i], buf[p..end]).None? {
      StuckStaysStuck(order, all[..i + 1], all[i + 1..], buf[pos..end]);
      assert all[..i + 1] + all[i + 1..] == all;
    }
  }

  lemma ReadNothing(order: Endian, all: seq<Shape>, s: seq<byte>)
    ensures DecodeAll(order, all[..0], s) == Some(([], 0))
    ensures all[..|all|] == all
  {
  }

  // ---------- fields written one after another ----------

  lemma {:induction false} EncodeAllSnoc(order: Endian, fs: seq<Field>, f: Field)
    ensures EncodeAll(order, fs + [f]) == EncodeAll(order, fs) + Encode(order, f)
  {
    hide Encode;
    if fs == [] {
      assert fs + [f] == [f] && [f][1..] == [];
    } else {
      EncodeAllSnoc(order, fs[1..], f);
      assert (fs + [f])[1..] == fs[1..] + [f];
    }
  }

  /** After the first `i` fields the next one is written behind them. */
  lemma PutField(order: Endian, start: seq<byte>, before: seq<byte>, now: seq<byte>,
                 pos: nat, mid: nat, p: nat, end: nat, fs: seq<Field>, i: nat)
    requires i < |fs| && Put(start, before, pos, mid, end, EncodeAll(order, fs[..i]))
    requires Put(before, now, mid, p, end, Encode(order, fs[i]))
    ensures pos <= p <= end && Put(start, now, pos, p, end, EncodeAll(order, fs[..i + 1]))
    ensures fs[..|fs|] == fs
  {
    hide Encode, EncodeAll;
    EncodeAllSnoc(order, fs[..i], fs[i]);
    assert fs[..i] + [fs[i]] == fs[..i + 1];
    PutPut(start, before, now, pos, mid, p, end, EncodeAll(order, fs[..i]), Encode(order, fs[i]));
  }

  /** A written message is read back, with the cursor behind it, from any stretch of the buffer that holds it. */
  lemma ReadsBack(order: Endian, start: seq<byte>, now: seq<byte>, pos: nat, p: nat, end: nat, limit: nat,
                  fs: seq<Field>)
    requires AllEncodable(fs) && Put(start, now, pos, p, end, EncodeAll(order, fs))
    requires pos + SizeOfAll(fs) <= end && pos + SizeOfAll(fs) <= limit <= |now|
    ensures p == pos + SizeOfAll(fs) && DecodeAll(order, Shapes(fs), now[pos..limit]) == Some((fs, p - pos))
  {
    hide DecodeAll, EncodeAll, Shapes, AllEncodable, SizeOfAll, Put;
    MessageRoundTrip(order, fs, []);
    PutLands(start, now, pos, p, end, EncodeAll(order, fs));
    MessageRoundTrip(order, fs, now[p..limit]);
    assert now[pos..limit] == now[pos..p] + now[p..limit];
  }

  lemma PutLands(start: seq<byte>, now: seq<byte>, pos: nat, p: nat, end: nat, data: seq<byte>)
    requires Put(start, now, pos, p, end, data) && pos + |data| <= end
    ensures p == pos + |data| <= |now| && now[pos..p] == data
  {
  }

  lemma {:induction false} ShapesAre(fs: seq<Field>)
    ensures forall i :: 0 <= i < |fs| ==> Shapes(fs)[i] == ShapeOf(fs[i])
  {
    if fs != [] {
      ShapesAre(fs[1..]);
      assert forall i :: 0 < i < |fs| ==> fs[i] == fs[1..][i - 1];
    }
  }

  /** What stands where after a write that had room. */
  lemma PutPiece(start: seq<byte>, now: seq<byte>, pos: nat, p: nat, end: nat,
                 a: seq<byte>, piece: seq<byte>, b: seq<byte>)
    requires Put(start, now, pos, p, end, a + piece + b) && pos + |a| + |piece| + |b| <= end
    ensures pos + |a| + |piece| <= p == pos + |a| + |piece| + |b| <= |now|
    ensures now[pos + |a|..pos + |a| + |piece|] == piece
  {
    var all := a + piece + b;
    assert now[pos..pos + |all|] == all;
    SubSlice(now, pos, all, |a|, |a| + |piece|);
    assert all[|a|..|a| + |piece|] == piece;
  }

  lemma PutStart(order: Endian, start: seq<byte>, pos: nat, end: nat, fs: seq<Field>)
    requires pos <= end <= |start|
    ensures Put(start, start, pos, pos, end, EncodeAll(order, fs[..0]))
  {
  }

  lemma SizeUnfolds(fs: seq<Field>)
    requires fs != []
    ensures SizeOfAll(fs) == FieldSize(fs[0]) + SizeOfAll(fs[1..])
    ensures |fs| == 1 ==> SizeOfAll(fs) == FieldSize(fs[0])
  {
  }

  lemma EncodeU32(order: Endian, v: u32)
    ensures Encode(order, U32(v)) == Word32(order, v)
  {
  }

  // ---------- TimestampToken ----------

  const TIMESTAMP_TOKEN: seq<Shape> := [U64Shape, U64Shape, U32Shape, SizedShape]

  lemma TokenBytes(order: Endian, start: seq<byte>, now: seq<byte>, pos: nat, p: nat, end: nat,
                   challenge: u64, timestamp: u64, securityLevel: u32, mac: seq<byte>)
    requires Put(start, now, pos, p, end,
                 EncodeAll(order, [U64(challenge), U64(timestamp), U32(securityLevel), Sized(mac)]))
    requires pos + 24 + |mac| <= end
    ensures p == pos + 24 + |mac| <= |now|
    ensures now[pos..pos + 8] == MemBytes(order, 8, challenge)
    ensures now[pos + 8..pos + 16] == MemBytes(order, 8, timestamp)
    ensures now[pos + 16..pos + 20] == MemBytes(order, 4, securityLevel)
    ensures now[pos + 20..pos + 24] == MemBytes(order, 4, |mac|) && now[pos + 24..p] == mac
  {
    hide MemBytes, Put, Encode, EncodeAll;
    var c, t := MemBytes(order, 8, challenge), MemBytes(order, 8, timestamp);
    var l, n := MemBytes(order, 4, securityLevel), MemBytes(order, 4, |mac|);
    TokenEncoding(order, challenge, timestamp, securityLevel, mac);
    FivePieces(start, now, pos, p, end, c, t, l, n, mac);
  }

  lemma TokenEncoding(order: Endian, challenge: u64, timestamp: u64, securityLevel: u32, mac: seq<byte>)
    ensures EncodeAll(order, [U64(challenge), U64(timestamp), U32(securityLevel), Sized(mac)]) ==
            MemBytes(order, 8, challenge) + MemBytes(order, 8, timestamp) + MemBytes(order, 4, securityLevel)
            + MemBytes(order, 4, |mac|) + mac
  {
    hide MemBytes, EncodeAll;
    FourFields(order, U64(challenge), U64(timestamp), U32(securityLevel), Sized(mac));
  }

  /** Five pieces that were written one after the other stand one after the other. */
  lemma FivePieces(start: seq<byte>, now: seq<byte>, pos: nat, p: nat, end: nat,
                   a: seq<byte>, b: seq<byte>, c: seq<byte>, d: seq<byte>, e: seq<byte>)
    requires Put(start, now, pos, p, end, a + b + c + d + e) && pos + |a| + |b| + |c| + |d| + |e| <= end
    ensures p == pos + |a| + |b| + |c| + |d| + |e| <= |now|
    ensures now[pos..pos + |a|] == a && now[pos + |a|..pos + |a| + |b|] == b
    ensures var at := pos + |a| + |b|; now[at..at + |c|] == c && now[at + |c|..at + |c| + |d|] == d
    ensures now[pos + |a| + |b| + |c| + |d|..p] == e
  {
    var all := a + b + c + d + e;
    PutLands(start, now, pos, p, end, all);
    SubSlice(now, pos, all, 0, |a|);
    SubSlice(now, pos, all, |a|, |a| + |b|);
    SubSlice(now, pos, all, |a| + |b|, |a| + |b| + |c|);
    SubSlice(now, pos, all, |a| + |b| + |c|, |a| + |b| + |c| + |d|);
    SubSlice(now, pos, all, |a| + |b| + |c| + |d|, |all|);
    PiecesOf(a, b, c, d, e);
  }

  lemma PiecesOf(a: seq<byte>, b: seq<byte>, c: seq<byte>, d: seq<byte>, e: seq<byte>)
    ensures
      var all := a + b + c + d + e;
      var i, j, k, l := |a|, |a| + |b|, |a| + |b| + |c|, |a| + |b| + |c| + |d|;
      all[0..i] == a && all[i..j] == b && all[j..k] == c && all[k..l] == d && all[l..|all|] == e
  {
  }

  lemma FourFields(order: Endian, f: Field, g: Field, h: Field, i: Field)
    ensures EncodeAll(order, [f, g, h, i]) == Encode(order, f) + Encode(order, g) + Encode(order, h) + Encode(order, i)
  {
    hide Encode;
    assert [f, g, h, i][1..] == [g, h, i] && [g, h, i][1..] == [h, i] && [h, i][1..] == [i] && [i][1..] == [];
    assert EncodeAll(order, [i]) == Encode(order, i);
    assert EncodeAll(order, [h, i]) == Encode(order, h) + Encode(order, i);
  }

  class TimestampToken {
    var challenge: u64
    var timestamp: u64
    var securityLevel: u32
    var mac: seq<byte>

    constructor ()
      ensures Fields() == [U64(0), U64(0), U32(0), Sized([])]
    {
      challenge, timestamp, securityLevel, mac := 0, 0, 0, [];
    }

    function Fields(): (fs: seq<Field>)
      reads this
      ensures |fs| == 4
    {
      [U64(challenge), U64(timestamp), U32(securityLevel), Sized(mac)]
    }

    function SerializedSize(): (n: nat)
      reads this
      ensures n == SizeOfAll(Fields())
    {
      SizeUnfolds(Fields());
      SizeUnfolds(Fields()[1..]);
      SizeUnfolds(Fields()[1..][1..]);
      SizeUnfolds(Fields()[1..][1..][1..]);
      8 + 8 + 4 + (4 + |mac|)
    }

    method WriteFields(m: Machine, buf: array<byte>, pos: nat, end: nat) returns (p: nat)
      requires pos <= end <= buf.Length
      modifies buf
      ensures Put(old(buf[..]), buf[..], pos, p, end, EncodeAll(m.order, Fields()))
    {
      hide Encode, EncodeAll, Word32, Put;
      ghost var start, fs := buf[..], Fields();
      EncodeU32(m.order, securityLevel);
      PutStart(m.order, start, pos, end, fs);
      p := AppendUint64(m, buf, pos, end, challenge);
      PutField(m.order, start, start, buf[..], pos, pos, p, end, fs, 0);
      ghost var p1, s1 := p, buf[..];
      p := AppendUint64(m, buf, p, end, timestamp);
      PutField(m.order, start, s1, buf[..], pos, p1, p, end, fs, 1);
      ghost var p2, s2 := p, buf[..];
      p := AppendUint32(m, buf, p, end, securityLevel);
      PutField(m.order, start, s2, buf[..], pos, p2, p, end, fs, 2);
      ghost var p3, s3 := p, buf[..];
      p := AppendSizeAndData(m, buf, p, end, mac);
      PutField(m.order, start, s3, buf[..], pos, p3, p, end, fs, 3);
    }

    method Serialize(m: Machine, buf: array<byte>, pos: nat, end: nat) returns (p: nat)
      requires pos <= end <= buf.Length
      modifies buf
      ensures Put(old(buf[..]), buf[..], pos, p, end, EncodeAll(m.order, Fields()))
      ensures pos + 24 + |mac| <= end ==>
        && p == pos + 24 + |mac|
        && buf[pos..pos + 8] == MemBytes(m.order, 8, challenge)
        && buf[pos + 8..pos + 16] == MemBytes(m.order, 8, timestamp)
        && buf[pos + 16..pos + 20] == MemBytes(m.order, 4, securityLevel)
        && buf[pos + 20..pos + 24] == MemBytes(m.order, 4, |mac|) && buf[pos + 24..p] == mac
    {
      hide Put, EncodeAll, Encode, MemBytes;
      ghost var start := buf[..];
      p := WriteFields(m, buf, pos, end);
      if pos + 24 + |mac| <= end {
        TokenBytes(m.order, start, buf[..], pos, p, end, challenge, timestamp, securityLevel, mac);
      }
    }

    method Deserialize(m: Machine, buf: array<byte>, pos: nat, end: nat) returns (ok: bool, p: nat)
      requires pos <= end <= buf.Length
      modifies this
      ensures pos <= p <= end && (ok <==> DecodeAll(m.order, TIMESTAMP_TOKEN, buf[pos..end]).Some?)
      ensures ok ==> DecodeAll(m.order, TIMESTAMP_TOKEN, buf[pos..end]) == Some((Fields(), p - pos))
      ensures ok ==>
        DecodeAll(m.order, TIMESTAMP_TOKEN, buf[pos..end]) ==
        Some(([U64(challenge), U64(timestamp), U32(securityLevel), Sized(mac)], p - pos))
    {
      hide Decode, DecodeAll, Load32;
      ReadNothing(m.order, TIMESTAMP_TOKEN, buf[pos..end]);
      ghost var fs: seq<Field> := [];
      ReadStep(m.order, buf[..], pos, pos, end, TIMESTAMP_TOKEN, 0, fs);
      assert buf[..][pos..end] == buf[pos..end];
      var v;
      ok, p, v := CopyUint64(m, buf, pos, end);
      if !ok {
        return;
      }
      challenge := v;
      fs := fs + [U64(challenge)];
      ReadStep(m.order, buf[..], pos, p, end, TIMESTAMP_TOKEN, 1, fs);
      assert buf[..][p..end] == buf[p..end];
      ok, p, v := CopyUint64(m, buf, p, end);
      if !ok {
        return;
      }
      timestamp := v;
      fs := fs + [U64(timestamp)];
      ReadStep(m.order, buf[..], pos, p, end, TIMESTAMP_TOKEN, 2, fs);
      assert buf[..][p..end] == buf[p..end];
      var w;
      ok, p, w := CopyUint32(m, buf, p, end);
      if !ok {
        return;
      }
      securityLevel := w;
      fs := fs + [U32(securityLevel)];
      ReadStep(m.order, buf[..], pos, p, end, TIMESTAMP_TOKEN, 3, fs);
      assert buf[..][p..end] == buf[p..end];
      var data;
      ok, p, data := CopySizeAndData(m, buf, p, end);
      mac := if ok then data else [];
      assert fs + [Sized(mac)] == Fields();
    }
  }

  // ---------- ConfigureVerifiedBootInfoRequest ----------

  const VERIFIED_BOOT_INFO: seq<Shape> := [CollectionShape, CollectionShape, CollectionShape]

  /** A collection is its length and its bytes. */
  lemma CollectionBytes(order: Endian, start: seq<byte>, now: seq<byte>, pos: nat, p: nat, end: nat,
                        a: seq<byte>, c: seq<byte>, b: seq<byte>)
    requires |c| <= UINT32_MAX && Put(start, now, pos, p, end, a + Encode(order, Collection(c)) + b)
    requires pos + |a| + 4 + |c| + |b| <= end
    ensures pos + |a| + 4 + |c| <= p == pos + |a| + 4 + |c| + |b| <= |now|
    ensures now[pos + |a|..pos + |a| + 4] == MemBytes(order, 4, |c|)
    ensures now[pos + |a| + 4..pos + |a| + 4 + |c|] == c
  {
    hide MemBytes, Put;
    var e := Encode(order, Collection(c));
    PutPiece(start, now, pos, p, end, a, e, b);
    SubSlice(now, pos + |a|, e, 0, 4);
    SubSlice(now, pos + |a|, e, 4, 4 + |c|);
    assert e[0..4] == MemBytes(order, 4, |c|) && e[4..4 + |c|] == c;
  }

  lemma BootBytes(order: Endian, start: seq<byte>, now: seq<byte>, pos: nat, p: nat, end: nat,
                  a: seq<byte>, b: seq<byte>, c: seq<byte>)
    requires Put(start, now, pos, p, end, EncodeAll(order, [Collection(a), Collection(b), Collection(c)]))
    requires |a| <= UINT32_MAX && |b| <= UINT32_MAX && |c| <= UINT32_MAX && pos + 12 + |a| + |b| + |c| <= end
    ensures p == pos + 12 + |a| + |b| + |c| <= |now|
    ensures now[pos..pos + 4] == MemBytes(order, 4, |a|) && now[pos + 4..pos + 4 + |a|] == a
    ensures var at := pos + 4 + |a|;
            now[at..at + 4] == MemBytes(order, 4, |b|) && now[at + 4..at + 4 + |b|] == b
    ensures var at := pos + 8 + |a| + |b|;
            now[at..at + 4] == MemBytes(order, 4, |c|) && now[at + 4..p] == c
  {
    hide Put, Encode, EncodeAll;
    var x, y, z := Encode(order, Collection(a)), Encode(order, Collection(b)), Encode(order, Collection(c));
    CollectionSize(order, a);
    CollectionSize(order, b);
    CollectionSize(order, c);
    ThreeFields(order, Collection(a), Collection(b), Collection(c));
    var all := EncodeAll(order, [Collection(a), Collection(b), Collection(c)]);
    assert all == [] + x + (y + z);
    CollectionBytes(order, start, now, pos, p, end, [], a, y + z);
    CollectionBytes(order, start, now, pos, p, end, x, b, z);
    assert all == (x + y) + z + [];
    CollectionBytes(order, start, now, pos, p, end, x + y, c, []);
  }

  lemma CollectionSize(order: Endian, c: seq<byte>)
    requires |c| <= UINT32_MAX
    ensures |Encode(order, Collection(c))| == 4 + |c|
  {
    hide MemBytes;
  }

  lemma ThreeFields(order: Endian, f: Field, g: Field, h: Field)
    ensures EncodeAll(order, [f, g, h]) == Encode(order, f) + Encode(order, g) + Encode(order, h)
  {
    hide Encode;
    assert [f, g, h][1..] == [g, h] && [g, h][1..] == [h] && [h][1..] == [];
    assert EncodeAll(order, [h]) == Encode(order, h);
    assert EncodeAll(order, [g, h]) == Encode(order, g) + Encode(order, h);
  }

  class ConfigureVerifiedBootInfoRequest {
    var bootState: seq<byte>
    var bootloaderState: seq<byte>
    var vbmetaDigest: seq<byte>

    constructor (bootState: seq<byte>, bootloaderState: seq<byte>, vbmetaDigest: seq<byte>)
      ensures Fields() == [Collection(bootState), Collection(bootloaderState), Collection(vbmetaDigest)]
    {
      this.bootState, this.bootloaderState, this.vbmetaDigest := bootState, bootloaderState, vbmetaDigest;
    }

    function Fields(): (fs: seq<Field>)
      reads this
      ensures |fs| == 3
    {
      [Collection(bootState), Collection(bootloaderState), Collection(vbmetaDigest)]
    }

    function SerializedSize(): (n: nat)
      reads this
      ensures n == SizeOfAll(Fields())
    {
      SizeUnfolds(Fields());
      SizeUnfolds(Fields()[1..]);
      SizeUnfolds(Fields()[1..][1..]);
      4 + 4 + 4 + |bootState| + |bootloaderState| + |vbmetaDigest|
    }

    method WriteFields(m: Machine, buf: array<byte>, pos: nat, end: nat) returns (p: nat)
      requires pos <= end <= buf.Length
      modifies buf
      ensures Put(old(buf[..]), buf[..], pos, p, end, EncodeAll(m.order, Fields()))
    {
      hide Encode, EncodeAll, Put;
      ghost var start, fs := buf[..], Fields();
      PutStart(m.order, start, pos, end, fs);
      p := AppendCollection(m, buf, pos, end, bootState);
      PutField(m.order, start, start, buf[..], pos, pos, p, end, fs, 0);
      ghost var p1, s1 := p, buf[..];
      p := AppendCollection(m, buf, p, end, bootloaderState);
      PutField(m.order, start, s1, buf[..], pos, p1, p, end, fs, 1);
      ghost var p2, s2 := p, buf[..];
      p := AppendCollection(m, buf, p, end, vbmetaDigest);
      PutField(m.order, start, s2, buf[..], pos, p2, p, end, fs, 2);
    }

    method Serialize(m: Machine, buf: array<byte>, pos: nat, end: nat) returns (p: nat)
      requires pos <= end <= buf.Length
      modifies buf
      ensures Put(old(buf[..]), buf[..], pos, p, end, EncodeAll(m.order, Fields()))
      ensures
        var a, b, c := |bootState|, |bootloaderState|, |vbmetaDigest|;
        a <= 0xFFFF_FFFF && b <= 0xFFFF_FFFF && c <= 0xFFFF_FFFF && pos + 12 + a + b + c <= end ==>
          && p == pos + 12 + a + b + c
          && buf[pos..pos + 4] == MemBytes(m.order, 4, a) && buf[pos + 4..pos + 4 + a] == bootState
          && buf[pos + 4 + a..pos + 8 + a] == MemBytes(m.order, 4, b)
          && buf[pos + 8 + a..pos + 8 + a + b] == bootloaderState
          && buf[pos + 8 + a + b..pos + 12 + a + b] == MemBytes(m.order, 4, c)
          && buf[pos + 12 + a + b..p] == vbmetaDigest
    {
      hide Put, EncodeAll, Encode, MemBytes;
      ghost var start := buf[..];
      p := WriteFields(m, buf, pos, end);
      ghost var a, b, c := |bootState|, |bootloaderState|, |vbmetaDigest|;
      if a <= UINT32_MAX && b <= UINT32_MAX && c <= UINT32_MAX && pos + 12 + a + b + c <= end {
        BootBytes(m.order, start, buf[..], pos, p, end, bootState, bootloaderState, vbmetaDigest);
      }
    }

    /** Reading appends to what the object already holds, so a fresh object ends up with what was written. */
    method Deserialize(m: Machine, buf: array<byte>, pos: nat, end: nat) returns (ok: bool, p: nat)
      requires pos <= end <= buf.Length
      modifies this
      ensures pos <= p <= end && (ok <==> DecodeAll(m.order, VERIFIED_BOOT_INFO, buf[pos..end]).Some?)
      ensures old(bootState) <= bootState && old(bootloaderState) <= bootloaderState
      ensures old(vbmetaDigest) <= vbmetaDigest
      ensures ok ==>
        DecodeAll(m.order, VERIFIED_BOOT_INFO, buf[pos..end]) ==
        Some(([Collection(bootState[|old(bootState)|..]), Collection(bootloaderState[|old(bootloaderState)|..]),
               Collection(vbmetaDigest[|old(vbmetaDigest)|..])], p - pos))
      ensures ok && old(Fields()) == [Collection([]), Collection([]), Collection([])] ==>
        DecodeAll(m.order, VERIFIED_BOOT_INFO, buf[pos..end]) == Some((Fields(), p - pos))
    {
      hide Decode, DecodeAll, Load32;
      ReadNothing(m.order, VERIFIED_BOOT_INFO, buf[pos..end]);
      assert buf[..][pos..end] == buf[pos..end];
      ghost var fs: seq<Field> := [];
      ReadStep(m.order, buf[..], pos, pos, end, VERIFIED_BOOT_INFO, 0, fs);
      ok, p, bootState := CopyCollection(m, false, buf, pos, end, bootState);
      if !ok {
        return;
      }
      fs := fs + [Collection(bootState[|old(bootState)|..])];
      ReadStep(m.order, buf[..], pos, p, end, VERIFIED_BOOT_INFO, 1, fs);
      assert buf[..][p..end] == buf[p..end];
      ok, p, bootloaderState := CopyCollection(m, false, buf, p, end, bootloaderState);
      if !ok {
        return;
      }
      fs := fs + [Collection(bootloaderState[|old(bootloaderState)|..])];
      ReadStep(m.order, buf[..], pos, p, end, VERIFIED_BOOT_INFO, 2, fs);
      assert buf[..][p..end] == buf[p..end];
      ok, p, vbmetaDigest := CopyCollection(m, false, buf, p, end, vbmetaDigest);
      if ok {
        fs := fs + [Collection(vbmetaDigest[|old(vbmetaDigest)|..])];
        assert fs == [Collection(bootState[|old(bootState)|..]), Collection(bootloaderState[|old(bootloaderState)|..]),
                      Collection(vbmetaDigest[|old(vbmetaDigest)|..])];
      }
    }
  }

  // ---------- GetHwInfoResponse ----------

  const HW_INFO: seq<Shape> := [U32Shape, CollectionShape, U32Shape, CollectionShape, U32Shape]

  lemma HwInfoBytes(order: Endian, start: seq<byte>, now: seq<byte>, pos: nat, p: nat, end: nat,
                    version: u32, name: seq<byte>, curve: u32, id: seq<byte>, keys: u32)
    requires Put(start, now, pos, p, end,
                 EncodeAll(order, [U32(version), Collection(name), U32(curve), Collection(id), U32(keys)]))
    requires |name| <= UINT32_MAX && |id| <= UINT32_MAX && pos + 20 + |name| + |id| <= end
    ensures p == pos + 20 + |name| + |id| <= |now|
    ensures now[pos..pos + 4] == MemBytes(order, 4, version)
    ensures now[pos + 4..pos + 8] == MemBytes(order, 4, |name|) && now[pos + 8..pos + 8 + |name|] == name
    ensures var at := pos + 8 + |name|;
            && now[at..at + 4] == MemBytes(order, 4, curve)
            && now[at + 4..at + 8] == MemBytes(order, 4, |id|) && now[at + 8..at + 8 + |id|] == id
            && now[at + 8 + |id|..p] == MemBytes(order, 4, keys)
  {
    hide Put, Encode, EncodeAll, MemBytes;
    var v, c, k := MemBytes(order, 4, version), MemBytes(order, 4, curve), MemBytes(order, 4, keys);
    var n, i := Encode(order, Collection(name)), Encode(order, Collection(id));
    CollectionSize(order, name);
    CollectionSize(order, id);
    EncodeU32(order, version);
    EncodeU32(order, curve);
    EncodeU32(order, keys);
    FiveFields(order, U32(version), Collection(name), U32(curve), Collection(id), U32(keys));
    var all := EncodeAll(order, [U32(version), Collection(name), U32(curve), Collection(id), U32(keys)]);
    assert all == v + n + c + i + k;
    assert all == [] + v + (n + c + i + k);
    PutPiece(start, now, pos, p, end, [], v, n + c + i + k);
    assert all == v + n + (c + i + k);
    CollectionBytes(order, start, now, pos, p, end, v, name, c + i + k);
    assert all == (v + n) + c + (i + k);
    PutPiece(start, now, pos, p, end, v + n, c, i + k);
    CollectionBytes(order, start, now, pos, p, end, v + n + c, id, k);
    assert all == (v + n + c + i) + k + [];
    PutPiece(start, now, pos, p, end, v + n + c + i, k, []);
  }

  lemma FiveFields(order: Endian, f: Field, g: Field, h: Field, i: Field, j: Field)
    ensures EncodeAll(order, [f, g, h, i, j]) ==
            Encode(order, f) + Encode(order, g) + Encode(order, h) + Encode(order, i) + Encode(order, j)
  {
    hide Encode;
    FourFields(order, g, h, i, j);
    assert [f, g, h, i, j][1..] == [g, h, i, j];
  }

  class GetHwInfoResponse {
    var version: u32
    var rpcAuthorName: seq<byte>
    var supportedEekCurve: u32
    var uniqueId: seq<byte>
    var supportedNumKeysInCsr: u32

    /** A new object; only the two strings have an initial value. */
    constructor ()
      ensures rpcAuthorName == [] && uniqueId == []
    {
      rpcAuthorName, uniqueId := [], [];
    }

    function Fields(): (fs: seq<Field>)
      reads this
      ensures |fs| == 5
    {
      [U32(version), Collection(rpcAuthorName), U32(supportedEekCurve), Collection(uniqueId),
       U32(supportedNumKeysInCsr)]
    }

    function NonErrorSerializedSize(): (n: nat)
      reads this
      ensures n == SizeOfAll(Fields())
    {
      SizeUnfolds(Fields());
      SizeUnfolds(Fields()[1..]);
      SizeUnfolds(Fields()[1..][1..]);
      SizeUnfolds(Fields()[1..][1..][1..]);
      SizeUnfolds(Fields()[1..][1..][1..][1..]);
      4 + 4 + |rpcAuthorName| + 4 + 4 + |uniqueId| + 4
    }

    method WriteFields(m: Machine, buf: array<byte>, pos: nat, end: nat) returns (p: nat)
      requires pos <= end <= buf.Length
      modifies buf
      ensures Put(old(buf[..]), buf[..], pos, p, end, EncodeAll(m.order, Fields()))
    {
      hide Encode, EncodeAll, Word32, Put;
      ghost var start, fs := buf[..], Fields();
      EncodeU32(m.order, version);
      EncodeU32(m.order, supportedEekCurve);
      EncodeU32(m.order, supportedNumKeysInCsr);
      PutStart(m.order, start, pos, end, fs);
      p := AppendUint32(m, buf, pos, end, version);
      PutField(m.order, start, start, buf[..], pos, pos, p, end, fs, 0);
      ghost var q, s := p, buf[..];
      p := AppendCollection(m, buf, p, end, rpcAuthorName);
      PutField(m.order, start, s, buf[..], pos, q, p, end, fs, 1);
      q, s := p, buf[..];
      p := AppendUint32(m, buf, p, end, supportedEekCurve);
      PutField(m.order, start, s, buf[..], pos, q, p, end, fs, 2);
      q, s := p, buf[..];
      p := AppendCollection(m, buf, p, end, uniqueId);
      PutField(m.order, start, s, buf[..], pos, q, p, end, fs, 3);
      q, s := p, buf[..];
      p := AppendUint32(m, buf, p, end, supportedNumKeysInCsr);
      PutField(m.order, start, s, buf[..], pos, q, p, end, fs, 4);
    }

    method NonErrorSerialize(m: Machine, buf: array<byte>, pos: nat, end: nat) returns (p: nat)
      requires pos <= end <= buf.Length
      modifies buf
      ensures Put(old(buf[..]), buf[..], pos, p, end, EncodeAll(m.order, Fields()))
      ensures
        var a, b := |rpcAuthorName|, |uniqueId|;
        a <= 0xFFFF_FFFF && b <= 0xFFFF_FFFF && pos + 20 + a + b <= end ==>
          && p == pos + 20 + a + b && buf[pos..pos + 4] == MemBytes(m.order, 4, version)
          && buf[pos + 4..pos + 8] == MemBytes(m.order, 4, a) && buf[pos + 8..pos + 8 + a] == rpcAuthorName
          && buf[pos + 8 + a..pos + 12 + a] == MemBytes(m.order, 4, supportedEekCurve)
          && buf[pos + 12 + a..pos + 16 + a] == MemBytes(m.order, 4, b)
          && buf[pos + 16 + a..pos + 16 + a + b] == uniqueId
          && buf[pos + 16 + a + b..p] == MemBytes(m.order, 4, supportedNumKeysInCsr)
    {
      hide Put, EncodeAll, Encode, MemBytes;
      ghost var start := buf[..];
      p := WriteFields(m, buf, pos, end);
      ghost var a, b := |rpcAuthorName|, |uniqueId|;
      if a <= UINT32_MAX && b <= UINT32_MAX && pos + 20 + a + b <= end {
        HwInfoBytes(m.order, start, buf[..], pos, p, end, version, rpcAuthorName, supportedEekCurve, uniqueId,
                    supportedNumKeysInCsr);
      }
    }

    method NonErrorDeserialize(m: Machine, buf: array<byte>, pos: nat, end: nat) returns (ok: bool, p: nat)
      requires pos <= end <= buf.Length
      modifies this
      ensures pos <= p <= end && (ok <==> DecodeAll(m.order, HW_INFO, buf[pos..end]).Some?)
      ensures old(rpcAuthorName) <= rpcAuthorName && old(uniqueId) <= uniqueId
      ensures ok ==>
        DecodeAll(m.order, HW_INFO, buf[pos..end]) ==
        Some(([U32(version), Collection(rpcAuthorName[|old(rpcAuthorName)|..]), U32(supportedEekCurve),
               Collection(uniqueId[|old(uniqueId)|..]), U32(supportedNumKeysInCsr)], p - pos))
      ensures ok && old(rpcAuthorName) == [] && old(uniqueId) == [] ==>
        DecodeAll(m.order, HW_INFO, buf[pos..end]) == Some((Fields(), p - pos))
    {
      hide Decode, DecodeAll, Load32;
      ReadNothing(m.order, HW_INFO, buf[pos..end]);
      assert buf[..][pos..end] == buf[pos..end];
      ghost var fs: seq<Field> := [];
      ReadStep(m.order, buf[..], pos, pos, end, HW_INFO, 0, fs);
      var v;
      ok, p, v := CopyUint32(m, buf, pos, end);
      if !ok {
        return;
      }
      version := v;
      fs := fs + [U32(version)];
      ReadStep(m.order, buf[..], pos, p, end, HW_INFO, 1, fs);
      assert buf[..][p..end] == buf[p..end];
      ok, p, rpcAuthorName := CopyCollection(m, false, buf, p, end, rpcAuthorName);
      if !ok {
        return;
      }
      fs := fs + [Collection(rpcAuthorName[|old(rpcAuthorName)|..])];
      ReadStep(m.order, buf[..], pos, p, end, HW_INFO, 2, fs);
      assert buf[..][p..end] == buf[p..end];
      ok, p, v := CopyUint32(m, buf, p, end);
      if !ok {
        return;
      }
      supportedEekCurve := v;
      fs := fs + [U32(supportedEekCurve)];
      ReadStep(m.order, buf[..], pos, p, end, HW_INFO, 3, fs);
      assert buf[..][p..end] == buf[p..end];
      ok, p, uniqueId := CopyCollection(m, false, buf, p, end, uniqueId);
      if !ok {
        return;
      }
      fs := fs + [Collection(uniqueId[|old(uniqueId)|..])];
      ReadStep(m.order, buf[..], pos, p, end, HW_INFO, 4, fs);
      assert buf[..][p..end] == buf[p..end];
      ok, p, v := CopyUint32(m, buf, p, end);
      if ok {
        supportedNumKeysInCsr := v;
        fs := fs + [U32(supportedNumKeysInCsr)];
        assert fs == [U32(version), Collection(rpcAuthorName[|old(rpcAuthorName)|..]), U32(supportedEekCurve),
                      Collection(uniqueId[|old(uniqueId)|..]), U32(supportedNumKeysInCsr)];
      }
    }
  }

  // ---------- SupportedResponse ----------

  const KM_ERROR_OK: int := 0
  const KM_ERROR_UNKNOWN_ERROR: int := -1000

  lemma ArrayBytes(order: Endian, start: seq<byte>, now: seq<byte>, pos: nat, p: nat, end: nat, vs: seq<u32>)
    requires Put(start, now, pos, p, end, Encode(order, Array(vs)))
    requires |vs| < 0x3FFF_FFFF && pos + 4 + 4 * |vs| <= end
    ensures p == pos + 4 + 4 * |vs| <= |now| && now[pos..pos + 4] == MemBytes(order, 4, |vs|)
    ensures forall i :: 0 <= i < |vs| ==> now[pos + 4 + 4 * i..pos + 8 + 4 * i] == MemBytes(order, 4, vs[i])
  {
    hide MemBytes, Words32, Put;
    var n, w := MemBytes(order, 4, |vs|), Words32(order, vs);
    assert n + w == [] + n + w && n + w == n + w + [];
    PutPiece(start, now, pos, p, end, [], n, w);
    PutPiece(start, now, pos, p, end, n, w, []);
    forall i | 0 <= i < |vs| ensures now[pos + 4 + 4 * i..pos + 8 + 4 * i] == MemBytes(order, 4, vs[i]) {
      ArrayWord(order, vs, i);
      SubSlice(now, pos + 4, w, 4 * i, 4 * i + 4);
    }
  }

  class SupportedResponse {
    var results: Option<seq<u32>>
    var resultsLength: nat
    var error: int

    /** The length field counts the results there are. */
    predicate Consistent()
      reads this
    {
      resultsLength == if results.None? then 0 else |results.value|
    }

    constructor ()
      ensures Consistent() && results == None && error == KM_ERROR_UNKNOWN_ERROR
    {
      results, resultsLength, error := None, 0, KM_ERROR_UNKNOWN_ERROR;
    }

    method SetResults(arr: seq<u32>)
      modifies this
      ensures Consistent() && results == Some(arr) && error == KM_ERROR_OK
    {
      results, resultsLength, error := Some(arr), |arr|, KM_ERROR_OK;
    }

    /** The results as the one field of the message; no results are written as an empty array. */
    function Content(): (f: Field)
      reads this
      ensures f.Array?
    {
      Array(if results.None? then [] else results.value)
    }

    function NonErrorSerializedSize(): (n: nat)
      requires Consistent()
      reads this
      ensures n == SizeOfAll([Content()])
    {
      SizeUnfolds([Content()]);
      4 + resultsLength * 4
    }

    method NonErrorSerialize(m: Machine, base: nat, buf: array<byte>, pos: nat, end: nat) returns (p: nat)
      requires Consistent() && m.Valid() && base + buf.Length < m.word && pos <= end <= buf.Length
      modifies buf
      ensures Put(old(buf[..]), buf[..], pos, p, end, Encode(m.order, Content()))
      ensures
        var vs := if results.None? then [] else results.value;
        |vs| < 0x3FFF_FFFF && pos + 4 + 4 * |vs| <= end ==>
          && p == pos + 4 + 4 * |vs| && buf[pos..pos + 4] == MemBytes(m.order, 4, |vs|)
          && forall i :: 0 <= i < |vs| ==> buf[pos + 4 + 4 * i..pos + 8 + 4 * i] == MemBytes(m.order, 4, vs[i])
    {
      hide Encode, Put;
      ghost var start := buf[..];
      var vs := if results.None? then [] else results.value;
      p := AppendUint32Array(m, base, buf, pos, end, vs);
      if |vs| < 0x3FFF_FFFF && pos + 4 + 4 * |vs| <= end {
        ArrayBytes(m.order, start, buf[..], pos, p, end, vs);
        forall i | 0 <= i < |vs|
          ensures buf[pos + 4 + 4 * i..pos + 8 + 4 * i] == buf[..][pos + 4 + 4 * i..pos + 8 + 4 * i]
        {
        }
      }
    }

    /** A failed read leaves no results, but a count that could be read has already been stored. */
    method NonErrorDeserialize(m: Machine, base: nat, buf: array<byte>, pos: nat, end: nat) returns (ok: bool, p: nat)
      requires m.Valid() && base + buf.Length < m.word && pos <= end <= buf.Length
      modifies this
      ensures pos <= p <= end && error == old(error)
      ensures ok <==> Decode(m.order, ArrayShape, buf[pos..end]).Some?
      ensures ok ==> Consistent() && results.Some?
      ensures ok ==> Decode(m.order, ArrayShape, buf[pos..end]) == Some((Content(), p - pos))
      ensures !ok ==> results == None
      ensures !ok ==>
        resultsLength == if pos + 4 <= end then Load32(m.order, buf[pos..pos + 4]) else old(resultsLength)
    {
      hide Decode, Load32;
      results := None;
      var data;
      ok, p, resultsLength, data := CopyUint32Array(m, base, buf, pos, end, resultsLength);
      if ok {
        results := Some(data);
      }
    }
  }

  // ---------- from an object to its bytes and back ----------

  /** A token that is written where there is room for it, and whatever follows it, is read back by a new object. */
  method TokenRoundTrip(m: Machine, token: TimestampToken, buf: array<byte>, pos: nat, end: nat, limit: nat)
    returns (written: nat, ok: bool, read: nat, back: TimestampToken)
    requires AllEncodable(token.Fields())
    requires pos + token.SerializedSize() <= end <= buf.Length && pos + token.SerializedSize() <= limit <= buf.Length
    modifies buf
    ensures written == read == pos + token.SerializedSize() && ok && back.Fields() == token.Fields()
    ensures buf[..pos] == old(buf[..pos]) && buf[written..] == old(buf[written..])
  {
    hide DecodeAll, EncodeAll, Shapes, SizeOfAll, AllEncodable, TimestampToken.Fields;
    ghost var start := buf[..];
    written := token.Serialize(m, buf, pos, end);
    ReadsBack(m.order, start, buf[..], pos, written, end, limit, token.Fields());
    TokenShapes(token);
    assert buf[..][pos..limit] == buf[pos..limit];
    back := new TimestampToken();
    ok, read := back.Deserialize(m, buf, pos, limit);
  }

  lemma TokenShapes(token: TimestampToken)
    ensures Shapes(token.Fields()) == TIMESTAMP_TOKEN
  {
    ShapesAre(token.Fields());
  }

  /** The same for boot information. */
  method InfoRoundTrip(m: Machine, info: ConfigureVerifiedBootInfoRequest,
                       buf: array<byte>, pos: nat, end: nat, limit: nat)
    returns (written: nat, ok: bool, read: nat, back: ConfigureVerifiedBootInfoRequest)
    requires AllEncodable(info.Fields())
    requires pos + info.SerializedSize() <= end <= buf.Length && pos + info.SerializedSize() <= limit <= buf.Length
    modifies buf
    ensures written == read == pos + info.SerializedSize() && ok && back.Fields() == info.Fields()
    ensures buf[..pos] == old(buf[..pos]) && buf[written..] == old(buf[written..])
  {
    hide DecodeAll, EncodeAll, Shapes, SizeOfAll, AllEncodable, ConfigureVerifiedBootInfoRequest.Fields;
    ghost var start := buf[..];
    written := info.Serialize(m, buf, pos, end);
    ReadsBack(m.order, start, buf[..], pos, written, end, limit, info.Fields());
    InfoShapes(info);
    assert buf[..][pos..limit] == buf[pos..limit];
    back := new ConfigureVerifiedBootInfoRequest([], [], []);
    ok, read := back.Deserialize(m, buf, pos, limit);
  }

  lemma InfoShapes(info: ConfigureVerifiedBootInfoRequest)
    ensures Shapes(info.Fields()) == VERIFIED_BOOT_INFO
  {
    ShapesAre(info.Fields());
  }

  /** The same for hardware information. */
  method HwInfoRoundTrip(m: Machine, hw: GetHwInfoResponse, buf: array<byte>, pos: nat, end: nat, limit: nat)
    returns (written: nat, ok: bool, read: nat, back: GetHwInfoResponse)
    requires AllEncodable(hw.Fields())
    requires pos + hw.NonErrorSerializedSize() <= end <= buf.Length
    requires pos + hw.NonErrorSerializedSize() <= limit <= buf.Length
    modifies buf
    ensures written == read == pos + hw.NonErrorSerializedSize() && ok && back.Fields() == hw.Fields()
    ensures buf[..pos] == old(buf[..pos]) && buf[written..] == old(buf[written..])
  {
    hide DecodeAll, EncodeAll, Shapes, SizeOfAll, AllEncodable, GetHwInfoResponse.Fields;
    ghost var start := buf[..];
    written := hw.NonErrorSerialize(m, buf, pos, end);
    ReadsBack(m.order, start, buf[..], pos, written, end, limit, hw.Fields());
    HwInfoShapes(hw);
    assert buf[..][pos..limit] == buf[pos..limit];
    back := new GetHwInfoResponse();
    ok, read := back.NonErrorDeserialize(m, buf, pos, limit);
  }

  lemma HwInfoShapes(hw: GetHwInfoResponse)
    ensures Shapes(hw.Fields()) == HW_INFO
  {
    ShapesAre(hw.Fields());
  }

  /** The same for supported algorithms: what is read back is an array, even if there were no results to write. */
  method SupportedRoundTrip(m: Machine, base: nat, supported: SupportedResponse,
                            buf: array<byte>, pos: nat, end: nat, limit: nat)
    returns (written: nat, ok: bool, read: nat, back: SupportedResponse)
    requires supported.Consistent() && Encodable(supported.Content()) && m.Valid() && base + buf.Length < m.word
    requires pos + supported.NonErrorSerializedSize() <= end <= buf.Length
    requires pos + supported.NonErrorSerializedSize() <= limit <= buf.Length
    modifies buf
    ensures written == read == pos + supported.NonErrorSerializedSize() && ok
    ensures back.Consistent() && back.Content() == supported.Content() && back.results.Some?
    ensures buf[..pos] == old(buf[..pos]) && buf[written..] == old(buf[written..])
  {
    hide DecodeAll, EncodeAll, Decode, Encode, SizeOfAll, Encodable, SupportedResponse.Content;
    ghost var start, fs := buf[..], [supported.Content()];
    written := supported.NonErrorSerialize(m, base, buf, pos, end);
    SingleField(m.order, supported.Content(), buf[pos..limit]);
    ReadsBack(m.order, start, buf[..], pos, written, end, limit, fs);
    assert buf[..][pos..limit] == buf[pos..limit];
    back := new SupportedResponse();
    ok, read := back.NonErrorDeserialize(m, base, buf, pos, limit);
  }

  /** A message of one field is that field. */
  lemma SingleField(order: Endian, f: Field, s: seq<byte>)
    ensures EncodeAll(order, [f]) == Encode(order, f) && Shapes([f]) == [ShapeOf(f)]
    ensures DecodeAll(order, [ShapeOf(f)], s) ==
            match Decode(order, ShapeOf(f), s) case None => None case Some((g, n)) => Some(([g], n))
  {
    hide Encode, Decode;
    assert [f][1..] == [] && [ShapeOf(f)][1..] == [];
    match Decode(order, ShapeOf(f), s)
    case None =>
    case Some((g, n)) =>
      assert DecodeAll(order, [], s[n..]) == Some(([], 0));
      assert [g] + [] == [g];
  }
}
