/** The vendor_boot image and its decoders in tools/repack_vendor_boot.py and tools/prepare_fragments.py. */
module VendorBoot {
  import opened Bytes
  import Newc

  const PAGE_SIZE: nat := 4096
  const PART_SZ: nat := 0x400_0000
  const DTB_MAGIC: seq<byte> := [0xD0, 0x0D, 0xFE, 0xED]

  datatype Frag = Frag(size: nat, offset: nat, kind: nat, name: seq<byte>, payload: seq<byte>)

  datatype Image = Image(
    raw: seq<byte>, p0: seq<byte>, hs: nat, ds: nat, rs: nat, ro: nat, dtbo: nat, tblo: nat, ec: nat, es: nat,
    frags: seq<Frag>)

  datatype Error = StructError | NameNotUtf8 | MissingFragment | DtbNotFound | SizeMismatch

  // ---------- little-endian words ----------

  /** `struct.unpack_from('<I', d, o)`. */
  function U32(d: seq<byte>, o: nat): nat
    requires o + 4 <= |d|
  {
    LeValue(d[o..o + 4])
  }

  /** The number whose four bytes, least significant first, stand at `o`. */
  lemma U32Means(d: seq<byte>, o: nat)
    requires o + 4 <= |d|
    ensures U32(d, o) ==
            d[o] as int + 0x100 * (d[o + 1] as int) + 0x1_0000 * (d[o + 2] as int) + 0x100_0000 * (d[o + 3] as int)
  {
    FourBytes(d[o..o + 4]);
  }

  lemma FourBytes(s: seq<byte>)
    requires |s| == 4
    ensures LeValue(s) ==
            s[0] as int + 0x100 * (s[1] as int) + 0x1_0000 * (s[2] as int) + 0x100_0000 * (s[3] as int)
  {
    assert s[1..] == [s[1], s[2], s[3]] && s[1..][1..] == [s[2], s[3]] && s[1..][1..][1..] == [s[3]];
    assert LeValue(s[1..][1..][1..]) == s[3];
    assert LeValue(s[1..][1..]) == s[2] as int + 256 * (s[3] as int);
  }

  /** `struct.pack('<I', v)`. */
  function Pack32(v: nat): (s: seq<byte>)
    requires v < 0x1_0000_0000
    ensures |s| == 4
  {
    LeDigits(4, v)
  }

  lemma Pack32Means(v: nat)
    requires v < 0x1_0000_0000
    ensures Pack32(v) == [v % 256, v / 0x100 % 256, v / 0x1_0000 % 256, v / 0x100_0000]
  {
    PowersOf256();
    LeDigitAt(4, v, 0);
    LeDigitAt(4, v, 1);
    LeDigitAt(4, v, 2);
    LeDigitAt(4, v, 3);
  }

  lemma UnpackPacked(d: seq<byte>, o: nat, v: nat)
    requires o + 4 <= |d| && v < 0x1_0000_0000 && d[o..o + 4] == Pack32(v)
    ensures U32(d, o) == v
  {
    assert Pow256(4) == 0x1_0000_0000;
    LeRoundTrip(4, v);
  }

  // ---------- layout ----------

  function RamdiskOffset(hs: nat): nat { AlignUp(hs, PAGE_SIZE) }

  function DtbOffset(ro: nat, rs: nat): nat { AlignUp(ro + rs, PAGE_SIZE) }

  function TableOffset(dtbo: nat, ds: nat): nat { AlignUp(dtbo + AlignUp(ds, PAGE_SIZE), PAGE_SIZE) }

  // ---------- the decoder of repack_vendor_boot.py ----------

  function StripZeros(s: seq<byte>): seq<byte> {
    if s != [] && s[|s| - 1] == 0 then StripZeros(s[..|s| - 1]) else s
  }

  lemma {:induction false} StripMeans(s: seq<byte>)
    ensures
      var r := StripZeros(s);
      && |r| <= |s| && s[..|r|] == r && (r != [] ==> r[|r| - 1] != 0)
      && forall k :: |r| <= k < |s| ==> s[k] == 0
  {
    if s != [] && s[|s| - 1] == 0 {
      StripMeans(s[..|s| - 1]);
    }
  }

  /** The table entry at `eo`; a payload that is empty or out of range reads as nothing. */
  function FragAt(d: seq<byte>, ro: nat, eo: nat): Frag
    requires eo + 12 <= |d|
  {
    var size, offset := U32(d, eo), U32(d, eo + 4);
    Frag(size, offset, U32(d, eo + 8), StripZeros(PySlice(d, eo + 12, eo + 44)),
         if size > 0 && ro + offset + size <= |d| then PySlice(d, ro + offset, ro + offset + size) else [])
  }

  /** A name field of 32 bytes, or what there is of it, without the zeros at its end. */
  lemma NameField(d: seq<byte>, at: nat)
    requires at <= |d|
    ensures
      var name := StripZeros(PySlice(d, at, at + 32));
      && |name| <= 32 && at + |name| <= |d| && d[at..at + |name|] == name
      && (name != [] ==> name[|name| - 1] != 0)
      && forall k :: at + |name| <= k < at + 32 && k < |d| ==> d[k] == 0
  {
    hide StripZeros;
    var field := PySlice(d, at, at + 32);
    StripMeans(field);
    var name, end := StripZeros(field), if |d| < at + 32 then |d| else at + 32;
    assert field == d[at..end];
    SubSlice(d, at, field, 0, |name|);
    assert field[0..|name|] == field[..|name|];
    forall k | at + |name| <= k < end ensures d[k] == 0 {
      assert field[k - at] == d[k];
    }
  }

  /** An entry holds its three numbers, the payload they describe if it is there, and its name. */
  lemma FragMeans(d: seq<byte>, ro: nat, eo: nat)
    requires eo + 12 <= |d|
    ensures
      var f := FragAt(d, ro, eo);
      && f.size == U32(d, eo) && f.offset == U32(d, eo + 4) && f.kind == U32(d, eo + 8)
      && f.payload == (if f.size > 0 && ro + f.offset + f.size <= |d|
                       then d[ro + f.offset..ro + f.offset + f.size] else [])
      && |f.name| <= 32 && eo + 12 + |f.name| <= |d| && d[eo + 12..eo + 12 + |f.name|] == f.name
      && (f.name != [] ==> f.name[|f.name| - 1] != 0)
      && forall k :: eo + 12 + |f.name| <= k < eo + 44 && k < |d| ==> d[k] == 0
  {
    hide U32, StripZeros;
    NameField(d, eo + 12);
  }

  function ReadFrags(d: seq<byte>, ro: nat, tblo: nat, es: nat, i: nat, ec: nat): Result<seq<Frag>, Error>
    requires i <= ec
    decreases ec - i
  {
    var eo := tblo + i * es;
    if i == ec || eo + 12 > |d| then Ok([])
    else
      var frag := FragAt(d, ro, eo);
      if !Newc.ValidUtf8(frag.name, 0) then Err(NameNotUtf8)
      else
        var rest :- ReadFrags(d, ro, tblo, es, i + 1, ec);
        Ok([frag] + rest)
  }

  /** What `rd` makes of the bytes of an image. */
  function Decode(d: seq<byte>): Result<Image, Error> {
    if |d| < 2128 then Err(StructError)
    else
      var hs, ds, ec, es, rs := U32(d, 2096), U32(d, 2100), U32(d, 2116), U32(d, 2120), U32(d, 24);
      var ro := RamdiskOffset(hs);
      var dtbo := DtbOffset(ro, rs);
      var tblo := TableOffset(dtbo, ds);
      var frags :- ReadFrags(d, ro, tblo, es, 0, ec);
      Ok(Image(d, PySlice(d, 0, PAGE_SIZE), hs, ds, rs, ro, dtbo, tblo, ec, es, frags))
  }

  // ---------- what decoding gives ----------

  /** Where the program's rounding puts the sections: at the next page, each behind the one before. */
  lemma LayoutMeans(hs: nat, rs: nat, ds: nat)
    ensures
      var ro := RamdiskOffset(hs);
      var dtbo := DtbOffset(ro, rs);
      var tblo := TableOffset(dtbo, ds);
      && ro % 4096 == 0 && hs <= ro < hs + 4096
      && dtbo % 4096 == 0 && ro + rs <= dtbo < ro + rs + 4096
      && tblo % 4096 == 0 && dtbo + ds <= tblo < dtbo + ds + 4096
  {
    hide AlignUp;
  }

  lemma LayoutIs(hs: nat, rs: nat, ds: nat, ro: nat, dtbo: nat, tblo: nat)
    requires ro % 4096 == 0 && hs <= ro < hs + 4096
    requires dtbo % 4096 == 0 && ro + rs <= dtbo < ro + rs + 4096
    requires tblo % 4096 == 0 && dtbo + ds <= tblo < dtbo + ds + 4096
    ensures RamdiskOffset(hs) == ro && DtbOffset(ro, rs) == dtbo && TableOffset(dtbo, ds) == tblo
  {
    hide RamdiskOffset, DtbOffset, TableOffset;
    LayoutMeans(hs, rs, ds);
  }

  /** Reading stops before the first entry without room for its three numbers; names that are no text are not read. */
  lemma {:induction false} ReadMeans(d: seq<byte>, ro: nat, tblo: nat, es: nat, i: nat, ec: nat, fs: seq<Frag>)
    requires i <= ec && ReadFrags(d, ro, tblo, es, i, ec) == Ok(fs)
    ensures i + |fs| <= ec && (i + |fs| < ec ==> tblo + (i + |fs|) * es + 12 > |d|)
    ensures forall k :: i <= k < i + |fs| ==>
      && tblo + k * es + 12 <= |d| && fs[k - i] == FragAt(d, ro, tblo + k * es)
      && Newc.ValidUtf8(fs[k - i].name, 0)
    decreases ec - i
  {
    hide FragAt, Newc.ValidUtf8;
    if fs != [] {
      ReadMeans(d, ro, tblo, es, i + 1, ec, fs[1..]);
    }
  }

  lemma {:induction false} ReadFails(d: seq<byte>, ro: nat, tblo: nat, es: nat, i: nat, ec: nat)
    requires i <= ec
    ensures
      var r := ReadFrags(d, ro, tblo, es, i, ec);
      r.Err? ==>
        && r.error == NameNotUtf8
        && exists k :: i <= k < ec && tblo + k * es + 12 <= |d|
                       && !Newc.ValidUtf8(FragAt(d, ro, tblo + k * es).name, 0)
    decreases ec - i
  {
    hide FragAt, Newc.ValidUtf8;
    if i < ec && tblo + i * es + 12 <= |d| {
      ReadFails(d, ro, tblo, es, i + 1, ec);
    }
  }

  /** The header words and the layout; the entries are those read from where the table is. */
  lemma DecodeMeans(d: seq<byte>, t: Image)
    requires Decode(d) == Ok(t)
    ensures |d| >= 2128 && t.raw == d && t.p0 == d[..if |d| < 4096 then |d| else 4096]
    ensures t.rs == U32(d, 24) && t.hs == U32(d, 2096) && t.ds == U32(d, 2100)
    ensures t.ec == U32(d, 2116) && t.es == U32(d, 2120)
    ensures t.ro % 4096 == 0 && t.hs <= t.ro < t.hs + 4096
    ensures t.dtbo % 4096 == 0 && t.ro + t.rs <= t.dtbo < t.ro + t.rs + 4096
    ensures t.tblo % 4096 == 0 && t.dtbo + t.ds <= t.tblo < t.dtbo + t.ds + 4096
    ensures ReadFrags(d, t.ro, t.tblo, t.es, 0, t.ec) == Ok(t.frags)
  {
    hide U32, RamdiskOffset, DtbOffset, TableOffset, ReadFrags;
    LayoutMeans(t.hs, t.rs, t.ds);
  }

  /** Decoding fails if the header is not there, and otherwise only if reading the entries does. */
  lemma DecodeFails(d: seq<byte>, ro: nat, dtbo: nat, tblo: nat)
    requires |d| >= 2128
    requires ro % 4096 == 0 && U32(d, 2096) <= ro < U32(d, 2096) + 4096
    requires dtbo % 4096 == 0 && ro + U32(d, 24) <= dtbo < ro + U32(d, 24) + 4096
    requires tblo % 4096 == 0 && dtbo + U32(d, 2100) <= tblo < dtbo + U32(d, 2100) + 4096
    ensures Decode(d).Err? <==> ReadFrags(d, ro, tblo, U32(d, 2120), 0, U32(d, 2116)).Err?
    ensures Decode(d).Err? ==> Decode(d).error == NameNotUtf8
  {
    hide FragAt, U32, RamdiskOffset, DtbOffset, TableOffset, ReadFrags, Newc.ValidUtf8;
    LayoutIs(U32(d, 2096), U32(d, 24), U32(d, 2100), ro, dtbo, tblo);
    ReadFails(d, ro, tblo, U32(d, 2120), 0, U32(d, 2116));
  }

  method Rd(d: seq<byte>) returns (r: Result<Image, Error>)
    ensures r == Decode(d)
    ensures r == Err(StructError) <==> |d| < 2128
    ensures r.Ok? ==>
      var t := r.value;
      && t.ro % 4096 == 0 && t.hs <= t.ro < t.hs + 4096
      && t.dtbo % 4096 == 0 && t.ro + t.rs <= t.dtbo < t.ro + t.rs + 4096
      && t.tblo % 4096 == 0 && t.dtbo + t.ds <= t.tblo < t.dtbo + t.ds + 4096
  {
    hide FragAt, U32, RamdiskOffset, DtbOffset, TableOffset, PySlice;
    if |d| < 2128 {
      return Err(StructError);
    }
    var hs, ds := U32(d, 2096), U32(d, 2100);
    var ec, es := U32(d, 2116), U32(d, 2120);
    var rs := U32(d, 24);
    var ro := RamdiskOffset(hs);
    var dtbo := DtbOffset(ro, rs);
    var tblo := TableOffset(dtbo, ds);
    var frags: seq<Frag> := [];
    var i := 0;
    ghost var all := ReadFrags(d, ro, tblo, es, 0, ec);
    assert all.Ok? ==> [] + all.value == all.value;
    while i < ec
      invariant i <= ec
      invariant all == var rest := ReadFrags(d, ro, tblo, es, i, ec); if rest.Err? then rest else Ok(frags + rest.value)
    {
      var eo := tblo + i * es;
      if eo + 12 > |d| {
        break;
      }
      var frag := FragAt(d, ro, eo);
      if !Newc.ValidUtf8(frag.name, 0) {
        return Err(NameNotUtf8);
      }
      ghost var rest := ReadFrags(d, ro, tblo, es, i + 1, ec);
      assert rest.Ok? ==> frags + ([frag] + rest.value) == frags + [frag] + rest.value;
      frags := frags + [frag];
      i := i + 1;
    }
    assert frags + [] == frags;
    LayoutMeans(hs, rs, ds);
    return Ok(Image(d, PySlice(d, 0, PAGE_SIZE), hs, ds, rs, ro, dtbo, tblo, ec, es, frags));
  }

  // ---------- the decoder of prepare_fragments.py ----------

  /** The bytes a table entry points at, as a clipped slice. */
  function SliceAt(d: seq<byte>, ro: nat, eo: nat): seq<byte>
    requires eo + 12 <= |d|
  {
    PySlice(d, ro + U32(d, eo + 4), ro + U32(d, eo + 4) + U32(d, eo))
  }

  function ReadSlices(d: seq<byte>, ro: nat, tblo: nat, es: nat, i: nat, ec: nat): Result<seq<seq<byte>>, Error>
    requires i <= ec
    decreases ec - i
  {
    var eo := tblo + i * es;
    if i == ec then Ok([])
    else if eo + 12 > |d| then Err(StructError)
    else
      var rest :- ReadSlices(d, ro, tblo, es, i + 1, ec);
      Ok([SliceAt(d, ro, eo)] + rest)
  }

  /** What `parse` makes of the bytes of an image. */
  function DecodeFragments(d: seq<byte>): Result<seq<seq<byte>>, Error> {
    if |d| < 2124 then Err(StructError)
    else
      var ro := RamdiskOffset(U32(d, 2096));
      var tblo := TableOffset(DtbOffset(ro, U32(d, 24)), U32(d, 2100));
      ReadSlices(d, ro, tblo, U32(d, 2120), 0, U32(d, 2116))
  }

  lemma {:induction false} SlicesMean(d: seq<byte>, ro: nat, tblo: nat, es: nat, i: nat, ec: nat)
    requires i <= ec
    ensures
      var r := ReadSlices(d, ro, tblo, es, i, ec);
      && (r.Ok? <==> forall k :: i <= k < ec ==> tblo + k * es + 12 <= |d|)
      && (r.Err? ==> r.error == StructError)
      && (r.Ok? ==> i + |r.value| == ec
                    && forall k :: i <= k < ec ==> r.value[k - i] == SliceAt(d, ro, tblo + k * es))
    decreases ec - i
  {
    hide SliceAt;
    if i < ec {
      SlicesMean(d, ro, tblo, es, i + 1, ec);
      var r, rest := ReadSlices(d, ro, tblo, es, i, ec), ReadSlices(d, ro, tblo, es, i + 1, ec);
      if r.Ok? {
        assert r.value[1..] == rest.value;
      }
    }
  }

  /** A slice that is cut off at the end of the image. */
  lemma SliceMeans(d: seq<byte>, ro: nat, eo: nat)
    requires eo + 12 <= |d|
    ensures
      var a, n := ro + U32(d, eo + 4), U32(d, eo);
      SliceAt(d, ro, eo) == if a >= |d| then [] else d[a..if a + n < |d| then a + n else |d|]
  {
    hide U32;
  }

  /** This decoder looks for its table where the other one does. */
  lemma FragmentsMean(d: seq<byte>, ro: nat, dtbo: nat, tblo: nat)
    requires |d| >= 2124
    requires ro % 4096 == 0 && U32(d, 2096) <= ro < U32(d, 2096) + 4096
    requires dtbo % 4096 == 0 && ro + U32(d, 24) <= dtbo < ro + U32(d, 24) + 4096
    requires tblo % 4096 == 0 && dtbo + U32(d, 2100) <= tblo < dtbo + U32(d, 2100) + 4096
    ensures DecodeFragments(d) == ReadSlices(d, ro, tblo, U32(d, 2120), 0, U32(d, 2116))
  {
    hide U32, RamdiskOffset, DtbOffset, TableOffset, ReadSlices;
    LayoutIs(U32(d, 2096), U32(d, 24), U32(d, 2100), ro, dtbo, tblo);
  }

  method ParseFragments(d: seq<byte>) returns (r: Result<seq<seq<byte>>, Error>)
    ensures r == DecodeFragments(d)
    ensures |d| < 2124 ==> r == Err(StructError)
  {
    hide SliceAt, U32, RamdiskOffset, DtbOffset, TableOffset, PySlice;
    if |d| < 2124 {
      return Err(StructError);
    }
    var hs, ds, rs := U32(d, 2096), U32(d, 2100), U32(d, 24);
    var ro := RamdiskOffset(hs);
    var dtbo := DtbOffset(ro, rs);
    var tblo := TableOffset(dtbo, ds);
    var ec, es := U32(d, 2116), U32(d, 2120);
    var frags: seq<seq<byte>> := [];
    ghost var all := ReadSlices(d, ro, tblo, es, 0, ec);
    assert all.Ok? ==> [] + all.value == all.value;
    for i := 0 to ec
      invariant
        var rest := ReadSlices(d, ro, tblo, es, i, ec);
        all == if rest.Err? then rest else Ok(frags + rest.value)
    {
      var eo := tblo + i * es;
      if eo + 12 > |d| {
        return Err(StructError);
      }
      ghost var rest := ReadSlices(d, ro, tblo, es, i + 1, ec);
      var slice := SliceAt(d, ro, eo);
      assert rest.Ok? ==> frags + ([slice] + rest.value) == frags + [slice] + rest.value;
      frags := frags + [slice];
    }
    assert frags + [] == frags;
    return Ok(frags);
  }

  // ---------- where the two decoders agree ----------

  /** The whole table is there. */
  ghost predicate TableComplete(d: seq<byte>, t: Image) {
    forall i :: 0 <= i < t.ec ==> t.tblo + i * t.es + 12 <= |d|
  }

  /** The entry's payload is empty, wholly inside the image, or wholly outside it. */
  ghost predicate Unclipped(d: seq<byte>, ro: nat, f: Frag) {
    f.size == 0 || ro + f.offset + f.size <= |d| || ro + f.offset >= |d|
  }

  function Payloads(frags: seq<Frag>): (r: seq<seq<byte>>)
    ensures |r| == |frags|
    ensures forall i :: 0 <= i < |frags| ==> r[i] == frags[i].payload
  {
    seq(|frags|, i requires 0 <= i < |frags| => frags[i].payload)
  }

  /** On a complete table both decoders succeed, and they read the same payloads unless one straddles the end. */
  lemma DecodersAgree(d: seq<byte>)
    requires Decode(d).Ok? && TableComplete(d, Decode(d).value)
    ensures
      var t := Decode(d).value;
      && DecodeFragments(d).Ok?
      && |t.frags| == t.ec
      && (DecodeFragments(d).value == Payloads(t.frags) <==>
            forall i :: 0 <= i < t.ec ==> Unclipped(d, t.ro, t.frags[i]))
  {
    hide RamdiskOffset, DtbOffset, TableOffset, U32, ReadFrags, ReadSlices;
    var t := Decode(d).value;
    AgreeFrom(d, t.ro, t.tblo, t.es, 0, t.ec);
    var slices := DecodeFragments(d).value;
    assert forall i :: 0 <= i < t.ec ==> (slices[i] == t.frags[i].payload <==> Unclipped(d, t.ro, t.frags[i]));
  }

  lemma {:induction false} AgreeFrom(d: seq<byte>, ro: nat, tblo: nat, es: nat, i: nat, ec: nat)
    requires i <= ec && ReadFrags(d, ro, tblo, es, i, ec).Ok?
    requires forall j :: i <= j < ec ==> tblo + j * es + 12 <= |d|
    ensures
      var frags, slices := ReadFrags(d, ro, tblo, es, i, ec).value, ReadSlices(d, ro, tblo, es, i, ec);
      && slices.Ok? && |frags| == |slices.value| == ec - i
      && forall k :: 0 <= k < ec - i ==> (slices.value[k] == frags[k].payload <==> Unclipped(d, ro, frags[k]))
    decreases ec - i
  {
    hide U32, StripZeros;
    if i < ec {
      AgreeFrom(d, ro, tblo, es, i + 1, ec);
    }
  }
}
