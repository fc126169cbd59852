/** Decoding what was built, and building again from it. */
module VendorRoundTrip {
  import opened Bytes
  import opened VendorBoot
  import opened VendorBuild
  import opened VendorProofs
  import Newc

  // ---------- reading words back ----------

  lemma HeaderWord(img: seq<byte>, p0: seq<byte>, rsz: nat, o: nat)
    requires |p0| == PAGE_SIZE && rsz < 0x1_0000_0000 && Section(img, 0, Header(p0, rsz))
    requires 28 <= o && o + 4 <= PAGE_SIZE
    ensures U32(img, o) == U32(p0, o)
  {
    hide Pack32, LeValue;
    SubSlice(img, 0, Header(p0, rsz), o, o + 4);
    assert Header(p0, rsz)[o..o + 4] == p0[o..o + 4];
  }

  lemma HeaderSize(img: seq<byte>, p0: seq<byte>, rsz: nat)
    requires |p0| == PAGE_SIZE && rsz < 0x1_0000_0000 && Section(img, 0, Header(p0, rsz))
    ensures U32(img, 24) == rsz
  {
    hide Pack32, LeValue;
    SubSlice(img, 0, Header(p0, rsz), 24, 28);
    UnpackPacked(img, 24, rsz);
  }

  lemma TableEntryBytes(es: nat, size: nat, offset: nat, kind: nat)
    requires es >= 44 && size < 0x1_0000_0000 && offset < 0x1_0000_0000 && kind < 0x1_0000_0000
    ensures
      var e := TableEntry(es, size, offset, kind);
      && |e| == es
      && e[0..4] == Pack32(size) && e[4..8] == Pack32(offset) && e[8..12] == Pack32(kind)
      && forall k :: 12 <= k < es ==> e[k] == 0
  {
    hide Pack32, PyAssign;
    var a := Overwrite(Zeros(es), 0, Pack32(size));
    var b := Overwrite(a, 4, Pack32(offset));
    var c := Overwrite(b, 8, Pack32(kind));
    var e := TableEntry(es, size, offset, kind);
    assert e == Overwrite(c, 12, Zeros(32));
    forall k | 12 <= k < 44 ensures e[k] == 0 {
      assert e[12..44][k - 12] == Zeros(32)[k - 12];
    }
    assert e[8..12] == c[8..12];
    assert e[4..8] == b[4..8];
    assert e[0..4] == a[0..4];
  }

  lemma {:induction false} StripAllZeros(s: seq<byte>)
    requires AllZero(s)
    ensures StripZeros(s) == []
  {
    if s != [] {
      StripAllZeros(s[..|s| - 1]);
    }
  }

  /** A written table entry is decoded as written, with an empty name. */
  lemma EntryDecoded(img: seq<byte>, ro: nat, eo: nat, es: nat, offset: nat, kind: nat, data: seq<byte>)
    requires es >= 44 && |data| < 0x1_0000_0000 && offset < 0x1_0000_0000 && kind < 0x1_0000_0000
    requires Section(img, eo, TableEntry(es, |data|, offset, kind)) && Section(img, ro + offset, data)
    ensures eo + 12 <= |img| && FragAt(img, ro, eo) == Frag(|data|, offset, kind, [], data)
  {
    hide U32, Pack32, TableEntry;
    var e := TableEntry(es, |data|, offset, kind);
    TableEntryBytes(es, |data|, offset, kind);
    SubSlice(img, eo, e, 0, 4);
    SubSlice(img, eo, e, 4, 8);
    SubSlice(img, eo, e, 8, 12);
    UnpackPacked(img, eo, |data|);
    UnpackPacked(img, eo + 4, offset);
    UnpackPacked(img, eo + 8, kind);
    SubSlice(img, eo, e, 12, 44);
    StripAllZeros(e[12..44]);
    assert img[eo + 12..eo + 44] == e[12..44];
  }

  // ---------- the round trip ----------

  /** Table entries that are all zeros. */
  function Blanks(n: nat): (r: seq<Frag>)
    ensures |r| == n && forall i :: 0 <= i < n ==> r[i] == Frag(0, 0, 0, [], [])
  {
    seq(n, _ => Frag(0, 0, 0, [], []))
  }

  /** How many of the table entries from the i-th on begin early enough in the partition to be read. */
  function Readable(tblo: nat, es: nat, i: nat, ec: nat): (n: nat)
    decreases ec - i
  {
    if i >= ec || tblo + i * es + 12 > PART_SZ then 0 else 1 + Readable(tblo, es, i + 1, ec)
  }

  /** The image that decoding a built image is expected to give: behind the two entries written, the table is blank. */
  ghost function Rebuilt(t: Image, f1: seq<byte>, img: seq<byte>): Image
    requires |t.frags| >= 2 && |t.p0| == PAGE_SIZE && |t.frags[0].payload| + |f1| < 0x1_0000_0000
  {
    var f0 := t.frags[0].payload;
    var rsz := |f0| + |f1|;
    var dtbo := DtbOffset(t.ro, rsz);
    var tblo := TableOffset(dtbo, t.ds);
    Image(img, Header(t.p0, rsz), t.hs, t.ds, rsz, t.ro, dtbo, tblo, t.ec, t.es,
          [Frag(|f0|, 0, 1, [], f0), Frag(|f1|, |f0|, 2, [], f1)] + Blanks(Readable(tblo, t.es, 2, t.ec)))
  }

  /** The template was decoded from an image, and has two table entries at least. */
  ghost predicate Decoded(d: seq<byte>, t: Image) { Decode(d) == Ok(t) && Complete(t) }

  lemma {:induction false} NoMoreThanCounted(d: seq<byte>, ro: nat, tblo: nat, es: nat, i: nat, ec: nat)
    requires i <= ec && ReadFrags(d, ro, tblo, es, i, ec).Ok?
    ensures |ReadFrags(d, ro, tblo, es, i, ec).value| <= ec - i
    decreases ec - i
  {
    hide FragAt;
    if i < ec && tblo + i * es + 12 <= |d| {
      NoMoreThanCounted(d, ro, tblo, es, i + 1, ec);
    }
  }

  lemma DecodedHeader(d: seq<byte>, t: Image)
    requires Decoded(d, t)
    ensures t.ro == RamdiskOffset(t.hs) && t.hs == U32(t.p0, 2096) && t.ds == U32(t.p0, 2100)
    ensures t.ec == U32(t.p0, 2116) && t.es == U32(t.p0, 2120) && |d| >= PAGE_SIZE && t.raw == d
    ensures t.ec >= 2
  {
    hide U32, RamdiskOffset, DtbOffset, TableOffset, ReadFrags, DtbStart;
    NoMoreThanCounted(d, t.ro, t.tblo, t.es, 0, t.ec);
    assert t.p0 == d[0..PAGE_SIZE];
    SameWord(d, 2096);
    SameWord(d, 2100);
    SameWord(d, 2116);
    SameWord(d, 2120);
  }

  lemma SameWord(d: seq<byte>, o: nat)
    requires o + 4 <= PAGE_SIZE <= |d|
    ensures U32(d[0..PAGE_SIZE], o) == U32(d, o)
  {
    hide LeValue;
    assert d[0..PAGE_SIZE][o..o + 4] == d[o..o + 4];
  }

  lemma TwoFrags(d: seq<byte>, ro: nat, tblo: nat, es: nat, a: Frag, b: Frag, ec: nat, rest: seq<Frag>)
    requires tblo + es + 12 <= |d| && a.name == b.name == [] && ec >= 2
    requires FragAt(d, ro, tblo) == a && FragAt(d, ro, tblo + es) == b
    requires ReadFrags(d, ro, tblo, es, 2, ec) == Ok(rest)
    ensures ReadFrags(d, ro, tblo, es, 0, ec) == Ok([a, b] + rest)
  {
    hide FragAt;
    assert Newc.ValidUtf8(a.name, 0) && Newc.ValidUtf8(b.name, 0);
    assert [a] + ([b] + rest) == [a, b] + rest;
    assert ReadFrags(d, ro, tblo, es, 1, ec) == Ok([b] + rest);
  }

  lemma SmallWord(d: seq<byte>, o: nat)
    requires o + 4 <= |d| && d[o + 2] == d[o + 3] == 0
    ensures U32(d, o) == d[o] as int + 256 * (d[o + 1] as int)
  {
    LeFour(d[o], d[o + 1]);
    assert d[o..o + 4] == [d[o], d[o + 1], 0, 0];
  }

  lemma LeFour(a: byte, b: byte)
    ensures LeValue([a, b, 0, 0]) == a as int + 256 * (b as int)
  {
    assert [a, b, 0, 0][1..] == [b, 0, 0] && [b, 0, 0][1..] == [0, 0] && [0, 0][1..] == [0] && [0][1..] == [];
    assert LeValue([0]) == 0;
    assert LeValue([0, 0]) == 0;
    assert LeValue([b, 0, 0]) == b;
  }

  /** Zeros are decoded as an empty entry, also where the image ends within the name field. */
  lemma BlankEntry(d: seq<byte>, ro: nat, eo: nat)
    requires eo + 12 <= |d| && forall k :: eo <= k < eo + 44 && k < |d| ==> d[k] == 0
    ensures FragAt(d, ro, eo) == Frag(0, 0, 0, [], []) && SliceAt(d, ro, eo) == []
  {
    hide U32;
    SmallWord(d, eo);
    SmallWord(d, eo + 4);
    SmallWord(d, eo + 8);
    StripAllZeros(PySlice(d, eo + 12, eo + 44));
  }

  lemma {:induction false} BlankFrags(img: seq<byte>, ro: nat, tblo: nat, es: nat, i: nat, ec: nat)
    requires 2 <= i <= ec && |img| == PART_SZ && Blank(img, tblo + es + es, PART_SZ)
    ensures ReadFrags(img, ro, tblo, es, i, ec) == Ok(Blanks(Readable(tblo, es, i, ec)))
    decreases ec - i
  {
    hide FragAt, SliceAt;
    if i < ec && tblo + i * es + 12 <= PART_SZ {
      assert i * es >= 2 * es;
      BlankEntry(img, ro, tblo + i * es);
      assert Newc.ValidUtf8([], 0);
      BlankFrags(img, ro, tblo, es, i + 1, ec);
      var n := Readable(tblo, es, i + 1, ec);
      assert [Frag(0, 0, 0, [], [])] + Blanks(n) == Blanks(n + 1);
    }
  }

  /** Decoding a built image gives back both fragments, their total size, and the template's header values. */
  lemma ImageRoundTrip(d: seq<byte>, t: Image, f1: seq<byte>, img: seq<byte>)
    requires Decoded(d, t) && Build(t, f1) == Ok(img)
    ensures |t.frags[0].payload| + |f1| < 0x1_0000_0000
    ensures Decode(img) == Ok(Rebuilt(t, f1, img))
  {
    hide Assemble, RamdiskOffset, DtbOffset, TableOffset, U32, ReadFrags, FragAt, Header, TableEntry, DtbStart,
         Section, Pack32, Dtb;
    DecodedHeader(d, t);
    SizeCheckIffFits(t, f1);
    var f0 := t.frags[0].payload;
    var rsz := |f0| + |f1|;
    LayoutOrder(t.hs, rsz, t.ds);
    var dtbo := DtbOffset(t.ro, rsz);
    var tblo := TableOffset(dtbo, t.ds);
    HeaderSize(img, t.p0, rsz);
    HeaderWord(img, t.p0, rsz, 2096);
    HeaderWord(img, t.p0, rsz, 2100);
    HeaderWord(img, t.p0, rsz, 2116);
    HeaderWord(img, t.p0, rsz, 2120);
    EntryDecoded(img, t.ro, tblo, t.es, 0, 1, f0);
    EntryDecoded(img, t.ro, tblo + t.es, t.es, |f0|, 2, f1);
    BlankFrags(img, t.ro, tblo, t.es, 2, t.ec);
    TwoFrags(img, t.ro, tblo, t.es, Frag(|f0|, 0, 1, [], f0), Frag(|f1|, |f0|, 2, [], f1), t.ec,
             Blanks(Readable(tblo, t.es, 2, t.ec)));
    FirstPage(img, Header(t.p0, rsz));
  }

  lemma FirstPage(img: seq<byte>, h: seq<byte>)
    requires Section(img, 0, h) && |h| == PAGE_SIZE
    ensures PySlice(img, 0, PAGE_SIZE) == h
  {
  }

  /** The whole table of a built image lies within the partition. */
  predicate TableInside(tblo: nat, es: nat, ec: nat) { ec > 0 && tblo + (ec - 1) * es + 12 <= PART_SZ }

  lemma {:induction false} AllReadable(tblo: nat, es: nat, i: nat, ec: nat)
    requires i <= ec && (ec > 0 ==> TableInside(tblo, es, ec))
    ensures Readable(tblo, es, i, ec) == ec - i
    decreases ec - i
  {
    if i < ec {
      assert i * es <= (ec - 1) * es;
      AllReadable(tblo, es, i + 1, ec);
    }
  }

  /** The other decoder has no patience with a table that is not wholly there. */
  lemma {:induction false} IncompleteFails(d: seq<byte>, ro: nat, tblo: nat, es: nat, i: nat, ec: nat)
    requires i < ec && tblo + (ec - 1) * es + 12 > |d|
    ensures ReadSlices(d, ro, tblo, es, i, ec) == Err(StructError)
    decreases ec - i
  {
    hide SliceAt;
    if i + 1 < ec {
      IncompleteFails(d, ro, tblo, es, i + 1, ec);
    }
  }

  /** Where the fragment table of the image built with `f1` begins. */
  function BuiltTable(t: Image, f1: seq<byte>): nat
    requires |t.frags| > 0
  {
    TableOffset(DtbOffset(t.ro, |t.frags[0].payload| + |f1|), t.ds)
  }

  /** The other decoder recovers the same two fragments, and nothing from the blank rest of a longer table. */
  lemma FragmentsRoundTrip(d: seq<byte>, t: Image, f1: seq<byte>, img: seq<byte>)
    requires Decoded(d, t) && Build(t, f1) == Ok(img)
    ensures t.ec >= 2
    ensures DecodeFragments(img) ==
            if TableInside(BuiltTable(t, f1), t.es, t.ec)
            then Ok([t.frags[0].payload, f1] + seq(t.ec - 2, _ => [])) else Err(StructError)
  {
    hide Assemble, RamdiskOffset, DtbOffset, TableOffset, Decode, DecodeFragments, DtbStart, Dtb, Section, Header,
         TableEntry, ReadSlices, Readable, Build, TableInside, Blanks;
    ImageRoundTrip(d, t, f1, img);
    DecodedHeader(d, t);
    var u := Rebuilt(t, f1, img);
    DecodedWords(img, u);
    BuiltSize(t, f1, img);
    if TableInside(u.tblo, t.es, t.ec) {
      TableThere(img, u);
      DecodersAgree(img);
      RebuiltPayloads(t, f1, img);
      RebuiltUnclipped(d, t, f1, img);
    } else {
      TableMissing(img, u);
    }
  }

  lemma BuiltSize(t: Image, f1: seq<byte>, img: seq<byte>)
    requires Build(t, f1) == Ok(img)
    ensures |img| == PART_SZ
  {
    hide Assemble, DtbStart;
  }

  lemma TableThere(img: seq<byte>, u: Image)
    requires |img| == PART_SZ && TableInside(u.tblo, u.es, u.ec)
    ensures TableComplete(img, u)
  {
    forall i | 0 <= i < u.ec ensures u.tblo + i * u.es + 12 <= |img| {
      assert i * u.es <= (u.ec - 1) * u.es;
    }
  }

  lemma TableMissing(img: seq<byte>, u: Image)
    requires |img| == PART_SZ && u.ec > 0 && !TableInside(u.tblo, u.es, u.ec)
    ensures ReadSlices(img, u.ro, u.tblo, u.es, 0, u.ec) == Err(StructError)
  {
    IncompleteFails(img, u.ro, u.tblo, u.es, 0, u.ec);
  }

  /** Both decoders read the table from the same place. */
  lemma DecodedWords(img: seq<byte>, u: Image)
    requires Decode(img) == Ok(u)
    ensures DecodeFragments(img) == ReadSlices(img, u.ro, u.tblo, u.es, 0, u.ec)
  {
    hide U32, RamdiskOffset, DtbOffset, TableOffset, ReadFrags, ReadSlices;
  }

  lemma RebuiltPayloads(t: Image, f1: seq<byte>, img: seq<byte>)
    requires |t.frags| >= 2 && |t.p0| == PAGE_SIZE && |t.frags[0].payload| + |f1| < 0x1_0000_0000
    requires t.ec >= 2 && TableInside(Rebuilt(t, f1, img).tblo, t.es, t.ec)
    ensures Payloads(Rebuilt(t, f1, img).frags) == [t.frags[0].payload, f1] + seq(t.ec - 2, _ => [])
  {
    hide DtbOffset, TableOffset, Header, TableInside, Readable;
    var u := Rebuilt(t, f1, img);
    AllReadable(u.tblo, u.es, 2, u.ec);
    assert Payloads(u.frags) == [t.frags[0].payload, f1] + seq(t.ec - 2, _ => []);
  }

  lemma RebuiltUnclipped(d: seq<byte>, t: Image, f1: seq<byte>, img: seq<byte>)
    requires Decoded(d, t) && Build(t, f1) == Ok(img) && |t.frags[0].payload| + |f1| < 0x1_0000_0000
    ensures var u := Rebuilt(t, f1, img);
            forall i :: 0 <= i < |u.frags| ==> Unclipped(img, u.ro, u.frags[i])
  {
    hide RamdiskOffset, DtbOffset, TableOffset, Decode, DtbStart, Dtb, Header, TableEntry, Readable, Build;
    SizeCheckIffFits(t, f1);
    DecodedHeader(d, t);
  }

  // ---------- building again from a built image ----------

  /** Within the copied DTB the magic stands where it stood in the template. */
  lemma MagicInDtb(raw: seq<byte>, start: nat, img: seq<byte>, dtbo: nat, ds: nat, x: nat)
    requires start + ds <= |raw| && Section(img, dtbo, raw[start..start + ds]) && x + 4 <= ds
    ensures MagicAt(img, dtbo + x) <==> MagicAt(raw, start + x)
  {
    var dtb := raw[start..start + ds];
    SubSlice(img, dtbo, dtb, x, x + 4);
    SubSlice(raw, start, dtb, x, x + 4);
    assert PySlice(img, dtbo + x, dtbo + x + 4) == img[dtbo + x..dtbo + x + 4];
  }

  /** A byte below 13 is no byte of the magic. */
  lemma NoMagicOver(img: seq<byte>, x: nat, y: nat)
    requires x <= y < x + 4 && y < |img| && img[y] < 13
    ensures !MagicAt(img, x)
  {
    if x + 4 <= |img| {
      assert img[x..x + 4][y - x] == img[y];
      assert forall k :: 0 <= k < 4 ==> DTB_MAGIC[k] >= 13;
    }
  }

  lemma SmallSizeBytes(v: nat)
    requires v <= PART_SZ
    ensures Pack32(v)[3] < 13
  {
    assert LeDigits(4, v) == [v % 256] + LeDigits(3, v / 256);
    assert LeDigits(3, v / 256) == [v / 256 % 256] + LeDigits(2, v / 256 / 256);
    assert LeDigits(2, v / 256 / 256) == [v / 256 / 256 % 256] + LeDigits(1, v / 256 / 256 / 256);
  }

  /** Every window of four bytes that starts in a written table entry covers a byte below 13. */
  lemma NoMagicInEntry(img: seq<byte>, eo: nat, es: nat, size: nat, offset: nat, kind: nat, x: nat)
    requires es >= 44 && size <= PART_SZ && offset <= PART_SZ && kind < 13
    requires Section(img, eo, TableEntry(es, size, offset, kind)) && x < es
    ensures !MagicAt(img, eo + x)
  {
    hide Pack32, TableEntry, MagicAt;
    var e := TableEntry(es, size, offset, kind);
    TableEntryBytes(es, size, offset, kind);
    SmallSizeBytes(size);
    SmallSizeBytes(offset);
    SmallKind(kind);
    var y := if x < 4 then 3 else if x < 8 then 7 else x;
    assert e[y] < 13 by {
      assert e[0..4][3] == e[3] && e[4..8][3] == e[7];
      assert 8 <= y < 12 ==> e[8..12][y - 8] == e[y];
    }
    assert img[eo..eo + es][y] == img[eo + y];
    NoMagicOver(img, eo + x, eo + y);
  }

  lemma SmallKind(kind: nat)
    requires kind < 13
    ensures forall k :: 0 <= k < 4 ==> Pack32(kind)[k] < 13
  {
    assert Pack32(kind)[1..] == LeDigits(3, 0);
    assert LeDigits(3, 0) == [0, 0, 0];
  }

  /** A whole DTB keeps its magic at byte 64; a DTB of fewer than 68 bytes leaves none to be found. */
  lemma DtbFoundIffWhole(t: Image, f1: seq<byte>, img: seq<byte>)
    requires Complete(t) && Build(t, f1) == Ok(img) && t.ro == RamdiskOffset(t.hs)
    requires |t.frags[0].payload| + |f1| < 0x1_0000_0000
    ensures
      var u := Rebuilt(t, f1, img);
      DtbStart(u) == if t.ds >= 68 then Some(u.dtbo) else None
  {
    hide Assemble, RamdiskOffset, DtbOffset, TableOffset, TableEntry, Section, Header, MagicAt, Pack32;
    SizeCheckIffFits(t, f1);
    var f0 := t.frags[0].payload;
    LayoutOrder(t.hs, |f0| + |f1|, t.ds);
    var u := Rebuilt(t, f1, img);
    var start := DtbStart(t).value;
    var hi := Min(u.dtbo + 256, |img|);
    assert MagicAt(t.raw, start + 64);
    forall x | u.dtbo <= x < u.dtbo + 64 && x + 4 <= u.dtbo + t.ds ensures !MagicAt(img, x) {
      MagicInDtb(t.raw, start, img, u.dtbo, t.ds, x - u.dtbo);
      assert t.dtbo <= start + (x - u.dtbo) < start + 64;
    }
    if t.ds >= 68 {
      MagicInDtb(t.raw, start, img, u.dtbo, t.ds, 64);
    } else {
      forall x | u.dtbo <= x < hi ensures !MagicAt(img, x) {
        NoMagicAfterShortDtb(t, f1, img, x);
      }
    }
  }

  /** In the template no magic stands in the 64 bytes before the one that was found. */
  lemma MagicFirstAt(t: Image)
    requires DtbStart(t).Some?
    ensures MagicAt(t.raw, DtbStart(t).value + 64)
    ensures forall x :: DtbStart(t).value <= x < DtbStart(t).value + 64 ==> !MagicAt(t.raw, x)
  {
    hide MagicAt;
  }

  lemma NoMagicAfterShortDtb(t: Image, f1: seq<byte>, img: seq<byte>, x: nat)
    requires Complete(t) && Build(t, f1) == Ok(img) && t.ro == RamdiskOffset(t.hs) && t.ds < 68
    requires |t.frags[0].payload| + |f1| < 0x1_0000_0000
    requires var u := Rebuilt(t, f1, img); u.dtbo <= x < Min(u.dtbo + 256, |img|)
    ensures !MagicAt(img, x)
  {
    hide Assemble, RamdiskOffset, DtbOffset, TableOffset, TableEntry, Header, MagicAt, Pack32, Section, Build, DtbStart;
    SizeCheckIffFits(t, f1);
    var f0 := t.frags[0].payload;
    LayoutOrder(t.hs, |f0| + |f1|, t.ds);
    var u := Rebuilt(t, f1, img);
    MagicFirstAt(t);
    if x + 4 <= u.dtbo + t.ds {
      MagicInDtb(t.raw, DtbStart(t).value, img, u.dtbo, t.ds, x - u.dtbo);
    } else if t.ds > 0 {
      NoMagicOver(img, x, x + 3);
    } else if x < u.tblo + t.es {
      NoMagicInEntry(img, u.tblo, t.es, |f0|, 0, 1, x - u.tblo);
    } else if x < u.tblo + t.es + t.es {
      NoMagicInEntry(img, u.tblo + t.es, t.es, |f1|, |f0|, 2, x - u.tblo - t.es);
    } else {
      NoMagicOver(img, x, x);
    }
  }

  /** A size already in the header makes no difference to the next one written. */
  lemma SameFront(p0: seq<byte>, size: nat, ro: nat, f0: seq<byte>, f1: seq<byte>)
    requires |p0| == PAGE_SIZE && size < 0x1_0000_0000 && |f0| + |f1| < 0x1_0000_0000
    ensures Front(Header(p0, size), ro, f0, f1) == Front(p0, ro, f0, f1)
  {
    hide PyAssign, Pack32;
    var rsz := |f0| + |f1|;
    var h := Header(p0, size);
    var a, b := Overwrite(Zeros(PART_SZ), 0, p0), Overwrite(Zeros(PART_SZ), 0, h);
    assert PySlice(p0, 0, PAGE_SIZE) == p0 && PySlice(h, 0, PAGE_SIZE) == h;
    var c, e := Overwrite(a, 24, Pack32(rsz)), Overwrite(b, 24, Pack32(rsz));
    forall k | 0 <= k < PART_SZ ensures c[k] == e[k] {
      if 24 <= k < 28 {
        assert c[24..28][k - 24] == e[24..28][k - 24];
      } else if k < PAGE_SIZE {
        assert a[0..PAGE_SIZE][k] == p0[k] && b[0..PAGE_SIZE][k] == h[k];
      }
    }
    assert c == e;
  }

  /** The header page of a built image gives the same image as the template's. */
  lemma SameAssembly(p0: seq<byte>, size: nat, ro: nat, f0: seq<byte>, f1: seq<byte>,
                     ds: nat, dtb: seq<byte>, es: nat)
    requires |p0| == PAGE_SIZE && size < 0x1_0000_0000 && |f0| + |f1| < 0x1_0000_0000 && es >= 12
    ensures Assemble(Header(p0, size), ro, f0, f1, ds, dtb, es) == Assemble(p0, ro, f0, f1, ds, dtb, es)
  {
    hide Assemble, Front, Header, PyAssign, TableEntry;
    SameFront(p0, size, ro, f0, f1);
    AssembleIsFront(p0, ro, f0, f1, ds, dtb, es);
    AssembleIsFront(Header(p0, size), ro, f0, f1, ds, dtb, es);
  }

  lemma DtbCopied(t: Image, f1: seq<byte>, img: seq<byte>)
    requires Complete(t) && Build(t, f1) == Ok(img) && t.ro == RamdiskOffset(t.hs)
    requires |t.frags[0].payload| + |f1| < 0x1_0000_0000
    ensures var dtbo := Rebuilt(t, f1, img).dtbo; PySlice(img, dtbo, dtbo + t.ds) == Dtb(t)
    ensures PySlice(t.raw, DtbStart(t).value, DtbStart(t).value + t.ds) == Dtb(t)
  {
    hide Assemble, RamdiskOffset, DtbOffset, TableOffset, DtbStart, TableEntry, Header, Build;
    SizeCheckIffFits(t, f1);
  }

  /**
   * A built image serves as a template as well as the one it was built from: with any new second fragment it gives the
   * same image or the same error, provided the DTB has at least 68 bytes, so that its magic is copied whole. Otherwise
   * no DTB is found in it, which is reported unless the fragments are too long in the first place.
   */
  lemma RepackSameAsTemplate(d: seq<byte>, t: Image, f1: seq<byte>, img: seq<byte>, f2: seq<byte>)
    requires Decoded(d, t) && Build(t, f1) == Ok(img)
    ensures Decode(img).Ok?
    ensures Build(Decode(img).value, f2) ==
            if t.ds >= 68 || |t.frags[0].payload| + |f2| >= 0x1_0000_0000 then Build(t, f2) else Err(DtbNotFound)
  {
    hide Assemble, RamdiskOffset, DtbOffset, TableOffset, Decode, DtbStart, Section, Header, Placed, Dtb;
    DecodedHeader(d, t);
    ImageRoundTrip(d, t, f1, img);
    DtbFoundIffWhole(t, f1, img);
    var f0 := t.frags[0].payload;
    if t.ds >= 68 && |f0| + |f2| < 0x1_0000_0000 {
      SameAssembly(t.p0, |f0| + |f1|, t.ro, f0, f2, t.ds, Dtb(t), t.es);
      DtbCopied(t, f1, img);
    }
  }

  /** With the same second fragment the second build gives the first image back byte for byte, or finds no DTB. */
  lemma RepackFixpoint(d: seq<byte>, t: Image, f1: seq<byte>, img: seq<byte>)
    requires Decoded(d, t) && Build(t, f1) == Ok(img)
    ensures Decode(img).Ok?
    ensures Build(Decode(img).value, f1) == if t.ds >= 68 then Ok(img) else Err(DtbNotFound)
  {
    hide Decode, Build, Decoded;
    RepackSameAsTemplate(d, t, f1, img, f1);
    ImageRoundTrip(d, t, f1, img);
  }

  // ---------- templates on either side of the bound ----------

  /** A template with two empty fragments and a DTB of `ds` bytes, whose magic stands 64 bytes into its section. */
  function Sample(ds: byte): (d: seq<byte>)
    ensures |d| == 8300 && forall i :: 0 <= i < 8300 ==> d[i] == SampleByte(ds, i)
  {
    seq(8300, i requires 0 <= i < 8300 => SampleByte(ds, i))
  }

  /** Header size 4096, DTB size, two table entries of 44 bytes, the magic; everything else is zero. */
  function SampleByte(ds: byte, i: nat): byte {
    if i == 2097 then 16 else if i == 2100 then ds else if i == 2116 then 2 else if i == 2120 then 44
    else if 4160 <= i < 4164 then DTB_MAGIC[i - 4160] else 0
  }

  function SampleImage(ds: byte): Image {
    var none := Frag(0, 0, 0, [], []);
    Image(Sample(ds), Sample(ds)[..PAGE_SIZE], 4096, ds, 0, 4096, 4096, 8192, 2, 44, [none, none])
  }

  lemma SampleWords(ds: byte)
    ensures
      var d := Sample(ds);
      && U32(d, 24) == 0 && U32(d, 2096) == 4096 && U32(d, 2100) == ds && U32(d, 2116) == 2 && U32(d, 2120) == 44
  {
    hide U32, Sample;
    var d := Sample(ds);
    SmallWord(d, 24);
    SmallWord(d, 2096);
    SmallWord(d, 2100);
    SmallWord(d, 2116);
    SmallWord(d, 2120);
  }

  lemma SampleLayout(ds: byte)
    requires ds > 0
    ensures RamdiskOffset(4096) == DtbOffset(4096, 0) == 4096 && TableOffset(4096, ds) == 8192
  {
    hide AlignUp;
  }

  lemma SampleMagic(ds: byte)
    ensures DtbStart(SampleImage(ds)) == Some(4096)
  {
    hide MagicAt, Sample;
    var d := Sample(ds);
    SampleMagicBytes(ds);
    forall x | 4096 <= x < 4160 ensures !MagicAt(d, x) {
      NoMagicOver(d, x, x);
    }
  }

  lemma SampleMagicBytes(ds: byte)
    ensures MagicAt(Sample(ds), 4160)
  {
    assert Sample(ds)[4160..4164] == DTB_MAGIC;
  }

  lemma SampleDecoded(ds: byte)
    requires ds > 0
    ensures Decoded(Sample(ds), SampleImage(ds)) && Build(SampleImage(ds), []).Ok?
  {
    hide U32, Sample, FragAt, ReadFrags, RamdiskOffset, DtbOffset, TableOffset, DtbStart, Build, SampleByte, Placed;
    var d, t := Sample(ds), SampleImage(ds);
    SampleWords(ds);
    SampleLayout(ds);
    SampleMagic(ds);
    SampleBlank(ds);
    BlankEntry(d, 4096, 8192);
    BlankEntry(d, 4096, 8236);
    NoMoreFrags(d, 4096, 8192, 44, 2);
    TwoFrags(d, 4096, 8192, 44, t.frags[0], t.frags[1], 2, []);
    assert t.frags + [] == t.frags;
    SizeCheckIffFits(t, []);
  }

  lemma NoMoreFrags(d: seq<byte>, ro: nat, tblo: nat, es: nat, ec: nat)
    ensures ReadFrags(d, ro, tblo, es, ec, ec) == Ok([])
  {
  }

  lemma SampleBlank(ds: byte)
    ensures forall k :: 8192 <= k < 8300 ==> Sample(ds)[k] == 0
  {
    hide Sample;
  }

  /**
   * With a DTB of 68 bytes the image built from the sample reproduces itself; with one of 67 bytes, which is accepted
   * just as well, the image is built but can never be built from.
   */
  lemma SampleRepacks()
    ensures forall ds: byte :: ds == 67 || ds == 68 ==>
      && Decoded(Sample(ds), SampleImage(ds)) && Build(SampleImage(ds), []).Ok?
      && var img := Build(SampleImage(ds), []).value;
         Decode(img).Ok? && Build(Decode(img).value, []) == if ds == 68 then Ok(img) else Err(DtbNotFound)
  {
    hide Sample, Build, Decode, Complete;
    forall ds: byte | ds == 67 || ds == 68
      ensures Decoded(Sample(ds), SampleImage(ds)) && Build(SampleImage(ds), []).Ok?
      ensures
        var img := Build(SampleImage(ds), []).value;
        Decode(img).Ok? && Build(Decode(img).value, []) == if ds == 68 then Ok(img) else Err(DtbNotFound)
    {
      SampleDecoded(ds);
      RepackFixpoint(Sample(ds), SampleImage(ds), [], Build(SampleImage(ds), []).value);
    }
  }
}
