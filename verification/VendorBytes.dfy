/** What the builder writes where, byte by byte. */
module VendorBytes {
  import opened Bytes
  import opened VendorBoot
  import opened VendorBuild
  import opened VendorProofs
  import opened VendorRoundTrip

  /** With a whole header page and a whole DTB, whether an image comes out is a matter of the table alone. */
  lemma BuildDecides(t: Image, f1: seq<byte>, o: nat, ro: nat, dtbo: nat, tblo: nat)
    requires |t.frags| >= 2 && |t.frags[0].payload| + |f1| < 0x1_0000_0000
    requires |t.p0| == 4096 && t.hs > 0
    requires t.dtbo + 64 <= o < t.dtbo + 256 && o <= |t.raw| && [0xD0, 0x0D, 0xFE, 0xED] <= t.raw[o..]
    requires forall x :: t.dtbo <= x < o ==> !([0xD0, 0x0D, 0xFE, 0xED] <= t.raw[x..])
    requires o - 64 + t.ds <= |t.raw|
    requires ro % 4096 == 0 && t.hs <= ro < t.hs + 4096
    requires var end := ro + |t.frags[0].payload| + |f1|; dtbo % 4096 == 0 && end <= dtbo < end + 4096
    requires tblo % 4096 == 0 && dtbo + t.ds <= tblo < dtbo + t.ds + 4096
    ensures Build(t, f1).Ok? <==> t.es >= 44 && tblo + 2 * t.es <= 0x400_0000
    ensures Build(t, f1).Err? ==> Build(t, f1).error == if t.es < 12 then StructError else SizeMismatch
    ensures Build(t, f1).Ok? ==>
      Placed(Build(t, f1).value, t.p0, ro, t.frags[0].payload, f1, t.ds, t.raw[o - 64..o - 64 + t.ds], t.es)
  {
    hide RamdiskOffset, DtbOffset, TableOffset, DtbStart, Build, Placed;
    ScanIs(t, o);
    LayoutIs(t.hs, |t.frags[0].payload| + |f1|, t.ds, ro, dtbo, tblo);
    SizeCheckIffFits(t, f1);
  }

  /** The header page keeps all its bytes but the four of the ramdisk size. */
  lemma HeaderBytes(img: seq<byte>, p0: seq<byte>, n: nat)
    requires |p0| == 4096 && n < 0x1_0000_0000 && Section(img, 0, Header(p0, n))
    ensures |img| >= 4096 && img[..24] == p0[..24] && img[28..4096] == p0[28..4096]
    ensures img[24..28] == [n % 256, n / 0x100 % 256, n / 0x1_0000 % 256, n / 0x100_0000]
  {
    hide Pack32;
    var h := Header(p0, n);
    Pack32Means(n);
    SubSlice(img, 0, h, 24, 28);
    assert h[24..28] == Pack32(n);
    assert forall k :: 0 <= k < 4096 ==> img[0..4096][k] == img[k];
    assert img[..24] == p0[..24];
    assert img[28..4096] == p0[28..4096];
  }

  /** A table entry: size, offset and kind, and zeros for the name and whatever follows it. */
  lemma EntryBytes(img: seq<byte>, at: nat, es: nat, size: nat, offset: nat, kind: nat)
    requires es >= 44 && size < 0x1_0000_0000 && offset < 0x1_0000_0000 && kind < 256
    requires Section(img, at, TableEntry(es, size, offset, kind))
    ensures at + es <= |img|
    ensures img[at..at + 4] == [size % 256, size / 0x100 % 256, size / 0x1_0000 % 256, size / 0x100_0000]
    ensures img[at + 4..at + 8] ==
            [offset % 256, offset / 0x100 % 256, offset / 0x1_0000 % 256, offset / 0x100_0000]
    ensures img[at + 8..at + 12] == [kind, 0, 0, 0]
    ensures forall k :: at + 12 <= k < at + es ==> img[k] == 0
  {
    hide Pack32, TableEntry;
    var e := TableEntry(es, size, offset, kind);
    TableEntryBytes(es, size, offset, kind);
    Pack32Means(size);
    Pack32Means(offset);
    Pack32Means(kind);
    SubSlice(img, at, e, 0, 4);
    SubSlice(img, at, e, 4, 8);
    SubSlice(img, at, e, 8, 12);
    forall k | at + 12 <= k < at + es ensures img[k] == 0 {
      assert img[at..at + es][k - at] == e[k - at];
    }
  }

  /** Every byte of a built image: header page, both fragments, DTB, the two table entries, and zeros elsewhere. */
  lemma BuiltBytes(t: Image, f1: seq<byte>, img: seq<byte>, o: nat, ro: nat, dtbo: nat, tblo: nat)
    requires |t.frags| >= 2 && |t.p0| == 4096 && t.hs > 0 && Build(t, f1) == Ok(img)
    requires t.dtbo + 64 <= o < t.dtbo + 256 && o <= |t.raw| && [0xD0, 0x0D, 0xFE, 0xED] <= t.raw[o..]
    requires forall x :: t.dtbo <= x < o ==> !([0xD0, 0x0D, 0xFE, 0xED] <= t.raw[x..])
    requires o - 64 + t.ds <= |t.raw|
    requires ro % 4096 == 0 && t.hs <= ro < t.hs + 4096
    requires var end := ro + |t.frags[0].payload| + |f1|; dtbo % 4096 == 0 && end <= dtbo < end + 4096
    requires tblo % 4096 == 0 && dtbo + t.ds <= tblo < dtbo + t.ds + 4096
    ensures |img| == 0x400_0000 && t.es >= 44 && tblo + 2 * t.es <= 0x400_0000
    ensures
      var n := |t.frags[0].payload| + |f1|;
      && img[..24] == t.p0[..24] && img[28..4096] == t.p0[28..4096]
      && img[24..28] == [n % 256, n / 0x100 % 256, n / 0x1_0000 % 256, n / 0x100_0000]
    ensures
      var m := |t.frags[0].payload|;
      img[ro..ro + m] == t.frags[0].payload && img[ro + m..ro + m + |f1|] == f1
    ensures img[dtbo..dtbo + t.ds] == t.raw[o - 64..o - 64 + t.ds]
    ensures
      var m := |t.frags[0].payload|;
      && img[tblo..tblo + 4] == [m % 256, m / 0x100 % 256, m / 0x1_0000 % 256, m / 0x100_0000]
      && img[tblo + 4..tblo + 8] == [0, 0, 0, 0] && img[tblo + 8..tblo + 12] == [1, 0, 0, 0]
    ensures
      var m, n, at := |t.frags[0].payload|, |f1|, tblo + t.es;
      && img[at..at + 4] == [n % 256, n / 0x100 % 256, n / 0x1_0000 % 256, n / 0x100_0000]
      && img[at + 4..at + 8] == [m % 256, m / 0x100 % 256, m / 0x1_0000 % 256, m / 0x100_0000]
      && img[at + 8..at + 12] == [2, 0, 0, 0]
    ensures forall k ::
      (4096 <= k < ro || ro + |t.frags[0].payload| + |f1| <= k < dtbo || dtbo + t.ds <= k < tblo
       || tblo + 12 <= k < tblo + t.es || tblo + t.es + 12 <= k < 0x400_0000) ==> img[k] == 0
  {
    hide RamdiskOffset, DtbOffset, TableOffset, Section, Header, TableEntry, Assemble, DtbStart;
    var f0 := t.frags[0].payload;
    BuildDecides(t, f1, o, ro, dtbo, tblo);
    LayoutIs(t.hs, |f0| + |f1|, t.ds, ro, dtbo, tblo);
    HeaderBytes(img, t.p0, |f0| + |f1|);
    EntryBytes(img, tblo, t.es, |f0|, 0, 1);
    EntryBytes(img, tblo + t.es, t.es, |f1|, |f0|, 2);
    SectionMeans(img, ro, f0);
    SectionMeans(img, ro + |f0|, f1);
    SectionMeans(img, dtbo, t.raw[o - 64..o - 64 + t.ds]);
  }

  lemma SectionMeans(img: seq<byte>, at: nat, data: seq<byte>)
    requires Section(img, at, data)
    ensures at + |data| <= |img| && img[at..at + |data|] == data
  {
  }
}
