/** What holds of every vendor_boot image the builder produces. */
module VendorProofs {
  import opened Bytes
  import opened VendorBoot
  import opened VendorBuild

  /** `data` stands at offset `at` of `img`. */
  ghost predicate Section(img: seq<byte>, at: nat, data: seq<byte>) {
    at + |data| <= |img| && img[at..at + |data|] == data
  }

  /** Nothing but zeros stands in [a, b) of `img`. */
  ghost predicate Blank(img: seq<byte>, a: nat, b: nat) {
    b <= |img| && forall k :: a <= k < b ==> img[k] == 0
  }

  /** Whether the sections of an image of these sizes fit the partition. */
  predicate Fits(ro: nat, rsz: nat, ds: nat, es: nat) {
    TableOffset(DtbOffset(ro, rsz), ds) + es + es <= PART_SZ
  }

  /** Header, ramdisk, DTB and table are laid out in this order, apart from one another. */
  lemma LayoutOrder(hs: nat, rsz: nat, ds: nat)
    requires hs > 0
    ensures
      var ro := RamdiskOffset(hs);
      var dtbo := DtbOffset(ro, rsz);
      var tblo := TableOffset(dtbo, ds);
      && PAGE_SIZE <= ro && ro + rsz <= dtbo && dtbo + ds <= tblo
      && ro % PAGE_SIZE == dtbo % PAGE_SIZE == tblo % PAGE_SIZE == 0
      && (ds > 0 ==> dtbo + PAGE_SIZE <= tblo) && (ds == 0 ==> tblo == dtbo)
      && hs <= ro < hs + 4096 && dtbo < ro + rsz + 4096 && tblo < dtbo + ds + 4096
  {
    hide AlignUp;
  }

  // ---------- slice assignment ----------

  /** Assigning as many bytes as the slice has never shrinks the buffer, and grows it if it reaches past the end. */
  lemma AssignLength(img: seq<byte>, at: nat, data: seq<byte>)
    ensures |PyAssign(img, at, at + |data|, data)| >= |img|
    ensures at + |data| > |img| && |data| > 0 ==> |PyAssign(img, at, at + |data|, data)| > |img|
  {
  }

  lemma SectionKept(img: seq<byte>, at: nat, data: seq<byte>, at': nat, data': seq<byte>)
    requires Section(img, at, data) && at' + |data'| <= |img|
    requires at + |data| <= at' || at' + |data'| <= at
    ensures Section(Overwrite(img, at', data'), at, data)
  {
    var r := Overwrite(img, at', data');
    forall k | 0 <= k < |data| ensures r[at..at + |data|][k] == data[k] {
      assert img[at..at + |data|][k] == data[k];
    }
  }

  lemma BlankKept(img: seq<byte>, a: nat, b: nat, at: nat, data: seq<byte>)
    requires Blank(img, a, b) && at + |data| <= |img| && (b <= at || at + |data| <= a)
    ensures Blank(Overwrite(img, at, data), a, b)
  {
  }

  /** The header page with the new ramdisk size in it. */
  function Header(p0: seq<byte>, rsz: nat): (h: seq<byte>)
    requires |p0| == PAGE_SIZE && rsz < 0x1_0000_0000
    ensures |h| == PAGE_SIZE
  {
    Overwrite(p0, 24, Pack32(rsz))
  }

  /** What stands where in an assembled image. */
  ghost predicate Placed(img: seq<byte>, p0: seq<byte>, ro: nat, f0: seq<byte>, f1: seq<byte>,
                         ds: nat, dtb: seq<byte>, es: nat)
    requires |p0| == PAGE_SIZE && |f0| + |f1| < 0x1_0000_0000 && es >= 12
  {
    var dtbo := DtbOffset(ro, |f0| + |f1|);
    var tblo := TableOffset(dtbo, ds);
    && |img| == PART_SZ
    && Section(img, 0, Header(p0, |f0| + |f1|))
    && Section(img, ro, f0) && Section(img, ro + |f0|, f1)
    && Section(img, dtbo, dtb)
    && Section(img, tblo, TableEntry(es, |f0|, 0, 1)) && Section(img, tblo + es, TableEntry(es, |f1|, |f0|, 2))
    && Blank(img, PAGE_SIZE, ro) && Blank(img, ro + |f0| + |f1|, dtbo)
    && Blank(img, dtbo + |dtb|, tblo) && Blank(img, tblo + es + es, PART_SZ)
  }

  /** The first four writes: header page, size, both fragments. */
  function Front(p0: seq<byte>, ro: nat, f0: seq<byte>, f1: seq<byte>): (img: seq<byte>)
    requires |f0| + |f1| < 0x1_0000_0000
  {
    var img := PyAssign(Zeros(PART_SZ), 0, PAGE_SIZE, PySlice(p0, 0, PAGE_SIZE));
    var img := Overwrite(img, 24, Pack32(|f0| + |f1|));
    var img := PyAssign(img, ro, ro + |f0|, f0);
    PyAssign(img, ro + |f0|, ro + (|f0| + |f1|), f1)
  }

  lemma FrontPlaced(p0: seq<byte>, ro: nat, f0: seq<byte>, f1: seq<byte>)
    requires |p0| == PAGE_SIZE <= ro && ro + |f0| + |f1| <= PART_SZ
    ensures
      var img := Front(p0, ro, f0, f1);
      && |img| == PART_SZ
      && Section(img, 0, Header(p0, |f0| + |f1|)) && Section(img, ro, f0) && Section(img, ro + |f0|, f1)
      && Blank(img, PAGE_SIZE, ro) && Blank(img, ro + |f0| + |f1|, PART_SZ)
  {
    hide Pack32, PyAssign, PySlice, Overwrite, Header;
    var rsz := |f0| + |f1|;
    HeaderPlaced(p0, rsz);
    var b := Overwrite(PyAssign(Zeros(PART_SZ), 0, PAGE_SIZE, PySlice(p0, 0, PAGE_SIZE)), 24, Pack32(rsz));
    var c := Overwrite(b, ro, f0);
    assert Front(p0, ro, f0, f1) == Overwrite(c, ro + |f0|, f1);
    SectionKept(b, 0, Header(p0, rsz), ro, f0);
    SectionKept(c, 0, Header(p0, rsz), ro + |f0|, f1);
    SectionKept(c, ro, f0, ro + |f0|, f1);
    BlankKept(b, PAGE_SIZE, ro, ro, f0);
    BlankKept(c, PAGE_SIZE, ro, ro + |f0|, f1);
    BlankKept(b, ro + |f0| + |f1|, PART_SZ, ro, f0);
    BlankKept(c, ro + |f0| + |f1|, PART_SZ, ro + |f0|, f1);
  }

  lemma HeaderPlaced(p0: seq<byte>, rsz: nat)
    requires |p0| == PAGE_SIZE && rsz < 0x1_0000_0000
    ensures
      var img := Overwrite(PyAssign(Zeros(PART_SZ), 0, PAGE_SIZE, PySlice(p0, 0, PAGE_SIZE)), 24, Pack32(rsz));
      && |img| == PART_SZ && Section(img, 0, Header(p0, rsz))
      && Blank(img, PAGE_SIZE, PART_SZ)
  {
    hide Pack32, PyAssign, Overwrite, Header;
    assert p0[0..PAGE_SIZE] == p0;
    HeaderSection(Overwrite(Zeros(PART_SZ), 0, p0), p0, rsz);
  }

  lemma HeaderSection(img: seq<byte>, p0: seq<byte>, rsz: nat)
    requires |p0| == PAGE_SIZE && rsz < 0x1_0000_0000 && Section(img, 0, p0)
    ensures Section(Overwrite(img, 24, Pack32(rsz)), 0, Header(p0, rsz))
  {
    hide Pack32;
    var r, h := Overwrite(img, 24, Pack32(rsz)), Header(p0, rsz);
    forall k | 0 <= k < PAGE_SIZE ensures r[k] == h[k] {
      if 24 <= k < 28 {
        assert r[24..28][k - 24] == h[24..28][k - 24];
      } else {
        assert img[0..PAGE_SIZE][k] == p0[k];
      }
    }
  }

  /** If everything fits, every write is in range and every section is where the layout says. */
  lemma AssemblePlaced(p0: seq<byte>, hs: nat, f0: seq<byte>, f1: seq<byte>, dtb: seq<byte>, es: nat)
    requires |p0| == PAGE_SIZE && hs > 0 && es >= 44 && Fits(RamdiskOffset(hs), |f0| + |f1|, |dtb|, es)
    ensures |f0| + |f1| < 0x1_0000_0000
    ensures var ro := RamdiskOffset(hs);
            Placed(Assemble(p0, ro, f0, f1, |dtb|, dtb, es), p0, ro, f0, f1, |dtb|, dtb, es)
  {
    hide RamdiskOffset, DtbOffset, TableOffset, PyAssign, Overwrite, Section, Pack32, Header, TableEntry, Front;
    LayoutOrder(hs, |f0| + |f1|, |dtb|);
    var ro, rsz := RamdiskOffset(hs), |f0| + |f1|;
    var dtbo := DtbOffset(ro, rsz);
    var tblo := TableOffset(dtbo, |dtb|);
    FrontPlaced(p0, ro, f0, f1);
    AssembleIsFront(p0, ro, f0, f1, |dtb|, dtb, es);
    ThreeWrites(Front(p0, ro, f0, f1), Header(p0, rsz), ro, f0, f1, dtbo, dtb, tblo,
                TableEntry(es, |f0|, 0, 1), TableEntry(es, |f1|, |f0|, 2));
  }

  /** DTB and table laid behind the ramdisk leave it alone and leave zeros between and behind them. */
  lemma ThreeWrites(img: seq<byte>, h: seq<byte>, ro: nat, f0: seq<byte>, f1: seq<byte>,
                    dtbo: nat, dtb: seq<byte>, tblo: nat, e0: seq<byte>, e1: seq<byte>)
    requires Section(img, 0, h) && Section(img, ro, f0) && Section(img, ro + |f0|, f1)
    requires |h| <= ro && ro + |f0| + |f1| <= dtbo && dtbo + |dtb| <= tblo && tblo + |e0| + |e1| <= |img|
    requires Blank(img, |h|, ro) && Blank(img, ro + |f0| + |f1|, |img|)
    ensures
      var b := PyAssign(img, dtbo, dtbo + |dtb|, dtb);
      var c := PyAssign(b, tblo, tblo + |e0|, e0);
      var r := PyAssign(c, tblo + |e0|, tblo + |e0| + |e1|, e1);
      && |r| == |img|
      && Section(r, 0, h) && Section(r, ro, f0) && Section(r, ro + |f0|, f1)
      && Section(r, dtbo, dtb) && Section(r, tblo, e0) && Section(r, tblo + |e0|, e1)
      && Blank(r, |h|, ro) && Blank(r, ro + |f0| + |f1|, dtbo)
      && Blank(r, dtbo + |dtb|, tblo) && Blank(r, tblo + |e0| + |e1|, |r|)
  {
    hide PyAssign, Overwrite, Section, Blank;
    var rsz := |f0| + |f1|;
    BlankParts(img, ro + rsz, dtbo, dtbo + |dtb|, tblo, tblo + |e0| + |e1|);
    var b := Overwrite(img, dtbo, dtb);
    KeepFront(img, h, ro, f0, f1, dtbo, dtb);
    var c := Overwrite(b, tblo, e0);
    KeepFront(b, h, ro, f0, f1, tblo, e0);
    SectionKept(b, dtbo, dtb, tblo, e0);
    KeepFront(c, h, ro, f0, f1, tblo + |e0|, e1);
    SectionKept(c, dtbo, dtb, tblo + |e0|, e1);
    SectionKept(c, tblo, e0, tblo + |e0|, e1);
    GapsKept(img, |h|, ro, ro + rsz, dtbo, dtbo + |dtb|, tblo, tblo + |e0| + |e1|, dtbo, dtb);
    GapsKept(b, |h|, ro, ro + rsz, dtbo, dtbo + |dtb|, tblo, tblo + |e0| + |e1|, tblo, e0);
    GapsKept(c, |h|, ro, ro + rsz, dtbo, dtbo + |dtb|, tblo, tblo + |e0| + |e1|, tblo + |e0|, e1);
  }

  lemma BlankParts(img: seq<byte>, a: nat, b: nat, c: nat, d: nat, e: nat)
    requires Blank(img, a, |img|) && a <= b <= c <= d <= e <= |img|
    ensures Blank(img, a, b) && Blank(img, c, d) && Blank(img, e, |img|)
  {
  }

  /** A write to one of the sections leaves the gaps before, between and behind them blank. */
  lemma GapsKept(img: seq<byte>, a: nat, b: nat, c: nat, d: nat, e: nat, f: nat, g: nat, at: nat, data: seq<byte>)
    requires a <= b <= c <= d <= e <= f <= g <= |img|
    requires Blank(img, a, b) && Blank(img, c, d) && Blank(img, e, f) && Blank(img, g, |img|)
    requires (d <= at && at + |data| <= e) || (f <= at && at + |data| <= g)
    ensures
      var r := Overwrite(img, at, data);
      |r| == |img| && Blank(r, a, b) && Blank(r, c, d) && Blank(r, e, f) && Blank(r, g, |r|)
  {
    hide Blank, Overwrite;
    BlankKept(img, a, b, at, data);
    BlankKept(img, c, d, at, data);
    BlankKept(img, e, f, at, data);
    BlankKept(img, g, |img|, at, data);
  }

  lemma AssembleIsFront(p0: seq<byte>, ro: nat, f0: seq<byte>, f1: seq<byte>, ds: nat, dtb: seq<byte>, es: nat)
    requires |f0| + |f1| < 0x1_0000_0000 && es >= 12
    ensures
      var dtbo := DtbOffset(ro, |f0| + |f1|);
      var tblo := TableOffset(dtbo, ds);
      var b := PyAssign(Front(p0, ro, f0, f1), dtbo, dtbo + ds, dtb);
      var c := PyAssign(b, tblo, tblo + es, TableEntry(es, |f0|, 0, 1));
      Assemble(p0, ro, f0, f1, ds, dtb, es)
        == PyAssign(c, tblo + es, tblo + es + es, TableEntry(es, |f1|, |f0|, 2))
  {
    hide PyAssign, Overwrite, DtbOffset, TableOffset, TableEntry, Pack32, PySlice;
  }

  lemma KeepFront(img: seq<byte>, h: seq<byte>, ro: nat, f0: seq<byte>, f1: seq<byte>, at: nat, data: seq<byte>)
    requires Section(img, 0, h) && Section(img, ro, f0) && Section(img, ro + |f0|, f1)
    requires |h| <= at && ro + |f0| + |f1| <= at && at + |data| <= |img|
    ensures
      var r := Overwrite(img, at, data);
      Section(r, 0, h) && Section(r, ro, f0) && Section(r, ro + |f0|, f1) && Section(r, at, data)
  {
    SectionKept(img, 0, h, at, data);
    SectionKept(img, ro, f0, at, data);
    SectionKept(img, ro + |f0|, f1, at, data);
  }

  /** If the table would end past the partition, some write grows the buffer and it never shrinks back. */
  lemma AssembleOverflows(p0: seq<byte>, ro: nat, f0: seq<byte>, f1: seq<byte>, dtb: seq<byte>, es: nat)
    requires |p0| == PAGE_SIZE && |f0| + |f1| < 0x1_0000_0000 && es >= 44 && !Fits(ro, |f0| + |f1|, |dtb|, es)
    ensures |Assemble(p0, ro, f0, f1, |dtb|, dtb, es)| > PART_SZ
  {
    hide DtbOffset, TableOffset, PyAssign, Overwrite, Pack32, TableEntry, Front;
    AssembleIsFront(p0, ro, f0, f1, |dtb|, dtb, es);
    FrontLength(p0, ro, f0, f1);
    var dtbo := DtbOffset(ro, |f0| + |f1|);
    var tblo := TableOffset(dtbo, |dtb|);
    var a := Front(p0, ro, f0, f1);
    AssignLength(a, dtbo, dtb);
    var b := PyAssign(a, dtbo, dtbo + |dtb|, dtb);
    var e0, e1 := TableEntry(es, |f0|, 0, 1), TableEntry(es, |f1|, |f0|, 2);
    AssignLength(b, tblo, e0);
    AssignLength(PyAssign(b, tblo, tblo + es, e0), tblo + es, e1);
  }

  lemma EntryGrows(img: seq<byte>, at: nat, es: nat, e: seq<byte>)
    requires |e| > es
    ensures |PyAssign(img, at, at + es, e)| > |img|
  {
  }

  /** Entries of fewer than 44 bytes are written with the whole name field, more than they take the place of. */
  lemma AssembleGrows(p0: seq<byte>, ro: nat, f0: seq<byte>, f1: seq<byte>, dtb: seq<byte>, es: nat)
    requires |p0| == PAGE_SIZE && |f0| + |f1| < 0x1_0000_0000 && 12 <= es < 44
    ensures |Assemble(p0, ro, f0, f1, |dtb|, dtb, es)| > PART_SZ
  {
    hide DtbOffset, TableOffset, PyAssign, Overwrite, Pack32, TableEntry, Front;
    AssembleIsFront(p0, ro, f0, f1, |dtb|, dtb, es);
    FrontLength(p0, ro, f0, f1);
    var dtbo := DtbOffset(ro, |f0| + |f1|);
    var tblo := TableOffset(dtbo, |dtb|);
    var a := Front(p0, ro, f0, f1);
    AssignLength(a, dtbo, dtb);
    var b := PyAssign(a, dtbo, dtbo + |dtb|, dtb);
    var e0, e1 := TableEntry(es, |f0|, 0, 1), TableEntry(es, |f1|, |f0|, 2);
    EntryGrows(b, tblo, es, e0);
    EntryGrows(PyAssign(b, tblo, tblo + es, e0), tblo + es, es, e1);
  }

  lemma FrontLength(p0: seq<byte>, ro: nat, f0: seq<byte>, f1: seq<byte>)
    requires |p0| == PAGE_SIZE && |f0| + |f1| < 0x1_0000_0000
    ensures |Front(p0, ro, f0, f1)| >= PART_SZ
  {
    hide PyAssign, Overwrite, Pack32;
    var a := PyAssign(Zeros(PART_SZ), 0, PAGE_SIZE, PySlice(p0, 0, PAGE_SIZE));
    AssignLength(Zeros(PART_SZ), 0, PySlice(p0, 0, PAGE_SIZE));
    var b := Overwrite(a, 24, Pack32(|f0| + |f1|));
    AssignLength(b, ro, f0);
    AssignLength(PyAssign(b, ro, ro + |f0|, f0), ro + |f0|, f1);
  }

  // ---------- placement ----------

  /** A template with two table entries, a whole header page and a whole DTB. */
  ghost predicate Complete(t: Image) {
    && |t.frags| >= 2 && |t.p0| == PAGE_SIZE && t.hs > 0
    && DtbStart(t).Some? && DtbStart(t).value + t.ds <= |t.raw|
  }

  ghost function Dtb(t: Image): (dtb: seq<byte>)
    requires Complete(t)
    ensures |dtb| == t.ds
  {
    t.raw[DtbStart(t).value..DtbStart(t).value + t.ds]
  }

  /**
   * The final size check passes exactly when table entries have room for a name and the table ends within the
   * partition; then every section is in place.
   */
  lemma SizeCheckIffFits(t: Image, f1: seq<byte>)
    requires Complete(t) && |t.frags[0].payload| + |f1| < 0x1_0000_0000
    ensures
      var f0 := t.frags[0].payload;
      var ro := RamdiskOffset(t.hs);
      && (Build(t, f1).Ok? <==> t.es >= 44 && Fits(ro, |f0| + |f1|, t.ds, t.es))
      && (Build(t, f1).Err? ==> Build(t, f1).error == if t.es < 12 then StructError else SizeMismatch)
      && (Build(t, f1).Ok? ==> Placed(Build(t, f1).value, t.p0, ro, f0, f1, t.ds, Dtb(t), t.es))
  {
    hide RamdiskOffset, DtbOffset, TableOffset, PyAssign, DtbStart, Assemble;
    var f0 := t.frags[0].payload;
    var ro := RamdiskOffset(t.hs);
    var dtb := Dtb(t);
    if t.es < 12 {
    } else if t.es < 44 {
      AssembleGrows(t.p0, ro, f0, f1, dtb, t.es);
    } else if Fits(ro, |f0| + |f1|, t.ds, t.es) {
      AssemblePlaced(t.p0, t.hs, f0, f1, dtb, t.es);
    } else {
      AssembleOverflows(t.p0, ro, f0, f1, dtb, t.es);
    }
  }
}
