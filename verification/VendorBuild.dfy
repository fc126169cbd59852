/** Building a vendor_boot image (tools/repack_vendor_boot.py, lines 158-188). */
module VendorBuild {
  import opened Bytes
  import opened VendorBoot

  // ---------- the builder ----------

  predicate MagicAt(raw: seq<byte>, o: nat) { PySlice(raw, o, o + 4) == DTB_MAGIC }

  /** The first offset in [o, hi) at which the DTB magic stands. */
  function FindMagic(raw: seq<byte>, o: nat, hi: nat): (r: Option<nat>)
    ensures r.Some? ==> o <= r.value < hi && MagicAt(raw, r.value) && forall x :: o <= x < r.value ==> !MagicAt(raw, x)
    ensures r.None? ==> forall x :: o <= x < hi ==> !MagicAt(raw, x)
    decreases hi - o
  {
    if o >= hi then None else if MagicAt(raw, o) then Some(o) else FindMagic(raw, o + 1, hi)
  }

  /** Where the DTB of the template starts: 64 bytes before its magic, not before its section. */
  function DtbStart(t: Image): (r: Option<nat>)
    ensures r.Some? ==> r.value >= t.dtbo
  {
    match FindMagic(t.raw, t.dtbo, Min(t.dtbo + 256, |t.raw|))
    case None => None
    case Some(o) => if o < t.dtbo + 64 then None else Some(o - 64)
  }

  lemma MagicMeans(raw: seq<byte>, o: nat)
    requires o <= |raw|
    ensures MagicAt(raw, o) <==> [0xD0, 0x0D, 0xFE, 0xED] <= raw[o..]
  {
    if o + 4 <= |raw| {
      assert raw[o..][..4] == raw[o..o + 4];
    }
  }

  /** The DTB is found exactly if the first magic of the section's first 256 bytes stands 64 bytes into it at least. */
  lemma ScanDecides(t: Image)
    ensures
      var magic: seq<byte> := [0xD0, 0x0D, 0xFE, 0xED];
      DtbStart(t).Some? <==>
        exists o :: t.dtbo + 64 <= o < t.dtbo + 256 && o <= |t.raw| && magic <= t.raw[o..]
                    && forall x :: t.dtbo <= x < o ==> !(magic <= t.raw[x..])
  {
    hide MagicAt;
    var magic: seq<byte> := [0xD0, 0x0D, 0xFE, 0xED];
    forall x: nat | x <= |t.raw| ensures MagicAt(t.raw, x) <==> magic <= t.raw[x..] {
      MagicMeans(t.raw, x);
    }
    if o :| t.dtbo + 64 <= o < t.dtbo + 256 && o <= |t.raw| && magic <= t.raw[o..]
            && forall x :: t.dtbo <= x < o ==> !(magic <= t.raw[x..]) {
      ScanIs(t, o);
    }
    if DtbStart(t).Some? {
      assert magic <= t.raw[DtbStart(t).value + 64..];
    }
  }

  /** Then the DTB starts 64 bytes before that magic. */
  lemma ScanIs(t: Image, o: nat)
    requires t.dtbo + 64 <= o < t.dtbo + 256 && o <= |t.raw| && [0xD0, 0x0D, 0xFE, 0xED] <= t.raw[o..]
    requires forall x :: t.dtbo <= x < o ==> !([0xD0, 0x0D, 0xFE, 0xED] <= t.raw[x..])
    ensures DtbStart(t) == Some(o - 64)
  {
    hide MagicAt;
    MagicMeans(t.raw, o);
    forall x | t.dtbo <= x < o ensures !MagicAt(t.raw, x) {
      MagicMeans(t.raw, x);
    }
  }

  /** A fragment table entry of `es` bytes, or 44 if `es` is less than that. */
  function TableEntry(es: nat, size: nat, offset: nat, kind: nat): (s: seq<byte>)
    requires es >= 12 && size < 0x1_0000_0000 && offset < 0x1_0000_0000 && kind < 0x1_0000_0000
    ensures |s| == Max(es, 44)
  {
    var raw := Zeros(es);
    var raw := Overwrite(raw, 0, Pack32(size));
    var raw := Overwrite(raw, 4, Pack32(offset));
    var raw := Overwrite(raw, 8, Pack32(kind));
    PyAssign(raw, 12, 44, Zeros(32))
  }

  /** The slice assignments into the zeroed partition, in the program's order. */
  function Assemble(p0: seq<byte>, ro: nat, f0: seq<byte>, f1: seq<byte>, ds: nat, dtb: seq<byte>, es: nat): seq<byte>
    requires |f0| + |f1| < 0x1_0000_0000 && es >= 12
  {
    var rsz := |f0| + |f1|;
    var dtbo := DtbOffset(ro, rsz);
    var tblo := TableOffset(dtbo, ds);
    var img := PyAssign(Zeros(PART_SZ), 0, PAGE_SIZE, PySlice(p0, 0, PAGE_SIZE));
    var img := Overwrite(img, 24, Pack32(rsz));
    var img := PyAssign(img, ro, ro + |f0|, f0);
    var img := PyAssign(img, ro + |f0|, ro + rsz, f1);
    var img := PyAssign(img, dtbo, dtbo + ds, dtb);
    var img := PyAssign(img, tblo, tblo + es, TableEntry(es, |f0|, 0, 1));
    PyAssign(img, tblo + es, tblo + es + es, TableEntry(es, |f1|, |f0|, 2))
  }

  /** What the builder makes of a decoded template and a new second fragment. */
  function Build(t: Image, f1: seq<byte>): Result<seq<byte>, Error> {
    if |t.frags| < 2 then Err(MissingFragment)
    else
      var f0 := t.frags[0].payload;
      if |f0| + |f1| >= 0x1_0000_0000 then Err(StructError)
      else if DtbStart(t).None? then Err(DtbNotFound)
      else if t.es < 12 then Err(StructError)
      else
        var start := DtbStart(t).value;
        var img := Assemble(t.p0, RamdiskOffset(t.hs), f0, f1, t.ds, PySlice(t.raw, start, start + t.ds), t.es);
        if |img| != PART_SZ then Err(SizeMismatch) else Ok(img)
  }

  method BuildImage(t: Image, f1: seq<byte>) returns (r: Result<seq<byte>, Error>)
    ensures r == Build(t, f1)
    ensures |t.frags| < 2 ==> r == Err(MissingFragment)
    ensures |t.frags| >= 2 && |t.frags[0].payload| + |f1| >= 0x1_0000_0000 ==> r == Err(StructError)
    ensures |t.frags| >= 2 && |t.frags[0].payload| + |f1| < 0x1_0000_0000 ==>
      var magic: seq<byte> := [0xD0, 0x0D, 0xFE, 0xED];
      r != Err(DtbNotFound) <==>
        exists o :: t.dtbo + 64 <= o < t.dtbo + 256 && o <= |t.raw| && magic <= t.raw[o..]
                    && forall x :: t.dtbo <= x < o ==> !(magic <= t.raw[x..])
    ensures r.Ok? ==> |r.value| == 0x400_0000
  {
    ScanDecides(t);
    hide RamdiskOffset, DtbOffset, TableOffset, PySlice, PyAssign, Overwrite, TableEntry, MagicAt;
    if |t.frags| < 2 {
      return Err(MissingFragment);
    }
    var f0 := t.frags[0].payload;
    var rsz := |f0| + |f1|;
    if rsz >= 0x1_0000_0000 {
      return Err(StructError);
    }
    var img := PyAssign(Zeros(PART_SZ), 0, PAGE_SIZE, PySlice(t.p0, 0, PAGE_SIZE));
    RoomForSize(t.p0);
    img := Overwrite(img, 24, Pack32(rsz));
    var ro := RamdiskOffset(t.hs);
    img := PyAssign(img, ro, ro + |f0|, f0);
    img := PyAssign(img, ro + |f0|, ro + rsz, f1);
    var dtbo := DtbOffset(ro, rsz);
    var dStart: Option<nat> := None;
    var o, hi := t.dtbo, Min(t.dtbo + 256, |t.raw|);
    while o < hi
      invariant dStart.None?
      invariant FindMagic(t.raw, t.dtbo, hi) == FindMagic(t.raw, o, hi)
      decreases hi - o
    {
      if MagicAt(t.raw, o) {
        if o >= t.dtbo + 64 {
          dStart := Some(o - 64);
        }
        break;
      }
      o := o + 1;
    }
    if dStart.None? {
      return Err(DtbNotFound);
    }
    img := PyAssign(img, dtbo, dtbo + t.ds, PySlice(t.raw, dStart.value, dStart.value + t.ds));
    var tblo := TableOffset(dtbo, t.ds);
    if t.es < 12 {
      return Err(StructError);
    }
    ghost var before := img;
    var entries := [(f0, 0), (f1, |f0|)];
    for i := 0 to 2
      invariant i >= 0
      invariant img == TableWritten(before, tblo, t.es, |f0|, |f1|, i)
    {
      var eo := tblo + i * t.es;
      img := PyAssign(img, eo, eo + t.es, TableEntry(t.es, |entries[i].0|, entries[i].1, i + 1));
    }
    if |img| != PART_SZ {
      return Err(SizeMismatch);
    }
    return Ok(img);
  }

  /** The image after `i` turns of the table loop. */
  ghost function TableWritten(img: seq<byte>, tblo: nat, es: nat, n0: nat, n1: nat, i: nat): seq<byte>
    requires es >= 12 && n0 < 0x1_0000_0000 && n1 < 0x1_0000_0000
  {
    if i == 0 then img
    else
      var first := PyAssign(img, tblo, tblo + es, TableEntry(es, n0, 0, 1));
      if i == 1 then first else PyAssign(first, tblo + es, tblo + es + es, TableEntry(es, n1, n0, 2))
  }

  lemma RoomForSize(p0: seq<byte>)
    ensures |PyAssign(Zeros(PART_SZ), 0, PAGE_SIZE, PySlice(p0, 0, PAGE_SIZE))| >= PART_SZ - PAGE_SIZE
  {
  }
}
