/** A run of the patcher that changes the entries of the archive, because the archive's members overlap. */
module PatchLimits {
  import opened Bytes
  import opened Lines
  import opened PatchedLines
  import opened Overlap
  import Newc
  import opened NewcFormat
  import PropPatch

  // ---------- a text of two lines ----------

  function TwoLines(v: seq<byte>, w: seq<byte>): seq<byte> { v + [10] + w + [10] }

  lemma TwoLineStarts(v: seq<byte>, w: seq<byte>, p: nat)
    requires TerminatorFree(v) && TerminatorFree(w)
    ensures LineStart(TwoLines(v, w), p) ==> p == 0 || p == |v| + 1
  {
    var s := TwoLines(v, w);
    if 0 < p < |s| {
      assert p - 1 < |v| ==> s[p - 1] == v[p - 1];
      assert |v| < p - 1 < |v| + 1 + |w| ==> s[p - 1] == w[p - |v| - 2];
    }
  }

  lemma TwoLineHits(v: seq<byte>, w: seq<byte>, line: seq<byte>, p: nat)
    requires TerminatorFree(v) && TerminatorFree(w)
    ensures IsHit(TwoLines(v, w), line, p) <==> (p == 0 && line == v) || (p == |v| + 1 && line == w)
  {
    var s := TwoLines(v, w);
    assert s[0..|v|] == v && s[|v| + 1..|v| + 1 + |w|] == w;
    assert IsHit(s, v, 0) && IsHit(s, w, |v| + 1);
    TwoLineStarts(v, w, p);
    if IsHit(s, line, p) {
      if p == 0 {
        SameLine(s, line, v, 0);
      } else {
        SameLine(s, line, w, |v| + 1);
      }
    }
  }

  lemma TwoLineCount(v: seq<byte>, w: seq<byte>, line: seq<byte>)
    requires TerminatorFree(v) && TerminatorFree(w) && v != w
    ensures |Hits(TwoLines(v, w), line)| == if line == v || line == w then 1 else 0
  {
    hide IsHit, TwoLines, Hits;
    var s := TwoLines(v, w);
    HitsAre(s, line);
    forall p: nat | true ensures IsHit(s, line, p) <==> (p == 0 && line == v) || (p == |v| + 1 && line == w) {
      TwoLineHits(v, w, line, p);
    }
    if line == v {
      assert OnlyHit(s, line, 0);
    } else if line == w {
      assert OnlyHit(s, line, |v| + 1);
    }
  }

  /** The shortest text that the program's table patches. */
  function PlainProps(): seq<byte> { TwoLines(PropPatch.SECURE_1, PropPatch.DEBUGGABLE_0) }

  lemma PlainPropsReady()
    ensures OldUnique(PlainProps(), PropPatch.PROPERTY_PATCHES) && NewAbsent(PlainProps(), PropPatch.PROPERTY_PATCHES)
  {
    hide Hits, TwoLines, LastByteChange;
    PropPatch.ProgramTable();
    var ps := PropPatch.PROPERTY_PATCHES;
    forall i | 0 <= i < 2
      ensures |Hits(PlainProps(), ps[i].oldLine)| == 1 && |Hits(PlainProps(), ps[i].newLine)| == 0
    {
      TwoLineCount(ps[0].oldLine, ps[1].oldLine, ps[i].oldLine);
      TwoLineCount(ps[0].oldLine, ps[1].oldLine, ps[i].newLine);
    }
  }

  // ---------- patching prop.default inside another member's name ----------

  predicate AsciiTable(ps: seq<Patch>) { forall i :: 0 <= i < |ps| ==> Ascii(ps[i].newLine) }

  lemma AsciiOver(s: seq<byte>, at: nat, t: seq<byte>)
    requires Ascii(s) && Ascii(t) && at + |t| <= |s|
    ensures Ascii(Overwrite(s, at, t))
  {
  }

  lemma {:induction false} PatchedAscii(data: seq<byte>, ps: seq<Patch>, k: nat)
    requires WellFormed(ps) && OldUnique(data, ps) && k <= |ps| && Ascii(data) && AsciiTable(ps)
    ensures Ascii(Patched(data, ps, k))
  {
    hide Hits, LastByteChange, WellFormed, Position, Overwrite;
    if k > 0 {
      PatchedAscii(data, ps, k - 1);
      PropPatch.PositionFits(data, ps, k - 1);
      AsciiOver(Patched(data, ps, k - 1), Position(data, ps, k - 1), ps[k - 1].newLine);
    }
  }

  lemma OverwriteAll(s: seq<byte>, t: seq<byte>)
    requires |s| == |t|
    ensures Overwrite(s, 0, t) == t
  {
    assert Overwrite(s, 0, t)[0..|t|] == Overwrite(s, 0, t);
  }

  lemma PatchedDiffers(data: seq<byte>, ps: seq<Patch>)
    requires WellFormed(ps) && OldUnique(data, ps) && ps != []
    ensures Patched(data, ps, |ps|) != data
  {
    hide Hits, LastByteChange, WellFormed, Patched, Overwrite, DiffsBelow, IsHit;
    assert data[0..|data|] == data;
    PropPatch.CountChanges(data, 0, |data|, ps, |ps|, |data|);
    assert Overwrite(data, 0, Patched(data, ps, |ps|)) == Patched(data, ps, |ps|) by {
      OverwriteAll(data, Patched(data, ps, |ps|));
    }
    if Patched(data, ps, |ps|) == data {
      PropPatch.NoDiffs(data, |data|);
    }
  }

  function HiddenProps(data: seq<byte>): seq<byte> { Overlapping(PlainMember(PropPatch.PROP_DEFAULT, 0x8000, data)) }

  lemma SecondOfTwo(es: seq<Newc.Entry>)
    requires |es| == 2 && es[0].path != PropPatch.PROP_DEFAULT && es[1].path == PropPatch.PROP_DEFAULT
    ensures PropPatch.Targets(es) == [es[1]]
  {
    var last := es[1..];
    assert last == [es[1]] && last[1..] == [];
    assert PropPatch.Targets(last) == last;
  }

  lemma HiddenTarget(data: seq<byte>)
    requires Ascii(data) && |data| <= 0x10_0000
    ensures
      var cpio, e := HiddenProps(data), PlainMember(PropPatch.PROP_DEFAULT, 0x8000, data).EntryAt(112);
      && PropPatch.HasTarget(cpio) && PropPatch.Target(cpio) == e && PropPatch.Start(cpio) == e.dataStart
      && PropPatch.Before(cpio) == data
  {
    hide Overlapping, OuterName, Newc.Parse, Newc.Ends;
    assert Ascii(PropPatch.PROP_DEFAULT);
    OverlappingParses(PropPatch.PROP_DEFAULT, 0x8000, data);
    OnlyDataDiffers(PropPatch.PROP_DEFAULT, 0x8000, data, data);
    var es := Newc.Parse(HiddenProps(data)).value;
    SecondOfTwo(es);
  }

  /** The table patches the archive, and the output parses to other entries than the input. */
  ghost predicate ChangesEntries(cpio: seq<byte>, ps: seq<Patch>) {
    && WellFormed(ps) && PropPatch.Patchable(cpio, ps)
    && var out := PropPatch.PatchedArchive(cpio, ps, |ps|);
       Newc.Ends(out, 0) && Newc.Parse(out).Ok? && Newc.Parse(out) != Newc.Parse(cpio)
  }

  /** Such an archive is patched, but what the patch writes shows up in the name of the outer member. */
  lemma PatchingRenames(data: seq<byte>, ps: seq<Patch>)
    requires WellFormed(ps) && ps != [] && AsciiTable(ps) && Ascii(data) && |data| <= 0x10_0000
    requires OldUnique(data, ps) && NewAbsent(data, ps)
    ensures ChangesEntries(HiddenProps(data), ps)
  {
    hide HiddenProps, Newc.Parse, Newc.Ends, WellFormed, Patched, Hits, PropPatch.HasTarget;
    hide PropPatch.Target, PropPatch.Start, PropPatch.Before;
    var text := Patched(data, ps, |ps|);
    PatchedAscii(data, ps, |ps|);
    PatchedDiffers(data, ps);
    HiddenTarget(data);
    HiddenPair(data, text);
  }

  lemma HiddenPair(data: seq<byte>, text: seq<byte>)
    requires Ascii(data) && Ascii(text) && |text| == |data| <= 0x10_0000 && text != data
    ensures
      var a, b := HiddenProps(data), HiddenProps(text);
      var at := PlainMember(PropPatch.PROP_DEFAULT, 0x8000, data).EntryAt(112).dataStart;
      && at + |text| <= |a| && b == Overwrite(a, at, text)
      && Newc.Ends(b, 0) && Newc.Parse(b).Ok? && Newc.Ends(a, 0) && Newc.Parse(b) != Newc.Parse(a)
  {
    hide Newc.Parse, Newc.Ends, Overlapping, PlainMember, Member.EntryAt;
    assert Ascii(PropPatch.PROP_DEFAULT);
    OnlyDataDiffers(PropPatch.PROP_DEFAULT, 0x8000, data, text);
    DataMatters(PropPatch.PROP_DEFAULT, 0x8000, data, text);
  }

  /** The program itself does so: it accepts this archive, and the entries of its output are others. */
  lemma ProgramRenames()
    ensures ChangesEntries(HiddenProps(PlainProps()), PropPatch.PROPERTY_PATCHES)
  {
    hide HiddenProps, ChangesEntries, WellFormed, Hits;
    PropPatch.ProgramTable();
    PlainPropsReady();
    assert Ascii(PlainProps());
    assert AsciiTable(PropPatch.PROPERTY_PATCHES);
    PatchingRenames(PlainProps(), PropPatch.PROPERTY_PATCHES);
  }
}
