/** When the property patcher succeeds, what it writes, and what it complains about, in terms of entries and lines. */
module PatchOutcome {
  import opened Bytes
  import opened Lines
  import opened PatchedLines
  import opened PropPatch
  import Newc

  /** The texts of the program's table. */
  lemma TableReads()
    ensures |PROPERTY_PATCHES| == 2
    ensures
      var p, q := PROPERTY_PATCHES[0], PROPERTY_PATCHES[1];
      && Spells(p.oldLine, "ro.secure=1") && Spells(p.newLine, "ro.secure=0") && p.property == "ro.secure"
      && Spells(q.oldLine, "ro.debuggable=0") && Spells(q.newLine, "ro.debuggable=1") && q.property == "ro.debuggable"
    ensures Spells(PROP_DEFAULT, "prop.default") && Spells(Newc.TRAILER, "TRAILER!!!")
  {
  }

  /** The bytes are the ASCII codes of the text. */
  predicate Spells(s: seq<byte>, text: string) {
    |s| == |text| && forall k :: 0 <= k < |s| ==> s[k] == text[k] as int
  }

  /** There is a target exactly if one entry has the name, and its type is that of a regular file. */
  lemma TargetMeans(cpio: seq<byte>, es: seq<Newc.Entry>, i: nat)
    requires Newc.Ends(cpio, 0) && Newc.Parse(cpio) == Ok(es)
    requires i < |es| && es[i].path == [112, 114, 111, 112, 46, 100, 101, 102, 97, 117, 108, 116]
    requires forall j :: 0 <= j < |es| && j != i ==>
      es[j].path != [112, 114, 111, 112, 46, 100, 101, 102, 97, 117, 108, 116]
    ensures HasTarget(cpio) <==> es[i].fileType == 0x8000
    ensures HasTarget(cpio) ==>
      && Target(cpio) == es[i]
      && Before(cpio) == (if es[i].dataStart <= es[i].dataEnd then cpio[es[i].dataStart..es[i].dataEnd] else [])
  {
    hide Newc.Parse, Newc.Ends, Targets;
    OneIndex(es, i);
    OnlyNamed(es, i);
  }

  lemma OneIndex(es: seq<Newc.Entry>, i: nat)
    requires i < |es| && es[i].path == PROP_DEFAULT
    requires forall j :: 0 <= j < |es| && j != i ==> es[j].path != PROP_DEFAULT
    ensures i in Named(es) && |Named(es)| == 1
  {
    assert Named(es) == {i};
  }

  lemma NoTargetMeans(cpio: seq<byte>, es: seq<Newc.Entry>)
    requires Newc.Ends(cpio, 0) && Newc.Parse(cpio) == Ok(es)
    requires forall i :: 0 <= i < |es| && es[i].path == [112, 114, 111, 112, 46, 100, 101, 102, 97, 117, 108, 116] ==>
      exists j :: 0 <= j < |es| && j != i && es[j].path == es[i].path
    ensures !HasTarget(cpio)
  {
    hide Newc.Parse, Newc.Ends, Targets;
    TargetsCount(es);
    if |Named(es)| == 1 {
      var i := OnlyIndex(es);
    }
  }

  lemma OnlyIndex(es: seq<Newc.Entry>) returns (i: nat)
    requires |Named(es)| == 1
    ensures i < |es| && es[i].path == PROP_DEFAULT
    ensures forall j :: 0 <= j < |es| && j != i ==> es[j].path != es[i].path
  {
    i :| i in Named(es);
    Singleton(Named(es), i);
    forall j | 0 <= j < |es| && j != i ensures es[j].path != es[i].path {
      assert j !in Named(es) && Paths(es)[j] == es[j].path;
    }
  }

  lemma Singleton(s: set<int>, i: int)
    requires |s| == 1 && i in s
    ensures s == {i}
  {
    assert |s - {i}| == 0;
  }

  /** Patchable means: each old line once in the text, and no new one. */
  lemma PatchableMeans(cpio: seq<byte>, ps: seq<Patch>)
    ensures Patchable(cpio, ps) <==>
            && HasTarget(cpio)
            && (forall k :: 0 <= k < |ps| ==> |Hits(Before(cpio), ps[k].oldLine)| == 1)
            && (forall k :: 0 <= k < |ps| ==> |Hits(Before(cpio), ps[k].newLine)| == 0)
  {
    hide HasTarget, Before, Hits;
  }

  /** The complaint is about the first patch whose old line is not there once, or else whose new line is there. */
  lemma ComplaintMeans(cpio: seq<byte>, ps: seq<Patch>)
    requires HasTarget(cpio) && Newc.Ends(cpio, 0) && !Patchable(cpio, ps)
    ensures forall k: nat :: k < |ps| && |Hits(Before(cpio), ps[k].oldLine)| != 1
                             && (forall j :: 0 <= j < k ==> |Hits(Before(cpio), ps[j].oldLine)| == 1) ==>
      Complaint(cpio, ps) == OldLineCount(k, |Hits(Before(cpio), ps[k].oldLine)|)
    ensures (forall j :: 0 <= j < |ps| ==> |Hits(Before(cpio), ps[j].oldLine)| == 1) ==>
      forall k: nat :: k < |ps| && |Hits(Before(cpio), ps[k].newLine)| != 0
                       && (forall j :: 0 <= j < k ==> |Hits(Before(cpio), ps[j].newLine)| == 0) ==>
        Complaint(cpio, ps) == NewLineNotUnique(k)
  {
    hide HasTarget, Before, Hits, FirstOldFault, FirstNewFault;
    var data := Before(cpio);
    FaultsDecide(data, ps);
    forall k: nat | k < |ps| && |Hits(data, ps[k].oldLine)| != 1
                    && (forall j :: 0 <= j < k ==> |Hits(data, ps[j].oldLine)| == 1)
      ensures Complaint(cpio, ps) == OldLineCount(k, |Hits(data, ps[k].oldLine)|)
    {
      FirstOld(data, ps, 0, k);
    }
    if forall j :: 0 <= j < |ps| ==> |Hits(data, ps[j].oldLine)| == 1 {
      forall k: nat | k < |ps| && |Hits(data, ps[k].newLine)| != 0
                      && (forall j :: 0 <= j < k ==> |Hits(data, ps[j].newLine)| == 0)
        ensures Complaint(cpio, ps) == NewLineNotUnique(k)
      {
        FirstNew(data, ps, 0, k);
      }
    }
  }

  lemma {:induction false} FirstOld(data: seq<byte>, ps: seq<Patch>, i: nat, k: nat)
    requires i <= k < |ps| && |Hits(data, ps[k].oldLine)| != 1
    requires forall j :: i <= j < k ==> |Hits(data, ps[j].oldLine)| == 1
    ensures FirstOldFault(data, ps, i) == Some(k)
    decreases k - i
  {
    hide Hits;
    if i < k {
      FirstOld(data, ps, i + 1, k);
    }
  }

  lemma {:induction false} FirstNew(data: seq<byte>, ps: seq<Patch>, i: nat, k: nat)
    requires i <= k < |ps| && |Hits(data, ps[k].newLine)| != 0
    requires forall j :: i <= j < k ==> |Hits(data, ps[j].newLine)| == 0
    ensures FirstNewFault(data, ps, i) == Some(k)
    decreases k - i
  {
    hide Hits;
    if i < k {
      FirstNew(data, ps, i + 1, k);
    }
  }

  /** In the output each new line stands where its old line was, and every other byte is as it was. */
  lemma OutputMeans(cpio: seq<byte>, ps: seq<Patch>, x: nat)
    requires WellFormed(ps) && Patchable(cpio, ps) && x < |cpio|
    ensures |PatchedArchive(cpio, ps, |ps|)| == |cpio|
    ensures forall k, p: nat :: 0 <= k < |ps| && Hits(Before(cpio), ps[k].oldLine) == [p] ==>
      var at := Target(cpio).dataStart + p;
      at <= x < at + |ps[k].newLine| ==> PatchedArchive(cpio, ps, |ps|)[x] == ps[k].newLine[x - at]
    ensures (forall k, p: nat :: 0 <= k < |ps| && Hits(Before(cpio), ps[k].oldLine) == [p] ==>
               !(Target(cpio).dataStart + p <= x < Target(cpio).dataStart + p + |ps[k].newLine|)) ==>
      PatchedArchive(cpio, ps, |ps|)[x] == cpio[x]
  {
    hide HasTarget, Target, Before, Hits, WellFormed, PatchedArchive;
    forall k, p: nat | 0 <= k < |ps| && Hits(Before(cpio), ps[k].oldLine) == [p]
      ensures var to := Target(cpio).dataStart + p;
              to <= x < to + |ps[k].newLine| ==> PatchedArchive(cpio, ps, |ps|)[x] == ps[k].newLine[x - to]
    {
      NewLineByte(cpio, ps, k, p, x);
    }
    if PatchedArchive(cpio, ps, |ps|)[x] != cpio[x] {
      var k, p := ChangedBySome(cpio, ps, x);
    }
  }

  lemma ChangedBySome(cpio: seq<byte>, ps: seq<Patch>, x: nat) returns (k: nat, p: nat)
    requires WellFormed(ps) && Patchable(cpio, ps) && x < |cpio| && PatchedArchive(cpio, ps, |ps|)[x] != cpio[x]
    ensures k < |ps| && Hits(Before(cpio), ps[k].oldLine) == [p]
    ensures Target(cpio).dataStart + p <= x < Target(cpio).dataStart + p + |ps[k].newLine|
  {
    hide HasTarget, Target, Before, Hits, WellFormed, PatchedArchive, ChangedOffset;
    ChangedIff(cpio, ps, x);
    k :| 0 <= k < |ps| && x == ChangedOffset(cpio, ps, k);
    ChangedInLine(cpio, ps, k);
    p :| Hits(Before(cpio), ps[k].oldLine) == [p]
         && Target(cpio).dataStart + p <= ChangedOffset(cpio, ps, k) < Target(cpio).dataStart + p + |ps[k].newLine|;
  }

  lemma NewLineByte(cpio: seq<byte>, ps: seq<Patch>, k: nat, p: nat, x: nat)
    requires WellFormed(ps) && Patchable(cpio, ps) && x < |cpio| && k < |ps| && Hits(Before(cpio), ps[k].oldLine) == [p]
    ensures
      var to := Target(cpio).dataStart + p;
      to <= x < to + |ps[k].newLine| ==> PatchedArchive(cpio, ps, |ps|)[x] == ps[k].newLine[x - to]
  {
    hide HasTarget, Target, Before, Start, Patched, WellFormed, Overwrite, IsHit, LastByteChange;
    var at, data := Start(cpio), Before(cpio);
    ItemChanges(ps, k);
    SameLengths(ps[k]);
    PositionFits(data, ps, k);
    assert Position(data, ps, k) == p;
    OverwrittenByte(cpio, at, Patched(data, ps, |ps|), x);
    LineInside(data, ps, k);
    if at + p <= x < at + p + |ps[k].newLine| {
      assert InLine(data, ps, k, x - at);
      ByteInside(data, ps, |ps|, k, x - at);
    }
  }

  lemma ChangedInLine(cpio: seq<byte>, ps: seq<Patch>, k: nat)
    requires WellFormed(ps) && Patchable(cpio, ps) && k < |ps|
    ensures exists p: nat ::
      && Hits(Before(cpio), ps[k].oldLine) == [p]
      && Target(cpio).dataStart + p <= ChangedOffset(cpio, ps, k) < Target(cpio).dataStart + p + |ps[k].newLine|
  {
    hide HasTarget, Target, Before, Start, WellFormed, IsHit, LastByteChange;
    ItemChanges(ps, k);
    SameLengths(ps[k]);
    ChangedInside(cpio, ps, k);
    var h := Hits(Before(cpio), ps[k].oldLine);
    assert h == [h[0]];
  }
}
