/** The in-place property patcher of tools/patch_recovery_adbd_props.py. */
module PropPatch {
  import opened Bytes
  import opened Lines
  import opened PatchedLines
  import Newc

  // "prop.default"
  const PROP_DEFAULT: seq<byte> := [112, 114, 111, 112, 46, 100, 101, 102, 97, 117, 108, 116]
  // "ro.secure=1" and "ro.secure=0"
  const SECURE_1: seq<byte> := [114, 111, 46, 115, 101, 99, 117, 114, 101, 61, 49]
  const SECURE_0: seq<byte> := [114, 111, 46, 115, 101, 99, 117, 114, 101, 61, 48]
  // "ro.debuggable=0" and "ro.debuggable=1"
  const DEBUGGABLE_0: seq<byte> := [114, 111, 46, 100, 101, 98, 117, 103, 103, 97, 98, 108, 101, 61, 48]
  const DEBUGGABLE_1: seq<byte> := [114, 111, 46, 100, 101, 98, 117, 103, 103, 97, 98, 108, 101, 61, 49]

  const PROPERTY_PATCHES: seq<Patch> := [
    Patch(SECURE_1, SECURE_0, "ro.secure"),
    Patch(DEBUGGABLE_0, DEBUGGABLE_1, "ro.debuggable")]

  datatype Error =
    | NotAnArchive(error: Newc.Error)
    | TargetCount(count: int)
    | NotARegularFile
    | OldLineCount(index: int, count: int)
    | ChangeCount(count: int)
    | OldLineSurvived(index: int)
    | NewLineNotUnique(index: int)

  datatype Report = Report(entrySize: nat, changedProperties: seq<string>, changedOffsets: seq<nat>)

  /** The table the program runs with is of the kind everything below is proved for. */
  lemma ProgramTable()
    ensures WellFormed(PROPERTY_PATCHES)
  {
    hide LastByteChange, TerminatorFree;
    SecurePatch();
    DebuggablePatch();
    TableDiffers();
    var ps := PROPERTY_PATCHES;
    assert ps[0] == Patch(SECURE_1, SECURE_0, "ro.secure");
    assert ps[1] == Patch(DEBUGGABLE_0, DEBUGGABLE_1, "ro.debuggable");
  }

  lemma SecurePatch()
    ensures LastByteChange(Patch(SECURE_1, SECURE_0, "ro.secure"))
    ensures TerminatorFree(SECURE_1) && TerminatorFree(SECURE_0)
  {
    assert SECURE_1[..10] == SECURE_0[..10];
  }

  lemma DebuggablePatch()
    ensures LastByteChange(Patch(DEBUGGABLE_0, DEBUGGABLE_1, "ro.debuggable"))
    ensures TerminatorFree(DEBUGGABLE_0) && TerminatorFree(DEBUGGABLE_1)
  {
    assert DEBUGGABLE_0[..14] == DEBUGGABLE_1[..14];
  }

  lemma TableDiffers()
    ensures SECURE_1 != SECURE_0 && DEBUGGABLE_0 != DEBUGGABLE_1
    ensures |SECURE_1| == |SECURE_0| != |DEBUGGABLE_0| == |DEBUGGABLE_1|
  {
    assert SECURE_1[10] != SECURE_0[10] && DEBUGGABLE_0[14] != DEBUGGABLE_1[14];
  }

  // ---------- what is accepted ----------

  function Targets(entries: seq<Newc.Entry>): (ts: seq<Newc.Entry>)
    ensures forall t :: t in ts <==> t in entries && t.path == PROP_DEFAULT
  {
    if entries == [] then []
    else if entries[0].path == PROP_DEFAULT then [entries[0]] + Targets(entries[1..])
    else Targets(entries[1..])
  }

  /** Where `x` occurs. */
  ghost function Indices<T>(s: seq<T>, x: T): set<int> { set i | 0 <= i < |s| && s[i] == x }

  lemma IndicesLast<T>(s: seq<T>, x: T)
    requires s != []
    ensures var n := |s| - 1; |Indices(s, x)| == |Indices(s[..n], x)| + if s[n] == x then 1 else 0
  {
    var n := |s| - 1;
    if s[n] == x {
      assert Indices(s, x) == Indices(s[..n], x) + {n};
    } else {
      assert Indices(s, x) == Indices(s[..n], x);
    }
  }

  function Paths(es: seq<Newc.Entry>): (r: seq<seq<byte>>)
    ensures |r| == |es| && forall i :: 0 <= i < |es| ==> r[i] == es[i].path
  {
    seq(|es|, i requires 0 <= i < |es| => es[i].path)
  }

  /** The indices of the members named prop.default. */
  ghost function Named(es: seq<Newc.Entry>): set<int> { Indices(Paths(es), PROP_DEFAULT) }

  lemma NamedMeans(es: seq<Newc.Entry>, i: int)
    ensures i in Named(es) <==>
            0 <= i < |es| && es[i].path == [112, 114, 111, 112, 46, 100, 101, 102, 97, 117, 108, 116]
  {
  }

  lemma {:induction false} TargetsLast(es: seq<Newc.Entry>)
    requires es != []
    ensures
      var n := |es| - 1;
      |Targets(es)| == |Targets(es[..n])| + if es[n].path == PROP_DEFAULT then 1 else 0
  {
    var n := |es| - 1;
    if n > 0 {
      TargetsLast(es[1..]);
      assert es[1..][..n - 1] == es[..n][1..];
    }
  }

  lemma {:induction false} TargetsCount(es: seq<Newc.Entry>)
    ensures |Targets(es)| == |Named(es)|
  {
    hide Targets, Indices;
    if es == [] {
      NoneNamed();
    } else {
      var n := |es| - 1;
      TargetsCount(es[..n]);
      TargetsLast(es);
      IndicesLast(Paths(es), PROP_DEFAULT);
      assert Paths(es)[..n] == Paths(es[..n]);
    }
  }

  lemma NoneNamed()
    ensures Named([]) == {} && Targets([]) == []
  {
  }

  /** If one entry has the name, it is the target. */
  lemma OnlyNamed(es: seq<Newc.Entry>, i: int)
    requires |Named(es)| == 1 && i in Named(es)
    ensures Targets(es) == [es[i]]
  {
    hide Targets;
    TargetsCount(es);
    var ts := Targets(es);
    assert i in Indices(Paths(es), PROP_DEFAULT) && Paths(es)[i] == es[i].path;
    assert es[i] in ts;
    assert ts == [ts[0]];
  }

  /** The archive parses and has one member named prop.default, which is a regular file. */
  ghost predicate HasTarget(cpio: seq<byte>) {
    && Newc.Ends(cpio, 0) && Newc.Parse(cpio).Ok?
    && |Targets(Newc.Parse(cpio).value)| == 1
    && Targets(Newc.Parse(cpio).value)[0].fileType == Newc.S_IFREG
  }

  ghost function Target(cpio: seq<byte>): (e: Newc.Entry)
    requires HasTarget(cpio)
    ensures e in Newc.Parse(cpio).value
    ensures 0 < e.dataEnd <= |cpio|
    ensures Newc.NonNegativeSizes(Newc.Parse(cpio).value) ==> e.dataStart <= e.dataEnd
  {
    var e := Targets(Newc.Parse(cpio).value)[0];
    EntryInside(cpio, e);
    e
  }

  lemma EntryInside(cpio: seq<byte>, e: Newc.Entry)
    requires Newc.Ends(cpio, 0) && Newc.Parse(cpio).Ok? && e in Newc.Parse(cpio).value
    ensures 0 < e.dataEnd <= |cpio|
    ensures Newc.NonNegativeSizes(Newc.Parse(cpio).value) ==> e.dataStart <= e.dataEnd
  {
    hide Newc.ParseEntry, Newc.ParseFrom, Newc.Chain, Newc.Ends, AlignUp;
    var entries := Newc.Parse(cpio).value;
    Newc.ParseIffChain(cpio, entries, 0);
    var i :| 0 <= i < |entries| && entries[i] == e;
    Newc.EndsInside(cpio, entries, i);
    Newc.NextInChain(cpio, entries, 0, i);
    Newc.MemberEnds(cpio, e);
  }

  /** Where the contents of prop.default start; with a negative size there are none. */
  ghost function Start(cpio: seq<byte>): (at: nat)
    requires HasTarget(cpio)
    ensures at <= Target(cpio).dataEnd
    ensures Newc.NonNegativeSizes(Newc.Parse(cpio).value) ==> at == Target(cpio).dataStart
  {
    Min(Target(cpio).dataStart, Target(cpio).dataEnd)
  }

  /** The contents of prop.default. */
  ghost function Before(cpio: seq<byte>): (data: seq<byte>)
    requires HasTarget(cpio)
    ensures data == cpio[Start(cpio)..Target(cpio).dataEnd]
    ensures data != [] ==> Start(cpio) == Target(cpio).dataStart
  {
    PySlice(cpio, Target(cpio).dataStart, Target(cpio).dataEnd)
  }

  /** Exactly the archives that are patched: each old line occurs once in prop.default, no new line does. */
  ghost predicate Patchable(cpio: seq<byte>, ps: seq<Patch>) {
    HasTarget(cpio) && OldUnique(Before(cpio), ps) && NewAbsent(Before(cpio), ps)
  }

  /** The archive with the first `k` patches applied. */
  ghost function PatchedArchive(cpio: seq<byte>, ps: seq<Patch>, k: nat): (out: seq<byte>)
    requires WellFormed(ps) && HasTarget(cpio) && OldUnique(Before(cpio), ps) && k <= |ps|
    ensures |out| == |cpio|
  {
    Overwrite(cpio, Start(cpio), Patched(Before(cpio), ps, k))
  }

  /** The offset of the byte that the i-th patch changes. */
  ghost function ChangedOffset(cpio: seq<byte>, ps: seq<Patch>, i: nat): int
    requires HasTarget(cpio) && OldUnique(Before(cpio), ps) && i < |ps|
  {
    Start(cpio) + Position(Before(cpio), ps, i) + |ps[i].oldLine| - 1
  }

  // ---------- why an archive is refused ----------

  /** The first patch from the i-th on whose old line does not occur exactly once. */
  ghost function FirstOldFault(data: seq<byte>, ps: seq<Patch>, i: nat): (r: Option<nat>)
    requires i <= |ps|
    ensures r.Some? ==> i <= r.value < |ps|
    decreases |ps| - i
  {
    if i == |ps| then None
    else if |Hits(data, ps[i].oldLine)| != 1 then Some(i)
    else FirstOldFault(data, ps, i + 1)
  }

  /** The first patch from the i-th on whose new line is already there. */
  ghost function FirstNewFault(data: seq<byte>, ps: seq<Patch>, i: nat): (r: Option<nat>)
    requires i <= |ps|
    ensures r.Some? ==> i <= r.value < |ps|
    decreases |ps| - i
  {
    if i == |ps| then None
    else if |Hits(data, ps[i].newLine)| != 0 then Some(i)
    else FirstNewFault(data, ps, i + 1)
  }

  /** What is wrong with an archive that has no single regular prop.default. */
  ghost function TargetComplaint(cpio: seq<byte>): (e: Error)
    requires Newc.Ends(cpio, 0)
    ensures !e.ChangeCount? && !e.OldLineSurvived?
  {
    if Newc.Parse(cpio).Err? then NotAnArchive(Newc.Parse(cpio).error)
    else if |Targets(Newc.Parse(cpio).value)| != 1 then TargetCount(|Targets(Newc.Parse(cpio).value)|)
    else NotARegularFile
  }

  /** The complaint about an archive that is not patched: never a wrong number of changes, never a surviving line. */
  ghost function Complaint(cpio: seq<byte>, ps: seq<Patch>): (e: Error)
    requires Newc.Ends(cpio, 0) && !Patchable(cpio, ps)
    ensures !e.ChangeCount? && !e.OldLineSurvived?
  {
    if !HasTarget(cpio) then TargetComplaint(cpio)
    else
      FaultsDecide(Before(cpio), ps);
      match FirstOldFault(Before(cpio), ps, 0)
      case Some(i) => OldLineCount(i, |Hits(Before(cpio), ps[i].oldLine)|)
      case None => NewLineNotUnique(FirstNewFault(Before(cpio), ps, 0).value)
  }

  lemma FaultsDecide(data: seq<byte>, ps: seq<Patch>)
    ensures FirstOldFault(data, ps, 0).None? <==> OldUnique(data, ps)
    ensures FirstNewFault(data, ps, 0).None? <==> NewAbsent(data, ps)
  {
    FaultsFrom(data, ps, 0);
  }

  lemma {:induction false} FaultsFrom(data: seq<byte>, ps: seq<Patch>, i: nat)
    requires i <= |ps|
    ensures FirstOldFault(data, ps, i).None? <==> forall j :: i <= j < |ps| ==> |Hits(data, ps[j].oldLine)| == 1
    ensures FirstNewFault(data, ps, i).None? <==> forall j :: i <= j < |ps| ==> |Hits(data, ps[j].newLine)| == 0
    decreases |ps| - i
  {
    hide Hits;
    if i < |ps| {
      FaultsFrom(data, ps, i + 1);
    }
  }

  // ---------- lemmas about the archive as a whole ----------

  lemma Untouched(cpio: seq<byte>, dataStart: nat, dataEnd: nat, ps: seq<Patch>)
    requires WellFormed(ps) && dataStart <= dataEnd <= |cpio|
    ensures Overwrite(cpio, dataStart, Patched(cpio[dataStart..dataEnd], ps, 0)) == cpio
  {
  }

  /** The slice that is read back after patching is the patched text. */
  lemma PatchedText(s: seq<byte>, dataStart: nat, dataEnd: nat, start: nat, text: seq<byte>)
    requires start == Min(dataStart, dataEnd) && dataEnd <= |s| && start + |text| == dataEnd
    ensures PySlice(Overwrite(s, start, text), dataStart, dataEnd) == text
  {
  }

  /** Patching a line within the data is patching it within the archive. */
  lemma OneMorePatch(cpio: seq<byte>, dataStart: nat, dataEnd: nat, ps: seq<Patch>, i: nat)
    requires WellFormed(ps) && dataStart <= dataEnd <= |cpio| && i < |ps|
    requires OldUniqueUpTo(cpio[dataStart..dataEnd], ps, i)
    requires |Hits(cpio[dataStart..dataEnd], ps[i].oldLine)| == 1
    ensures
      var before := cpio[dataStart..dataEnd];
      var at := dataStart + Position(before, ps, i);
      && OldUniqueUpTo(before, ps, i + 1)
      && at + |ps[i].newLine| <= dataEnd
      && Overwrite(Overwrite(cpio, dataStart, Patched(before, ps, i)), at, ps[i].newLine)
         == Overwrite(cpio, dataStart, Patched(before, ps, i + 1))
  {
    hide Hits, IsHit, Position, WellFormed, LastByteChange, Overwrite;
    var before := cpio[dataStart..dataEnd];
    PositionFits(before, ps, i);
    NestedOverwrite(cpio, dataStart, Patched(before, ps, i), Position(before, ps, i), ps[i].newLine);
  }

  lemma PositionFits(data: seq<byte>, ps: seq<Patch>, i: nat)
    requires WellFormed(ps) && i < |ps| && |Hits(data, ps[i].oldLine)| == 1
    ensures Position(data, ps, i) + |ps[i].newLine| <= |data|
  {
    hide Hits;
    SameLengths(ps[i]);
  }

  lemma NestedOverwrite(s: seq<byte>, at: nat, t: seq<byte>, p: nat, u: seq<byte>)
    requires at + |t| <= |s| && p + |u| <= |t|
    ensures Overwrite(Overwrite(s, at, t), at + p, u) == Overwrite(s, at, Overwrite(t, p, u))
  {
    var a, b := Overwrite(Overwrite(s, at, t), at + p, u), Overwrite(s, at, Overwrite(t, p, u));
    forall k | 0 <= k < |s| ensures a[k] == b[k] {
      if at + p <= k < at + p + |u| {
        assert a[at + p..at + p + |u|][k - at - p] == a[k];
        assert b[at..at + |t|][k - at] == b[k] && Overwrite(t, p, u)[p..p + |u|][k - at - p] == b[k];
      } else if at <= k < at + |t| {
        assert Overwrite(s, at, t)[at..at + |t|][k - at] == a[k];
        assert b[at..at + |t|][k - at] == b[k];
      }
    }
  }

  /** After `k` patches the archive differs from the original in `k` bytes. */
  lemma {:induction false} CountChanges(cpio: seq<byte>, dataStart: nat, dataEnd: nat, ps: seq<Patch>, k: nat, n: nat)
    requires WellFormed(ps) && dataStart <= dataEnd <= |cpio| && k <= |ps| && n == |cpio|
    requires OldUnique(cpio[dataStart..dataEnd], ps)
    ensures |DiffsBelow(cpio, Overwrite(cpio, dataStart, Patched(cpio[dataStart..dataEnd], ps, k)), n)| == k
  {
    hide Hits, IsHit, LastByteChange, Patched, WellFormed, Overwrite, DiffsBelow;
    var before := cpio[dataStart..dataEnd];
    if k == 0 {
      Untouched(cpio, dataStart, dataEnd, ps);
      NoDiffs(cpio, n);
    } else {
      CountChanges(cpio, dataStart, dataEnd, ps, k - 1, n);
      PatchStep(before, ps, k - 1);
      var t, u := Patched(before, ps, k - 1), Patched(before, ps, k);
      var d := Position(before, ps, k - 1) + |ps[k - 1].oldLine| - 1;
      assert cpio[dataStart + d] == before[d];
      OverwriteOneByte(cpio, dataStart, t, u, d);
      OneMoreDiff(cpio, Overwrite(cpio, dataStart, t), Overwrite(cpio, dataStart, u), dataStart + d, n);
    }
  }

  lemma {:induction false} NoDiffs(a: seq<byte>, n: nat)
    requires n <= |a|
    ensures DiffsBelow(a, a, n) == []
  {
    if n > 0 {
      NoDiffs(a, n - 1);
    }
  }

  lemma OverwriteOneByte(s: seq<byte>, at: nat, t: seq<byte>, u: seq<byte>, d: nat)
    requires at + |t| <= |s| && |t| == |u| && d < |t|
    requires s[at + d] == t[d] != u[d] && forall x :: 0 <= x < |t| && x != d ==> t[x] == u[x]
    ensures
      var a, b := Overwrite(s, at, t), Overwrite(s, at, u);
      && s[at + d] == a[at + d] != b[at + d]
      && forall x :: 0 <= x < |s| && x != at + d ==> a[x] == b[x]
  {
    var a, b := Overwrite(s, at, t), Overwrite(s, at, u);
    forall x | at <= x < at + |t| ensures a[x] == t[x - at] && b[x] == u[x - at] {
      assert a[at..at + |t|][x - at] == a[x] && b[at..at + |t|][x - at] == b[x];
    }
  }

  // ---------- the patcher ----------

  /** `output[at:at + len(data)] = data` for a range inside the buffer. */
  method WriteSlice(output: array<byte>, at: nat, data: seq<byte>)
    requires at + |data| <= output.Length
    modifies output
    ensures output[..] == Overwrite(old(output[..]), at, data)
  {
    forall k | 0 <= k < |data| {
      output[at + k] := data[k];
    }
  }

  method ChangedOffsets(a: seq<byte>, b: seq<byte>) returns (offsets: seq<nat>)
    requires |a| == |b|
    ensures offsets == DiffsBelow(a, b, |a|)
  {
    offsets := [];
    for index := 0 to |a|
      invariant offsets == DiffsBelow(a, b, index)
    {
      if a[index] != b[index] {
        offsets := offsets + [index];
      }
    }
  }

  function Properties(ps: seq<Patch>): seq<string> { seq(|ps|, i requires 0 <= i < |ps| => ps[i].property) }

  lemma PropertiesAre(ps: seq<Patch>)
    ensures |Properties(ps)| == |ps| && forall k :: 0 <= k < |ps| ==> Properties(ps)[k] == ps[k].property
  {
  }

  /** The single regular file named prop.default. */
  method FindTarget(cpio: seq<byte>) returns (r: Result<Newc.Entry, Error>)
    requires Newc.Ends(cpio, 0)
    ensures r.Ok? <==> HasTarget(cpio)
    ensures r.Ok? ==> r.value == Target(cpio)
    ensures r.Err? ==> r.error == TargetComplaint(cpio)
    ensures Newc.Parse(cpio).Err? ==> r == Err(NotAnArchive(Newc.Parse(cpio).error))
    ensures Newc.Parse(cpio).Ok? ==>
      var es := Newc.Parse(cpio).value;
      && (|Named(es)| != 1 ==> r == Err(TargetCount(|Named(es)|)))
      && (|Named(es)| == 1 ==>
            forall i :: i in Named(es) ==> r == if es[i].fileType == 0x8000 then Ok(es[i]) else Err(NotARegularFile))
  {
    hide Newc.Parse;
    var parsed := Newc.ParseNewc(cpio);
    if parsed.Err? {
      return Err(NotAnArchive(parsed.error));
    }
    var targets := Targets(parsed.value);
    TargetsCount(parsed.value);
    if |targets| != 1 {
      return Err(TargetCount(|targets|));
    }
    forall i | i in Named(parsed.value) ensures targets == [parsed.value[i]] {
      OnlyNamed(parsed.value, i);
    }
    if targets[0].fileType != Newc.S_IFREG {
      return Err(NotARegularFile);
    }
    return Ok(targets[0]);
  }

  lemma LinesNeedText(data: seq<byte>, line: seq<byte>)
    ensures |Hits(data, line)| > 0 ==> data != []
  {
    HitsAre(data, line);
  }

  /** The loop that lays each new line over the one place where its old line is; `start` is where the text begins. */
  method ApplyPatches(output: array<byte>, dataStart: nat, before: seq<byte>, patches: seq<Patch>, ghost start: nat)
    returns (r: Result<seq<string>, Error>)
    requires WellFormed(patches) && start + |before| <= output.Length && before == output[start..start + |before|]
    requires before != [] ==> start == dataStart
    modifies output
    ensures r.Ok? <==> OldUnique(before, patches)
    ensures r.Ok? ==>
      && output[..] == Overwrite(old(output[..]), start, Patched(before, patches, |patches|))
      && r.value == Properties(patches)
      && FirstOldFault(before, patches, 0) == None
    ensures r.Err? ==>
      && FirstOldFault(before, patches, 0).Some?
      && var i := FirstOldFault(before, patches, 0).value;
         r.error == OldLineCount(i, |Hits(before, patches[i].oldLine)|)
  {
    hide Hits, IsHit, WellFormed, Position, Patched, Overwrite;
    var changedProperties: seq<string> := [];
    ghost var end := start + |before|;
    assert output[..][start..end] == before;
    Untouched(output[..], start, end, patches);
    for i := 0 to |patches|
      invariant OldUniqueUpTo(before, patches, i)
      invariant FirstOldFault(before, patches, 0) == FirstOldFault(before, patches, i)
      invariant output[..] == Overwrite(old(output[..]), start, Patched(before, patches, i))
      invariant changedProperties == Properties(patches[..i])
    {
      var hits := CountExactLines(before, patches[i].oldLine);
      if |hits| != 1 {
        return Err(OldLineCount(i, |hits|));
      }
      LinesNeedText(before, patches[i].oldLine);
      OneMorePatch(old(output[..]), start, end, patches, i);
      WriteSlice(output, dataStart + hits[0], patches[i].newLine);
      changedProperties := changedProperties + [patches[i].property];
    }
    assert patches[..|patches|] == patches;
    r := Ok(changedProperties);
  }

  /** The loop that counts old and new lines in the patched text. */
  method CheckPatched(before: seq<byte>, after: seq<byte>, patches: seq<Patch>) returns (failure: Option<Error>)
    requires WellFormed(patches) && OldUnique(before, patches) && after == Patched(before, patches, |patches|)
    ensures failure.None? <==> NewAbsent(before, patches)
    ensures failure.None? ==> FirstNewFault(before, patches, 0) == None
    ensures failure.Some? ==>
      && FirstNewFault(before, patches, 0).Some?
      && failure.value == NewLineNotUnique(FirstNewFault(before, patches, 0).value)
  {
    hide Hits, IsHit, LastByteChange, Patched, WellFormed;
    failure := None;
    for i := 0 to |patches|
      invariant failure.None?
      invariant FirstNewFault(before, patches, 0) == FirstNewFault(before, patches, i)
      invariant forall j :: 0 <= j < i ==> |Hits(before, patches[j].newLine)| == 0
    {
      LinesAfter(before, patches, i);
      var survivors := CountExactLines(after, patches[i].oldLine);
      if |survivors| != 0 {
        failure := Some(OldLineSurvived(i));  // the invariant on `failure` says that this never happens
      }
      var found := CountExactLines(after, patches[i].newLine);
      if |found| != 1 {
        return Some(NewLineNotUnique(i));
      }
    }
  }

  method PatchProperties(cpio: seq<byte>, patches: seq<Patch>) returns (r: Result<(seq<byte>, Report), Error>)
    requires WellFormed(patches) && Newc.Ends(cpio, 0)
    ensures r.Ok? <==> Patchable(cpio, patches)
    ensures r.Ok? ==>
      && r.value.0 == PatchedArchive(cpio, patches, |patches|)
      && r.value.1.entrySize == |Before(cpio)|
      && r.value.1.changedProperties == Properties(patches)
      && r.value.1.changedOffsets == DiffsBelow(cpio, r.value.0, |cpio|)
      && |r.value.1.changedOffsets| == |patches|
    ensures r.Err? ==> r.error == Complaint(cpio, patches)
    ensures r.Err? ==> !r.error.ChangeCount? && !r.error.OldLineSurvived?
    ensures Newc.Parse(cpio).Err? ==> r == Err(NotAnArchive(Newc.Parse(cpio).error))
    ensures Newc.Parse(cpio).Ok? ==>
      var es := Newc.Parse(cpio).value;
      && (|Named(es)| != 1 ==> r == Err(TargetCount(|Named(es)|)))
      && (|Named(es)| == 1 ==> forall i :: i in Named(es) && es[i].fileType != 0x8000 ==> r == Err(NotARegularFile))
    ensures r.Ok? ==>
      && |r.value.1.changedProperties| == |patches|
      && forall k :: 0 <= k < |patches| ==> r.value.1.changedProperties[k] == patches[k].property
  {
    hide HasTarget, Targets, Hits, IsHit, LastByteChange, Patched, Overwrite, WellFormed, DiffsBelow, Properties;
    hide Newc.Ends, Newc.Parse, Newc.NonNegativeSizes, TargetComplaint, FirstOldFault, FirstNewFault, Named;
    PropertiesAre(patches);
    var entry :- FindTarget(cpio);
    var dataStart, dataEnd := entry.dataStart, entry.dataEnd;
    var before := PySlice(cpio, dataStart, dataEnd);
    ghost var start := Start(cpio);
    var output := new byte[|cpio|](k requires 0 <= k < |cpio| => cpio[k]);
    assert output[..] == cpio;
    var changedProperties :- ApplyPatches(output, dataStart, before, patches, start);
    var changedOffsets := ChangedOffsets(cpio, output[..]);
    CountChanges(cpio, start, dataEnd, patches, |patches|, |cpio|);
    var failure: Option<Error> := None;
    if |changedOffsets| != |patches| {
      failure := Some(ChangeCount(|changedOffsets|));  // never, by CountChanges
    }
    var after := PySlice(output[..], dataStart, dataEnd);
    PatchedText(cpio, dataStart, dataEnd, start, Patched(before, patches, |patches|));
    if failure.None? {
      failure := CheckPatched(before, after, patches);
    }
    match failure {
      case Some(error) => r := Err(error);
      case None => r := Ok((output[..], Report(|before|, changedProperties, changedOffsets)));
    }
  }

  // ---------- which bytes change ----------

  lemma HasEntries(cpio: seq<byte>)
    requires HasTarget(cpio)
    ensures Newc.Ends(cpio, 0) && Newc.Parse(cpio).Ok?
  {
  }

  lemma ChangedInside(cpio: seq<byte>, ps: seq<Patch>, i: nat)
    requires WellFormed(ps) && Patchable(cpio, ps) && i < |ps|
    ensures Target(cpio).dataStart == Start(cpio) <= ChangedOffset(cpio, ps, i) < Target(cpio).dataEnd
  {
    hide HasTarget, Patched, Hits, LastByteChange, WellFormed, Before, Start, Position;
    PatchStep(Before(cpio), ps, i);
  }

  lemma OverwrittenByte(s: seq<byte>, at: nat, t: seq<byte>, x: nat)
    requires at + |t| <= |s| && x < |s|
    ensures Overwrite(s, at, t)[x] == if at <= x < at + |t| then t[x - at] else s[x]
  {
    assert at <= x < at + |t| ==> Overwrite(s, at, t)[at..at + |t|][x - at] == Overwrite(s, at, t)[x];
  }

  lemma LineInside(data: seq<byte>, ps: seq<Patch>, i: nat)
    requires WellFormed(ps) && OldUnique(data, ps) && i < |ps|
    ensures 0 <= Position(data, ps, i) + |ps[i].oldLine| - 1 < |data|
  {
    hide Hits, WellFormed, Position, Patched;
    PatchStep(data, ps, i);
  }

  lemma DiffersIff(s: seq<byte>, at: nat, data: seq<byte>, ps: seq<Patch>, x: nat)
    requires WellFormed(ps) && OldUnique(data, ps) && at + |data| <= |s| && s[at..at + |data|] == data && x < |s|
    ensures Overwrite(s, at, Patched(data, ps, |ps|))[x] != s[x] <==>
            exists i :: 0 <= i < |ps| && x - at == Position(data, ps, i) + |ps[i].oldLine| - 1
  {
    hide Patched, Hits, WellFormed, Position, Overwrite;
    OverwrittenByte(s, at, Patched(data, ps, |ps|), x);
    if at <= x < at + |data| {
      assert data[x - at] == s[x];
      DiffersAt(data, ps, |ps|, x - at);
    } else {
      forall i | 0 <= i < |ps| ensures x - at != Position(data, ps, i) + |ps[i].oldLine| - 1 {
        LineInside(data, ps, i);
      }
    }
  }

  lemma ChangedIff(cpio: seq<byte>, ps: seq<Patch>, x: nat)
    requires WellFormed(ps) && Patchable(cpio, ps) && x < |cpio|
    ensures PatchedArchive(cpio, ps, |ps|)[x] != cpio[x] <==>
            exists i :: 0 <= i < |ps| && x == ChangedOffset(cpio, ps, i)
  {
    hide HasTarget, Target, Patched, Hits, WellFormed, Before, Start, Position, Overwrite, NewAbsent;
    DiffersIff(cpio, Start(cpio), Before(cpio), ps, x);
    assert forall i :: 0 <= i < |ps| ==>
      (x == ChangedOffset(cpio, ps, i) <==> x - Start(cpio) == Position(Before(cpio), ps, i) + |ps[i].oldLine| - 1);
  }

  /** The output differs from the input exactly in the last byte of each patched line. */
  lemma PatchChangesExactly(cpio: seq<byte>, ps: seq<Patch>, x: nat)
    requires WellFormed(ps) && Patchable(cpio, ps) && x < |cpio|
    ensures PatchedArchive(cpio, ps, |ps|)[x] != cpio[x] <==>
            exists i :: 0 <= i < |ps| && x == ChangedOffset(cpio, ps, i)
    ensures forall i :: 0 <= i < |ps| ==>
      Target(cpio).dataStart <= ChangedOffset(cpio, ps, i) < Target(cpio).dataEnd
  {
    hide HasTarget, Target, Start, WellFormed, Hits, ChangedOffset, PatchedArchive;
    ChangedIff(cpio, ps, x);
    forall i | 0 <= i < |ps| ensures Target(cpio).dataStart <= ChangedOffset(cpio, ps, i) < Target(cpio).dataEnd {
      ChangedInside(cpio, ps, i);
    }
  }

  lemma FirstFaultAtStart(cpio: seq<byte>, ps: seq<Patch>)
    requires HasTarget(cpio) && ps != [] && |Hits(Before(cpio), ps[0].oldLine)| == 0
    ensures !Patchable(cpio, ps) && Complaint(cpio, ps) == OldLineCount(0, 0)
  {
    hide HasTarget, Before, Hits;
    HasEntries(cpio);
  }

  /** The i-th patched line ends in the last byte of its new line. */
  lemma ChangedByte(cpio: seq<byte>, ps: seq<Patch>, i: nat)
    requires WellFormed(ps) && Patchable(cpio, ps) && i < |ps|
    ensures
      var x := ChangedOffset(cpio, ps, i);
      && 0 <= x < |cpio| && |ps[i].newLine| > 0
      && PatchedArchive(cpio, ps, |ps|)[x] == ps[i].newLine[|ps[i].newLine| - 1]
  {
    hide HasTarget, Patched, Hits, LastByteChange, WellFormed;
    var at, before := Start(cpio), Before(cpio);
    var p := Patched(before, ps, |ps|);
    var y := Position(before, ps, i) + |ps[i].oldLine| - 1;
    ItemChanges(ps, i);
    SameLengths(ps[i]);
    ByteInside(before, ps, |ps|, i, y);
    assert PatchedArchive(cpio, ps, |ps|)[at..at + |p|][y] == p[y];
  }

  lemma ItemChanges(ps: seq<Patch>, i: nat)
    requires WellFormed(ps) && i < |ps|
    ensures LastByteChange(ps[i])
  {
  }
}
