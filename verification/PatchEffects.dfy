/** What a run of the property patcher keeps of an archive, and how it is undone. */
module PatchEffects {
  import opened Bytes
  import opened Lines
  import opened PatchedLines
  import opened NewcData
  import opened PropPatch
  import Newc

  // ---------- digits in names ----------

  predicate IsDigit(b: byte) { 48 <= b <= 57 }

  /** The two texts differ at most in that one has other digits than the other. */
  ghost predicate SameButDigits(s: seq<byte>, t: seq<byte>) {
    |s| == |t| && forall k :: 0 <= k < |s| ==> s[k] == t[k] || (IsDigit(s[k]) && IsDigit(t[k]))
  }

  predicate NoDigits(s: seq<byte>) { forall k :: 0 <= k < |s| ==> !IsDigit(s[k]) }

  lemma FixedNames()
    ensures NoDigits(Newc.TRAILER) && NoDigits(PROP_DEFAULT)
  {
  }

  lemma NameKept(s: seq<byte>, t: seq<byte>, name: seq<byte>)
    requires SameButDigits(s, t) && NoDigits(name)
    ensures s == name <==> t == name
  {
  }

  lemma {:induction false} StillUtf8(s: seq<byte>, t: seq<byte>, i: nat)
    requires SameButDigits(s, t) && i <= |s| && Newc.ValidUtf8(s, i)
    ensures Newc.ValidUtf8(t, i)
    decreases |s| - i
  {
    if i < |s| {
      var n := if s[i] < 0x80 then 1 else if s[i] < 0xE0 then 2 else if s[i] < 0xF0 then 3 else 4;
      StillUtf8(s, t, i + n);
    }
  }

  /** The entry with its name read from `b`. */
  function Reread(b: seq<byte>, e: Newc.Entry): Newc.Entry {
    var at := e.headerStart + Newc.HEADER_SIZE;
    e.(path := PySlice(b, at, at + |e.path|))
  }

  function RereadAll(b: seq<byte>, es: seq<Newc.Entry>): (r: seq<Newc.Entry>)
    ensures |r| == |es| && forall i :: 0 <= i < |es| ==> r[i] == Reread(b, es[i])
  {
    seq(|es|, i requires 0 <= i < |es| => Reread(b, es[i]))
  }

  ghost predicate InHeader(offset: int, k: int) { offset <= k < offset + Newc.HEADER_SIZE }

  /** A member some digits of whose name are exchanged is the same member with another name. */
  lemma EntryReread(a: seq<byte>, b: seq<byte>, offset: nat)
    requires SameButDigits(a, b) && offset < |a| && Newc.ParseEntry(a, offset).Ok?
    requires forall k :: 0 <= k < |a| && InHeader(offset, k) ==> a[k] == b[k]
    ensures
      var e := Newc.ParseEntry(a, offset).value;
      Newc.ParseEntry(b, offset) == Ok(Reread(b, e)) && SameButDigits(e.path, Reread(b, e).path)
  {
    hide Newc.ValidUtf8, Newc.Fields, AlignUp;
    var e := Newc.ParseEntry(a, offset).value;
    var at := offset + Newc.HEADER_SIZE;
    assert forall k :: offset <= k < at ==> InHeader(offset, k);
    assert a[offset..at] == b[offset..at];
    var nameEnd := at + |e.path|;
    var p, q := a[at..nameEnd], b[at..nameEnd];
    assert b[nameEnd] == a[nameEnd] == 0;
    forall k | 0 <= k < |p| ensures p[k] == q[k] || (IsDigit(p[k]) && IsDigit(q[k])) {
      assert p[k] == a[at + k] && q[k] == b[at + k];
    }
    StillUtf8(p, q, 0);
  }

  /** Exchanging digits outside the headers leaves the chain of members as it is, but for the names. */
  lemma ChainReread(a: seq<byte>, b: seq<byte>, es: seq<Newc.Entry>)
    requires SameButDigits(a, b) && Newc.Chain(a, es, 0)
    requires forall k :: 0 <= k < |a| && a[k] != b[k] ==>
      !InHeader(Newc.End(es, 0), k) && forall i :: 0 <= i < |es| ==> !InHeader(es[i].headerStart, k)
    ensures Newc.Chain(b, RereadAll(b, es), 0) && Newc.End(RereadAll(b, es), 0) == Newc.End(es, 0)
    ensures forall i :: 0 <= i < |es| ==> SameButDigits(es[i].path, Reread(b, es[i]).path)
  {
    hide Newc.ParseEntry, Newc.Chain, AlignUp, InHeader, SameButDigits;
    var r := RereadAll(b, es);
    forall i | 0 <= i < |es| ensures Newc.MemberAt(b, r[i]) && SameButDigits(es[i].path, r[i].path) {
      Newc.NextInChain(a, es, 0, i);
      MemberReread(a, b, es[i]);
    }
    ChainTrailer(a, es);
    TrailerReread(a, b, Newc.End(es, 0));
    SameLinks(a, b, es, r);
  }

  lemma ChainTrailer(a: seq<byte>, es: seq<Newc.Entry>)
    requires Newc.Chain(a, es, 0)
    ensures Newc.TrailerAt(a, Newc.End(es, 0))
  {
    hide Newc.TrailerAt, Newc.MemberAt, AlignUp;
  }

  lemma MemberReread(a: seq<byte>, b: seq<byte>, e: Newc.Entry)
    requires SameButDigits(a, b) && Newc.MemberAt(a, e)
    requires forall k :: 0 <= k < |a| && a[k] != b[k] ==> !InHeader(e.headerStart, k)
    ensures Newc.MemberAt(b, Reread(b, e)) && SameButDigits(e.path, Reread(b, e).path)
  {
    hide Newc.ParseEntry, AlignUp, SameButDigits;
    EntryReread(a, b, e.headerStart);
    SameSize(a, b);
    FixedNames();
    NameKept(e.path, Reread(b, e).path, Newc.TRAILER);
  }

  lemma SameSize(a: seq<byte>, b: seq<byte>)
    requires SameButDigits(a, b)
    ensures |a| == |b|
  {
  }

  lemma TrailerReread(a: seq<byte>, b: seq<byte>, end: int)
    requires SameButDigits(a, b) && Newc.TrailerAt(a, end)
    requires forall k :: 0 <= k < |a| && a[k] != b[k] ==> !InHeader(end, k)
    ensures Newc.TrailerAt(b, end)
  {
    hide Newc.ParseEntry, AlignUp;
    var e := Newc.ParseEntry(a, end).value;
    EntryReread(a, b, end);
    FixedNames();
    NameKept(e.path, Reread(b, e).path, Newc.TRAILER);
    forall k | e.NextOffset() <= k < |b| ensures b[k] == 0 {
      assert e.NextOffset() >= 0 ==> a[k] == 0;
      TrailerPlace(a, end);
    }
  }

  lemma SameLinks(a: seq<byte>, b: seq<byte>, es: seq<Newc.Entry>, r: seq<Newc.Entry>)
    requires Newc.Chain(a, es, 0) && |r| == |es| && forall i :: 0 <= i < |es| ==> r[i] == Reread(b, es[i])
    requires Newc.TrailerAt(b, Newc.End(es, 0)) && forall i :: 0 <= i < |es| ==> Newc.MemberAt(b, r[i])
    ensures Newc.Chain(b, r, 0) && Newc.End(r, 0) == Newc.End(es, 0)
  {
    hide Newc.MemberAt, Newc.TrailerAt, AlignUp;
    forall i | 0 <= i < |es|
      ensures r[i].headerStart == es[i].headerStart && r[i].NextOffset() == es[i].NextOffset()
    {
      assert r[i] == Reread(b, es[i]);
    }
  }

  // ---------- tables and archives for which names are all that can change ----------

  /** Every line ends in a digit, before and after. */
  predicate DigitTable(ps: seq<Patch>) {
    forall i :: 0 <= i < |ps| ==>
      && |ps[i].oldLine| == |ps[i].newLine| > 0
      && IsDigit(ps[i].oldLine[|ps[i].oldLine| - 1]) && IsDigit(ps[i].newLine[|ps[i].newLine| - 1])
  }

  /** Every line ends in an equals sign and a digit. */
  predicate KeyDigitTable(ps: seq<Patch>) {
    && DigitTable(ps)
    && forall i :: 0 <= i < |ps| ==> |ps[i].oldLine| > 1 && ps[i].oldLine[|ps[i].oldLine| - 2] == 61
  }

  /** The program's table is one of those, and so is the swapped one. */
  lemma ProgramKeyDigits()
    ensures KeyDigitTable(PROPERTY_PATCHES) && KeyDigitTable(Swapped(PROPERTY_PATCHES))
  {
  }

  /**
   * What the results below need, all of it to be seen before patching: the table's lines end in "=" and a digit; or
   * just in digits, if every member moves the parsing loop forward; or anyhow, if no size is negative.
   */
  ghost predicate Steady(cpio: seq<byte>, ps: seq<Patch>)
    requires HasTarget(cpio)
  {
    || KeyDigitTable(ps)
    || (DigitTable(ps) && Newc.AllAdvance(Newc.Parse(cpio).value))
    || Newc.NonNegativeSizes(Newc.Parse(cpio).value)
  }

  // ---------- where the changed bytes are ----------

  /** The chain of members, and which of them is prop.default. */
  lemma TargetIndex(cpio: seq<byte>) returns (t: nat)
    requires HasTarget(cpio)
    ensures Newc.Chain(cpio, Newc.Parse(cpio).value, 0)
    ensures t < |Newc.Parse(cpio).value| && Newc.Parse(cpio).value[t] == Target(cpio)
  {
    hide Newc.Parse, Newc.Chain;
    ChainIs(cpio, Newc.Parse(cpio).value);
    t :| 0 <= t < |Newc.Parse(cpio).value| && Newc.Parse(cpio).value[t] == Target(cpio);
  }

  /** The changed byte is the last one of its old line; behind it the text ends, or a terminator stands. */
  lemma OldBytes(cpio: seq<byte>, ps: seq<Patch>, i: nat)
    requires WellFormed(ps) && Patchable(cpio, ps) && i < |ps|
    ensures
      var x, n := ChangedOffset(cpio, ps, i), |ps[i].oldLine|;
      && n > 0 && Start(cpio) <= x - (n - 1) <= x < Target(cpio).dataEnd
      && cpio[x] == ps[i].oldLine[n - 1] && (n > 1 ==> cpio[x - 1] == ps[i].oldLine[n - 2])
      && (x + 1 < Target(cpio).dataEnd ==> IsTerminator(cpio[x + 1]))
  {
    hide HasTarget, Hits, Target, Start, Patched, WellFormed;
    ChangedInside(cpio, ps, i);
    ItemChanges(ps, i);
    var before, n, p := Before(cpio), |ps[i].oldLine|, Position(Before(cpio), ps, i);
    assert before[p..p + n][n - 1] == before[p + n - 1];
    assert n > 1 ==> before[p..p + n][n - 2] == before[p + n - 2];
    assert forall k :: 0 <= k < |before| ==> before[k] == cpio[Start(cpio) + k];
  }

  /** An aligned header cannot begin with the last byte of a line that ends in "=" and a digit. */
  lemma NoHeaderAtDigit(cpio: seq<byte>, offset: nat, x: nat, dataEnd: int)
    requires offset < |cpio| && offset % 4 == 0 && Newc.ParseEntry(cpio, offset).Ok?
    requires 0 < x < dataEnd <= |cpio| && cpio[x - 1] == 61 && (x + 1 < dataEnd ==> IsTerminator(cpio[x + 1]))
    requires AlignUp(dataEnd, 4) < |cpio| && Newc.ParseEntry(cpio, AlignUp(dataEnd, 4)).Ok?
    ensures !InHeader(offset, x)
  {
    hide Newc.ParseEntry, HeaderByte, AlignUp;
    if InHeader(offset, x) {
      if x > offset {
        HeaderHolds(cpio, offset, x - 1);
        EqualsSign();
      } else {
        MagicAt(cpio, offset);
        MagicAt(cpio, AlignUp(dataEnd, 4));
      }
    }
  }

  lemma EqualsSign()
    ensures !HeaderByte(61)
  {
  }

  lemma MagicAt(blob: seq<byte>, offset: nat)
    requires offset < |blob| && Newc.ParseEntry(blob, offset).Ok?
    ensures offset + 6 <= |blob| && blob[offset] == 48 && blob[offset + 1] == 55 && 49 <= blob[offset + 5] <= 50
  {
    hide Newc.ValidUtf8, Newc.Fields, AlignUp, Newc.FileType;
    var m := blob[offset..offset + Newc.HEADER_SIZE][..6];
    assert m[0] == blob[offset] && m[1] == blob[offset + 1] && m[5] == blob[offset + 5];
  }

  /** No changed byte lies in a header, the trailer's included. */
  lemma HeadersClear(cpio: seq<byte>, ps: seq<Patch>, j: nat, offset: int)
    requires WellFormed(ps) && Patchable(cpio, ps) && Steady(cpio, ps) && j < |ps|
    requires
      var es := Newc.Parse(cpio).value;
      offset == Newc.End(es, 0) || exists i :: 0 <= i < |es| && offset == es[i].headerStart
    ensures !InHeader(offset, ChangedOffset(cpio, ps, j))
  {
    hide HasTarget, Newc.Parse, Newc.Chain, Newc.ParseEntry, AlignUp, Newc.End, ChangedOffset, WellFormed, Hits, Target;
    hide Before, Start, InHeader;
    HasEntries(cpio);
    var es, x := Newc.Parse(cpio).value, ChangedOffset(cpio, ps, j);
    var t := TargetIndex(cpio);
    ChangedInside(cpio, ps, j);
    OldBytes(cpio, ps, j);
    if KeyDigitTable(ps) {
      HeaderPlaces(cpio, es, offset);
      Newc.NextInChain(cpio, es, 0, t);
      HeaderPlaces(cpio, es, es[t].NextOffset());
      NoHeaderAtDigit(cpio, offset, x, es[t].dataEnd);
    } else {
      if Newc.NonNegativeSizes(es) {
        Newc.NonNegativeAdvance(cpio, es, 0);
      }
      AdvanceClear(cpio, es, t, offset, x);
    }
  }

  lemma HeaderPlaces(cpio: seq<byte>, es: seq<Newc.Entry>, offset: int)
    requires Newc.Chain(cpio, es, 0)
    requires offset == Newc.End(es, 0) || exists i :: 0 <= i < |es| && offset == es[i].headerStart
    ensures 0 <= offset < |cpio| && offset % 4 == 0 && Newc.ParseEntry(cpio, offset).Ok?
  {
    hide Newc.ParseEntry, AlignUp;
    if i :| 0 <= i < |es| && offset == es[i].headerStart {
      assert Newc.MemberAt(cpio, es[i]);
    }
  }

  lemma AdvanceClear(cpio: seq<byte>, es: seq<Newc.Entry>, t: nat, offset: int, x: int)
    requires Newc.Chain(cpio, es, 0) && Newc.AllAdvance(es) && t < |es|
    requires es[t].dataStart <= x < es[t].dataEnd
    requires offset == Newc.End(es, 0) || exists i :: 0 <= i < |es| && offset == es[i].headerStart
    ensures !InHeader(offset, x)
  {
    hide Newc.Chain, Newc.ParseEntry, AlignUp, Newc.End;
    if offset == Newc.End(es, 0) {
      DataBeforeTrailer(cpio, es, t);
    }
    if i :| 0 <= i < |es| && offset == es[i].headerStart {
      if InFront(es[i], x) {
        DataBehindFronts(cpio, es, t, i, x);
      }
    }
  }

  /** The output differs from the input in digits only, if the table's lines end in digits. */
  lemma OutputDigits(cpio: seq<byte>, ps: seq<Patch>)
    requires WellFormed(ps) && Patchable(cpio, ps) && DigitTable(ps)
    ensures SameButDigits(cpio, PatchedArchive(cpio, ps, |ps|))
  {
    hide HasTarget, Before, ChangedOffset, WellFormed, Hits, PatchedArchive, Target, Start;
    var out := PatchedArchive(cpio, ps, |ps|);
    forall k | 0 <= k < |cpio| && cpio[k] != out[k] ensures IsDigit(cpio[k]) && IsDigit(out[k]) {
      PatchChangesExactly(cpio, ps, k);
      var i :| 0 <= i < |ps| && k == ChangedOffset(cpio, ps, i);
      OldBytes(cpio, ps, i);
      ChangedByte(cpio, ps, i);
    }
  }

  // ---------- what the output parses to ----------

  /** The output has the input's members, but for the names that the changed bytes lie in. */
  lemma OutputEntries(cpio: seq<byte>, ps: seq<Patch>)
    requires WellFormed(ps) && Patchable(cpio, ps) && Steady(cpio, ps)
    ensures
      var out, es := PatchedArchive(cpio, ps, |ps|), Newc.Parse(cpio).value;
      && Newc.Ends(out, 0) && Newc.Parse(out) == Ok(RereadAll(out, es))
      && forall i :: 0 <= i < |es| ==> (es[i].path == PROP_DEFAULT <==> RereadAll(out, es)[i].path == PROP_DEFAULT)
  {
    hide HasTarget, Newc.Parse, Newc.Chain, Newc.Ends, PatchedArchive, ChangedOffset, WellFormed, Hits, InHeader;
    hide Newc.End, Target, Reread;
    HasEntries(cpio);
    var out, es := PatchedArchive(cpio, ps, |ps|), Newc.Parse(cpio).value;
    var t := TargetIndex(cpio);
    if DigitTable(ps) {
      OutputDigits(cpio, ps);
      forall k | 0 <= k < |cpio| && cpio[k] != out[k]
        ensures !InHeader(Newc.End(es, 0), k) && forall i :: 0 <= i < |es| ==> !InHeader(es[i].headerStart, k)
      {
        PatchChangesExactly(cpio, ps, k);
        var j :| 0 <= j < |ps| && k == ChangedOffset(cpio, ps, j);
        HeadersClear(cpio, ps, j, Newc.End(es, 0));
        forall i | 0 <= i < |es| ensures !InHeader(es[i].headerStart, k) {
          HeadersClear(cpio, ps, j, es[i].headerStart);
        }
      }
      ChainReread(cpio, out, es);
      ChainIs(out, RereadAll(out, es));
      FixedNames();
      forall i | 0 <= i < |es| ensures es[i].path == PROP_DEFAULT <==> RereadAll(out, es)[i].path == PROP_DEFAULT {
        NameKept(es[i].path, Reread(out, es[i]).path, PROP_DEFAULT);
      }
    } else {
      SameParse(cpio, ps, t);
      ChainIs(out, es);
      RereadSame(out, es);
    }
  }

  /** Names that are read again where they were read before. */
  lemma RereadSame(b: seq<byte>, es: seq<Newc.Entry>)
    requires Newc.Chain(b, es, 0)
    ensures RereadAll(b, es) == es
  {
    hide Newc.ParseEntry, AlignUp;
    forall i | 0 <= i < |es| ensures Reread(b, es[i]) == es[i] {
      assert Newc.MemberAt(b, es[i]);
      SameName(b, es[i]);
    }
  }

  lemma SameName(b: seq<byte>, e: Newc.Entry)
    requires Newc.MemberAt(b, e)
    ensures Reread(b, e) == e
  {
    hide Newc.ParseEntry, AlignUp, Newc.PyInt16, Newc.FileType, Newc.ValidUtf8, Newc.IsNewcMagic;
    Newc.EntrySound(b, e.headerStart);
  }

  lemma SameParse(cpio: seq<byte>, ps: seq<Patch>, t: nat)
    requires WellFormed(ps) && Patchable(cpio, ps) && Newc.NonNegativeSizes(Newc.Parse(cpio).value)
    requires t < |Newc.Parse(cpio).value| && Newc.Parse(cpio).value[t] == Target(cpio)
    ensures var out := PatchedArchive(cpio, ps, |ps|); Newc.Ends(out, 0) && Newc.Parse(out) == Newc.Parse(cpio)
  {
    hide Newc.Parse, Newc.Ends, PatchedArchive, ChangedOffset, WellFormed, Hits, Before, Target, Targets;
    var out, es := PatchedArchive(cpio, ps, |ps|), Newc.Parse(cpio).value;
    forall k | 0 <= k < |cpio| && !InData(es, k) ensures cpio[k] == out[k] {
      PatchChangesExactly(cpio, ps, k);
    }
    ParseIgnoresData(cpio, out);
  }

  lemma {:induction false} TargetsReread(b: seq<byte>, es: seq<Newc.Entry>)
    requires forall i :: 0 <= i < |es| ==> (es[i].path == PROP_DEFAULT <==> RereadAll(b, es)[i].path == PROP_DEFAULT)
    ensures Targets(RereadAll(b, es)) == Targets(es)
  {
    hide Reread, PySlice;
    if es != [] {
      var r := RereadAll(b, es);
      assert r[1..] == RereadAll(b, es[1..]);
      TargetsReread(b, es[1..]);
      OnlyPath(b, es[0]);
    }
  }

  lemma OnlyPath(b: seq<byte>, e: Newc.Entry)
    ensures Reread(b, e).path == e.path ==> Reread(b, e) == e
  {
  }

  /** The output has its prop.default where the input has it. */
  lemma PatchKeepsTarget(cpio: seq<byte>, ps: seq<Patch>)
    requires WellFormed(ps) && Patchable(cpio, ps) && Steady(cpio, ps)
    ensures
      var out := PatchedArchive(cpio, ps, |ps|);
      && HasTarget(out) && Target(out) == Target(cpio) && Start(out) == Start(cpio)
      && Before(out) == Patched(Before(cpio), ps, |ps|)
  {
    hide Newc.Parse, Newc.Ends, PatchedArchive, Patched, Hits, WellFormed, Targets, Newc.NonNegativeSizes;
    var out, es := PatchedArchive(cpio, ps, |ps|), Newc.Parse(cpio).value;
    OutputEntries(cpio, ps);
    TargetsReread(out, es);
    OutputText(cpio, ps);
  }

  lemma OutputText(cpio: seq<byte>, ps: seq<Patch>)
    requires WellFormed(ps) && Patchable(cpio, ps)
    ensures
      var e := Target(cpio);
      PySlice(PatchedArchive(cpio, ps, |ps|), e.dataStart, e.dataEnd) == Patched(Before(cpio), ps, |ps|)
  {
    hide HasTarget, Patched, Hits, WellFormed, Overwrite;
    PatchedText(cpio, Target(cpio).dataStart, Target(cpio).dataEnd, Start(cpio), Patched(Before(cpio), ps, |ps|));
  }

  // ---------- the results ----------

  /** The entries stay as they are exactly if no changed byte lies in a member's name. */
  lemma EntriesKeptIff(cpio: seq<byte>, ps: seq<Patch>)
    requires WellFormed(ps) && Patchable(cpio, ps) && Steady(cpio, ps)
    ensures
      var out, es := PatchedArchive(cpio, ps, |ps|), Newc.Parse(cpio).value;
      && Newc.Ends(out, 0) && Newc.Parse(out).Ok?
      && (Newc.Parse(out) == Newc.Parse(cpio) <==>
            forall i, j :: 0 <= i < |es| && 0 <= j < |ps| ==> !InName(es[i], ChangedOffset(cpio, ps, j)))
  {
    hide HasTarget, Newc.Parse, Newc.Chain, Newc.Ends, PatchedArchive, ChangedOffset, WellFormed, Hits, InName, Reread;
    HasEntries(cpio);
    var out, es := PatchedArchive(cpio, ps, |ps|), Newc.Parse(cpio).value;
    var t := TargetIndex(cpio);
    OutputEntries(cpio, ps);
    RereadSame(cpio, es);
    forall i | 0 <= i < |es|
      ensures Reread(out, es[i]) == es[i] <==> forall j :: 0 <= j < |ps| ==> !InName(es[i], ChangedOffset(cpio, ps, j))
    {
      Newc.NextInChain(cpio, es, 0, i);
      NameKeptIff(cpio, ps, es[i]);
    }
    assert RereadAll(out, es) == es <==> forall i :: 0 <= i < |es| ==> Reread(out, es[i]) == es[i];
  }

  lemma NameKeptIff(cpio: seq<byte>, ps: seq<Patch>, e: Newc.Entry)
    requires WellFormed(ps) && Patchable(cpio, ps) && Newc.MemberAt(cpio, e)
    ensures Reread(PatchedArchive(cpio, ps, |ps|), e) == e <==>
            forall j :: 0 <= j < |ps| ==> !InName(e, ChangedOffset(cpio, ps, j))
  {
    hide HasTarget, PatchedArchive, ChangedOffset, WellFormed, Hits, Newc.ParseEntry, AlignUp;
    var out, at := PatchedArchive(cpio, ps, |ps|), e.headerStart + Newc.HEADER_SIZE;
    SameName(cpio, e);
    NameInside(cpio, e);
    var p, q := cpio[at..at + |e.path|], out[at..at + |e.path|];
    if j :| 0 <= j < |ps| && InName(e, ChangedOffset(cpio, ps, j)) {
      var x := ChangedOffset(cpio, ps, j);
      PatchChangesExactly(cpio, ps, x);
      assert p[x - at] == cpio[x] && q[x - at] == out[x];
    } else {
      forall k | 0 <= k < |p| ensures p[k] == q[k] {
        PatchChangesExactly(cpio, ps, at + k);
        assert InName(e, at + k);
      }
    }
  }

  lemma NameInside(blob: seq<byte>, e: Newc.Entry)
    requires Newc.MemberAt(blob, e)
    ensures e.headerStart + Newc.HEADER_SIZE + |e.path| < |blob|
  {
    hide Newc.ParseEntry, AlignUp, Newc.PyInt16, Newc.FileType, Newc.ValidUtf8, Newc.IsNewcMagic;
    Newc.EntrySound(blob, e.headerStart);
  }

  /** Without negative sizes names and data are apart, and the entries always stay. */
  lemma PatchKeepsEntries(cpio: seq<byte>, ps: seq<Patch>)
    requires WellFormed(ps) && Patchable(cpio, ps) && Newc.NonNegativeSizes(Newc.Parse(cpio).value)
    ensures
      var out := PatchedArchive(cpio, ps, |ps|);
      && |out| == |cpio|
      && Newc.Ends(out, 0) && Newc.Parse(out) == Newc.Parse(cpio)
      && HasTarget(out) && Target(out) == Target(cpio)
      && Before(out) == Patched(Before(cpio), ps, |ps|)
  {
    hide HasTarget, Newc.Parse, Newc.Chain, Newc.Ends, PatchedArchive, ChangedOffset, WellFormed, Hits, Before, Start;
    HasEntries(cpio);
    var es := Newc.Parse(cpio).value;
    PatchKeepsTarget(cpio, ps);
    EntriesKeptIff(cpio, ps);
    var t := TargetIndex(cpio);
    NonNegativeApart(cpio, es);
    forall i, j | 0 <= i < |es| && 0 <= j < |ps| ensures !InName(es[i], ChangedOffset(cpio, ps, j)) {
      ChangedInside(cpio, ps, j);
      NamesClear(cpio, es, t, i, ChangedOffset(cpio, ps, j));
    }
  }

  lemma NamesClear(cpio: seq<byte>, es: seq<Newc.Entry>, t: nat, i: nat, x: int)
    requires Newc.Chain(cpio, es, 0) && DataApart(cpio, es) && t < |es| && i < |es|
    requires es[t].dataStart <= x < es[t].dataEnd
    ensures !InName(es[i], x)
  {
    hide Newc.Chain, Newc.ParseEntry, AlignUp;
    Newc.NextInChain(cpio, es, 0, t);
    Newc.MemberEnds(cpio, es[t]);
    assert InData(es, x);
    assert InName(es[i], x) ==> InFront(es[i], x);
  }

  /** A patched archive is never patched again: its first old line is no longer there. */
  lemma PatchNotRepeatable(cpio: seq<byte>, ps: seq<Patch>)
    requires WellFormed(ps) && Patchable(cpio, ps) && Steady(cpio, ps) && ps != []
    ensures
      var out := PatchedArchive(cpio, ps, |ps|);
      Newc.Ends(out, 0) && !Patchable(out, ps) && Complaint(out, ps) == OldLineCount(0, 0)
  {
    hide HasTarget, Target, Patched, Hits, IsHit, WellFormed, Before, Start, Position, PatchedArchive, Complaint;
    hide Newc.Parse, Newc.Ends, NewAbsent, Overwrite, Steady;
    PatchKeepsTarget(cpio, ps);
    HasEntries(PatchedArchive(cpio, ps, |ps|));
    LinesAfter(Before(cpio), ps, 0);
    FirstFaultAtStart(PatchedArchive(cpio, ps, |ps|), ps);
  }

  /** Patching with old and new lines swapped accepts the patched archive and restores the original byte for byte. */
  lemma PatchInvertible(cpio: seq<byte>, ps: seq<Patch>)
    requires WellFormed(ps) && Patchable(cpio, ps) && Steady(cpio, ps)
    ensures
      var out := PatchedArchive(cpio, ps, |ps|);
      && WellFormed(Swapped(ps)) && Patchable(out, Swapped(ps))
      && PatchedArchive(out, Swapped(ps), |ps|) == cpio
  {
    hide HasTarget, Target, Start, Before, Steady, Patched, Hits, LastByteChange, WellFormed;
    var out := PatchedArchive(cpio, ps, |ps|);
    PatchKeepsTarget(cpio, ps);
    SwappedWellFormed(ps);
    SwappedReady(Before(cpio), ps);
    SwappedUndoes(Before(cpio), ps);
    assert Patched(Before(out), Swapped(ps), |ps|) == Before(cpio);
  }

  // ---------- the program ----------

  /** What the program does to an archive it accepts: two bytes become '0' and '1', and nothing else changes. */
  lemma ProgramChangesTwoBytes(cpio: seq<byte>)
    requires Patchable(cpio, PROPERTY_PATCHES)
    ensures WellFormed(PROPERTY_PATCHES)
    ensures
      var out := PatchedArchive(cpio, PROPERTY_PATCHES, 2);
      var a, b := ChangedOffset(cpio, PROPERTY_PATCHES, 0), ChangedOffset(cpio, PROPERTY_PATCHES, 1);
      && |out| == |cpio|
      && 0 <= a < |cpio| && 0 <= b < |cpio| && a != b
      && out[a] == 48 != cpio[a] && out[b] == 49 != cpio[b]
      && forall x :: 0 <= x < |cpio| && x != a && x != b ==> out[x] == cpio[x]
  {
    hide HasTarget, Newc.Parse, Patched, Hits, LastByteChange, WellFormed, PatchedArchive, ChangedOffset;
    ProgramTable();
    var ps := PROPERTY_PATCHES;
    var a, b := ChangedOffset(cpio, ps, 0), ChangedOffset(cpio, ps, 1);
    ChangedByte(cpio, ps, 0);
    ChangedByte(cpio, ps, 1);
    PatchChangesExactly(cpio, ps, a);
    PatchChangesExactly(cpio, ps, b);
    forall x: nat | x < |cpio| && x != a && x != b ensures PatchedArchive(cpio, ps, 2)[x] == cpio[x] {
      PatchChangesExactly(cpio, ps, x);
      assert forall i :: 0 <= i < 2 ==> ChangedOffset(cpio, ps, i) == a || ChangedOffset(cpio, ps, i) == b;
    }
  }

  /**
   * And, for every archive it accepts: a second run refuses the output, a run with the table swapped restores the
   * input, and the entries stay as they are exactly if neither changed byte lies in a name.
   */
  lemma ProgramEffects(cpio: seq<byte>)
    requires Patchable(cpio, PROPERTY_PATCHES)
    ensures WellFormed(PROPERTY_PATCHES)
    ensures
      var ps, out := PROPERTY_PATCHES, PatchedArchive(cpio, PROPERTY_PATCHES, 2);
      var es, a, b := Newc.Parse(cpio).value, ChangedOffset(cpio, ps, 0), ChangedOffset(cpio, ps, 1);
      && Newc.Ends(out, 0) && !Patchable(out, ps) && Complaint(out, ps) == OldLineCount(0, 0)
      && WellFormed(Swapped(ps)) && Patchable(out, Swapped(ps)) && PatchedArchive(out, Swapped(ps), 2) == cpio
      && (Newc.Parse(out) == Newc.Parse(cpio) <==> forall i :: 0 <= i < |es| ==> !InName(es[i], a) && !InName(es[i], b))
  {
    hide HasTarget, Newc.Parse, Newc.Ends, Patched, Hits, WellFormed, PatchedArchive, ChangedOffset, Complaint, InName;
    hide KeyDigitTable;
    ProgramTable();
    ProgramKeyDigits();
    PatchNotRepeatable(cpio, PROPERTY_PATCHES);
    PatchInvertible(cpio, PROPERTY_PATCHES);
    EntriesKeptIff(cpio, PROPERTY_PATCHES);
  }
}
