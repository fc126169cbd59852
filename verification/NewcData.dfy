/** Which bytes of a newc archive the parser looks at, and when its result depends on a member's data. */
module NewcData {
  import opened Bytes
  import opened Newc

  // ---------- what a header and a name can hold ----------

  /** What can stand in a header: all of it digits, but for what `int(text, 16)` tolerates besides. */
  predicate HeaderByte(b: byte) {
    HexDigit(b).Some? || IsSpace(b) || b == 43 || b == 45 || b == 88 || b == 95 || b == 120
  }

  predicate HeaderBytes(s: seq<byte>) { forall k :: 0 <= k < |s| ==> HeaderByte(s[k]) }

  lemma {:induction false} HexValueBytes(s: seq<byte>)
    requires HexValue(s).Some?
    ensures HeaderBytes(s)
    decreases |s|
  {
    hide HexDigit, IsSpace;
    var rest := s[..|s| - 1];
    if rest != [] {
      var kept := DropUnderscore(rest);
      HexValueBytes(kept);
      assert |kept| + 2 == |s| ==> s[|kept|] == 95;
      assert forall k :: 0 <= k < |kept| ==> s[k] == kept[k];
    }
  }

  lemma {:induction false} StripLeftBytes(s: seq<byte>)
    requires HeaderBytes(StripLeft(s))
    ensures HeaderBytes(s)
  {
    hide HexDigit;
    if s != [] && IsSpace(s[0]) {
      StripLeftBytes(s[1..]);
      assert forall k :: 0 < k < |s| ==> s[k] == s[1..][k - 1];
    }
  }

  lemma {:induction false} StripRightBytes(s: seq<byte>)
    requires HeaderBytes(StripRight(s))
    ensures HeaderBytes(s)
  {
    hide HexDigit;
    if s != [] && IsSpace(s[|s| - 1]) {
      StripRightBytes(s[..|s| - 1]);
    }
  }

  lemma PyInt16Bytes(s: seq<byte>)
    requires PyInt16(s).Some?
    ensures HeaderBytes(s)
  {
    hide HexValue, HexDigit, StripLeft, StripRight, IsSpace;
    var t := StripRight(StripLeft(s));
    var signed := t != [] && (t[0] == 43 || t[0] == 45);
    var u := if signed then t[1..] else t;
    var prefixed := |u| >= 2 && u[0] == 48 && (u[1] == 120 || u[1] == 88);
    var n := if !prefixed then 0 else if |u| >= 3 && u[2] == 95 then 3 else 2;
    HexValueBytes(u[n..]);
    Digit48();
    assert HeaderBytes(u) by {
      assert forall k :: n <= k < |u| ==> u[k] == u[n..][k - n];
    }
    assert HeaderBytes(t) by {
      assert signed ==> forall k :: 1 <= k < |t| ==> t[k] == u[k - 1];
    }
    StripRightBytes(StripLeft(s));
    StripLeftBytes(s);
  }

  lemma Digit48()
    ensures HexDigit(48).Some?
  {
  }

  /** Every byte of an accepted header is one of those. */
  lemma HeaderHolds(blob: seq<byte>, offset: nat, k: nat)
    requires offset < |blob| && ParseEntry(blob, offset).Ok? && offset <= k < offset + HEADER_SIZE
    ensures k < |blob| && HeaderByte(blob[k])
  {
    hide PyInt16, HeaderByte, ValidUtf8, AlignUp, FileType;
    var text := blob[offset..offset + HEADER_SIZE][6..];
    var d := k - offset;
    if d < 6 {
      MagicHolds(blob[offset..offset + HEADER_SIZE][..6], d);
    } else {
      var i := (d - 6) / 8;
      FieldIs(text, i);
      PyInt16Bytes(text[8 * i..8 * i + 8]);
      assert blob[k] == text[8 * i..8 * i + 8][d - 6 - 8 * i];
    }
  }

  lemma MagicHolds(s: seq<byte>, d: nat)
    requires IsNewcMagic(s) && d < 6
    ensures HeaderByte(s[d])
  {
  }

  lemma {:induction false} NameHolds(s: seq<byte>, i: nat, k: nat)
    requires i <= k < |s| && ValidUtf8(s, i)
    ensures s[k] != 0xFF
    decreases |s| - i
  {
    var n := if s[i] < 0x80 then 1 else if s[i] < 0xE0 then 2 else if s[i] < 0xF0 then 3 else 4;
    if i + n <= k {
      NameHolds(s, i + n, k);
    }
  }

  // ---------- what the parser looks at ----------

  /** Byte `k` belongs to the header, the name or the terminator of `e`. */
  ghost predicate InFront(e: Entry, k: int) {
    e.headerStart <= k <= e.headerStart + HEADER_SIZE + |e.path|
  }

  /** Byte `k` belongs to a name. */
  ghost predicate InName(e: Entry, k: int) {
    e.headerStart + HEADER_SIZE <= k < e.headerStart + HEADER_SIZE + |e.path|
  }

  ghost predicate InData(entries: seq<Entry>, k: int) {
    exists i :: 0 <= i < |entries| && entries[i].dataStart <= k < entries[i].dataEnd
  }

  /** Byte `k` is part of what the parser accepts the archive by: a header or name, the trailer's too, or the tail. */
  ghost predicate LookedAt(blob: seq<byte>, entries: seq<Entry>, k: int)
    requires Chain(blob, entries, 0)
  {
    var trailer := ParseEntry(blob, End(entries, 0)).value;
    || (exists i :: 0 <= i < |entries| && InFront(entries[i], k))
    || InFront(trailer, k) || k >= trailer.NextOffset()
  }

  /** The two blobs agree outside the data of `entries`. */
  ghost predicate AgreeOutsideData(a: seq<byte>, b: seq<byte>, entries: seq<Entry>) {
    |a| == |b| && forall k :: 0 <= k < |a| && !InData(entries, k) ==> a[k] == b[k]
  }

  lemma EntryIsLocal(a: seq<byte>, b: seq<byte>, offset: nat)
    requires |a| == |b| && offset < |a| && ParseEntry(a, offset).Ok?
    requires forall k :: 0 <= k < |a| && InFront(ParseEntry(a, offset).value, k) ==> a[k] == b[k]
    ensures ParseEntry(b, offset) == ParseEntry(a, offset)
  {
    hide ValidUtf8, Fields, AlignUp;
    var e := ParseEntry(a, offset).value;
    assert forall k :: offset <= k <= offset + HEADER_SIZE + |e.path| && k < |a| ==> InFront(e, k);
    var header := a[offset..offset + HEADER_SIZE];
    assert header == b[offset..offset + HEADER_SIZE];
    var f := Fields(header[6..]).value;
    var nameEnd := offset + HEADER_SIZE + f[11];
    assert a[offset + HEADER_SIZE..nameEnd - 1] == b[offset + HEADER_SIZE..nameEnd - 1];
  }

  /** Archives that agree on every byte that is looked at have the same entries. */
  lemma ChainIsLocal(a: seq<byte>, b: seq<byte>, entries: seq<Entry>)
    requires Chain(a, entries, 0) && |a| == |b|
    requires forall k :: 0 <= k < |a| && LookedAt(a, entries, k) ==> a[k] == b[k]
    ensures Chain(b, entries, 0)
  {
    hide ParseEntry, AlignUp, InFront;
    forall i | 0 <= i < |entries| ensures MemberAt(b, entries[i]) {
      assert MemberAt(a, entries[i]);
      assert forall k :: 0 <= k < |a| && InFront(entries[i], k) ==> LookedAt(a, entries, k);
      EntryIsLocal(a, b, entries[i].headerStart);
    }
    var end := End(entries, 0);
    EntryIsLocal(a, b, end);
    var trailer := ParseEntry(a, end).value;
    assert forall k :: trailer.NextOffset() <= k < |a| ==> LookedAt(a, entries, k);
  }

  /** No accepted header, name or terminator holds the byte 255. */
  lemma FrontHolds(blob: seq<byte>, offset: nat, k: nat)
    requires offset < |blob| && ParseEntry(blob, offset).Ok? && InFront(ParseEntry(blob, offset).value, k)
    ensures k < |blob| && blob[k] != 0xFF
  {
    hide ParseEntry, AlignUp, PyInt16, FileType, ValidUtf8, IsNewcMagic;
    var e := ParseEntry(blob, offset).value;
    var nameStart := offset + HEADER_SIZE;
    EntrySound(blob, offset);
    if k < nameStart {
      HeaderHolds(blob, offset, k);
    } else if k < nameStart + |e.path| {
      NameHolds(e.path, 0, k - nameStart);
      assert blob[nameStart..nameStart + |e.path|][k - nameStart] == blob[k];
    }
  }

  /** So that byte, put where the parser looks, spoils the archive. */
  lemma LookedAtHolds(blob: seq<byte>, entries: seq<Entry>, k: nat)
    requires Chain(blob, entries, 0) && k < |blob| && LookedAt(blob, entries, k)
    ensures blob[k] != 0xFF
  {
    hide ParseEntry, AlignUp, InFront;
    if i :| 0 <= i < |entries| && InFront(entries[i], k) {
      assert MemberAt(blob, entries[i]);
      FrontHolds(blob, entries[i].headerStart, k);
    } else if InFront(ParseEntry(blob, End(entries, 0)).value, k) {
      FrontHolds(blob, End(entries, 0), k);
    }
  }

  // ---------- when data matters ----------

  /** Whatever a member's data are changed to, the archive still parses to these entries. */
  ghost predicate IgnoresData(a: seq<byte>, entries: seq<Entry>) {
    forall b {:trigger AgreeOutsideData(a, b, entries)} :: AgreeOutsideData(a, b, entries) ==>
      Ends(b, 0) && Parse(b) == Ok(entries)
  }

  /** Nothing that the parser looks at lies in a member's data. */
  ghost predicate DataApart(a: seq<byte>, entries: seq<Entry>)
    requires Chain(a, entries, 0)
  {
    forall k :: 0 <= k < |a| && InData(entries, k) ==> !LookedAt(a, entries, k)
  }

  /** The parse is independent of all data exactly if nothing that is looked at lies in a member's data. */
  lemma IgnoresDataIffApart(a: seq<byte>, entries: seq<Entry>)
    requires Ends(a, 0) && Parse(a) == Ok(entries)
    ensures Chain(a, entries, 0) && (IgnoresData(a, entries) <==> DataApart(a, entries))
  {
    hide ParseEntry, Chain, Parse, Ends, LookedAt, InData;
    ChainIs(a, entries);
    if DataApart(a, entries) {
      forall b | AgreeOutsideData(a, b, entries) ensures Ends(b, 0) && Parse(b) == Ok(entries) {
        ChainIsLocal(a, b, entries);
        ChainIs(b, entries);
      }
    } else {
      var k :| 0 <= k < |a| && InData(entries, k) && LookedAt(a, entries, k);
      var b := a[k := 0xFF];
      assert AgreeOutsideData(a, b, entries);
      if Ends(b, 0) && Parse(b) == Ok(entries) {
        ChainIs(b, entries);
        SameFronts(a, b, entries, k);
        LookedAtHolds(b, entries, k);
      }
    }
  }

  lemma ChainIs(a: seq<byte>, entries: seq<Entry>)
    ensures (Ends(a, 0) && Parse(a) == Ok(entries)) <==> Chain(a, entries, 0)
  {
    hide Ends, Chain, ParseFrom;
    ParseIffChain(a, entries, 0);
  }

  /** In two archives with the same entries the same bytes are looked at. */
  lemma SameFronts(a: seq<byte>, b: seq<byte>, entries: seq<Entry>, k: int)
    requires |a| == |b| && Chain(a, entries, 0) && Chain(b, entries, 0)
    ensures LookedAt(a, entries, k) <==> LookedAt(b, entries, k)
  {
    hide MemberAt, ParseEntry, InFront;
    var end := End(entries, 0);
    var s, t := ParseEntry(a, end).value, ParseEntry(b, end).value;
    TrailerPlace(a, end);
    TrailerPlace(b, end);
    assert InFront(s, k) <==> InFront(t, k) by {
      SameFront(s, t, k);
    }
  }

  lemma SameFront(s: Entry, t: Entry, k: int)
    requires s.headerStart == t.headerStart && s.path == t.path
    ensures InFront(s, k) <==> InFront(t, k)
  {
  }

  lemma TrailerPlace(blob: seq<byte>, end: int)
    requires TrailerAt(blob, end)
    ensures
      var e := ParseEntry(blob, end).value;
      e.headerStart == end && e.path == TRAILER && e.NextOffset() == AlignUp(AlignUp(end + HEADER_SIZE + 11, 4), 4)
  {
    hide ParseEntry, AlignUp, PyInt16, FileType, ValidUtf8, IsNewcMagic;
    EntrySound(blob, end);
  }

  // ---------- archives whose members all advance ----------

  /** Where every member advances, a byte of an entry's data is no part of a header or of a later name. */
  lemma DataBehindFronts(a: seq<byte>, entries: seq<Entry>, t: nat, i: nat, k: int)
    requires Chain(a, entries, 0) && AllAdvance(entries) && t < |entries| && i < |entries|
    requires entries[t].dataStart <= k < entries[t].dataEnd && InFront(entries[i], k)
    ensures i < t && k >= entries[i].headerStart + HEADER_SIZE
  {
    hide ParseEntry, Chain;
    NextInChain(a, entries, 0, t);
    NextInChain(a, entries, 0, i);
    MemberEnds(a, entries[t]);
    MemberName(a, entries[i]);
    if t < i {
      LaterBehind(a, entries, 0, t, i);
    } else if i < t {
      LaterBehind(a, entries, 0, i, t);
    }
  }

  lemma MemberName(blob: seq<byte>, e: Entry)
    requires MemberAt(blob, e)
    ensures e.dataStart > e.headerStart + HEADER_SIZE + |e.path|
  {
    hide ParseEntry, AlignUp, PyInt16, FileType, ValidUtf8, IsNewcMagic;
    EntrySound(blob, e.headerStart);
  }

  /** There it is only names, with their terminators, that data can overlap. */
  lemma ApartIffNamesApart(a: seq<byte>, entries: seq<Entry>)
    requires Chain(a, entries, 0) && AllAdvance(entries)
    ensures DataApart(a, entries) <==>
            forall i, k :: 0 <= i < |entries| && 0 <= k < |a| && InData(entries, k) ==>
              !(entries[i].headerStart + HEADER_SIZE <= k <= entries[i].headerStart + HEADER_SIZE + |entries[i].path|)
  {
    hide ParseEntry, Chain, AlignUp;
    forall k | 0 <= k < |a| && InData(entries, k)
      ensures LookedAt(a, entries, k) <==>
              exists i :: 0 <= i < |entries| &&
                entries[i].headerStart + HEADER_SIZE <= k <= entries[i].headerStart + HEADER_SIZE + |entries[i].path|
    {
      OnlyNames(a, entries, k);
    }
  }

  lemma OnlyNames(a: seq<byte>, entries: seq<Entry>, k: int)
    requires Chain(a, entries, 0) && AllAdvance(entries) && InData(entries, k)
    ensures LookedAt(a, entries, k) <==>
            exists i :: 0 <= i < |entries| &&
              entries[i].headerStart + HEADER_SIZE <= k <= entries[i].headerStart + HEADER_SIZE + |entries[i].path|
  {
    hide ParseEntry, Chain, AlignUp;
    var t :| 0 <= t < |entries| && entries[t].dataStart <= k < entries[t].dataEnd;
    if i :| 0 <= i < |entries| && InFront(entries[i], k) {
      DataBehindFronts(a, entries, t, i, k);
    }
    DataBeforeTrailer(a, entries, t);
    NextInChain(a, entries, 0, t);
    TrailerPlace(a, End(entries, 0));
  }

  lemma DataBeforeTrailer(a: seq<byte>, entries: seq<Entry>, t: nat)
    requires Chain(a, entries, 0) && AllAdvance(entries) && t < |entries|
    ensures entries[t].dataEnd <= End(entries, 0)
  {
    hide ParseEntry, Chain;
    LaterBehind(a, entries, 0, t, |entries|);
  }

  /** Where every member advances, the parse is independent of data exactly if no name or terminator lies in any. */
  lemma IgnoresDataIffNamesApart(a: seq<byte>, entries: seq<Entry>)
    requires Ends(a, 0) && Parse(a) == Ok(entries) && AllAdvance(entries)
    ensures IgnoresData(a, entries) <==>
            forall i, k :: 0 <= i < |entries| && 0 <= k < |a| && InData(entries, k) ==>
              !(entries[i].headerStart + HEADER_SIZE <= k <= entries[i].headerStart + HEADER_SIZE + |entries[i].path|)
  {
    hide Ends, Parse, IgnoresData, DataApart, InData;
    IgnoresDataIffApart(a, entries);
    ApartIffNamesApart(a, entries);
  }

  /** Without negative sizes no name reaches into data, and the parse never depends on any. */
  lemma ParseIgnoresData(a: seq<byte>, b: seq<byte>)
    requires Ends(a, 0) && Parse(a).Ok? && NonNegativeSizes(Parse(a).value)
    requires AgreeOutsideData(a, b, Parse(a).value)
    ensures Ends(b, 0) && Parse(b) == Parse(a)
  {
    hide ParseEntry, Chain, Parse, Ends, LookedAt, InData;
    var entries := Parse(a).value;
    IgnoresDataIffApart(a, entries);
    NonNegativeApart(a, entries);
  }

  lemma NonNegativeApart(a: seq<byte>, entries: seq<Entry>)
    requires Chain(a, entries, 0) && NonNegativeSizes(entries)
    ensures DataApart(a, entries)
  {
    hide ParseEntry, Chain, AlignUp, LookedAt;
    NonNegativeAdvance(a, entries, 0);
    ApartIffNamesApart(a, entries);
    forall i, k | 0 <= i < |entries| && 0 <= k < |a| && InData(entries, k)
      ensures !(entries[i].headerStart + HEADER_SIZE <= k <= entries[i].headerStart + HEADER_SIZE + |entries[i].path|)
    {
      var t :| 0 <= t < |entries| && entries[t].dataStart <= k < entries[t].dataEnd;
      NextInChain(a, entries, 0, i);
      MemberName(a, entries[i]);
      if InFront(entries[i], k) {
        DataBehindFronts(a, entries, t, i, k);
        EntriesDisjoint(a, entries, 0, i, t);
        EntryInside(a, entries, 0, i);
      }
    }
  }
}
