/** The newc archive parser of tools/patch_recovery_adbd_props.py (cpio(5), "New ASCII Format"). */
module Newc {
  import opened Bytes

  const HEADER_SIZE: nat := 110
  // "TRAILER!!!"
  const TRAILER: seq<byte> := [84, 82, 65, 73, 76, 69, 82, 33, 33, 33]
  const S_IFREG: int := 0x8000

  datatype Entry = Entry(
    path: seq<byte>, fileType: int, mode: int, uid: int, gid: int, nlink: int, mtime: int, size: int,
    deviceMajor: int, deviceMinor: int, rdeviceMajor: int, rdeviceMinor: int, check: int,
    headerStart: nat, dataStart: nat, dataEnd: int)
  {
    /** Where the loop goes on after this member; a negative size takes it back. */
    function NextOffset(): int { AlignUp(dataEnd, 4) }

    /** The member moves the loop forward. */
    predicate Advances() { NextOffset() > headerStart }
  }

  datatype Error =
    | TruncatedHeader(offset: nat)
    | InvalidMagic(offset: nat)
    | InvalidField(offset: nat)
    | InvalidName(offset: nat)
    | NameNotUtf8(offset: nat)
    | TruncatedData(offset: nat)
    | ModeOutOfRange(offset: nat)
    | TrailerHasData
    | TrailerNotFound
    | NonZeroTail

  /** "070701" or "070702". */
  predicate IsNewcMagic(s: seq<byte>) {
    && |s| == 6
    && s[0] == 48 && s[1] == 55 && s[2] == 48 && s[3] == 55 && s[4] == 48 && (s[5] == 49 || s[5] == 50)
  }

  // ---------- int(text, 16) on bytes ----------

  predicate IsSpace(b: byte) { b == 32 || 9 <= b <= 13 }

  function HexDigit(b: byte): (r: Option<nat>)
    ensures r.Some? ==> r.value < 16
  {
    if 48 <= b <= 57 then Some(b - 48)
    else if 65 <= b <= 70 then Some(b - 55)
    else if 97 <= b <= 102 then Some(b - 87)
    else None
  }

  function StripLeft(s: seq<byte>): seq<byte> {
    if s != [] && IsSpace(s[0]) then StripLeft(s[1..]) else s
  }

  function StripRight(s: seq<byte>): seq<byte> {
    if s != [] && IsSpace(s[|s| - 1]) then StripRight(s[..|s| - 1]) else s
  }

  function DropUnderscore(s: seq<byte>): (r: seq<byte>)
    ensures |r| <= |s|
  {
    if s != [] && s[|s| - 1] == 95 then s[..|s| - 1] else s
  }

  /** Hexadecimal digits, with single underscores allowed between two of them. */
  function HexValue(s: seq<byte>): Option<int> {
    if s == [] then None
    else
      var digit := HexDigit(s[|s| - 1]);
      var rest := s[..|s| - 1];
      if digit.None? then None
      else if rest == [] then digit
      else
        var high := HexValue(DropUnderscore(rest));
        if high.None? then None else Some(16 * high.value + digit.value)
  }

  /** Python's `int(s, 16)`: surrounding blanks, a sign, a 0x prefix and underscores are all accepted. */
  function PyInt16(s: seq<byte>): Option<int> {
    var t := StripRight(StripLeft(s));
    var signed := t != [] && (t[0] == 43 || t[0] == 45);
    var u := if signed then t[1..] else t;
    var prefixed := |u| >= 2 && u[0] == 48 && (u[1] == 120 || u[1] == 88);
    var d := if !prefixed then u else if |u| >= 3 && u[2] == 95 then u[3..] else u[2..];
    match HexValue(d)
    case None => None
    case Some(n) => Some(if signed && t[0] == 45 then -n else n)
  }

  /** The numeric fields of a header, eight characters each. */
  function Fields(text: seq<byte>): (r: Option<seq<int>>)
    ensures r.Some? ==> |r.value| == |text| / 8
  {
    if |text| < 8 then Some([])
    else
      var field := PyInt16(text[..8]);
      var rest := Fields(text[8..]);
      if field.None? || rest.None? then None else Some([field.value] + rest.value)
  }

  // ---------- names ----------

  /** What a strict UTF-8 decoder accepts from `i` on: no overlong form, no surrogate, nothing above U+10FFFF. */
  predicate ValidUtf8(s: seq<byte>, i: nat)
    requires i <= |s|
    decreases |s| - i
  {
    if i == |s| then true
    else if s[i] < 0x80 then ValidUtf8(s, i + 1)
    else if 0xC2 <= s[i] < 0xE0 then ContinuationsAt(s, i + 1, 1) && ValidUtf8(s, i + 2)
    else if 0xE0 <= s[i] < 0xF0 then
      && ContinuationsAt(s, i + 1, 2)
      && (s[i] == 0xE0 ==> s[i + 1] >= 0xA0) && (s[i] == 0xED ==> s[i + 1] < 0xA0)
      && ValidUtf8(s, i + 3)
    else if 0xF0 <= s[i] < 0xF5 then
      && ContinuationsAt(s, i + 1, 3)
      && (s[i] == 0xF0 ==> s[i + 1] >= 0x90) && (s[i] == 0xF4 ==> s[i + 1] < 0x90)
      && ValidUtf8(s, i + 4)
    else false
  }

  predicate ContinuationsAt(s: seq<byte>, i: nat, n: nat) {
    i + n <= |s| && forall k :: i <= k < i + n ==> 0x80 <= s[k] < 0xC0
  }

  /** `stat.S_IFMT`: the mode masked with 0o170000. */
  function FileType(mode: nat): nat { mode / 0x1000 % 16 * 0x1000 }

  lemma FileTypeMeans(mode: nat)
    ensures 0 <= FileType(mode) < 0x10000 && FileType(mode) % 0x1000 == 0
    ensures (mode - FileType(mode)) % 0x10000 < 0x1000
  {
  }

  // ---------- one archive member ----------

  /** What one turn of the parsing loop reads at `offset`, before it looks for the trailer. */
  function ParseEntry(blob: seq<byte>, offset: nat): (r: Result<Entry, Error>)
    requires offset < |blob|
    ensures r.Ok? ==>
      var e := r.value;
      && e.headerStart == offset
      && offset + HEADER_SIZE < e.dataStart && e.dataStart % 4 == 0
      && e.dataEnd == e.dataStart + e.size <= |blob|
  {
    if offset + HEADER_SIZE > |blob| then Err(TruncatedHeader(offset))
    else
      var header := blob[offset..offset + HEADER_SIZE];
      if !IsNewcMagic(header[..6]) then Err(InvalidMagic(offset))
      else
        var fields := Fields(header[6..]);
        if fields.None? then Err(InvalidField(offset))
        else EntryOf(blob, offset, fields.value)
  }

  /** The member at `offset` once its numeric fields are known. */
  function EntryOf(blob: seq<byte>, offset: nat, f: seq<int>): (r: Result<Entry, Error>)
    requires offset + HEADER_SIZE <= |blob| && |f| == 13
    ensures r.Ok? ==>
      var e := r.value;
      && e.headerStart == offset
      && offset + HEADER_SIZE < e.dataStart && e.dataStart % 4 == 0
      && e.dataEnd == e.dataStart + e.size <= |blob|
  {
    var mode, size, nameSize := f[1], f[6], f[11];
    var nameStart := offset + HEADER_SIZE;
    var nameEnd := nameStart + nameSize;
    if nameSize < 1 || nameEnd > |blob| || blob[nameEnd - 1] != 0 then Err(InvalidName(offset))
    else
      var name := blob[nameStart..nameEnd - 1];
      if !ValidUtf8(name, 0) then Err(NameNotUtf8(offset))
      else
        var dataStart := AlignUp(nameEnd, 4);
        var dataEnd := dataStart + size;
        if dataEnd > |blob| then Err(TruncatedData(offset))
        else if mode < 0 then Err(ModeOutOfRange(offset))
        else Ok(Entry(name, FileType(mode), mode, f[2], f[3], f[4], f[5], size, f[7], f[8], f[9], f[10], f[12],
                      offset, dataStart, dataEnd))
  }

  /**
   * An accepted member stands in the blob as cpio(5) lays it out: magic, name, terminator, aligned data; its type is
   * the four bits of its mode above the lowest twelve.
   */
  lemma EntrySound(blob: seq<byte>, offset: nat)
    requires offset < |blob| && ParseEntry(blob, offset).Ok?
    ensures
      var e := ParseEntry(blob, offset).value;
      var nameEnd := offset + HEADER_SIZE + |e.path|;
      && nameEnd < |blob| && IsNewcMagic(blob[offset..offset + 6])
      && blob[offset + HEADER_SIZE..nameEnd] == e.path && blob[nameEnd] == 0 && ValidUtf8(e.path, 0)
      && e.dataStart == AlignUp(nameEnd + 1, 4)
      && e.fileType == FileType(e.mode) && PyInt16(blob[offset + 54..offset + 62]) == Some(e.size)
      && PyInt16(blob[offset + 94..offset + 102]) == Some(|e.path| + 1)
    ensures
      var e := ParseEntry(blob, offset).value;
      0 <= e.mode && 0 <= e.fileType < 0x10000 && e.fileType % 0x1000 == 0 && (e.mode - e.fileType) % 0x10000 < 0x1000
  {
    hide PyInt16, ValidUtf8, FileType, AlignUp;
    FileTypeMeans(ParseEntry(blob, offset).value.mode);
    var header := blob[offset..offset + HEADER_SIZE];
    assert header[..6] == blob[offset..offset + 6];
    FieldIs(header[6..], 6);
    FieldIs(header[6..], 11);
    assert header[6..] == blob[offset + 6..offset + HEADER_SIZE];
    SubSlice(blob, offset + 6, header[6..], 48, 56);
    SubSlice(blob, offset + 6, header[6..], 88, 96);
  }

  /** The k-th number read is the k-th group of eight characters. */
  lemma {:induction false} FieldIs(text: seq<byte>, k: nat)
    requires Fields(text).Some? && 8 * k + 8 <= |text|
    ensures PyInt16(text[8 * k..8 * k + 8]) == Some(Fields(text).value[k])
  {
    hide PyInt16;
    if k > 0 {
      var rest := text[8..];
      FieldIs(rest, k - 1);
      SliceOfDrop(text, 8, 8 * (k - 1), 8 * (k - 1) + 8);
      assert Fields(text).value[k] == Fields(rest).value[k - 1];
    }
  }

  lemma SliceOfDrop(s: seq<byte>, n: nat, i: nat, j: nat)
    requires i <= j && n + j <= |s|
    ensures s[n..][i..j] == s[n + i..n + j]
  {
  }

  /** What is no header, in the order in which it is noticed. */
  lemma HeaderRefused(blob: seq<byte>, offset: nat)
    requires offset < |blob|
    ensures offset + 110 > |blob| <==> ParseEntry(blob, offset) == Err(TruncatedHeader(offset))
    ensures offset + 110 <= |blob| ==>
      var m := blob[offset..offset + 6];
      m != [48, 55, 48, 55, 48, 49] && m != [48, 55, 48, 55, 48, 50] <==>
      ParseEntry(blob, offset) == Err(InvalidMagic(offset))
  {
    hide PyInt16, ValidUtf8, FileType, AlignUp, Fields;
    if offset + 110 <= |blob| {
      var m := blob[offset..offset + 6];
      assert blob[offset..offset + 110][..6] == m;
      assert IsNewcMagic(m) <==> m == [48, 55, 48, 55, 48, 49] || m == [48, 55, 48, 55, 48, 50];
    }
  }

  /** The k-th of the thirteen groups of eight characters behind the magic. */
  lemma GroupIs(blob: seq<byte>, offset: nat, k: nat)
    requires offset + 110 <= |blob| && k < 13
    ensures blob[offset..offset + 110][6..][8 * k..8 * k + 8] == blob[offset + 6 + 8 * k..offset + 14 + 8 * k]
  {
  }

  lemma NumberRefused(blob: seq<byte>, offset: nat, k: nat)
    requires offset + 110 <= |blob| && k < 13 && PyInt16(blob[offset + 6 + 8 * k..offset + 14 + 8 * k]).None?
    requires IsNewcMagic(blob[offset..offset + 6])
    ensures ParseEntry(blob, offset) == Err(InvalidField(offset))
  {
    hide PyInt16, ValidUtf8, FileType, AlignUp, Fields;
    var header := blob[offset..offset + 110];
    assert header[..6] == blob[offset..offset + 6];
    GroupIs(blob, offset, k);
    if Fields(header[6..]).Some? {
      FieldIs(header[6..], k);
    }
  }

  lemma {:induction false} FieldsFrom(text: seq<byte>, f: seq<int>)
    requires |text| == 8 * |f|
    requires forall k :: 0 <= k < |f| ==> PyInt16(text[8 * k..8 * k + 8]) == Some(f[k])
    ensures Fields(text) == Some(f)
    decreases |f|
  {
    hide PyInt16;
    if f != [] {
      assert text[..8] == text[8 * 0..8 * 0 + 8];
      var rest := text[8..];
      forall k | 0 <= k < |f| - 1 ensures PyInt16(rest[8 * k..8 * k + 8]) == Some(f[1..][k]) {
        SliceOfDrop(text, 8, 8 * k, 8 * k + 8);
        assert 8 * (k + 1) == 8 + 8 * k;
        assert PyInt16(text[8 * (k + 1)..8 * (k + 1) + 8]) == Some(f[k + 1]);
      }
      FieldsFrom(rest, f[1..]);
      assert f == [f[0]] + f[1..];
    }
  }

  /**
   * What becomes of a header with thirteen numbers: the first thing that is wrong with it, or the entry with each
   * number in its place.
   */
  lemma HeaderRead(blob: seq<byte>, offset: nat, f: seq<int>)
    requires offset + 110 <= |blob| && |f| == 13
    requires var m := blob[offset..offset + 6]; m == [48, 55, 48, 55, 48, 49] || m == [48, 55, 48, 55, 48, 50]
    requires forall k :: 0 <= k < 13 ==> PyInt16(blob[offset + 6 + 8 * k..offset + 14 + 8 * k]) == Some(f[k])
    ensures
      var nameEnd := offset + 110 + f[11];
      ParseEntry(blob, offset) ==
      if f[11] < 1 || nameEnd > |blob| || blob[nameEnd - 1] != 0 then Err(InvalidName(offset))
      else if !ValidUtf8(blob[offset + 110..nameEnd - 1], 0) then Err(NameNotUtf8(offset))
      else if AlignUp(nameEnd, 4) + f[6] > |blob| then Err(TruncatedData(offset))
      else if f[1] < 0 then Err(ModeOutOfRange(offset))
      else
        Ok(Entry(blob[offset + 110..nameEnd - 1], FileType(f[1]), f[1], f[2], f[3], f[4], f[5], f[6],
                 f[7], f[8], f[9], f[10], f[12], offset, AlignUp(nameEnd, 4), AlignUp(nameEnd, 4) + f[6]))
  {
    hide PyInt16, ValidUtf8, FileType, AlignUp, Fields;
    var header := blob[offset..offset + 110];
    assert header[..6] == blob[offset..offset + 6];
    forall k | 0 <= k < 13 ensures PyInt16(header[6..][8 * k..8 * k + 8]) == Some(f[k]) {
      GroupIs(blob, offset, k);
    }
    FieldsFrom(header[6..], f);
  }

  // ---------- how the loop goes on ----------

  /** The loop has nowhere to go from `offset`: past the end, at something that is no member, or at the trailer. */
  predicate Stops(blob: seq<byte>, offset: nat) {
    offset >= |blob| || ParseEntry(blob, offset).Err? || ParseEntry(blob, offset).value.path == TRAILER
  }

  /** Where the loop goes on from the member at `offset`. */
  function Next(blob: seq<byte>, offset: nat): int
    requires !Stops(blob, offset)
  {
    ParseEntry(blob, offset).value.NextOffset()
  }

  /** The loop entered at `offset` stops after at most `turns` members, and never leaves the archive at its front. */
  predicate EndsWithin(blob: seq<byte>, offset: int, turns: nat)
    decreases turns
  {
    offset >= 0 && (Stops(blob, offset) || (turns > 0 && EndsWithin(blob, Next(blob, offset), turns - 1)))
  }

  /**
   * The loop comes to an end. A size may be negative and send the loop back: to a member it has read before, and then
   * it reads the same members for ever, or to one it has not, from where it may well reach the trailer.
   */
  ghost predicate Ends(blob: seq<byte>, offset: int) { exists turns: nat :: EndsWithin(blob, offset, turns) }

  /** A member advances exactly if its size exceeds the distance back from its data to its header. */
  lemma AdvancesIff(blob: seq<byte>, offset: nat)
    requires offset < |blob| && offset % 4 == 0 && ParseEntry(blob, offset).Ok?
    ensures
      var e := ParseEntry(blob, offset).value;
      && (e.Advances() <==> e.size > offset - AlignUp(offset + HEADER_SIZE + |e.path| + 1, 4))
      && (e.size >= 0 ==> e.NextOffset() >= offset + 112)
  {
    hide ParseEntry, AlignUp, IsNewcMagic, ValidUtf8, PyInt16, FileType;
    EntrySound(blob, offset);
  }

  /** Every member that the loop entered at `offset` reads moves it forward. */
  predicate Advancing(blob: seq<byte>, offset: nat)
    decreases |blob| - offset
  {
    Stops(blob, offset) || (Next(blob, offset) > offset && Advancing(blob, Next(blob, offset)))
  }

  /** If it only moves forward, the loop ends. */
  lemma {:induction false} AdvancingEnds(blob: seq<byte>, offset: nat, turns: nat)
    requires Advancing(blob, offset) && turns >= |blob| - offset
    ensures EndsWithin(blob, offset, turns) && Ends(blob, offset)
    decreases |blob| - offset
  {
    hide ParseEntry;
    if !Stops(blob, offset) {
      AdvancingEnds(blob, Next(blob, offset), turns - 1);
    }
  }

  /** The offsets at which the loop reads members, in their order. */
  ghost function Trail(blob: seq<byte>, offset: int, turns: nat): (r: seq<nat>)
    requires EndsWithin(blob, offset, turns)
    decreases turns
  {
    if Stops(blob, offset) then [] else [offset] + Trail(blob, Next(blob, offset), turns - 1)
  }

  lemma {:induction false} SameTrail(blob: seq<byte>, offset: int, m: nat, n: nat)
    requires EndsWithin(blob, offset, m) && EndsWithin(blob, offset, n)
    ensures Trail(blob, offset, m) == Trail(blob, offset, n)
    decreases m
  {
    hide Stops;
    if !Stops(blob, offset) {
      SameTrail(blob, Next(blob, offset), m - 1, n - 1);
    }
  }

  /** From each offset on the trail there is a shorter trail than from the first: no offset comes twice. */
  lemma {:induction false} TrailSteps(blob: seq<byte>, offset: int, turns: nat, i: nat)
    requires EndsWithin(blob, offset, turns) && i < |Trail(blob, offset, turns)|
    ensures
      var t := Trail(blob, offset, turns);
      && |t| <= turns && t[i] < |blob| && (offset % 4 == 0 ==> t[i] % 4 == 0)
      && EndsWithin(blob, t[i], turns) && |Trail(blob, t[i], turns)| == |t| - i
      && EndsWithin(blob, offset, |t|)
    decreases turns
  {
    hide ParseEntry;
    var t := Trail(blob, offset, turns);
    var next := Next(blob, offset);
    assert t[1..] == Trail(blob, next, turns - 1);
    if |t| > 1 {
      TrailSteps(blob, next, turns - 1, if i > 0 then i - 1 else 0);
      if i > 0 {
        MoreTurns(blob, t[i], turns - 1);
      }
    }
  }

  lemma {:induction false} MoreTurns(blob: seq<byte>, offset: int, turns: nat)
    requires EndsWithin(blob, offset, turns)
    ensures EndsWithin(blob, offset, turns + 1)
    ensures Trail(blob, offset, turns + 1) == Trail(blob, offset, turns)
    decreases turns
  {
    hide Stops;
    if !Stops(blob, offset) {
      MoreTurns(blob, Next(blob, offset), turns - 1);
    }
  }

  /** Different numbers below `m` are at most `m` many. */
  lemma {:induction false} Pigeonhole(s: seq<nat>, m: nat)
    requires forall i :: 0 <= i < |s| ==> s[i] < m
    requires forall i, j :: 0 <= i < j < |s| ==> s[i] != s[j]
    ensures |s| <= m
  {
    if s != [] {
      assert s[0] < m;
      if m - 1 in s {
        var i :| 0 <= i < |s| && s[i] == m - 1;
        Pigeonhole(s[..i] + s[i + 1..], m - 1);
      } else {
        Pigeonhole(s, m - 1);
      }
    }
  }

  /** Whether the loop ends shows within as many turns as the archive has aligned offsets. */
  lemma EndsIffSoon(blob: seq<byte>, offset: nat)
    requires offset % 4 == 0
    ensures Ends(blob, offset) <==> EndsWithin(blob, offset, |blob| / 4 + 1)
  {
    hide ParseEntry, EndsWithin, Trail;
    if Ends(blob, offset) {
      var turns: nat :| EndsWithin(blob, offset, turns);
      var t := Trail(blob, offset, turns);
      forall i, j | 0 <= i < j < |t| ensures t[i] / 4 != t[j] / 4 {
        TrailSteps(blob, offset, turns, i);
        TrailSteps(blob, offset, turns, j);
      }
      forall i | 0 <= i < |t| ensures t[i] / 4 < |blob| / 4 + 1 {
        TrailSteps(blob, offset, turns, i);
      }
      Pigeonhole(seq(|t|, i requires 0 <= i < |t| => t[i] / 4), |blob| / 4 + 1);
      TrailLength(blob, offset, turns, |blob| / 4 + 1);
    }
  }

  lemma {:induction false} TrailLength(blob: seq<byte>, offset: int, turns: nat, n: nat)
    requires EndsWithin(blob, offset, turns) && |Trail(blob, offset, turns)| <= n
    ensures EndsWithin(blob, offset, n)
    decreases turns
  {
    hide Stops;
    if !Stops(blob, offset) {
      TrailLength(blob, Next(blob, offset), turns - 1, n - 1);
    }
  }

  /** The offset after `n` turns of the loop that read a member each; a turn that fails leaves it where it is. */
  ghost function OffsetAfter(blob: seq<byte>, n: nat): int {
    if n == 0 then 0
    else
      var offset := OffsetAfter(blob, n - 1);
      if 0 <= offset < |blob| && ParseEntry(blob, offset).Ok? then ParseEntry(blob, offset).value.NextOffset()
      else offset
  }

  // ---------- the whole archive ----------

  /** The result of the parsing loop entered at `offset`, which takes at most `turns` turns to end. */
  function ParseWithin(blob: seq<byte>, offset: int, turns: nat): Result<seq<Entry>, Error>
    requires EndsWithin(blob, offset, turns)
    decreases turns
  {
    if offset >= |blob| then Err(TrailerNotFound)
    else
      var e :- ParseEntry(blob, offset);
      if e.path == TRAILER then
        if e.size != 0 then Err(TrailerHasData)
        else if !AllZero(PySlice(blob, e.NextOffset(), |blob|)) then Err(NonZeroTail)
        else Ok([])
      else
        var rest :- ParseWithin(blob, e.NextOffset(), turns - 1);
        Ok([e] + rest)
  }

  /** The result of the parsing loop entered at `offset`. */
  ghost function ParseFrom(blob: seq<byte>, offset: int): Result<seq<Entry>, Error>
    requires Ends(blob, offset)
  {
    var turns: nat :| EndsWithin(blob, offset, turns);
    ParseWithin(blob, offset, turns)
  }

  /** The entries of an archive, or why it is rejected. */
  ghost function Parse(blob: seq<byte>): Result<seq<Entry>, Error>
    requires Ends(blob, 0)
  {
    ParseFrom(blob, 0)
  }

  lemma {:induction false} SameParse(blob: seq<byte>, offset: int, m: nat, n: nat)
    requires EndsWithin(blob, offset, m) && EndsWithin(blob, offset, n)
    ensures ParseWithin(blob, offset, m) == ParseWithin(blob, offset, n)
    decreases m
  {
    hide ParseEntry, AlignUp;
    if !Stops(blob, offset) {
      SameParse(blob, Next(blob, offset), m - 1, n - 1);
    }
  }

  lemma ParseIs(blob: seq<byte>, offset: int, turns: nat)
    requires EndsWithin(blob, offset, turns)
    ensures Ends(blob, offset) && ParseFrom(blob, offset) == ParseWithin(blob, offset, turns)
  {
    hide EndsWithin, ParseWithin;
    var n: nat :| EndsWithin(blob, offset, n) && ParseFrom(blob, offset) == ParseWithin(blob, offset, n);
    SameParse(blob, offset, n, turns);
  }

  function After(entries: seq<Entry>, r: Result<seq<Entry>, Error>): Result<seq<Entry>, Error> {
    if r.Err? then r else Ok(entries + r.value)
  }

  method ParseNewc(blob: seq<byte>) returns (r: Result<seq<Entry>, Error>)
    requires Ends(blob, 0)
    ensures r == Parse(blob)
  {
    hide ParseEntry, AlignUp;
    var entries: seq<Entry> := [];
    var offset := 0;
    var trailerFound := false;
    ghost var turns: nat :| EndsWithin(blob, 0, turns);
    ParseIs(blob, 0, turns);
    assert Parse(blob).Ok? ==> [] + Parse(blob).value == Parse(blob).value;
    while offset < |blob|
      invariant !trailerFound && EndsWithin(blob, offset, turns)
      invariant Parse(blob) == After(entries, ParseWithin(blob, offset, turns))
      decreases turns
    {
      var parsed := ParseEntry(blob, offset);
      if parsed.Err? {
        return Err(parsed.error);
      }
      var entry := parsed.value;
      if entry.path == TRAILER {
        if entry.size != 0 {
          return Err(TrailerHasData);
        }
        trailerFound := true;
        offset := entry.NextOffset();
        break;
      }
      turns := turns - 1;
      ghost var rest := ParseWithin(blob, entry.NextOffset(), turns);
      assert rest.Ok? ==> entries + ([entry] + rest.value) == entries + [entry] + rest.value;
      entries := entries + [entry];
      offset := entry.NextOffset();
    }
    if !trailerFound {
      return Err(TrailerNotFound);
    }
    var tail := PySlice(blob, offset, |blob|);
    if exists k :: 0 <= k < |tail| && tail[k] != 0 {
      return Err(NonZeroTail);
    }
    assert entries + [] == entries;
    return Ok(entries);
  }

  // ---------- chains of members ----------

  /** Entry `e` is a member, not the trailer, with its header at `e.headerStart`. */
  ghost predicate MemberAt(blob: seq<byte>, e: Entry) {
    && e.headerStart < |blob| && e.headerStart % 4 == 0 && ParseEntry(blob, e.headerStart) == Ok(e)
    && e.path != TRAILER
  }

  /** An empty member named TRAILER!!! at `end`, and nothing but zeros after it. */
  ghost predicate TrailerAt(blob: seq<byte>, end: int) {
    && 0 <= end < |blob| && ParseEntry(blob, end).Ok?
    && var trailer := ParseEntry(blob, end).value;
       && trailer.path == TRAILER && trailer.size == 0
       && forall k :: trailer.NextOffset() <= k < |blob| ==> blob[k] == 0
  }

  /** Where the loop is after these entries. */
  ghost function End(entries: seq<Entry>, offset: int): int {
    if entries == [] then offset else entries[|entries| - 1].NextOffset()
  }

  /** Each entry starts where the one before it sends the loop, from `offset` to a trailer with zeros after it. */
  ghost predicate Chain(blob: seq<byte>, entries: seq<Entry>, offset: int) {
    && (forall i :: 0 <= i < |entries| ==> MemberAt(blob, entries[i]))
    && (entries != [] ==> entries[0].headerStart == offset)
    && (forall i, j :: 0 <= i < j < |entries| && j == i + 1 ==> entries[j].headerStart == entries[i].NextOffset())
    && TrailerAt(blob, End(entries, offset))
  }

  lemma ParseTrailer(blob: seq<byte>, end: int)
    requires TrailerAt(blob, end)
    ensures EndsWithin(blob, end, 0) && ParseWithin(blob, end, 0) == Ok([])
  {
    hide ParseEntry;
    var tail := PySlice(blob, ParseEntry(blob, end).value.NextOffset(), |blob|);
    assert AllZero(tail);
  }

  /** The loop ends in `entries` exactly when they are chained to one another and to a trailer before zeros only. */
  lemma ParseIffChain(blob: seq<byte>, entries: seq<Entry>, offset: int)
    requires offset % 4 == 0
    ensures (Ends(blob, offset) && ParseFrom(blob, offset) == Ok(entries)) <==> Chain(blob, entries, offset)
  {
    hide ParseEntry, Chain, EndsWithin, ParseWithin;
    if Ends(blob, offset) && ParseFrom(blob, offset) == Ok(entries) {
      var turns: nat :| EndsWithin(blob, offset, turns) && ParseWithin(blob, offset, turns) == Ok(entries);
      ChainOfParse(blob, entries, offset, turns);
    }
    if Chain(blob, entries, offset) {
      ParseOfChain(blob, entries, offset);
      ParseIs(blob, offset, |entries|);
    }
  }

  lemma {:induction false} ChainOfParse(blob: seq<byte>, entries: seq<Entry>, offset: int, turns: nat)
    requires offset % 4 == 0 && EndsWithin(blob, offset, turns) && ParseWithin(blob, offset, turns) == Ok(entries)
    ensures Chain(blob, entries, offset)
    decreases turns
  {
    hide ParseEntry;
    var e := ParseEntry(blob, offset).value;
    var next := e.NextOffset();
    if e.path == TRAILER {
      forall k | next <= k < |blob| ensures blob[k] == 0 {
        assert PySlice(blob, next, |blob|)[k - next] == blob[k];
      }
    } else {
      ChainOfParse(blob, entries[1..], next, turns - 1);
      ChainCons(blob, e, entries[1..], offset);
      assert entries == [e] + entries[1..];
    }
  }

  lemma ChainCons(blob: seq<byte>, e: Entry, rest: seq<Entry>, offset: int)
    requires MemberAt(blob, e) && e.headerStart == offset && Chain(blob, rest, e.NextOffset())
    ensures Chain(blob, [e] + rest, offset)
  {
    hide MemberAt, TrailerAt, AlignUp;
    var all := [e] + rest;
    assert forall i :: 0 < i < |all| ==> all[i] == rest[i - 1];
  }

  lemma ChainTail(blob: seq<byte>, entries: seq<Entry>, offset: int)
    requires Chain(blob, entries, offset) && entries != []
    ensures MemberAt(blob, entries[0]) && entries[0].headerStart == offset
    ensures Chain(blob, entries[1..], entries[0].NextOffset())
  {
    hide MemberAt, TrailerAt, AlignUp;
    var rest := entries[1..];
    assert forall i :: 0 <= i < |rest| ==> rest[i] == entries[i + 1];
  }

  lemma {:induction false} ParseOfChain(blob: seq<byte>, entries: seq<Entry>, offset: int)
    requires Chain(blob, entries, offset)
    ensures EndsWithin(blob, offset, |entries|) && ParseWithin(blob, offset, |entries|) == Ok(entries)
    decreases |entries|
  {
    hide ParseEntry, AlignUp, TrailerAt, Chain;
    if entries != [] {
      ChainTail(blob, entries, offset);
      ParseOfChain(blob, entries[1..], entries[0].NextOffset());
      assert entries == [entries[0]] + entries[1..];
    } else {
      EmptyChain(blob, offset);
      ParseTrailer(blob, offset);
    }
  }

  lemma EmptyChain(blob: seq<byte>, offset: int)
    ensures Chain(blob, [], offset) <==> TrailerAt(blob, offset)
  {
    hide TrailerAt, MemberAt;
  }

  /** The members `es` are read one after the other from `offset` on, and lead to `end`. */
  ghost predicate Leads(blob: seq<byte>, es: seq<Entry>, offset: int, end: int) {
    && (forall i :: 0 <= i < |es| ==> MemberRead(blob, es[i]))
    && (es != [] ==> es[0].headerStart == offset)
    && (forall i, j :: 0 <= i < j < |es| && j == i + 1 ==> es[j].headerStart == AlignUp(es[i].dataEnd, 4))
    && end == if es == [] then offset else AlignUp(es[|es| - 1].dataEnd, 4)
  }

  ghost predicate MemberRead(blob: seq<byte>, e: Entry) {
    && e.headerStart < |blob| && ParseEntry(blob, e.headerStart) == Ok(e)
    && e.path != [84, 82, 65, 73, 76, 69, 82, 33, 33, 33]
  }

  lemma LeadsCons(blob: seq<byte>, e: Entry, es: seq<Entry>, end: int)
    requires MemberRead(blob, e) && Leads(blob, es, AlignUp(e.dataEnd, 4), end)
    ensures Leads(blob, [e] + es, e.headerStart, end)
  {
    hide MemberRead, AlignUp;
    var all := [e] + es;
    assert forall i :: 0 < i < |all| ==> all[i] == es[i - 1];
  }

  lemma {:induction false} OutcomeFrom(blob: seq<byte>, offset: int, turns: nat) returns (es: seq<Entry>, end: nat)
    requires EndsWithin(blob, offset, turns)
    ensures Leads(blob, es, offset, end) && Stops(blob, end)
    ensures ParseWithin(blob, offset, turns) ==
            if end >= |blob| then Err(TrailerNotFound)
            else if ParseEntry(blob, end).Err? then Err(ParseEntry(blob, end).error)
            else if ParseEntry(blob, end).value.size != 0 then Err(TrailerHasData)
            else if !AllZero(PySlice(blob, ParseEntry(blob, end).value.NextOffset(), |blob|)) then Err(NonZeroTail)
            else Ok(es)
    decreases turns
  {
    hide ParseEntry, AlignUp;
    if Stops(blob, offset) {
      es, end := [], offset;
    } else {
      var e := ParseEntry(blob, offset).value;
      es, end := OutcomeFrom(blob, Next(blob, offset), turns - 1);
      HeaderPlace(blob, offset);
      LeadsCons(blob, e, es, end);
      es := [e] + es;
    }
  }

  lemma HeaderPlace(blob: seq<byte>, offset: nat)
    requires offset < |blob| && ParseEntry(blob, offset).Ok?
    ensures ParseEntry(blob, offset).value.headerStart == offset
  {
    hide ParseEntry, AlignUp, IsNewcMagic, ValidUtf8, PyInt16, FileType;
    EntrySound(blob, offset);
  }

  /**
   * What parsing gives: members are read one after the other, each where the one before it ends, up to an offset at
   * which there is no other; and what is there decides.
   */
  lemma ParseOutcome(blob: seq<byte>) returns (es: seq<Entry>, end: nat)
    requires Ends(blob, 0)
    ensures forall i :: 0 <= i < |es| ==>
      && es[i].headerStart < |blob| && ParseEntry(blob, es[i].headerStart) == Ok(es[i])
      && es[i].path != [84, 82, 65, 73, 76, 69, 82, 33, 33, 33]
    ensures es != [] ==> es[0].headerStart == 0 && end == AlignUp(es[|es| - 1].dataEnd, 4)
    ensures forall i, j :: 0 <= i < j < |es| && j == i + 1 ==> es[j].headerStart == AlignUp(es[i].dataEnd, 4)
    ensures es == [] ==> end == 0
    ensures end >= |blob| ==> Parse(blob) == Err(TrailerNotFound)
    ensures end < |blob| && ParseEntry(blob, end).Err? ==> Parse(blob) == Err(ParseEntry(blob, end).error)
    ensures end < |blob| && ParseEntry(blob, end).Ok? ==>
      var trailer := ParseEntry(blob, end).value;
      && trailer.path == [84, 82, 65, 73, 76, 69, 82, 33, 33, 33]
      && (trailer.size != 0 ==> Parse(blob) == Err(TrailerHasData))
      && (trailer.size == 0 ==>
            Parse(blob) == if forall k :: AlignUp(trailer.dataEnd, 4) <= k < |blob| ==> blob[k] == 0
                           then Ok(es) else Err(NonZeroTail))
  {
    hide ParseEntry, AlignUp;
    var turns: nat :| EndsWithin(blob, 0, turns);
    ParseIs(blob, 0, turns);
    es, end := OutcomeFrom(blob, 0, turns);
    forall i | 0 <= i < |es| ensures MemberRead(blob, es[i]) {
    }
    if end < |blob| && ParseEntry(blob, end).Ok? && ParseEntry(blob, end).value.size == 0 {
      TrailerPlaceAndTail(blob, end);
    }
  }

  lemma TrailerPlaceAndTail(blob: seq<byte>, end: nat)
    requires end < |blob| && ParseEntry(blob, end).Ok? && ParseEntry(blob, end).value.size == 0
    ensures
      var next := AlignUp(ParseEntry(blob, end).value.dataEnd, 4);
      next >= 0 && (AllZero(PySlice(blob, next, |blob|)) <==> forall k :: next <= k < |blob| ==> blob[k] == 0)
  {
    hide ParseEntry, AlignUp, PyInt16, ValidUtf8, FileType, IsNewcMagic;
    EntrySound(blob, end);
    EntryEnds(blob, end);
    var next := AlignUp(ParseEntry(blob, end).value.dataEnd, 4);
    var tail := PySlice(blob, next, |blob|);
    if AllZero(tail) {
      forall k | next <= k < |blob| ensures blob[k] == 0 {
        assert tail[k - next] == blob[k];
      }
    }
  }

  lemma EntryEnds(blob: seq<byte>, offset: nat)
    requires offset < |blob| && ParseEntry(blob, offset).Ok?
    ensures var e := ParseEntry(blob, offset).value; e.dataEnd == e.dataStart + e.size && e.dataStart > offset + 110
  {
    hide AlignUp, IsNewcMagic, ValidUtf8, FileType, Fields;
  }

  /** No offset comes twice in a chain: the same header sends the loop the same way again and never to the trailer. */
  lemma {:induction false} HeadersDiffer(blob: seq<byte>, entries: seq<Entry>, offset: int, i: nat, j: nat)
    requires Chain(blob, entries, offset) && i < j <= |entries|
    ensures entries[i].headerStart != if j < |entries| then entries[j].headerStart else End(entries, offset)
    decreases |entries| - j
  {
    hide ParseEntry, AlignUp;
    assert MemberAt(blob, entries[i]);
    if j < |entries| {
      assert MemberAt(blob, entries[j]);
      if entries[i].headerStart == entries[j].headerStart {
        assert entries[i] == entries[j];
        HeadersDiffer(blob, entries, offset, i + 1, j + 1);
      }
    }
  }

  /** Data may be empty or end before it starts, but never outside the archive. */
  lemma EndsInside(blob: seq<byte>, entries: seq<Entry>, i: nat)
    requires Chain(blob, entries, 0) && i < |entries|
    ensures var e := entries[i]; 0 < e.dataEnd <= |blob| && 0 < e.NextOffset()
  {
    hide Chain, ParseEntry, AlignUp;
    NextInChain(blob, entries, 0, i);
    HeadersDiffer(blob, entries, 0, 0, i + 1);
    MemberEnds(blob, entries[i]);
  }

  lemma NextInChain(blob: seq<byte>, entries: seq<Entry>, offset: int, i: nat)
    requires Chain(blob, entries, offset) && i < |entries|
    ensures MemberAt(blob, entries[i]) && entries[0].headerStart == offset
    ensures entries[i].NextOffset() == if i + 1 < |entries| then entries[i + 1].headerStart else End(entries, offset)
    ensures TrailerAt(blob, End(entries, offset)) && entries[i].NextOffset() >= 0
  {
    hide MemberAt, TrailerAt, AlignUp;
    assert TrailerAt(blob, End(entries, offset));
    EndNotNegative(blob, End(entries, offset));
  }

  lemma EndNotNegative(blob: seq<byte>, end: int)
    requires TrailerAt(blob, end)
    ensures end >= 0
  {
  }

  lemma MemberEnds(blob: seq<byte>, e: Entry)
    requires MemberAt(blob, e)
    ensures e.dataEnd == e.dataStart + e.size <= |blob| && e.dataStart > e.headerStart + HEADER_SIZE
  {
    hide AlignUp, IsNewcMagic, ValidUtf8, FileType, Fields;
  }

  // ---------- sizes that are not negative ----------

  /** What a caller can read off the size fields. */
  ghost predicate NonNegativeSizes(entries: seq<Entry>) {
    forall i :: 0 <= i < |entries| ==> entries[i].size >= 0
  }

  /** Every entry moves the loop forward. */
  ghost predicate AllAdvance(entries: seq<Entry>) {
    forall i :: 0 <= i < |entries| ==> entries[i].Advances()
  }

  lemma NonNegativeAdvance(blob: seq<byte>, entries: seq<Entry>, offset: int)
    requires Chain(blob, entries, offset) && NonNegativeSizes(entries)
    ensures AllAdvance(entries)
  {
    hide ParseEntry, AlignUp;
    forall i | 0 <= i < |entries| ensures entries[i].Advances() {
      assert MemberAt(blob, entries[i]);
      MemberEnds(blob, entries[i]);
    }
  }

  /** If every entry moves the loop forward, a later one starts behind what an earlier one sent the loop to. */
  lemma {:induction false} LaterBehind(blob: seq<byte>, entries: seq<Entry>, offset: int, i: nat, j: nat)
    requires Chain(blob, entries, offset) && AllAdvance(entries) && i < j <= |entries|
    ensures entries[i].NextOffset() <= if j < |entries| then entries[j].headerStart else End(entries, offset)
    decreases j - i
  {
    hide ParseEntry, AlignUp, TrailerAt;
    if i + 1 < j {
      LaterBehind(blob, entries, offset, i, j - 1);
    }
  }

  /** Each entry's header and data lie between the start and the trailer, hence inside the blob. */
  lemma EntryInside(blob: seq<byte>, entries: seq<Entry>, offset: int, j: nat)
    requires Chain(blob, entries, offset) && NonNegativeSizes(entries) && j < |entries|
    ensures entries[j].headerStart + 112 <= entries[j].NextOffset() <= End(entries, offset) < |blob|
    ensures entries[j].headerStart < entries[j].dataStart <= entries[j].dataEnd <= entries[j].NextOffset()
  {
    hide ParseEntry;
    NonNegativeAdvance(blob, entries, offset);
    LaterBehind(blob, entries, offset, j, |entries|);
    assert MemberAt(blob, entries[j]);
    MemberEnds(blob, entries[j]);
  }

  /** Headers are at least 112 bytes apart; data intervals are disjoint and in order. */
  lemma EntriesDisjoint(blob: seq<byte>, entries: seq<Entry>, offset: int, i: nat, j: nat)
    requires Chain(blob, entries, offset) && NonNegativeSizes(entries) && i < j < |entries|
    ensures entries[i].headerStart + 112 <= entries[j].headerStart
    ensures entries[i].dataEnd <= entries[j].headerStart < entries[j].dataStart <= entries[j].dataEnd
    ensures entries[j].dataEnd <= End(entries, offset)
  {
    hide ParseEntry, AlignUp, Chain;
    NonNegativeAdvance(blob, entries, offset);
    LaterBehind(blob, entries, offset, i, j);
    EntryInside(blob, entries, offset, i);
    EntryInside(blob, entries, offset, j);
  }
}
