/** Writing newc archives as cpio(5) describes them, and reading them back with the parser. */
module NewcFormat {
  import opened Bytes
  import opened Newc

  // ---------- eight-digit hexadecimal ----------

  function Pow16(n: nat): nat { if n == 0 then 1 else 16 * Pow16(n - 1) }

  function DigitChar(d: nat, upper: bool): (b: byte)
    requires d < 16
    ensures HexDigit(b) == Some(d) && b < 0x80
  {
    if d < 10 then 48 + d else if upper then 55 + d else 87 + d
  }

  /** The low `n` hexadecimal digits of `v`, most significant first. */
  function HexDigits(n: nat, v: nat, upper: bool): (s: seq<byte>)
    ensures |s| == n
    ensures forall k :: 0 <= k < n ==> HexDigit(s[k]).Some? && s[k] < 0x80
  {
    if n == 0 then [] else HexDigits(n - 1, v / 16, upper) + [DigitChar(v % 16, upper)]
  }

  lemma {:induction false} HexValueOfDigits(n: nat, v: nat, upper: bool)
    requires 1 <= n && v < Pow16(n)
    ensures HexValue(HexDigits(n, v, upper)) == Some(v)
  {
    hide DigitChar, HexValue, HexDigit;
    var s, rest := HexDigits(n, v, upper), HexDigits(n - 1, v / 16, upper);
    assert s[..n - 1] == rest && s[n - 1] == DigitChar(v % 16, upper);
    HexValueStep(s);
    if n > 1 {
      HexValueOfDigits(n - 1, v / 16, upper);
    } else {
      assert Pow16(0) == 1;
    }
  }

  lemma HexValueStep(s: seq<byte>)
    requires s != [] && forall k :: 0 <= k < |s| ==> HexDigit(s[k]).Some?
    ensures
      var rest, digit := s[..|s| - 1], HexDigit(s[|s| - 1]);
      HexValue(s) == if rest == [] then digit
                     else if HexValue(rest).None? then None
                     else Some(16 * HexValue(rest).value + digit.value)
  {
    hide DropUnderscore, HexDigit;
    NoUnderscore(s[..|s| - 1]);
  }

  lemma NoUnderscore(s: seq<byte>)
    requires s != [] ==> HexDigit(s[|s| - 1]).Some?
    ensures DropUnderscore(s) == s
  {
  }

  /** Numbers that can be written in eight characters, a minus sign being one of them. */
  predicate FitsField(v: int) { -0x1000_0000 < v < 0x1_0000_0000 }

  function FieldText(v: int, upper: bool): (s: seq<byte>)
    ensures |s| == 8
  {
    if v >= 0 then HexDigits(8, v, upper) else [45] + HexDigits(7, -v, upper)
  }

  /** The lenient number reader gives back every number written in eight characters, negative ones included. */
  lemma FieldRoundTrip(v: int, upper: bool)
    requires FitsField(v)
    ensures PyInt16(FieldText(v, upper)) == Some(v)
  {
    hide HexValue, HexDigits;
    assert Pow16(8) == 16 * Pow16(7) == 0x1_0000_0000;
    if v >= 0 {
      HexValueOfDigits(8, v, upper);
      PlainDigits(HexDigits(8, v, upper));
    } else {
      HexValueOfDigits(7, -v, upper);
      NegatedDigits(HexDigits(7, -v, upper));
    }
  }

  lemma NothingToStrip(s: seq<byte>)
    requires s != [] && !IsSpace(s[0]) && !IsSpace(s[|s| - 1])
    ensures StripRight(StripLeft(s)) == s
  {
  }

  lemma DigitIsPlain(b: byte)
    requires HexDigit(b).Some?
    ensures !IsSpace(b) && b != 43 && b != 45 && b != 88 && b != 120
  {
  }

  /** Digits are read as such. */
  lemma PlainDigits(digits: seq<byte>)
    requires |digits| >= 2 && HexValue(digits).Some? && forall k :: 0 <= k < |digits| ==> HexDigit(digits[k]).Some?
    ensures PyInt16(digits) == Some(HexValue(digits).value)
  {
    hide HexValue, HexDigit, StripLeft, StripRight, IsSpace;
    DigitIsPlain(digits[0]);
    DigitIsPlain(digits[1]);
    DigitIsPlain(digits[|digits| - 1]);
    NothingToStrip(digits);
  }

  /** A minus sign in front of digits negates. */
  lemma NegatedDigits(digits: seq<byte>)
    requires |digits| >= 2 && HexValue(digits).Some? && forall k :: 0 <= k < |digits| ==> HexDigit(digits[k]).Some?
    ensures PyInt16([45] + digits) == Some(-HexValue(digits).value)
  {
    hide PyInt16, HexValue, HexDigit;
    var s := [45] + digits;
    assert s[1..] == digits && s[0] == 45 && s[|s| - 1] == digits[|digits| - 1];
    SignedDigits(s);
  }

  lemma SignedDigits(s: seq<byte>)
    requires |s| >= 3 && s[0] == 45 && HexValue(s[1..]).Some?
    requires forall k :: 1 <= k < |s| ==> HexDigit(s[k]).Some?
    ensures PyInt16(s) == Some(-HexValue(s[1..]).value)
  {
    hide HexValue, HexDigit, StripLeft, StripRight;
    DigitIsPlain(s[1]);
    DigitIsPlain(s[2]);
    DigitIsPlain(s[|s| - 1]);
    NothingToStrip(s);
  }

  function HexFields(fields: seq<int>, upper: bool): (s: seq<byte>)
    ensures |s| == 8 * |fields|
  {
    if fields == [] then [] else FieldText(fields[0], upper) + HexFields(fields[1..], upper)
  }

  lemma {:induction false} FieldsRoundTrip(fields: seq<int>, upper: bool)
    requires forall k :: 0 <= k < |fields| ==> FitsField(fields[k])
    ensures Fields(HexFields(fields, upper)) == Some(fields)
  {
    hide FieldText, PyInt16;
    if fields != [] {
      var s := HexFields(fields, upper);
      FieldRoundTrip(fields[0], upper);
      FieldsRoundTrip(fields[1..], upper);
      assert s[..8] == FieldText(fields[0], upper) && s[8..] == HexFields(fields[1..], upper);
      assert fields == [fields[0]] + fields[1..];
    }
  }

  // ---------- headers ----------

  /** A header and the name behind it, with any thirteen numbers that eight characters can hold. */
  datatype Header = Header(magic: seq<byte>, upper: bool, fields: seq<int>, name: seq<byte>) {
    predicate Valid() {
      && IsNewcMagic(magic) && ValidUtf8(name, 0)
      && |fields| == 13 && fields[1] >= 0 && fields[11] == |name| + 1
      && forall k :: 0 <= k < 13 ==> FitsField(fields[k])
    }

    function Text(): (s: seq<byte>)
      requires IsNewcMagic(magic) && |fields| == 13
      ensures |s| == HEADER_SIZE + |name| + 1
      ensures s[..6] == magic && s[6..HEADER_SIZE] == HexFields(fields, upper)
      ensures s[HEADER_SIZE..HEADER_SIZE + |name|] == name && s[HEADER_SIZE + |name|] == 0
    {
      magic + HexFields(fields, upper) + name + [0]
    }

    /** The entry the parser should report for this header at `offset`. */
    function EntryAt(offset: nat): Entry
      requires |fields| == 13 && fields[1] >= 0
    {
      var dataStart := AlignUp(offset + HEADER_SIZE + |name| + 1, 4);
      Entry(name, FileType(fields[1]), fields[1], fields[2], fields[3], fields[4], fields[5], fields[6],
            fields[7], fields[8], fields[9], fields[10], fields[12], offset, dataStart, dataStart + fields[6])
    }
  }

  lemma HeaderReadBack(blob: seq<byte>, offset: nat, h: Header)
    requires h.Valid() && offset + |h.Text()| <= |blob| && blob[offset..offset + |h.Text()|] == h.Text()
    ensures IsNewcMagic(blob[offset..offset + HEADER_SIZE][..6])
    ensures Fields(blob[offset..offset + HEADER_SIZE][6..]) == Some(h.fields)
    ensures blob[offset + HEADER_SIZE..offset + HEADER_SIZE + |h.name|] == h.name
    ensures blob[offset + HEADER_SIZE + |h.name|] == 0
  {
    hide Fields, HexFields, ValidUtf8;
    var t := h.Text();
    var n := HEADER_SIZE + |h.name|;
    FieldsRoundTrip(h.fields, h.upper);
    SubSlice(blob, offset, t, 0, HEADER_SIZE);
    assert t[0..HEADER_SIZE][..6] == t[..6] && t[0..HEADER_SIZE][6..] == t[6..HEADER_SIZE];
    SubSlice(blob, offset, t, HEADER_SIZE, n);
    SubSlice(blob, offset, t, n, n + 1);
    assert blob[offset + n] == blob[offset + n..offset + n + 1][0];
  }

  /** A header whose data would end within the blob is read as its entry, whatever its size field says. */
  lemma HeaderRoundTrip(blob: seq<byte>, offset: nat, h: Header)
    requires h.Valid() && offset + |h.Text()| <= |blob| && blob[offset..offset + |h.Text()|] == h.Text()
    requires h.EntryAt(offset).dataEnd <= |blob|
    ensures ParseEntry(blob, offset) == Ok(h.EntryAt(offset))
  {
    hide Fields, HexFields, ValidUtf8, FileType, Header.Text, AlignUp;
    HeaderReadBack(blob, offset, h);
  }

  // ---------- members ----------

  datatype Member = Member(
    magic: seq<byte>, upper: bool, name: seq<byte>,
    inode: nat, mode: nat, uid: nat, gid: nat, nlink: nat, mtime: nat,
    deviceMajor: nat, deviceMinor: nat, rdeviceMajor: nat, rdeviceMinor: nat, check: nat, data: seq<byte>)
  {
    /** The header in front of the data, with the thirteen fields in their order on disk. */
    function Head(): (h: Header)
      ensures |h.fields| == 13 && h.fields[1] >= 0 && h.fields[6] == |data| && h.fields[11] == |name| + 1
      ensures h.name == name && h.magic == magic
    {
      Header(magic, upper,
             [inode, mode, uid, gid, nlink, mtime, |data|,
              deviceMajor, deviceMinor, rdeviceMajor, rdeviceMinor, |name| + 1, check],
             name)
    }

    predicate Valid() { Head().Valid() }

    function EntryAt(offset: nat): (e: Entry)
      ensures (e.path, e.size) == (name, |data|)
      ensures e.dataStart == AlignUp(offset + HEADER_SIZE + |name| + 1, 4) && e.dataEnd == e.dataStart + |data|
    {
      Head().EntryAt(offset)
    }
  }

  /** `s` filled up with zeros to a multiple of four. */
  function Padded(s: seq<byte>): (r: seq<byte>)
    ensures |r| == AlignUp(|s|, 4) && |r| % 4 == 0 && r[..|s|] == s
  {
    s + Zeros(AlignUp(|s|, 4) - |s|)
  }

  function EncodeMember(m: Member): (s: seq<byte>)
    requires IsNewcMagic(m.magic)
    ensures |s| % 4 == 0
  {
    Padded(m.Head().Text()) + Padded(m.data)
  }

  /** One written member is read back as its entry, whatever precedes and follows it. */
  lemma MemberRoundTrip(before: seq<byte>, m: Member, after: seq<byte>)
    requires |before| % 4 == 0 && m.Valid()
    ensures
      var blob := before + EncodeMember(m) + after;
      var e := m.EntryAt(|before|);
      && ParseEntry(blob, |before|) == Ok(e)
      && (e.path, e.size) == (m.name, |m.data|)
      && blob[e.dataStart..e.dataEnd] == m.data
      && e.NextOffset() == |before| + |EncodeMember(m)|
  {
    hide ParseEntry, Header.Text, Header.EntryAt, EncodeMember, ValidUtf8, AlignUp, HexFields;
    var blob := before + EncodeMember(m) + after;
    var e := m.EntryAt(|before|);
    MemberLayout(m, |before|);
    var member := EncodeMember(m);
    assert blob[|before|..|before| + |member|] == member;
    SubSlice(blob, |before|, member, 0, |m.Head().Text()|);
    SubSlice(blob, |before|, member, e.dataStart - |before|, e.dataEnd - |before|);
    HeaderRoundTrip(blob, |before|, m.Head());
  }

  /** Where a member's header, name and data lie within its encoding. */
  lemma MemberLayout(m: Member, offset: nat)
    requires offset % 4 == 0 && IsNewcMagic(m.magic)
    ensures
      var s, h, e := EncodeMember(m), m.Head().Text(), m.EntryAt(offset);
      && |h| <= |s| && s[0..|h|] == h
      && offset <= e.dataStart <= e.dataEnd <= offset + |s| == e.NextOffset()
      && s[e.dataStart - offset..e.dataEnd - offset] == m.data
  {
    hide Header.Text, Header.EntryAt, FileType, Padded, AlignUp, HexFields, IsNewcMagic, Member.Head;
    var h := m.Head().Text();
    PaddedPair(h, m.data);
    AlignShift(offset, |h|);
    AlignShift(offset + AlignUp(|h|, 4), |m.data|);
  }

  lemma AlignShift(offset: nat, n: nat)
    requires offset % 4 == 0
    ensures AlignUp(offset + n, 4) == offset + AlignUp(n, 4)
  {
    hide AlignUp;
  }

  lemma PaddedPair(h: seq<byte>, d: seq<byte>)
    ensures
      var s, n := Padded(h) + Padded(d), AlignUp(|h|, 4);
      |h| <= n && n + |d| <= |s| && s[0..|h|] == h && s[n..n + |d|] == d
  {
    var s, n := Padded(h) + Padded(d), AlignUp(|h|, 4);
    assert s[0..|h|] == Padded(h)[..|h|];
    assert s[n..n + |d|] == Padded(d)[..|d|];
  }

  // ---------- archives ----------

  function EncodeMembers(members: seq<Member>): seq<byte>
    requires forall i :: 0 <= i < |members| ==> IsNewcMagic(members[i].magic)
  {
    if members == [] then [] else EncodeMember(members[0]) + EncodeMembers(members[1..])
  }

  function EncodeArchive(members: seq<Member>, trailer: Member, tail: nat): seq<byte>
    requires IsNewcMagic(trailer.magic)
    requires forall i :: 0 <= i < |members| ==> IsNewcMagic(members[i].magic)
  {
    EncodeMembers(members) + EncodeMember(trailer) + Zeros(tail)
  }

  /** The entries of consecutive members, the first one at `offset`. */
  function EntriesFrom(members: seq<Member>, offset: nat): (es: seq<Entry>)
    ensures |es| == |members|
  {
    if members == [] then []
    else
      var e := members[0].EntryAt(offset);
      [e] + EntriesFrom(members[1..], e.NextOffset())
  }

  ghost predicate ValidMembers(members: seq<Member>) {
    forall i :: 0 <= i < |members| ==> members[i].Valid() && members[i].name != TRAILER
  }

  ghost predicate ValidTrailer(m: Member) { m.Valid() && m.name == TRAILER && m.data == [] }

  /** Each entry's data interval holds the contents of the member it stands for. */
  ghost predicate HoldsData(blob: seq<byte>, es: seq<Entry>, members: seq<Member>) {
    |es| == |members| && forall i :: 0 <= i < |es| ==>
      es[i].dataStart <= es[i].dataEnd <= |blob| && blob[es[i].dataStart..es[i].dataEnd] == members[i].data
  }

  lemma {:induction false} RoundTripFrom(before: seq<byte>, members: seq<Member>, trailer: Member, tail: nat)
    requires |before| % 4 == 0 && ValidMembers(members) && ValidTrailer(trailer)
    ensures
      var blob := before + EncodeArchive(members, trailer, tail);
      && Chain(blob, EntriesFrom(members, |before|), |before|)
      && HoldsData(blob, EntriesFrom(members, |before|), members)
    decreases |members|
  {
    hide ParseEntry, EncodeMember, ValidUtf8, Member.EntryAt, EncodeArchive, HoldsData, Chain;
    var blob := before + EncodeArchive(members, trailer, tail);
    if members == [] {
      EmptyArchive(before, trailer, tail);
    } else {
      var m, rest := members[0], members[1..];
      var after := EncodeArchive(rest, trailer, tail);
      var through := before + EncodeMember(m);
      ConsArchive(before, members, trailer, tail);
      MemberRoundTrip(before, m, after);
      RoundTripFrom(through, rest, trailer, tail);
      ChainCons(blob, m.EntryAt(|before|), EntriesFrom(rest, |through|), |before|);
      HoldsMore(blob, m.EntryAt(|before|), EntriesFrom(rest, |through|), members);
    }
  }

  lemma EmptyArchive(before: seq<byte>, trailer: Member, tail: nat)
    requires |before| % 4 == 0 && ValidTrailer(trailer)
    ensures var blob := before + EncodeArchive([], trailer, tail);
            Chain(blob, [], |before|) && HoldsData(blob, [], [])
  {
    hide ParseEntry, EncodeMember, ValidUtf8, Member.EntryAt, AlignUp, Chain;
    var blob := before + EncodeArchive([], trailer, tail);
    MemberRoundTrip(before, trailer, Zeros(tail));
    assert blob == before + EncodeMember(trailer) + Zeros(tail);
    EmptyChain(blob, |before|);
  }

  lemma ConsArchive(before: seq<byte>, members: seq<Member>, trailer: Member, tail: nat)
    requires members != [] && ValidMembers(members) && ValidTrailer(trailer)
    ensures
      var m, after := members[0], EncodeArchive(members[1..], trailer, tail);
      && before + EncodeArchive(members, trailer, tail) == before + EncodeMember(m) + after
  {
    hide EncodeMember, ValidUtf8;
    var after := EncodeArchive(members[1..], trailer, tail);
    assert EncodeArchive(members, trailer, tail) == EncodeMember(members[0]) + after;
  }

  lemma HoldsMore(blob: seq<byte>, e: Entry, es: seq<Entry>, members: seq<Member>)
    requires members != [] && HoldsData(blob, es, members[1..])
    requires e.dataStart <= e.dataEnd <= |blob| && blob[e.dataStart..e.dataEnd] == members[0].data
    ensures HoldsData(blob, [e] + es, members)
  {
    var all := [e] + es;
    assert forall i :: 0 < i < |all| ==> all[i] == es[i - 1] && members[i] == members[1..][i - 1];
  }

  /** Parsing what cpio(5) prescribes for a list of members gives those members back, in order, with their data. */
  lemma ArchiveRoundTrip(members: seq<Member>, trailer: Member, tail: nat)
    requires ValidMembers(members) && ValidTrailer(trailer)
    ensures
      var blob := EncodeArchive(members, trailer, tail);
      && Ends(blob, 0) && Parse(blob) == Ok(EntriesFrom(members, 0))
      && HoldsData(blob, EntriesFrom(members, 0), members)
    ensures forall i :: 0 <= i < |members| ==>
      var e := EntriesFrom(members, 0)[i]; e == members[i].EntryAt(e.headerStart)
  {
    RoundTripFrom([], members, trailer, tail);
    assert [] + EncodeArchive(members, trailer, tail) == EncodeArchive(members, trailer, tail);
    ParseIffChain(EncodeArchive(members, trailer, tail), EntriesFrom(members, 0), 0);
    EntriesKeepMembers(members, 0);
  }

  lemma {:induction false} EntriesKeepMembers(members: seq<Member>, offset: nat)
    ensures forall i :: 0 <= i < |members| ==>
      var e := EntriesFrom(members, offset)[i];
      e == members[i].EntryAt(e.headerStart)
  {
    if members != [] {
      var es := EntriesFrom(members, offset);
      EntriesKeepMembers(members[1..], es[0].NextOffset());
      assert forall i :: 0 < i < |es| ==> es[i] == es[1..][i - 1] && members[i] == members[1..][i - 1];
    }
  }

  // ---------- negative sizes ----------

  // "070701"
  const MAGIC: seq<byte> := [48, 55, 48, 55, 48, 49]

  /** A header with the given mode, size and name, all other numbers being zero. */
  function PlainHeader(mode: nat, size: int, name: seq<byte>): (h: Header)
    ensures |h.fields| == 13 && h.fields[1] == mode && h.fields[6] == size && IsNewcMagic(h.magic) && h.name == name
  {
    Header(MAGIC, true, [0, mode, 0, 0, 0, 0, size, 0, 0, 0, 0, |name| + 1, 0], name)
  }

  lemma PlainHeaderValid(mode: nat, size: int, name: seq<byte>)
    requires FitsField(mode) && FitsField(size) && |name| < 0x1000_0000 && ValidUtf8(name, 0)
    ensures PlainHeader(mode, size, name).Valid()
  {
    hide ValidUtf8, IsNewcMagic, FitsField;
    var f := PlainHeader(mode, size, name).fields;
    SmallFits(0);
    SmallFits(|name| + 1);
    forall k | 0 <= k < 13 ensures FitsField(f[k]) {
      assert f[k] == 0 || f[k] == mode || f[k] == size || f[k] == |name| + 1;
    }
  }

  lemma SmallFits(v: nat)
    requires v <= 0x1000_0000
    ensures FitsField(v)
  {
  }

  /** Such a header at the start of a blob is read, if its data would not end past the blob. */
  lemma PlainHeaderRead(blob: seq<byte>, size: int, name: seq<byte>)
    requires FitsField(size) && |name| < 0x1000_0000 && ValidUtf8(name, 0)
    requires PlainHeader(0, size, name).Text() <= blob && AlignUp(HEADER_SIZE + |name| + 1, 4) + size <= |blob|
    ensures ParseEntry(blob, 0).Ok?
    ensures var e := ParseEntry(blob, 0).value; (e.path, e.size, e.headerStart) == (name, size, 0)
    ensures ParseEntry(blob, 0).value.dataEnd == AlignUp(HEADER_SIZE + |name| + 1, 4) + size
  {
    hide ValidUtf8, Header.Text, Header.Valid, AlignUp, ParseEntry, FileType, PlainHeader, IsNewcMagic;
    var h := PlainHeader(0, size, name);
    PlainHeaderValid(0, size, name);
    assert blob[0..|h.Text()|] == h.Text();
    HeaderRoundTrip(blob, 0, h);
  }

  /** 112 bytes: a member with an empty name whose size field reads "-0000070", minus 112. */
  function StallingArchive(): seq<byte> { PlainHeader(0, -112, []).Text() + [0] }

  lemma StallingMember()
    ensures
      var blob := StallingArchive();
      |blob| == 112 && ParseEntry(blob, 0).Ok? && ParseEntry(blob, 0).value.NextOffset() == 0
    ensures ParseEntry(StallingArchive(), 0).value.path == []
    ensures ParseEntry(StallingArchive(), 0).value.headerStart == 0
  {
    hide Header.Text, ParseEntry, AlignUp, HexFields, PlainHeader, IsNewcMagic;
    PlainHeaderRead(StallingArchive(), -112, []);
  }

  /** On this archive the loop reads a member at offset 0 and goes on at offset 0, turn after turn. */
  lemma {:induction false} LoopStalls(n: nat)
    ensures
      var blob := StallingArchive();
      && |blob| == 112 && ParseEntry(blob, 0).Ok? && !ParseEntry(blob, 0).value.Advances()
      && OffsetAfter(blob, n) == 0 && !EndsWithin(blob, 0, n)
  {
    hide ParseEntry, StallingArchive;
    StallingMember();
    if n > 0 {
      LoopStalls(n - 1);
    }
  }

  /** So it never ends. */
  lemma LoopNeverEnds()
    ensures !Ends(StallingArchive(), 0)
  {
    hide EndsWithin, StallingArchive;
    forall n: nat | true ensures !EndsWithin(StallingArchive(), 0, n) {
      LoopStalls(n);
    }
  }
}
