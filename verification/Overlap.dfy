/** Archives whose members overlap: a negative size sends the parser into a name that is itself an archive. */
module Overlap {
  import opened Bytes
  import opened Newc
  import opened NewcData
  import opened NewcFormat

  // ---------- ASCII ----------

  predicate Ascii(s: seq<byte>) { forall k :: 0 <= k < |s| ==> s[k] < 0x80 }

  lemma {:induction false} AsciiIsUtf8(s: seq<byte>, i: nat)
    requires Ascii(s) && i <= |s|
    ensures ValidUtf8(s, i)
    decreases |s| - i
  {
    if i < |s| {
      AsciiIsUtf8(s, i + 1);
    }
  }

  lemma {:induction false} AsciiFields(fields: seq<int>, upper: bool)
    ensures Ascii(HexFields(fields, upper))
  {
    if fields != [] {
      AsciiFields(fields[1..], upper);
    }
  }

  lemma AsciiMember(m: Member)
    requires IsNewcMagic(m.magic) && Ascii(m.name) && Ascii(m.data)
    ensures Ascii(EncodeMember(m))
  {
    hide HexFields, AlignUp;
    AsciiFields(m.Head().fields, m.upper);
  }

  // ---------- an archive inside a name ----------

  /** A member all of whose numbers are zero that need not be otherwise. */
  function PlainMember(name: seq<byte>, mode: nat, data: seq<byte>): (m: Member)
    ensures IsNewcMagic(m.magic) && (m.name, m.mode, m.data) == (name, mode, data)
  {
    Member(MAGIC, true, name, 0, mode, 0, 0, 0, 0, 0, 0, 0, 0, 0, data)
  }

  lemma PlainMemberValid(name: seq<byte>, mode: nat, data: seq<byte>)
    requires ValidUtf8(name, 0) && mode < 0x1_0000_0000 && |name| < 0x1000_0000 && |data| < 0x1_0000_0000
    ensures PlainMember(name, mode, data).Valid()
  {
    hide ValidUtf8, Header.Valid;
    PlainHeaderValid(mode, |data|, name);
    assert PlainMember(name, mode, data).Head() == PlainHeader(mode, |data|, name);
  }

  function Trailer(): (m: Member)
    ensures IsNewcMagic(m.magic) && m.name == TRAILER && m.data == []
  {
    PlainMember(TRAILER, 0, [])
  }

  lemma TrailerValid()
    ensures ValidTrailer(Trailer())
  {
    hide Member.Valid;
    assert Ascii(TRAILER);
    AsciiIsUtf8(TRAILER, 0);
    PlainMemberValid(TRAILER, 0, []);
  }

  /** A name that holds a member and a trailer, from its third byte on. */
  function OuterName(m: Member): seq<byte>
    requires IsNewcMagic(m.magic)
  {
    [65, 65] + EncodeMember(m) + EncodeMember(Trailer())
  }

  /** The negative size that sends the loop from the start of the archive to the member in the name. */
  function OuterSize(n: nat): int { 112 - AlignUp(HEADER_SIZE + n + 1, 4) }

  function Overlapping(m: Member): seq<byte>
    requires IsNewcMagic(m.magic)
  {
    PlainHeader(0, OuterSize(|OuterName(m)|), OuterName(m)).Text()
  }

  ghost predicate SmallAscii(name: seq<byte>, mode: nat, data: seq<byte>) {
    Ascii(name) && Ascii(data) && |name| <= 0x10_0000 && |data| <= 0x10_0000 && mode < 0x1_0000_0000
  }

  lemma MemberLength(m: Member)
    requires IsNewcMagic(m.magic)
    ensures |EncodeMember(m)| == AlignUp(HEADER_SIZE + |m.name| + 1, 4) + AlignUp(|m.data|, 4)
  {
    hide AlignUp, HexFields;
  }

  lemma OuterNameValid(name: seq<byte>, mode: nat, data: seq<byte>)
    requires SmallAscii(name, mode, data)
    ensures
      var outer := OuterName(PlainMember(name, mode, data));
      ValidUtf8(outer, 0) && 200 < |outer| < 0x100_0000 && |outer| > |name| + 100
  {
    hide ValidUtf8, EncodeMember, AlignUp;
    var m := PlainMember(name, mode, data);
    var outer := OuterName(m);
    AsciiMember(m);
    MemberLength(m);
    assert Ascii(TRAILER);
    AsciiMember(Trailer());
    MemberLength(Trailer());
    AsciiIsUtf8(outer, 0);
  }

  /** The header in front, and the first two letters of the name. */
  function Lead(n: nat): (s: seq<byte>)
    ensures |s| == 112
  {
    MAGIC + HexFields([0, 0, 0, 0, 0, 0, OuterSize(n), 0, 0, 0, 0, n + 1, 0], true) + [65, 65]
  }

  lemma SingleMember(m: Member)
    requires IsNewcMagic(m.magic)
    ensures EncodeMembers([m]) == EncodeMember(m) && EntriesFrom([m], 112) == [m.EntryAt(112)]
  {
    hide EncodeMember, Member.EntryAt;
    assert [m][1..] == [];
  }

  function InnerArchive(m: Member): seq<byte>
    requires IsNewcMagic(m.magic)
  {
    EncodeArchive([m], Trailer(), 1)
  }

  lemma LeadThenArchive(m: Member)
    requires IsNewcMagic(m.magic)
    ensures Overlapping(m) == Lead(|OuterName(m)|) + InnerArchive(m)
  {
    hide EncodeMember, HexFields, AlignUp, OuterSize;
    SingleMember(m);
    assert Zeros(1) == [0];
  }

  /** What stands before and behind the data of the member in the name; the data itself does not enter. */
  function Rest(n: nat): seq<byte> { Zeros(AlignUp(n, 4) - n) + EncodeMember(Trailer()) + Zeros(1) }

  lemma DataAmidRest(m: Member)
    requires IsNewcMagic(m.magic)
    ensures Overlapping(m) == Lead(|OuterName(m)|) + Padded(m.Head().Text()) + m.data + Rest(|m.data|)
  {
    hide HexFields, AlignUp, OuterSize, Lead, OuterName, Overlapping, Header.Text;
    LeadThenArchive(m);
    SingleMember(m);
  }

  lemma InnerMemberRead(name: seq<byte>, mode: nat, data: seq<byte>)
    requires SmallAscii(name, mode, data) && name != TRAILER
    ensures
      var m := PlainMember(name, mode, data);
      Chain(Overlapping(m), [m.EntryAt(112)], 112)
  {
    hide ParseEntry, ValidUtf8, OuterName, Overlapping, Lead, Trailer, PlainMember, Member.EntryAt, Member.Valid, Ascii;
    hide EncodeArchive, Chain, EntriesFrom;
    var m := PlainMember(name, mode, data);
    LeadThenArchive(m);
    AsciiIsUtf8(name, 0);
    PlainMemberValid(name, mode, data);
    TrailerValid();
    SingleMember(m);
    RoundTripFrom(Lead(|OuterName(m)|), [m], Trailer(), 1);
  }

  lemma OuterMemberRead(name: seq<byte>, mode: nat, data: seq<byte>)
    requires SmallAscii(name, mode, data)
    ensures
      var m := PlainMember(name, mode, data);
      && ParseEntry(Overlapping(m), 0).Ok?
      && var e := ParseEntry(Overlapping(m), 0).value;
         && (e.path, e.headerStart, e.dataEnd) == (OuterName(m), 0, 112) && e.dataStart > 112
         && e.path != TRAILER && |e.path| > |name| + 100
  {
    hide ParseEntry, ValidUtf8, OuterName, PlainMember, Header.Text, PlainHeader, Ascii, AlignUp;
    var m := PlainMember(name, mode, data);
    OuterNameValid(name, mode, data);
    PlainHeaderRead(Overlapping(m), OuterSize(|OuterName(m)|), OuterName(m));
  }

  lemma FirstThenRest(blob: seq<byte>, rest: seq<Entry>)
    requires |blob| > 0 && ParseEntry(blob, 0).Ok? && ParseEntry(blob, 0).value.path != TRAILER
    requires ParseEntry(blob, 0).value.dataEnd == 112 && Chain(blob, rest, 112)
    ensures Chain(blob, [ParseEntry(blob, 0).value] + rest, 0)
  {
    hide ParseEntry, Chain;
    ChainCons(blob, ParseEntry(blob, 0).value, rest, 0);
  }

  /** The parser reads the member in front, whose name begins with two letters, and then the one within that name. */
  lemma OverlappingParses(name: seq<byte>, mode: nat, data: seq<byte>)
    requires SmallAscii(name, mode, data) && name != TRAILER
    ensures
      var m := PlainMember(name, mode, data);
      var blob := Overlapping(m);
      && Ends(blob, 0) && Parse(blob).Ok? && |Parse(blob).value| == 2
      && var e := Parse(blob).value[0];
         && e.path == OuterName(m) && |e.path| > |name| + 100 && e.dataEnd < e.dataStart
         && Parse(blob).value[1] == m.EntryAt(112)
  {
    hide ParseEntry, OuterName, Overlapping, PlainMember, Member.EntryAt, Ascii, ParseFrom, Chain, Ends;
    var m := PlainMember(name, mode, data);
    InnerMemberRead(name, mode, data);
    OuterMemberRead(name, mode, data);
    FirstThenRest(Overlapping(m), [m.EntryAt(112)]);
    ParseIffChain(Overlapping(m), [ParseEntry(Overlapping(m), 0).value] + [m.EntryAt(112)], 0);
  }

  lemma SameHead(name: seq<byte>, mode: nat, d: seq<byte>, d': seq<byte>)
    requires |d| == |d'|
    ensures
      var m, m' := PlainMember(name, mode, d), PlainMember(name, mode, d');
      m.Head() == m'.Head() && m.EntryAt(112) == m'.EntryAt(112) && |OuterName(m)| == |OuterName(m')|
  {
    hide Trailer, AlignUp;
    var m, m' := PlainMember(name, mode, d), PlainMember(name, mode, d');
    hide EncodeMember;
    MemberLength(m);
    MemberLength(m');
  }

  lemma ReplaceMiddle(x: seq<byte>, d: seq<byte>, d': seq<byte>, y: seq<byte>)
    requires |d| == |d'|
    ensures (x + d + y)[|x|..|x| + |d|] == d && x + d' + y == Overwrite(x + d + y, |x|, d')
  {
  }

  /** Exchanging the data of the member in the name exchanges these bytes of the archive, and no others. */
  lemma OnlyDataDiffers(name: seq<byte>, mode: nat, d: seq<byte>, d': seq<byte>)
    requires |d| == |d'|
    ensures
      var m, m' := PlainMember(name, mode, d), PlainMember(name, mode, d');
      var a, e := Overlapping(m), m.EntryAt(112);
      && e.dataStart <= e.dataEnd <= |a| && a[e.dataStart..e.dataEnd] == d
      && Overlapping(m') == Overwrite(a, e.dataStart, d')
  {
    hide PlainMember, AlignUp, Lead, OuterName, Overlapping, Header.Text, Member.EntryAt, Rest, Padded, Overwrite;
    var m, m' := PlainMember(name, mode, d), PlainMember(name, mode, d');
    DataAmidRest(m);
    DataAmidRest(m');
    SameHead(name, mode, d, d');
    AlignShift(112, HEADER_SIZE + |name| + 1);
    ReplaceMiddle(Lead(|OuterName(m)|) + Padded(m.Head().Text()), d, d', Rest(|d|));
  }

  /**
   * The entries of an archive with a negative size can depend on bytes inside a member's data: here the name of the
   * first member lies over the data of the second.
   */
  lemma DataMatters(name: seq<byte>, mode: nat, d: seq<byte>, d': seq<byte>)
    requires SmallAscii(name, mode, d) && Ascii(d') && |d'| == |d| && d' != d && name != TRAILER
    ensures
      var a, b := Overlapping(PlainMember(name, mode, d)), Overlapping(PlainMember(name, mode, d'));
      && Ends(a, 0) && Parse(a).Ok? && AgreeOutsideData(a, b, Parse(a).value)
      && Ends(b, 0) && Parse(b).Ok? && Parse(b) != Parse(a)
  {
    hide PlainMember, OuterName, Overlapping, Member.EntryAt, Ascii, Parse, Ends, Overwrite;
    var m, m' := PlainMember(name, mode, d), PlainMember(name, mode, d');
    OverlappingParses(name, mode, d);
    OverlappingParses(name, mode, d');
    OnlyDataDiffers(name, mode, d, d');
    SameHead(name, mode, d, d');
    OuterNamesDiffer(m, m');
    var entries := Parse(Overlapping(m)).value;
    forall k | 0 <= k < |Overlapping(m)| && !InData(entries, k) ensures Overlapping(m)[k] == Overlapping(m')[k] {
      assert !(entries[1].dataStart <= k < entries[1].dataEnd);
    }
  }

  lemma OuterNamesDiffer(m: Member, m': Member)
    requires IsNewcMagic(m.magic) && IsNewcMagic(m'.magic) && m.Head() == m'.Head()
    requires |m.data| == |m'.data| && m.data != m'.data
    ensures OuterName(m) != OuterName(m')
  {
    hide Trailer, AlignUp, Header.Text, EncodeMember;
    EncodingsDiffer(m, m');
    MemberLength(m);
    MemberLength(m');
    var x, y, t := EncodeMember(m), EncodeMember(m'), EncodeMember(Trailer());
    assert OuterName(m)[2..2 + |x|] == x && OuterName(m')[2..2 + |y|] == y;
  }

  lemma EncodingsDiffer(m: Member, m': Member)
    requires IsNewcMagic(m.magic) && IsNewcMagic(m'.magic) && m.Head() == m'.Head()
    requires |m.data| == |m'.data| && m.data != m'.data
    ensures EncodeMember(m) != EncodeMember(m')
  {
    hide AlignUp, Header.Text, Member.Head;
    PaddedPair(m.Head().Text(), m.data);
    PaddedPair(m'.Head().Text(), m'.data);
  }
}
