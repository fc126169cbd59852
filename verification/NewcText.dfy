/** What the newc parser takes for a number and for a name: Python's literals, and UTF-8 as RFC 3629 has it. */
module NewcText {
  import opened Bytes
  import opened Newc

  // ---------- hexadecimal literals ----------

  lemma HexDigitMeans(b: byte)
    ensures '0' as int <= b <= '9' as int ==> HexDigit(b) == Some(b - '0' as int)
    ensures 'A' as int <= b <= 'F' as int ==> HexDigit(b) == Some(10 + b - 'A' as int)
    ensures 'a' as int <= b <= 'f' as int ==> HexDigit(b) == Some(10 + b - 'a' as int)
    ensures HexDigit(b).Some? ==>
      '0' as int <= b <= '9' as int || 'A' as int <= b <= 'F' as int || 'a' as int <= b <= 'f' as int
  {
  }

  /** Digits, with single underscores between them. */
  predicate Literal(s: seq<byte>) {
    && s != [] && s[0] != 95 && s[|s| - 1] != 95
    && (forall k :: 0 <= k < |s| ==> s[k] == 95 || HexDigit(s[k]).Some?)
    && (forall k :: 0 <= k < |s| - 1 ==> s[k] != 95 || s[k + 1] != 95)
  }

  /** The number the digits stand for, underscores apart. */
  function NumberOf(s: seq<byte>): int {
    if s == [] then 0
    else
      var high, digit := NumberOf(s[..|s| - 1]), HexDigit(s[|s| - 1]);
      if digit.None? then high else 16 * high + digit.value
  }

  lemma {:induction false} HexValueIff(s: seq<byte>)
    ensures HexValue(s) == if Literal(s) then Some(NumberOf(s)) else None
    decreases |s|
  {
    hide HexDigit;
    if s != [] && HexDigit(s[|s| - 1]).Some? {
      var rest := s[..|s| - 1];
      Underscore();
      if rest == [] {
        assert NumberOf(rest) == 0;
      } else {
        var kept := DropUnderscore(rest);
        HexValueIff(kept);
        DroppedLiteral(s, rest, kept);
      }
    } else {
      assert s != [] && s[|s| - 1] != 95 ==> !Literal(s);
    }
  }

  lemma Underscore()
    ensures HexDigit(95) == None
  {
  }

  lemma DroppedLiteral(s: seq<byte>, rest: seq<byte>, kept: seq<byte>)
    requires |s| > 1 && rest == s[..|s| - 1] && kept == DropUnderscore(rest) && HexDigit(s[|s| - 1]).Some?
    ensures Literal(kept) <==> Literal(s)
    ensures Literal(kept) ==> NumberOf(kept) == NumberOf(rest)
  {
    hide HexDigit;
    Underscore();
    assert |kept| < |rest| ==> rest[|rest| - 1] == 95 && kept == rest[..|rest| - 1];
    assert forall k :: 0 <= k < |kept| ==> kept[k] == s[k];
    assert forall k :: 0 <= k < |rest| ==> rest[k] == s[k];
  }

  // ---------- int(text, 16) ----------

  predicate Blanks(s: seq<byte>) { forall k :: 0 <= k < |s| ==> s[k] == 32 || 9 <= s[k] <= 13 }

  lemma {:induction false} StripLeftIs(s: seq<byte>) returns (lead: seq<byte>)
    ensures s == lead + StripLeft(s) && Blanks(lead)
    ensures StripLeft(s) != [] ==> !IsSpace(StripLeft(s)[0])
  {
    if s != [] && IsSpace(s[0]) {
      lead := StripLeftIs(s[1..]);
      lead := [s[0]] + lead;
      assert s == [s[0]] + s[1..];
    } else {
      lead := [];
    }
  }

  lemma {:induction false} StripRightIs(s: seq<byte>) returns (tail: seq<byte>)
    ensures s == StripRight(s) + tail && Blanks(tail)
    ensures StripRight(s) != [] ==> !IsSpace(StripRight(s)[|StripRight(s)| - 1])
  {
    if s != [] && IsSpace(s[|s| - 1]) {
      tail := StripRightIs(s[..|s| - 1]);
      tail := tail + [s[|s| - 1]];
      assert s == s[..|s| - 1] + [s[|s| - 1]];
    } else {
      tail := [];
      assert s == s + [];
    }
  }

  lemma {:induction false} StripsLeft(lead: seq<byte>, s: seq<byte>)
    requires Blanks(lead) && s != [] && !IsSpace(s[0])
    ensures StripLeft(lead + s) == s
  {
    if lead == [] {
      assert lead + s == s;
    } else {
      assert (lead + s)[1..] == lead[1..] + s;
      StripsLeft(lead[1..], s);
    }
  }

  lemma {:induction false} StripsRight(s: seq<byte>, tail: seq<byte>)
    requires Blanks(tail) && s != [] && !IsSpace(s[|s| - 1])
    ensures StripRight(s + tail) == s
  {
    if tail == [] {
      assert s + tail == s;
    } else {
      var n := |tail| - 1;
      assert (s + tail)[..|s + tail| - 1] == s + tail[..n];
      StripsRight(s, tail[..n]);
    }
  }

  /** A number as the reader takes it: blanks, sign, prefix, digits, blanks; all but the digits may be missing. */
  datatype Parts = Parts(lead: seq<byte>, sign: seq<byte>, prefix: seq<byte>, digits: seq<byte>, tail: seq<byte>) {
    predicate Valid() {
      && Blanks(lead) && Blanks(tail) && Literal(digits)
      && (sign == [] || sign == [43] || sign == [45])
      && (prefix == [] || prefix == [48, 120] || prefix == [48, 88]
          || prefix == [48, 120, 95] || prefix == [48, 88, 95])
    }

    function Text(): seq<byte> { lead + (sign + (prefix + digits)) + tail }

    function Value(): int { if sign == [45] then -NumberOf(digits) else NumberOf(digits) }
  }

  /** Where the digits begin: behind 0x or 0X, and one underscore behind that. */
  function PrefixLength(u: seq<byte>): (n: nat)
    ensures n <= |u|
  {
    if |u| >= 2 && u[0] == 48 && (u[1] == 120 || u[1] == 88) then if |u| >= 3 && u[2] == 95 then 3 else 2 else 0
  }

  function Unsigned(u: seq<byte>): Option<int> { HexValue(u[PrefixLength(u)..]) }

  function Signed(t: seq<byte>): Option<int> {
    if t != [] && t[0] == 43 then Unsigned(t[1..])
    else if t != [] && t[0] == 45 then (match Unsigned(t[1..]) case None => None case Some(n) => Some(-n))
    else Unsigned(t)
  }

  lemma PyInt16Steps(s: seq<byte>)
    ensures PyInt16(s) == Signed(StripRight(StripLeft(s)))
  {
    hide HexValue, StripLeft, StripRight;
    var t := StripRight(StripLeft(s));
    assert t[0..] == t;
    if t != [] {
      assert t[1..][0..] == t[1..];
    }
  }

  lemma PrefixRead(prefix: seq<byte>, digits: seq<byte>)
    requires Literal(digits)
    requires
      || prefix == [] || prefix == [48, 120] || prefix == [48, 88] || prefix == [48, 120, 95] || prefix == [48, 88, 95]
    ensures Unsigned(prefix + digits) == Some(NumberOf(digits))
  {
    hide HexValue, HexDigit, NumberOf;
    LiteralPlain(digits);
    var u := prefix + digits;
    assert u[|prefix|..] == digits;
    assert PrefixLength(u) == |prefix|;
    HexValueIff(digits);
  }

  lemma PrefixSplit(u: seq<byte>)
    requires Unsigned(u).Some?
    ensures
      var prefix, digits := u[..PrefixLength(u)], u[PrefixLength(u)..];
      && Literal(digits) && u == prefix + digits
      && (prefix == [] || prefix == [48, 120] || prefix == [48, 88]
          || prefix == [48, 120, 95] || prefix == [48, 88, 95])
  {
    hide HexValue, HexDigit, NumberOf, Literal;
    HexValueIff(u[PrefixLength(u)..]);
  }

  lemma LiteralPlain(d: seq<byte>)
    requires Literal(d)
    ensures !IsSpace(d[0]) && !IsSpace(d[|d| - 1]) && d[0] != 43 && d[0] != 45 && d[0] != 95
    ensures |d| > 1 ==> d[1] != 120 && d[1] != 88
  {
  }

  lemma PartsRead(p: Parts)
    requires p.Valid()
    ensures PyInt16(p.Text()) == Some(p.Value())
  {
    hide PyInt16, Unsigned, NumberOf, StripLeft, StripRight, Literal, IsSpace;
    var u := p.prefix + p.digits;
    var core := p.sign + u;
    CoreEnds(p);
    StripsLeft(p.lead, core + p.tail);
    assert p.Text() == p.lead + (core + p.tail);
    StripsRight(core, p.tail);
    PyInt16Steps(p.Text());
    PrefixRead(p.prefix, p.digits);
    assert p.sign != [] ==> core[1..] == u;
    assert p.sign == [] ==> core == u;
  }

  lemma CoreEnds(p: Parts)
    requires p.Valid()
    ensures
      var u := p.prefix + p.digits;
      var core := p.sign + u;
      && core != [] && !IsSpace(core[0]) && !IsSpace(core[|core| - 1]) && u[0] != 43 && u[0] != 45
      && (core + p.tail)[0] == core[0]
  {
    hide HexDigit;
    LiteralPlain(p.digits);
    var u := p.prefix + p.digits;
    var core := p.sign + u;
    assert core[|core| - 1] == p.digits[|p.digits| - 1];
  }

  lemma PartsOf(s: seq<byte>) returns (p: Parts)
    requires PyInt16(s).Some?
    ensures p.Valid() && p.Text() == s
  {
    hide PyInt16, StripLeft, StripRight, IsSpace, Blanks, Unsigned, Literal;
    var lead := StripLeftIs(s);
    var tail := StripRightIs(StripLeft(s));
    var t := StripRight(StripLeft(s));
    PyInt16Steps(s);
    var sign, prefix, digits := SignedParts(t);
    p := Parts(lead, sign, prefix, digits, tail);
    assert s == lead + (t + tail) == lead + t + tail;
  }

  lemma SignedParts(t: seq<byte>) returns (sign: seq<byte>, prefix: seq<byte>, digits: seq<byte>)
    requires Signed(t).Some?
    ensures t == sign + (prefix + digits) && Literal(digits) && (sign == [] || sign == [43] || sign == [45])
    ensures
      || prefix == [] || prefix == [48, 120] || prefix == [48, 88] || prefix == [48, 120, 95] || prefix == [48, 88, 95]
  {
    hide Unsigned, Literal, PrefixLength;
    var signed := t != [] && (t[0] == 43 || t[0] == 45);
    var u := if signed then t[1..] else t;
    PrefixSplit(u);
    sign, prefix, digits := if signed then [t[0]] else [], u[..PrefixLength(u)], u[PrefixLength(u)..];
    assert sign + u == t;
  }

  /** Exactly these texts are numbers, and they have these values. */
  lemma PyInt16Iff(s: seq<byte>, v: int)
    ensures PyInt16(s) == Some(v) <==> exists p: Parts :: p.Valid() && p.Text() == s && p.Value() == v
  {
    hide PyInt16, Parts.Valid, Parts.Text, Parts.Value;
    if PyInt16(s) == Some(v) {
      var p := PartsOf(s);
      PartsRead(p);
    }
    if p: Parts :| p.Valid() && p.Text() == s && p.Value() == v {
      PartsRead(p);
    }
  }

  // ---------- UTF-8 ----------

  /** Unicode's characters: code points that are no surrogates. */
  predicate Scalar(c: nat) { c < 0xD800 || 0xE000 <= c < 0x11_0000 }

  function EncodeChar(c: nat): seq<byte>
    requires Scalar(c)
  {
    if c < 0x80 then [c]
    else if c < 0x800 then [0xC0 + c / 0x40, 0x80 + c % 0x40]
    else if c < 0x1_0000 then [0xE0 + c / 0x1000, 0x80 + c / 0x40 % 0x40, 0x80 + c % 0x40]
    else [0xF0 + c / 0x4_0000, 0x80 + c / 0x1000 % 0x40, 0x80 + c / 0x40 % 0x40, 0x80 + c % 0x40]
  }

  function EncodeText(cs: seq<nat>): seq<byte>
    requires forall i :: 0 <= i < |cs| ==> Scalar(cs[i])
  {
    if cs == [] then [] else EncodeChar(cs[0]) + EncodeText(cs[1..])
  }

  lemma TwoBytes(a: int, x: int) returns (c: nat)
    requires 0xC2 <= a < 0xE0 && 0x80 <= x < 0xC0
    ensures Scalar(c) && EncodeChar(c) == [a, x]
  {
    c := (a - 0xC0) * 0x40 + (x - 0x80);
  }

  lemma ThreeBytes(a: int, x: int, y: int) returns (c: nat)
    requires 0xE0 <= a < 0xF0 && 0x80 <= x < 0xC0 && 0x80 <= y < 0xC0
    requires (a == 0xE0 ==> x >= 0xA0) && (a == 0xED ==> x < 0xA0)
    ensures Scalar(c) && EncodeChar(c) == [a, x, y]
  {
    c := (a - 0xE0) * 0x1000 + (x - 0x80) * 0x40 + (y - 0x80);
    assert c / 0x40 == (a - 0xE0) * 0x40 + (x - 0x80);
  }

  lemma FourBytes(a: int, x: int, y: int, z: int) returns (c: nat)
    requires 0xF0 <= a < 0xF5 && 0x80 <= x < 0xC0 && 0x80 <= y < 0xC0 && 0x80 <= z < 0xC0
    requires (a == 0xF0 ==> x >= 0x90) && (a == 0xF4 ==> x < 0x90)
    ensures Scalar(c) && EncodeChar(c) == [a, x, y, z]
  {
    var h := (a - 0xF0) * 0x40 + (x - 0x80);
    c := h * 0x1000 + (y - 0x80) * 0x40 + (z - 0x80);
    assert c / 0x1000 == h && c / 0x40 == h * 0x40 + (y - 0x80);
  }

  /** The character that an accepted byte sequence begins with. */
  lemma FirstChar(s: seq<byte>, i: nat) returns (c: nat)
    requires i < |s| && ValidUtf8(s, i)
    ensures Scalar(c) && EncodeChar(c) <= s[i..] && ValidUtf8(s, i + |EncodeChar(c)|)
  {
    if s[i] < 0x80 {
      c := s[i];
    } else {
      hide EncodeChar, Scalar;
      if s[i] < 0xE0 {
        c := TwoBytes(s[i], s[i + 1]);
      } else if s[i] < 0xF0 {
        c := ThreeBytes(s[i], s[i + 1], s[i + 2]);
      } else {
        c := FourBytes(s[i], s[i + 1], s[i + 2], s[i + 3]);
      }
    }
  }

  lemma {:induction false} TextOf(s: seq<byte>, i: nat) returns (cs: seq<nat>)
    requires i <= |s| && ValidUtf8(s, i)
    ensures (forall k :: 0 <= k < |cs| ==> Scalar(cs[k])) && EncodeText(cs) == s[i..]
    decreases |s| - i
  {
    hide ValidUtf8, EncodeChar, Scalar;
    if i == |s| {
      cs := [];
    } else {
      var c := FirstChar(s, i);
      CharTakesSpace(c);
      var rest := TextOf(s, i + |EncodeChar(c)|);
      cs := [c] + rest;
      assert s[i..] == EncodeChar(c) + s[i + |EncodeChar(c)|..];
      assert cs[1..] == rest;
    }
  }

  lemma CharTakesSpace(c: nat)
    requires Scalar(c)
    ensures |EncodeChar(c)| > 0
  {
  }

  lemma CharAccepted(s: seq<byte>, i: nat, c: nat)
    requires i <= |s| && Scalar(c) && EncodeChar(c) <= s[i..] && ValidUtf8(s, i + |EncodeChar(c)|)
    ensures ValidUtf8(s, i)
  {
    var e := EncodeChar(c);
    assert forall k :: 0 <= k < |e| ==> s[i + k] == e[k];
    if 0x80 <= c < 0x800 {
      assert s[i] == e[0] && s[i + 1] == e[1];
    } else if 0x800 <= c < 0x1_0000 {
      assert s[i] == e[0] && s[i + 1] == e[1] && s[i + 2] == e[2];
    } else if 0x1_0000 <= c {
      assert s[i] == e[0] && s[i + 1] == e[1] && s[i + 2] == e[2] && s[i + 3] == e[3];
    }
  }

  lemma {:induction false} TextAccepted(s: seq<byte>, i: nat, cs: seq<nat>)
    requires i <= |s| && (forall k :: 0 <= k < |cs| ==> Scalar(cs[k])) && EncodeText(cs) == s[i..]
    ensures ValidUtf8(s, i)
    decreases |cs|
  {
    hide EncodeChar, Scalar;
    if cs != [] {
      var e := EncodeChar(cs[0]);
      assert e <= s[i..] && s[i..][|e|..] == s[i + |e|..];
      TextAccepted(s, i + |e|, cs[1..]);
      CharAccepted(s, i, cs[0]);
    }
  }

  /** Exactly the encodings of texts are accepted. */
  lemma Utf8Iff(s: seq<byte>)
    ensures ValidUtf8(s, 0) <==>
            exists cs :: (forall k :: 0 <= k < |cs| ==> Scalar(cs[k])) && EncodeText(cs) == s
  {
    hide ValidUtf8, EncodeText, Scalar;
    assert s[0..] == s;
    if ValidUtf8(s, 0) {
      var cs := TextOf(s, 0);
    }
    if cs :| (forall k :: 0 <= k < |cs| ==> Scalar(cs[k])) && EncodeText(cs) == s {
      TextAccepted(s, 0, cs);
    }
  }
}
