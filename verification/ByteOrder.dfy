/** Integers in memory, and the host/network conversions of keymaster/android_keymaster_utils.h. */
module ByteOrder {
  import opened Bytes

  datatype Endian = Little | Big

  function Reverse(s: seq<byte>): (r: seq<byte>)
    ensures |r| == |s|
  {
    if s == [] then [] else [s[|s| - 1]] + Reverse(s[..|s| - 1])
  }

  lemma {:induction false} ReverseTwice(s: seq<byte>)
    ensures Reverse(Reverse(s)) == s
  {
    if s != [] {
      var n := |s| - 1;
      ReverseLast(s[n], Reverse(s[..n]));
      ReverseTwice(s[..n]);
      assert s == s[..n] + [s[n]];
    }
  }

  lemma {:induction false} ReverseLast(b: byte, s: seq<byte>)
    ensures Reverse([b] + s) == Reverse(s) + [b]
  {
    if s == [] {
      assert [b] + s == [b];
    } else {
      var n := |s| - 1;
      ReverseLast(b, s[..n]);
      assert ([b] + s)[..|s|] == [b] + s[..n];
    }
  }

  /** The bytes in memory of a `w`-byte unsigned integer; a larger value is cut to its low bytes. */
  function MemBytes(order: Endian, w: nat, v: nat): (s: seq<byte>)
    ensures |s| == w
  {
    if order.Little? then LeDigits(w, v) else Reverse(LeDigits(w, v))
  }

  /** The unsigned integer that a host of this byte order reads from these bytes. */
  function MemValue(order: Endian, s: seq<byte>): nat {
    if order.Little? then LeValue(s) else LeValue(Reverse(s))
  }

  /** The number whose digits, most significant first, are `s`. */
  function BeValue(s: seq<byte>): nat {
    if s == [] then 0 else BeValue(s[..|s| - 1]) * 256 + s[|s| - 1]
  }

  function BeDigits(w: nat, v: nat): seq<byte> { Reverse(LeDigits(w, v)) }

  lemma {:induction false} BeIsReversed(s: seq<byte>)
    ensures BeValue(s) == LeValue(Reverse(s))
  {
    if s != [] {
      BeIsReversed(s[..|s| - 1]);
      assert Reverse(s)[1..] == Reverse(s[..|s| - 1]);
    }
  }

  /** What is stored is what is loaded, for values that fit. */
  lemma MemRoundTrip(order: Endian, w: nat, v: nat)
    requires v < Pow256(w)
    ensures MemValue(order, MemBytes(order, w, v)) == v
  {
    LeRoundTrip(w, v);
    ReverseTwice(LeDigits(w, v));
  }

  /** What is loaded is what is stored. */
  lemma BytesRoundTrip(order: Endian, s: seq<byte>)
    ensures MemValue(order, s) < Pow256(|s|) && MemBytes(order, |s|, MemValue(order, s)) == s
  {
    LeDigitsOfValue(s);
    LeDigitsOfValue(Reverse(s));
    ReverseTwice(s);
  }

  lemma {:induction false} ReverseAt(s: seq<byte>, k: nat)
    requires k < |s|
    ensures Reverse(s)[k] == s[|s| - 1 - k]
  {
    if k > 0 {
      ReverseAt(s[..|s| - 1], k - 1);
    }
  }

  /** The digit of weight 256^k stands at offset k on a little-endian host, and k bytes before the last otherwise. */
  lemma MemBytesAt(order: Endian, w: nat, v: nat, k: nat)
    requires k < w
    ensures MemBytes(order, w, v)[if order == Little then k else w - 1 - k] == v / Pow256(k) % 256
  {
    LeDigitAt(w, v, k);
    ReverseAt(LeDigits(w, v), w - 1 - k);
  }

  // ---------- ntoh and hton ----------

  /** The number whose big-endian digits are the bytes of `t` in memory. */
  function NetworkToHost(order: Endian, w: nat, t: nat): nat { BeValue(MemBytes(order, w, t)) }

  /** The number whose bytes in memory are the big-endian digits of `t`. */
  function HostToNetwork(order: Endian, w: nat, t: nat): nat { MemValue(order, BeDigits(w, t)) }

  lemma {:induction false} BeBound(s: seq<byte>, n: nat)
    requires n <= |s|
    ensures BeValue(s[..n]) < Pow256(n)
  {
    if n > 0 {
      BeBound(s, n - 1);
      assert s[..n][..n - 1] == s[..n - 1];
    }
  }

  lemma {:induction false} Pow256Grows(m: nat, n: nat)
    requires m <= n
    ensures Pow256(m) <= Pow256(n)
    decreases n
  {
    if m < n {
      Pow256Grows(m, n - 1);
    }
  }

  /** Shifts a byte at a time into an integer of `w` bytes; the shift loses what does not fit, and nothing is lost. */
  method Ntoh(order: Endian, w: nat, t: nat) returns (retval: nat)
    requires t < Pow256(w)
    ensures retval == NetworkToHost(order, w, t)
    ensures retval < Pow256(w) && (order == Big ==> retval == t)
    ensures forall k :: 0 <= k < w ==>
      retval / Pow256(k) % 256 == t / Pow256(if order == Big then k else w - 1 - k) % 256
  {
    var bytes := MemBytes(order, w, t);
    retval := 0;
    for i := 0 to w
      invariant retval == BeValue(bytes[..i])
    {
      BeBound(bytes, i + 1);
      Pow256Grows(i + 1, w);
      assert bytes[..i + 1][..i] == bytes[..i];
      SmallMod(retval * 256, Pow256(w));
      retval := retval * 256 % Pow256(w);
      retval := retval + bytes[i];  // `|=` on a number whose low byte is zero
    }
    assert bytes[..w] == bytes;
    ConvertedDigits(order, w, t);
  }

  /** On a big-endian host a number is in network order as it stands; on a little-endian host its digits turn round. */
  lemma ConvertedDigits(order: Endian, w: nat, t: nat)
    requires t < Pow256(w)
    ensures var r := NetworkToHost(order, w, t);
            && r < Pow256(w) && r == HostToNetwork(order, w, t) && (order == Big ==> r == t)
            && forall k :: 0 <= k < w ==>
              r / Pow256(k) % 256 == t / Pow256(if order == Big then k else w - 1 - k) % 256
  {
    var bytes, r := MemBytes(order, w, t), NetworkToHost(order, w, t);
    BeIsReversed(bytes);
    LeDigitsOfValue(Reverse(bytes));
    ReverseTwice(LeDigits(w, t));
    LeRoundTrip(w, t);
    forall k | 0 <= k < w
      ensures r / Pow256(k) % 256 == t / Pow256(if order == Big then k else w - 1 - k) % 256
    {
      var j := if order == Big then k else w - 1 - k;
      LeDigitAt(w, r, k);
      ReverseAt(bytes, k);
      MemBytesAt(order, w, t, j);
    }
  }

  /** Writes the low byte of a shrinking integer from the last byte of memory to the first. */
  method Hton(order: Endian, w: nat, t: nat) returns (retval: nat)
    requires t < Pow256(w)
    ensures retval == HostToNetwork(order, w, t)
    ensures retval < Pow256(w) && MemBytes(order, w, retval) == BeDigits(w, t)
    ensures order == Big ==> retval == t
    ensures forall k :: 0 <= k < w ==>
      retval / Pow256(k) % 256 == t / Pow256(if order == Big then k else w - 1 - k) % 256
  {
    var bytes := new byte[w](_ => 0);
    var rest := t;
    assert BeDigits(w, t) == BeDigits(w, rest) + bytes[w..];
    for i := w downto 0
      invariant BeDigits(w, t) == BeDigits(i, rest) + bytes[i..]
    {
      ghost var suffix := bytes[i + 1..];
      LeFirst(i + 1, rest);
      bytes[i] := rest % 256;
      rest := rest / 256;
      assert bytes[i..] == [bytes[i]] + suffix;
    }
    assert bytes[0..] == bytes[..];
    assert BeDigits(0, rest) == [] && BeDigits(w, t) == bytes[..];
    retval := MemValue(order, bytes[..]);
    BytesRoundTrip(order, bytes[..]);
    ConvertedDigits(order, w, t);
  }

  lemma LeFirst(w: nat, v: nat)
    requires w > 0
    ensures BeDigits(w, v) == BeDigits(w - 1, v / 256) + [v % 256]
  {
    ReverseLast(v % 256, LeDigits(w - 1, v / 256));
  }

  /** The two conversions undo each other, for every width and on hosts of either byte order. */
  lemma ConversionsUndo(order: Endian, w: nat, x: nat)
    requires x < Pow256(w)
    ensures NetworkToHost(order, w, HostToNetwork(order, w, x)) == x
    ensures HostToNetwork(order, w, NetworkToHost(order, w, x)) == x
  {
    var digits := BeDigits(w, x);
    BytesRoundTrip(order, digits);
    BeIsReversed(digits);
    ReverseTwice(LeDigits(w, x));
    LeRoundTrip(w, x);
    var bytes := MemBytes(order, w, x);
    BeIsReversed(bytes);
    LeDigitsOfValue(Reverse(bytes));
    ReverseTwice(bytes);
    MemRoundTrip(order, w, x);
  }
}
