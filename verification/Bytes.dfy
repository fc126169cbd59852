/** Bytes, results, alignment, Python slices and base-256 numbers: what every other module shares. */
module Bytes {
  type byte = b: int | 0 <= b < 256

  datatype Option<+T> = None | Some(value: T)

  datatype Result<+T, +E> = Ok(value: T) | Err(error: E) {
    predicate IsFailure() { Err? }
    function PropagateFailure<U>(): Result<U, E>
      requires Err?
    {
      Err(error)
    }
    function Extract(): T
      requires Ok?
    {
      value
    }
  }

  // ---------- alignment ----------

  /** The tools' `aligned`/`align`: the least multiple of `a` that is not below `v`, which may be negative. */
  function AlignUp(v: int, a: nat): (r: int)
    requires a > 0
    ensures r % a == 0
    ensures v <= r < v + a
  {
    DivMod(v + a - 1, a);
    (v + a - 1) / a * a
  }

  /** Being the next multiple is what makes it so. */
  lemma AlignedIs(v: int, a: nat, r: int)
    requires a > 0 && r % a == 0 && v <= r < v + a
    ensures AlignUp(v, a) == r
  {
    var s := AlignUp(v, a);
    SameQuotientOf(r, s, a);
  }

  lemma SameQuotientOf(r: int, s: int, a: nat)
    requires a > 0 && r % a == 0 && s % a == 0 && r - s < a && s - r < a
    ensures r == s
  {
    var p, q := r / a, s / a;
    assert r == p * a && s == q * a;
    if p < q {
      NextMultiple(p, q, a);
    } else if q < p {
      NextMultiple(q, p, a);
    }
  }

  lemma DivMod(x: int, a: nat)
    requires a > 0
    ensures x / a * a <= x < x / a * a + a
    ensures (x / a * a) % a == 0
  {
    var q := x / a;
    assert x == q * a + x % a;
    UniqueMod(q * a, a, q, 0);
  }

  // ---------- Python sequences ----------

  function Min(a: nat, b: nat): nat { if a < b then a else b }

  function Max(a: nat, b: nat): nat { if a < b then b else a }

  /** `s[a:b]`: both ends are clipped, and an inverted range is empty. */
  function PySlice<T>(s: seq<T>, a: nat, b: nat): (r: seq<T>)
    ensures a <= b <= |s| ==> r == s[a..b]
    ensures a >= |s| || b <= a ==> r == []
  {
    var lo := Min(a, |s|);
    s[lo..Max(lo, Min(b, |s|))]
  }

  /** `s[a:b] = data` on a bytearray: the clipped slice is replaced, so the length may change. */
  function PyAssign<T>(s: seq<T>, a: nat, b: nat, data: seq<T>): (r: seq<T>)
    ensures a <= b <= |s| && b - a == |data| ==> r == Overwrite(s, a, data)
  {
    var lo := Min(a, |s|);
    s[..lo] + data + s[Max(lo, Min(b, |s|))..]
  }

  /** The bytes of `data` laid over `s` from offset `at`. */
  function Overwrite<T>(s: seq<T>, at: nat, data: seq<T>): (r: seq<T>)
    requires at + |data| <= |s|
    ensures |r| == |s|
    ensures r[at..at + |data|] == data
    ensures forall k :: 0 <= k < |s| && !(at <= k < at + |data|) ==> r[k] == s[k]
  {
    s[..at] + data + s[at + |data|..]
  }

  /** A slice of a part that stands at `at` is a slice of the whole. */
  lemma SubSlice<T>(s: seq<T>, at: nat, part: seq<T>, i: nat, j: nat)
    requires at + |part| <= |s| && s[at..at + |part|] == part && i <= j <= |part|
    ensures s[at + i..at + j] == part[i..j]
  {
    forall k | 0 <= k < j - i ensures s[at + i..at + j][k] == part[i..j][k] {
      assert s[at..at + |part|][i + k] == part[i + k];
    }
  }

  predicate AllZero(s: seq<byte>) { forall k :: 0 <= k < |s| ==> s[k] == 0 }

  function Zeros(n: nat): (s: seq<byte>)
    ensures |s| == n && AllZero(s)
  {
    seq(n, _ => 0)
  }

  // ---------- base 256 ----------

  function Pow256(w: nat): (r: nat)
    ensures r > 0
  {
    if w == 0 then 1 else 256 * Pow256(w - 1)
  }

  lemma PowersOf256()
    ensures Pow256(0) == 1 && Pow256(1) == 256 && Pow256(2) == 0x1_0000 && Pow256(3) == 0x100_0000
    ensures Pow256(4) == 0x1_0000_0000 && Pow256(8) == 0x1_0000_0000_0000_0000
  {
    assert Pow256(4) == 0x1_0000_0000;
  }

  /** The number whose little-endian bytes are `s`. */
  function LeValue(s: seq<byte>): nat {
    if s == [] then 0 else s[0] + 256 * LeValue(s[1..])
  }

  /** The low `w` base-256 digits of `v`, least significant first. */
  function LeDigits(w: nat, v: nat): (s: seq<byte>)
    ensures |s| == w
  {
    if w == 0 then [] else [v % 256] + LeDigits(w - 1, v / 256)
  }

  /** The k-th digit, counted from the least significant one. */
  lemma {:induction false} LeDigitAt(w: nat, v: nat, k: nat)
    requires k < w
    ensures LeDigits(w, v)[k] == v / Pow256(k) % 256
  {
    if k > 0 {
      LeDigitAt(w - 1, v / 256, k - 1);
      QuotientTwice(v, 256, Pow256(k - 1));
    }
  }

  lemma QuotientTwice(v: nat, a: nat, b: nat)
    requires a > 0 && b > 0
    ensures v / a / b == v / (a * b)
  {
    var q, r, s := v / a / b, v / a % b, v % a;
    assert v / a == q * b + r && v == v / a * a + s;
    assert v == q * (a * b) + (r * a + s) by {
      assert (q * b + r) * a == q * (a * b) + r * a;
    }
    assert r * a + s < a * b by {
      assert (r + 1) * a <= b * a;
    }
    UniqueMod(v, a * b, q, r * a + s);
  }

  lemma {:induction false} LeValueOfDigits(w: nat, v: nat)
    ensures LeValue(LeDigits(w, v)) == v % Pow256(w)
  {
    if w > 0 {
      LeValueOfDigits(w - 1, v / 256);
      var p := Pow256(w - 1);
      assert LeDigits(w, v)[1..] == LeDigits(w - 1, v / 256);
      SplitMod(v, p);
    }
  }

  lemma SplitMod(v: nat, p: nat)
    requires p > 0
    ensures v % (256 * p) == v % 256 + 256 * (v / 256 % p)
  {
    var q := v / 256 / p;
    var m := v / 256 % p;
    assert v / 256 == q * p + m;
    assert v == 256 * (q * p + m) + v % 256;
    assert v == q * (256 * p) + (256 * m + v % 256) by {
      assert 256 * (q * p) == q * (256 * p);
    }
    UniqueMod(v, 256 * p, q, 256 * m + v % 256);
  }

  /** Quotient and remainder are the only pair of their kind. */
  lemma UniqueMod(v: int, n: nat, q: int, r: nat)
    requires n > 0 && v == q * n + r && r < n
    ensures v % n == r && v / n == q
  {
    assert v == v / n * n + v % n;
    SameQuotient(q, r, v / n, v % n, n);
  }

  lemma SameQuotient(q: int, r: nat, q': int, r': nat, n: nat)
    requires r < n && r' < n && q * n + r == q' * n + r'
    ensures q == q' && r == r'
  {
    if q < q' {
      NextMultiple(q, q', n);
    } else if q' < q {
      NextMultiple(q', q, n);
    }
  }

  lemma NextMultiple(k: int, l: int, n: nat)
    requires k < l
    ensures l * n >= k * n + n
  {
    var d := l - k - 1;
    assert l * n == k * n + n + d * n;
  }

  lemma {:induction false} LeDigitsOfValue(s: seq<byte>)
    ensures LeValue(s) < Pow256(|s|)
    ensures LeDigits(|s|, LeValue(s)) == s
  {
    if s != [] {
      LeDigitsOfValue(s[1..]);
      assert LeValue(s) % 256 == s[0] && LeValue(s) / 256 == LeValue(s[1..]);
      assert [s[0]] + s[1..] == s;
    }
  }

  lemma SmallMod(v: nat, n: nat)
    requires v < n
    ensures v % n == v
  {
  }

  /** Numbers that fit come back from their digits. */
  lemma LeRoundTrip(w: nat, v: nat)
    requires v < Pow256(w)
    ensures LeValue(LeDigits(w, v)) == v
  {
    LeValueOfDigits(w, v);
    SmallMod(v, Pow256(w));
  }
}
