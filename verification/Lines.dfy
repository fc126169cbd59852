/** Finding whole lines in a byte string, as tools/patch_recovery_adbd_props.py does. */
module Lines {
  import opened Bytes

  predicate IsTerminator(b: byte) { b == 10 || b == 13 }

  predicate TerminatorFree(s: seq<byte>) { forall k :: 0 <= k < |s| ==> !IsTerminator(s[k]) }

  // ---------- bytes.splitlines(keepends=True) and rstrip(b"\r\n") ----------

  /** The length of the first line with its terminator: \n, \r or \r\n. */
  function FirstLineLength(s: seq<byte>): (n: nat)
    requires s != []
    ensures 1 <= n <= |s|
  {
    if s[0] == 13 && |s| > 1 && s[1] == 10 then 2
    else if IsTerminator(s[0]) || |s| == 1 then 1
    else 1 + FirstLineLength(s[1..])
  }

  function SplitLines(s: seq<byte>): seq<seq<byte>> {
    if s == [] then []
    else
      var n := FirstLineLength(s);
      [s[..n]] + SplitLines(s[n..])
  }

  function StripTerminators(s: seq<byte>): seq<byte> {
    if s != [] && IsTerminator(s[|s| - 1]) then StripTerminators(s[..|s| - 1]) else s
  }

  // ---------- lines by position ----------

  /** A line of `s` begins at `p`. */
  predicate LineStart(s: seq<byte>, p: nat) {
    && p < |s|
    && (p > 0 ==> s[p - 1] == 10 || (s[p - 1] == 13 && s[p] != 10))
  }

  /** The contents of a line end before `q`. */
  predicate LineEnd(s: seq<byte>, q: nat) { q == |s| || (q < |s| && IsTerminator(s[q])) }

  /** The line beginning at `p` is `w` and nothing else. */
  predicate IsHit(s: seq<byte>, w: seq<byte>, p: nat) {
    && LineStart(s, p) && TerminatorFree(w)
    && p + |w| <= |s| && s[p..p + |w|] == w && LineEnd(s, p + |w|)
  }

  /** The positions below `n` at which `w` is a whole line, in increasing order. */
  function HitsBelow(s: seq<byte>, w: seq<byte>, n: nat): (hits: seq<nat>)
    ensures forall p: nat :: p in hits <==> p < n && IsHit(s, w, p)
    ensures forall i :: 0 <= i < |hits| ==> hits[i] < n
    ensures forall i, j :: 0 <= i < j < |hits| ==> hits[i] < hits[j]
  {
    if n == 0 then []
    else
      var hits := HitsBelow(s, w, n - 1);
      if IsHit(s, w, n - 1) then hits + [n - 1] else hits
  }

  function Hits(s: seq<byte>, w: seq<byte>): seq<nat> { HitsBelow(s, w, |s|) }

  /** The one position of the line `w`. */
  ghost predicate OnlyHit(s: seq<byte>, w: seq<byte>, p: nat) {
    IsHit(s, w, p) && forall q :: IsHit(s, w, q) ==> q == p
  }

  lemma HitsAre(s: seq<byte>, w: seq<byte>)
    ensures forall p: nat :: p in Hits(s, w) <==> IsHit(s, w, p)
    ensures |Hits(s, w)| == 0 <==> forall p :: !IsHit(s, w, p)
    ensures |Hits(s, w)| == 1 <==> exists p :: OnlyHit(s, w, p)
    ensures |Hits(s, w)| == 1 ==> OnlyHit(s, w, Hits(s, w)[0])
  {
    var hits := Hits(s, w);
    if |hits| > 0 {
      assert hits[0] in hits;
    }
    if |hits| > 1 {
      assert hits[1] in hits && hits[0] != hits[1];
    }
    if p :| OnlyHit(s, w, p) {
      assert p in hits;
    }
    if |hits| == 1 {
      assert OnlyHit(s, w, hits[0]);
    }
  }

  // ---------- the scanner ----------

  /** Between the start of a line and the start of the next no line begins. */
  lemma {:induction false} FirstLineShape(s: seq<byte>)
    requires s != []
    ensures
      var n := FirstLineLength(s);
      var body := StripTerminators(s[..n]);
      && |body| <= n && s[..|body|] == body && TerminatorFree(body)
      && LineEnd(s, |body|)
      && (forall k :: 0 < k < n ==> !LineStart(s, k))
      && (n < |s| ==> LineStart(s, n))
  {
    var n := FirstLineLength(s);
    if IsTerminator(s[0]) || |s| == 1 {
      assert StripTerminators(s[..1]) == if IsTerminator(s[0]) then [] else s[..1] by {
        assert s[..1][..0] == [];
      }
      if n == 2 {
        assert s[..2][..1] == s[..1];
      }
    } else {
      var t := s[1..];
      FirstLineShape(t);
      StripCons(s[0], t[..n - 1]);
      assert s[..n] == [s[0]] + t[..n - 1];
      var body := StripTerminators(s[..n]);
      assert body == [s[0]] + StripTerminators(t[..n - 1]);
      forall k | 0 < k < n ensures !LineStart(s, k) {
        assert k > 1 ==> !LineStart(t, k - 1);
      }
      if n < |s| {
        assert LineStart(t, n - 1) && n > 1;
      }
    }
  }

  lemma {:induction false} StripCons(b: byte, t: seq<byte>)
    requires !IsTerminator(b)
    ensures StripTerminators([b] + t) == [b] + StripTerminators(t)
  {
    var s := [b] + t;
    if t != [] && IsTerminator(t[|t| - 1]) {
      assert s[..|s| - 1] == [b] + t[..|t| - 1];
      StripCons(b, t[..|t| - 1]);
    }
  }

  /** Lines of a suffix that starts a line are lines of the whole. */
  lemma SuffixLines(s: seq<byte>, c: nat, k: nat)
    requires LineStart(s, c) && c + k < |s|
    ensures k > 0 ==> (LineStart(s[c..], k) <==> LineStart(s, c + k))
  {
  }

  lemma LineHit(s: seq<byte>, w: seq<byte>, c: nat)
    requires LineStart(s, c)
    ensures
      var n := FirstLineLength(s[c..]);
      && (StripTerminators(s[c..c + n]) == w <==> IsHit(s, w, c))
      && (forall k :: c < k < c + n ==> !LineStart(s, k))
      && (c + n < |s| ==> LineStart(s, c + n))
  {
    var t := s[c..];
    var n := FirstLineLength(t);
    FirstLineShape(t);
    var body := StripTerminators(t[..n]);
    assert t[..n] == s[c..c + n];
    assert s[c..c + |body|] == t[..|body|];
    assert LineEnd(s, c + |body|);
    forall k | c < k < c + n ensures !LineStart(s, k) {
      SuffixLines(s, c, k - c);
    }
    if c + n < |s| {
      SuffixLines(s, c, n);
    }
    if IsHit(s, w, c) {
      SameLine(s, w, body, c);
    }
  }

  lemma HitBody(s: seq<byte>, w: seq<byte>, p: nat)
    requires IsHit(s, w, p)
    ensures forall k :: p <= k < p + |w| ==> !IsTerminator(s[k])
  {
    forall k | p <= k < p + |w| ensures !IsTerminator(s[k]) {
      assert s[p..p + |w|][k - p] == w[k - p];
    }
  }

  /** The contents of the line at `c` are determined by where its terminator is. */
  lemma SameLine(s: seq<byte>, v: seq<byte>, w: seq<byte>, c: nat)
    requires IsHit(s, v, c) && IsHit(s, w, c)
    ensures v == w
  {
    HitBody(s, v, c);
    HitBody(s, w, c);
  }

  lemma {:induction false} NoHitsBetween(s: seq<byte>, w: seq<byte>, lo: nat, hi: nat)
    requires lo <= hi && forall k :: lo <= k < hi ==> !LineStart(s, k)
    ensures HitsBelow(s, w, hi) == HitsBelow(s, w, lo)
    decreases hi - lo
  {
    if lo < hi {
      NoHitsBetween(s, w, lo, hi - 1);
    }
  }

  /** What scanning the line at `c` contributes. */
  lemma LineStep(s: seq<byte>, w: seq<byte>, c: nat)
    requires c < |s| && LineStart(s, c)
    ensures
      var lines := SplitLines(s[c..]);
      && lines != []
      && var next := c + |lines[0]|;
         && c < next <= |s| && lines[1..] == SplitLines(s[next..])
         && (next < |s| ==> LineStart(s, next))
         && HitsBelow(s, w, next) == HitsBelow(s, w, c) + if StripTerminators(lines[0]) == w then [c] else []
  {
    hide IsHit, LineStart, StripTerminators, FirstLineLength, TerminatorFree, SplitLines, HitsBelow;
    var n := FirstLineLength(s[c..]);
    SplitStep(s[c..]);
    assert s[c..][..n] == s[c..c + n] && s[c..][n..] == s[c + n..];
    LineHit(s, w, c);
    NoHitsBetween(s, w, c + 1, c + n);
    HitsStep(s, w, c);
  }

  lemma SplitStep(s: seq<byte>)
    requires s != []
    ensures
      var lines, n := SplitLines(s), FirstLineLength(s);
      lines != [] && lines[0] == s[..n] && lines[1..] == SplitLines(s[n..])
  {
    hide FirstLineLength;
  }

  lemma HitsStep(s: seq<byte>, w: seq<byte>, c: nat)
    ensures HitsBelow(s, w, c + 1) == HitsBelow(s, w, c) + if IsHit(s, w, c) then [c] else []
  {
    hide IsHit;
  }

  lemma WholeLines(s: seq<byte>)
    ensures s != [] ==> LineStart(s, 0)
    ensures forall c :: 0 <= c <= |s| ==> (SplitLines(s[c..]) == [] <==> c == |s|)
  {
  }

  /** A whole line: behind a terminator or at the start, holding none, and ending at one or with the text. */
  lemma HitMeans(s: seq<byte>, w: seq<byte>, p: nat)
    ensures IsHit(s, w, p) <==>
            && p < |s| && (p > 0 ==> s[p - 1] == 10 || (s[p - 1] == 13 && s[p] != 10))
            && (forall k :: 0 <= k < |w| ==> w[k] != 10 && w[k] != 13)
            && p + |w| <= |s| && s[p..p + |w|] == w
            && (p + |w| == |s| || s[p + |w|] == 10 || s[p + |w|] == 13)
  {
  }

  /** Exactly the offsets at which `wanted` is a whole line, increasing. */
  method CountExactLines(data: seq<byte>, wanted: seq<byte>) returns (hits: seq<nat>)
    ensures hits == Hits(data, wanted)
    ensures forall p: nat :: p in hits <==> IsHit(data, wanted, p)
    ensures forall i, j :: 0 <= i < j < |hits| ==> hits[i] < hits[j]
  {
    hide IsHit, LineStart, StripTerminators, SplitLines;
    hits := [];
    var cursor := 0;
    var lines := SplitLines(data);
    assert data[0..] == data;
    WholeLines(data);
    while lines != []
      invariant cursor <= |data|
      invariant cursor < |data| ==> LineStart(data, cursor)
      invariant lines == SplitLines(data[cursor..])
      invariant hits == HitsBelow(data, wanted, cursor)
      decreases |data| - cursor
    {
      var line := lines[0];
      LineStep(data, wanted, cursor);
      if StripTerminators(line) == wanted {
        hits := hits + [cursor];
      }
      cursor := cursor + |line|;
      lines := lines[1..];
    }
    HitsAre(data, wanted);
  }

  // ---------- replacing one line by another of the same length ----------

  /** Laying `newLine` over the line at `p` changes that line and no other. */
  lemma SubstitutedLine(s: seq<byte>, oldLine: seq<byte>, newLine: seq<byte>, p: nat, w: seq<byte>, q: nat)
    requires IsHit(s, oldLine, p) && |newLine| == |oldLine| && TerminatorFree(newLine)
    ensures IsHit(Overwrite(s, p, newLine), w, q) <==> if q == p then w == newLine else IsHit(s, w, q)
  {
    var t := Overwrite(s, p, newLine);
    SameTerminators(s, oldLine, newLine, p);
    assert IsHit(t, newLine, p);
    if q == p {
      if IsHit(t, w, p) {
        SameLine(t, w, newLine, p);
      }
    } else {
      if IsHit(s, w, q) {
        OtherLineApart(s, oldLine, p, w, q);
        assert t[q..q + |w|] == s[q..q + |w|];
      }
      if IsHit(t, w, q) {
        OtherLineApart(t, newLine, p, w, q);
        assert t[q..q + |w|] == s[q..q + |w|];
      }
    }
  }

  lemma SameTerminators(s: seq<byte>, oldLine: seq<byte>, newLine: seq<byte>, p: nat)
    requires IsHit(s, oldLine, p) && |newLine| == |oldLine| && TerminatorFree(newLine)
    ensures
      var t := Overwrite(s, p, newLine);
      && (forall k :: 0 <= k < |s| ==> (IsTerminator(s[k]) <==> IsTerminator(t[k])))
      && (forall k :: 0 <= k < |s| && IsTerminator(s[k]) ==> t[k] == s[k])
      && (forall k :: LineStart(s, k) <==> LineStart(t, k))
      && (forall k :: LineEnd(s, k) <==> LineEnd(t, k))
  {
    var t := Overwrite(s, p, newLine);
    forall k | 0 <= k < |s|
      ensures IsTerminator(s[k]) <==> IsTerminator(t[k])
      ensures IsTerminator(s[k]) ==> t[k] == s[k]
    {
      if p <= k < p + |newLine| {
        assert s[p..p + |oldLine|][k - p] == s[k] && t[p..p + |newLine|][k - p] == t[k];
      }
    }
  }

  /** Two lines that begin at different places do not overlap. */
  lemma OtherLineApart(s: seq<byte>, v: seq<byte>, p: nat, w: seq<byte>, q: nat)
    requires IsHit(s, v, p) && IsHit(s, w, q) && p != q
    ensures p + |v| < q || q + |w| < p
  {
    HitBody(s, v, p);
    HitBody(s, w, q);
  }
}
