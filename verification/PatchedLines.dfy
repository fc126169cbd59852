/** Replacing several lines of one text, each by a line that differs in its last byte only. */
module PatchedLines {
  import opened Bytes
  import opened Lines

  datatype Patch = Patch(oldLine: seq<byte>, newLine: seq<byte>, property: string)

  /** The two lines have the same length and differ in their last byte and nowhere else. */
  predicate LastByteChange(p: Patch) {
    var n := |p.oldLine|;
    && n == |p.newLine| > 0
    && p.oldLine[..n - 1] == p.newLine[..n - 1]
    && p.oldLine[n - 1] != p.newLine[n - 1]
  }

  /** What the program's table of patches satisfies: last-byte changes between pairwise different lines. */
  predicate WellFormed(ps: seq<Patch>) {
    && (forall i :: 0 <= i < |ps| ==>
          LastByteChange(ps[i]) && TerminatorFree(ps[i].oldLine) && TerminatorFree(ps[i].newLine))
    && (forall i, j :: 0 <= i < |ps| && 0 <= j < |ps| ==> ps[i].oldLine != ps[j].newLine)
    && (forall i, j :: 0 <= i < j < |ps| ==> ps[i].oldLine != ps[j].oldLine && ps[i].newLine != ps[j].newLine)
  }

  function Swapped(ps: seq<Patch>): (r: seq<Patch>)
    ensures |r| == |ps|
    ensures forall i :: 0 <= i < |ps| ==> r[i] == Patch(ps[i].newLine, ps[i].oldLine, ps[i].property)
  {
    seq(|ps|, i requires 0 <= i < |ps| => Patch(ps[i].newLine, ps[i].oldLine, ps[i].property))
  }

  /** Each of the first `k` old lines occurs exactly once. */
  predicate OldUniqueUpTo(data: seq<byte>, ps: seq<Patch>, k: nat)
    requires k <= |ps|
  {
    forall i :: 0 <= i < k ==> |Hits(data, ps[i].oldLine)| == 1
  }

  /** Every old line occurs exactly once. */
  predicate OldUnique(data: seq<byte>, ps: seq<Patch>) { OldUniqueUpTo(data, ps, |ps|) }

  /** No new line occurs. */
  predicate NewAbsent(data: seq<byte>, ps: seq<Patch>) {
    forall i :: 0 <= i < |ps| ==> |Hits(data, ps[i].newLine)| == 0
  }

  /** Where the i-th old line is. */
  function Position(data: seq<byte>, ps: seq<Patch>, i: nat): (p: nat)
    requires i < |ps| && |Hits(data, ps[i].oldLine)| == 1
    ensures OnlyHit(data, ps[i].oldLine, p)
  {
    HitsAre(data, ps[i].oldLine);
    Hits(data, ps[i].oldLine)[0]
  }

  /** The text with the first `k` patches applied at the positions found in the original. */
  function Patched(data: seq<byte>, ps: seq<Patch>, k: nat): (r: seq<byte>)
    requires WellFormed(ps) && k <= |ps| && OldUniqueUpTo(data, ps, k)
    ensures |r| == |data|
  {
    if k == 0 then data
    else Overwrite(Patched(data, ps, k - 1), Position(data, ps, k - 1), ps[k - 1].newLine)
  }

  // ---------- which lines the patched text has ----------

  /** Different patches work on lines that do not overlap. */
  lemma PositionsApart(data: seq<byte>, ps: seq<Patch>, i: nat, j: nat)
    requires WellFormed(ps) && OldUnique(data, ps) && i < |ps| && j < |ps| && i != j
    ensures
      var p, q := Position(data, ps, i), Position(data, ps, j);
      p + |ps[i].oldLine| < q || q + |ps[j].oldLine| < p
  {
    hide IsHit, Hits, LastByteChange;
    var p, q := Position(data, ps, i), Position(data, ps, j);
    if p == q {
      SameLine(data, ps[i].oldLine, ps[j].oldLine, p);
    }
    OtherLineApart(data, ps[i].oldLine, p, ps[j].oldLine, q);
  }

  /** The patch, among the first `k`, that works at `q`. */
  ghost function PatchAt(data: seq<byte>, ps: seq<Patch>, k: nat, q: nat): (r: Option<nat>)
    requires OldUnique(data, ps) && k <= |ps|
    ensures r.Some? ==> r.value < k && Position(data, ps, r.value) == q
    ensures r.None? ==> forall i :: 0 <= i < k ==> Position(data, ps, i) != q
  {
    if k == 0 then None
    else if Position(data, ps, k - 1) == q then Some(k - 1)
    else PatchAt(data, ps, k - 1, q)
  }

  /** At a patched position stands the new line; every other line is as it was. */
  lemma {:induction false} PatchedHit(data: seq<byte>, ps: seq<Patch>, k: nat, w: seq<byte>, q: nat)
    requires WellFormed(ps) && OldUnique(data, ps) && k <= |ps|
    ensures IsHit(Patched(data, ps, k), w, q) <==>
            match PatchAt(data, ps, k, q)
            case Some(i) => w == ps[i].newLine
            case None => IsHit(data, w, q)
    decreases k, 0
  {
    hide IsHit, Hits, LastByteChange, Overwrite;
    if k > 0 {
      PatchedHit(data, ps, k - 1, w, q);
      OldLineStillThere(data, ps, k - 1);
      SameLengths(ps[k - 1]);
      SubstitutedLine(Patched(data, ps, k - 1), ps[k - 1].oldLine, ps[k - 1].newLine,
                      Position(data, ps, k - 1), w, q);
    }
  }

  lemma SameLengths(p: Patch)
    ensures LastByteChange(p) ==> |p.oldLine| == |p.newLine| > 0
  {
  }

  lemma {:induction false} OldLineStillThere(data: seq<byte>, ps: seq<Patch>, k: nat)
    requires WellFormed(ps) && OldUnique(data, ps) && k < |ps|
    ensures IsHit(Patched(data, ps, k), ps[k].oldLine, Position(data, ps, k))
    decreases k, 1
  {
    hide IsHit, Hits, LastByteChange, Overwrite;
    var q := Position(data, ps, k);
    forall i | 0 <= i < k ensures Position(data, ps, i) != q {
      PositionsApart(data, ps, i, k);
    }
    PatchedHit(data, ps, k, ps[k].oldLine, q);
  }

  /** After all patches every old line is gone and every new line occurs once more than before. */
  lemma LinesAfter(data: seq<byte>, ps: seq<Patch>, i: nat)
    requires WellFormed(ps) && OldUnique(data, ps) && i < |ps|
    ensures
      var after := Patched(data, ps, |ps|);
      && Hits(after, ps[i].oldLine) == []
      && IsHit(after, ps[i].newLine, Position(data, ps, i))
      && (|Hits(after, ps[i].newLine)| == 1 <==> |Hits(data, ps[i].newLine)| == 0)
  {
    hide IsHit, Hits, LastByteChange, Overwrite, Patched;
    var after := Patched(data, ps, |ps|);
    var oldLine, newLine := ps[i].oldLine, ps[i].newLine;
    var p := Position(data, ps, i);
    HitsAre(after, oldLine);
    HitsAre(after, newLine);
    HitsAre(data, newLine);
    forall q: nat ensures !IsHit(after, oldLine, q) {
      PatchedHit(data, ps, |ps|, oldLine, q);
      if q == p {
        assert PatchAt(data, ps, |ps|, p).Some?;
      }
    }
    forall q: nat ensures IsHit(after, newLine, q) <==> q == p || IsHit(data, newLine, q) {
      NewLineHits(data, ps, i, q);
    }
    NotBoth(data, ps, i);
    if |Hits(data, newLine)| == 0 {
      assert OnlyHit(after, newLine, p);
    }
  }

  lemma NewLineHits(data: seq<byte>, ps: seq<Patch>, i: nat, q: nat)
    requires WellFormed(ps) && OldUnique(data, ps) && i < |ps|
    ensures IsHit(Patched(data, ps, |ps|), ps[i].newLine, q) <==>
            q == Position(data, ps, i) || IsHit(data, ps[i].newLine, q)
  {
    hide IsHit, Hits, LastByteChange, Overwrite, Patched;
    PatchedHit(data, ps, |ps|, ps[i].newLine, q);
    match PatchAt(data, ps, |ps|, q)
    case None =>
    case Some(j) =>
      if j != i {
        PositionsApart(data, ps, i, j);
      }
      NotBoth(data, ps, j);
      if IsHit(data, ps[i].newLine, q) {
        SameLine(data, ps[i].newLine, ps[j].oldLine, q);
      }
  }

  /** Where an old line is, no new line is. */
  lemma NotBoth(data: seq<byte>, ps: seq<Patch>, i: nat)
    requires WellFormed(ps) && OldUnique(data, ps) && i < |ps|
    ensures !IsHit(data, ps[i].newLine, Position(data, ps, i))
  {
    hide IsHit, Hits, LastByteChange;
    if IsHit(data, ps[i].newLine, Position(data, ps, i)) {
      SameLine(data, ps[i].newLine, ps[i].oldLine, Position(data, ps, i));
    }
  }

  // ---------- which bytes the patched text has ----------

  ghost predicate InLine(data: seq<byte>, ps: seq<Patch>, i: nat, x: nat)
    requires OldUnique(data, ps) && i < |ps|
  {
    Position(data, ps, i) <= x < Position(data, ps, i) + |ps[i].oldLine|
  }

  lemma OldBytes(data: seq<byte>, ps: seq<Patch>, i: nat, x: nat)
    requires WellFormed(ps) && OldUnique(data, ps) && i < |ps| && InLine(data, ps, i, x)
    ensures x < |data| && data[x] == ps[i].oldLine[x - Position(data, ps, i)]
  {
    var p := Position(data, ps, i);
    assert data[p..p + |ps[i].oldLine|][x - p] == ps[i].oldLine[x - p];
  }

  /** Inside the i-th patched line stand the bytes of the new line. */
  lemma {:induction false} ByteInside(data: seq<byte>, ps: seq<Patch>, k: nat, i: nat, x: nat)
    requires WellFormed(ps) && OldUnique(data, ps) && i < k <= |ps| && InLine(data, ps, i, x)
    ensures |ps[i].oldLine| == |ps[i].newLine| && x < |data|
    ensures Patched(data, ps, k)[x] == ps[i].newLine[x - Position(data, ps, i)]
  {
    hide IsHit, Hits, LastByteChange;
    SameLengths(ps[i]);
    SameLengths(ps[k - 1]);
    OldBytes(data, ps, i, x);
    var p := Position(data, ps, k - 1);
    var t := Patched(data, ps, k);
    if i == k - 1 {
      assert t[p..p + |ps[i].newLine|][x - p] == t[x];
    } else {
      PositionsApart(data, ps, i, k - 1);
      ByteInside(data, ps, k - 1, i, x);
    }
  }

  /** Outside the first `k` patched lines nothing changes. */
  lemma {:induction false} ByteOutside(data: seq<byte>, ps: seq<Patch>, k: nat, x: nat)
    requires WellFormed(ps) && OldUnique(data, ps) && k <= |ps| && x < |data|
    requires forall i :: 0 <= i < k ==> !InLine(data, ps, i, x)
    ensures Patched(data, ps, k)[x] == data[x]
  {
    hide IsHit, Hits, LastByteChange;
    if k > 0 {
      SameLengths(ps[k - 1]);
      ByteOutside(data, ps, k - 1, x);
      assert !InLine(data, ps, k - 1, x);
    }
  }

  // ---------- undoing the patches ----------

  lemma SwappedWellFormed(ps: seq<Patch>)
    requires WellFormed(ps)
    ensures WellFormed(Swapped(ps))
  {
    var r := Swapped(ps);
    forall i | 0 <= i < |r|
      ensures LastByteChange(r[i]) && TerminatorFree(r[i].oldLine) && TerminatorFree(r[i].newLine)
    {
      assert LastByteChange(ps[i]);
    }
  }

  /** The patched text is ready for the swapped table, which finds its lines where the original table found them. */
  lemma SwappedReady(data: seq<byte>, ps: seq<Patch>)
    requires WellFormed(ps) && OldUnique(data, ps) && NewAbsent(data, ps)
    ensures
      var after := Patched(data, ps, |ps|);
      && OldUnique(after, Swapped(ps)) && NewAbsent(after, Swapped(ps))
      && forall i :: 0 <= i < |ps| ==> Position(after, Swapped(ps), i) == Position(data, ps, i)
  {
    hide IsHit, Hits, LastByteChange, Patched;
    var after := Patched(data, ps, |ps|);
    var r := Swapped(ps);
    forall i | 0 <= i < |ps|
      ensures |Hits(after, r[i].oldLine)| == 1 && |Hits(after, r[i].newLine)| == 0
    {
      LinesAfter(data, ps, i);
    }
    forall i | 0 <= i < |ps| ensures Position(after, r, i) == Position(data, ps, i) {
      LinesAfter(data, ps, i);
      assert OnlyHit(after, r[i].oldLine, Position(after, r, i));
    }
  }

  /** Patching and then patching with old and new swapped gives the original text back. */
  lemma SwappedUndoes(data: seq<byte>, ps: seq<Patch>)
    requires WellFormed(ps) && OldUnique(data, ps) && NewAbsent(data, ps)
    ensures WellFormed(Swapped(ps)) && OldUnique(Patched(data, ps, |ps|), Swapped(ps))
    ensures Patched(Patched(data, ps, |ps|), Swapped(ps), |ps|) == data
  {
    hide IsHit, Hits, LastByteChange, Patched, NewAbsent, WellFormed;
    var n := |ps|;
    var after, r := Patched(data, ps, n), Swapped(ps);
    SwappedWellFormed(ps);
    SwappedReady(data, ps);
    forall x: nat | x < |data| ensures Patched(after, r, n)[x] == data[x] {
      UndoneByte(data, ps, x);
    }
  }

  lemma UndoneByte(data: seq<byte>, ps: seq<Patch>, x: nat)
    requires WellFormed(ps) && OldUnique(data, ps) && NewAbsent(data, ps) && x < |data|
    requires WellFormed(Swapped(ps)) && OldUnique(Patched(data, ps, |ps|), Swapped(ps))
    ensures Patched(Patched(data, ps, |ps|), Swapped(ps), |ps|)[x] == data[x]
  {
    hide IsHit, Hits, Position, InLine, Patched, NewAbsent, WellFormed;
    var n := |ps|;
    var after, r := Patched(data, ps, n), Swapped(ps);
    SwappedReady(data, ps);
    if i :| 0 <= i < n && InLine(data, ps, i, x) {
      UndoneInside(data, after, ps, i, x);
    } else {
      ByteOutside(data, ps, n, x);
      forall i | 0 <= i < n ensures !InLine(after, r, i, x) {
        assert !InLine(data, ps, i, x);
        SameLines(data, after, ps, i, x);
      }
      ByteOutside(after, r, n, x);
    }
  }

  /** A line that is found at the same place in both texts covers the same bytes. */
  lemma SameLines(data: seq<byte>, after: seq<byte>, ps: seq<Patch>, i: nat, x: nat)
    requires WellFormed(ps) && OldUnique(data, ps) && OldUnique(after, Swapped(ps)) && i < |ps|
    requires Position(after, Swapped(ps), i) == Position(data, ps, i)
    ensures InLine(after, Swapped(ps), i, x) <==> InLine(data, ps, i, x)
  {
    hide IsHit, Hits, Position;
    SameLengths(ps[i]);
  }

  lemma UndoneInside(data: seq<byte>, after: seq<byte>, ps: seq<Patch>, i: nat, x: nat)
    requires WellFormed(ps) && WellFormed(Swapped(ps)) && i < |ps| && x < |data| == |after|
    requires OldUnique(data, ps) && OldUnique(after, Swapped(ps)) && InLine(data, ps, i, x)
    requires Position(after, Swapped(ps), i) == Position(data, ps, i)
    ensures Patched(after, Swapped(ps), |ps|)[x] == data[x]
  {
    hide IsHit, Hits, Position, Patched, LastByteChange;
    SameLengths(ps[i]);
    SameLines(data, after, ps, i, x);
    OldBytes(data, ps, i, x);
    ByteInside(after, Swapped(ps), |ps|, i, x);
  }

  // ---------- how many bytes differ ----------

  /** The offsets below `n` at which two byte strings differ, in increasing order. */
  function DiffsBelow(a: seq<byte>, b: seq<byte>, n: nat): (ds: seq<nat>)
    requires n <= |a| == |b|
    ensures forall x: nat :: x in ds <==> x < n && a[x] != b[x]
    ensures forall i :: 0 <= i < |ds| ==> ds[i] < n
    ensures forall i, j :: 0 <= i < j < |ds| ==> ds[i] < ds[j]
  {
    if n == 0 then []
    else
      var ds := DiffsBelow(a, b, n - 1);
      if a[n - 1] != b[n - 1] then ds + [n - 1] else ds
  }

  /** Changing one more byte adds one difference. */
  lemma {:induction false} OneMoreDiff(a: seq<byte>, t: seq<byte>, u: seq<byte>, d: nat, n: nat)
    requires n <= |a| == |t| == |u| && d < |a|
    requires a[d] == t[d] != u[d] && forall x :: 0 <= x < |a| && x != d ==> t[x] == u[x]
    ensures |DiffsBelow(a, u, n)| == |DiffsBelow(a, t, n)| + if d < n then 1 else 0
  {
    if n > 0 {
      OneMoreDiff(a, t, u, d, n - 1);
    }
  }

  /** Exchanging a line for one that differs in its last byte changes that byte. */
  lemma LastByteStep(data: seq<byte>, t: seq<byte>, p: nat, patch: Patch)
    requires LastByteChange(patch) && p + |patch.oldLine| <= |t| == |data|
    requires t[p..p + |patch.oldLine|] == data[p..p + |patch.oldLine|] == patch.oldLine
    ensures
      var u, d := Overwrite(t, p, patch.newLine), p + |patch.oldLine| - 1;
      && p <= d < |data| && data[d] == t[d] != u[d]
      && forall x :: 0 <= x < |data| && x != d ==> t[x] == u[x]
  {
    var u, n := Overwrite(t, p, patch.newLine), |patch.oldLine|;
    forall x | p <= x < p + n
      ensures data[x] == t[x] == patch.oldLine[x - p] && u[x] == patch.newLine[x - p]
      ensures x < p + n - 1 ==> t[x] == u[x]
    {
      assert t[x] == t[p..p + n][x - p] && data[x] == data[p..p + n][x - p] && u[x] == u[p..p + n][x - p];
      if x < p + n - 1 {
        assert patch.oldLine[..n - 1][x - p] == patch.newLine[..n - 1][x - p];
      }
    }
  }

  /** The k-th patch changes the last byte of its line, which was as in the original, and nothing else. */
  lemma PatchStep(data: seq<byte>, ps: seq<Patch>, k: nat)
    requires WellFormed(ps) && OldUnique(data, ps) && k < |ps|
    ensures
      var t, u := Patched(data, ps, k), Patched(data, ps, k + 1);
      var d := Position(data, ps, k) + |ps[k].oldLine| - 1;
      && 0 <= d < |data| && data[d] == t[d] != u[d]
      && forall x :: 0 <= x < |data| && x != d ==> t[x] == u[x]
  {
    hide LineStart, LineEnd, TerminatorFree, Hits, LastByteChange, Overwrite, Position;
    OldLineStillThere(data, ps, k);
    assert LastByteChange(ps[k]);
    LastByteStep(data, Patched(data, ps, k), Position(data, ps, k), ps[k]);
  }

  /** The patched text differs from the original exactly in the last byte of each patched line. */
  lemma {:induction false} DiffersAt(data: seq<byte>, ps: seq<Patch>, k: nat, x: nat)
    requires WellFormed(ps) && OldUnique(data, ps) && k <= |ps| && x < |data|
    ensures Patched(data, ps, k)[x] != data[x] <==>
            exists i :: 0 <= i < k && x == Position(data, ps, i) + |ps[i].oldLine| - 1
  {
    hide IsHit, Hits, LastByteChange, Patched, WellFormed;
    if k > 0 {
      DiffersAt(data, ps, k - 1, x);
      PatchStep(data, ps, k - 1);
      var d := Position(data, ps, k - 1) + |ps[k - 1].oldLine| - 1;
      if x == d {
        assert Patched(data, ps, k)[x] != data[x];
      } else {
        assert Patched(data, ps, k)[x] == Patched(data, ps, k - 1)[x];
      }
    } else {
      NothingPatched(data, ps);
    }
  }

  lemma NothingPatched(data: seq<byte>, ps: seq<Patch>)
    requires WellFormed(ps) && OldUnique(data, ps)
    ensures Patched(data, ps, 0) == data
  {
  }
}
