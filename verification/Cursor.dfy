/** The writers and readers of keymaster/serializable.h, over a buffer and a moving position. */
module Cursor {
  import opened Bytes
  import opened ByteOrder
  import opened Wire

  // ---------- writers ----------

  /**
   * What a writer of `data`, called at `pos` and returning `p`, makes of a buffer that was `start`: nothing outside
   * [pos, p) changes, nothing at or past `end` is touched, and if there is room the data stands there.
   */
  ghost predicate Put(start: seq<byte>, now: seq<byte>, pos: nat, p: nat, end: nat, data: seq<byte>) {
    && pos <= p <= end <= |now| == |start|
    && now[..pos] == start[..pos] && now[p..] == start[p..]
    && (pos + |data| <= end ==> p == pos + |data| && now[pos..p] == data)
  }

  /** Two writes in a row are one write of both pieces. */
  lemma PutPut(start: seq<byte>, before: seq<byte>, now: seq<byte>, pos: nat, mid: nat, p: nat, end: nat,
               a: seq<byte>, b: seq<byte>)
    requires Put(start, before, pos, mid, end, a) && Put(before, now, mid, p, end, b)
    ensures Put(start, now, pos, p, end, a + b)
  {
    assert now[..pos] == now[..mid][..pos] == before[..mid][..pos] == before[..pos];
    assert now[p..] == before[p..] == before[mid..][p - mid..] == start[mid..][p - mid..];
    if pos + |a + b| <= end {
      assert now[pos..mid] == now[..mid][pos..] == before[..mid][pos..];
      assert now[pos..p] == now[pos..mid] + now[mid..p];
    }
  }

  lemma PutNothing(start: seq<byte>, pos: nat, end: nat)
    requires pos <= end <= |start|
    ensures Put(start, start, pos, pos, end, [])
  {
  }

  /** Lays `data` at `pos` if it fits before `end`; callers rely only on the contract, not on what happens otherwise. */
  method AppendToBuf(buf: array<byte>, pos: nat, end: nat, data: seq<byte>) returns (p: nat)
    requires pos <= end <= buf.Length
    modifies buf
    ensures Put(old(buf[..]), buf[..], pos, p, end, data)
  {
    if pos + |data| > end {
      return pos;
    }
    forall k | 0 <= k < |data| {
      buf[pos + k] := data[k];
    }
    p := pos + |data|;
  }

  method AppendUint32(m: Machine, buf: array<byte>, pos: nat, end: nat, v: nat) returns (p: nat)
    requires pos <= end <= buf.Length
    modifies buf
    ensures Put(old(buf[..]), buf[..], pos, p, end, Word32(m.order, v))
  {
    p := AppendToBuf(buf, pos, end, MemBytes(m.order, 4, v));
  }

  method AppendUint64(m: Machine, buf: array<byte>, pos: nat, end: nat, v: u64) returns (p: nat)
    requires pos <= end <= buf.Length
    modifies buf
    ensures Put(old(buf[..]), buf[..], pos, p, end, Encode(m.order, U64(v)))
  {
    p := AppendToBuf(buf, pos, end, MemBytes(m.order, 8, v));
  }

  method AppendSizeAndData(m: Machine, buf: array<byte>, pos: nat, end: nat, data: seq<byte>) returns (p: nat)
    requires pos <= end <= buf.Length
    modifies buf
    ensures Put(old(buf[..]), buf[..], pos, p, end, Encode(m.order, Sized(data)))
  {
    hide Word32, Put;
    PutNothing(buf[..], pos, end);
    var mid := AppendUint32(m, buf, pos, end, |data|);
    ghost var before := buf[..];
    PutBounds(old(buf[..]), before, pos, mid, end, Word32(m.order, |data|));
    p := AppendToBuf(buf, mid, end, data);
    PutPut(old(buf[..]), before, buf[..], pos, mid, p, end, Word32(m.order, |data|), data);
  }

  lemma PutBounds(start: seq<byte>, now: seq<byte>, pos: nat, p: nat, end: nat, data: seq<byte>)
    requires Put(start, now, pos, p, end, data)
    ensures pos <= p <= end
  {
  }

  method AppendCollection(m: Machine, buf: array<byte>, pos: nat, end: nat, value: seq<byte>) returns (p: nat)
    requires pos <= end <= buf.Length
    modifies buf
    ensures Put(old(buf[..]), buf[..], pos, p, end, Encode(m.order, Collection(value)))
  {
    if |value| > UINT32_MAX {
      PutNothing(buf[..], pos, end);
      return pos;
    }
    p := AppendSizeAndData(m, buf, pos, end, value);
  }

  /** Pointer arithmetic: addresses wrap around. */
  function Advance(m: Machine, address: nat, n: nat): nat
    requires m.Valid()
  {
    (address + n) % m.word
  }

  /**
   * Writes a count and the values. `base` is the address of the buffer's first byte; the address just past its last
   * byte is still a number. The overflow test on addresses never rejects an array that there is room for.
   */
  method AppendUint32Array(m: Machine, base: nat, buf: array<byte>, pos: nat, end: nat, data: seq<u32>) returns (p: nat)
    requires m.Valid() && base + buf.Length < m.word && pos <= end <= buf.Length
    modifies buf
    ensures Put(old(buf[..]), buf[..], pos, p, end, Encode(m.order, Array(data)))
  {
    hide Word32, Words32, Advance;
    var count := |data|;
    NoFalseAlarm(m, base, pos, end, count);
    if count >= ARRAY_LIMIT || Advance(m, base + pos, count * 4 % m.word) < base + pos {
      return pos;
    }
    hide Put;
    p := AppendUint32(m, buf, pos, end, count);
    ghost var head := Word32(m.order, count);
    PutBounds(old(buf[..]), buf[..], pos, p, end, head);
    WordsStep(m.order, data, 0);
    assert head + [] == head;
    for i := 0 to count
      invariant pos <= p <= end
      invariant Put(old(buf[..]), buf[..], pos, p, end, head + Words32(m.order, data[..i]))
    {
      ghost var mid, before, done := p, buf[..], head + Words32(m.order, data[..i]);
      p := AppendUint32(m, buf, p, end, data[i]);
      PutBounds(before, buf[..], mid, p, end, Word32(m.order, data[i]));
      PutPut(old(buf[..]), before, buf[..], pos, mid, p, end, done, Word32(m.order, data[i]));
      WordsStep(m.order, data, i + 1);
    }
    assert data[..count] == data;
  }

  lemma WordsStep(order: Endian, data: seq<u32>, i: nat)
    requires i <= |data|
    ensures i == 0 ==> Words32(order, data[..i]) == []
    ensures i > 0 ==> forall head :: (head + Words32(order, data[..i - 1])) + Word32(order, data[i - 1])
                                     == head + Words32(order, data[..i])
  {
    hide Word32;
    if i > 0 {
      assert data[..i][..i - 1] == data[..i - 1];
    }
  }

  /** The address test passes whenever the array fits the buffer. */
  lemma NoFalseAlarm(m: Machine, base: nat, pos: nat, end: nat, count: nat)
    requires m.Valid() && base + end < m.word
    ensures count < ARRAY_LIMIT && pos + 4 * count <= end ==> Advance(m, base + pos, count * 4 % m.word) >= base + pos
  {
    if count < ARRAY_LIMIT && pos + 4 * count <= end {
      SmallMod(count * 4, m.word);
      SmallMod(base + pos + count * 4, m.word);
    }
  }

  // ---------- readers ----------

  /** Takes `size` bytes at `pos` if there are that many before `end`; of a failed call only the bounds are promised. */
  method CopyFromBuf(buf: array<byte>, pos: nat, end: nat, size: nat) returns (ok: bool, p: nat, dest: seq<byte>)
    requires pos <= end <= buf.Length
    ensures pos <= p <= end && (ok <==> pos + size <= end)
    ensures ok ==> p == pos + size && dest == buf[pos..pos + size]
  {
    if pos + size > end {
      return false, pos, [];
    }
    return true, pos + size, buf[pos..pos + size];
  }

  method CopyUint32(m: Machine, buf: array<byte>, pos: nat, end: nat) returns (ok: bool, p: nat, value: u32)
    requires pos <= end <= buf.Length
    ensures pos <= p <= end && (ok <==> pos + 4 <= end)
    ensures ok ==> p == pos + 4 && value == Load32(m.order, buf[pos..pos + 4])
    ensures ok <==> Decode(m.order, U32Shape, buf[pos..end]).Some?
    ensures ok ==> Decode(m.order, U32Shape, buf[pos..end]) == Some((U32(value), p - pos))
  {
    var bytes;
    ok, p, bytes := CopyFromBuf(buf, pos, end, 4);
    value := 0;
    if ok {
      value := Load32(m.order, bytes);
      assert buf[pos..end][..4] == bytes;
    }
  }

  method CopyUint64(m: Machine, buf: array<byte>, pos: nat, end: nat) returns (ok: bool, p: nat, value: u64)
    requires pos <= end <= buf.Length
    ensures pos <= p <= end && (ok <==> Decode(m.order, U64Shape, buf[pos..end]).Some?)
    ensures ok ==> Decode(m.order, U64Shape, buf[pos..end]) == Some((U64(value), p - pos))
  {
    var bytes;
    ok, p, bytes := CopyFromBuf(buf, pos, end, 8);
    value := 0;
    if ok {
      value := Load64(m.order, bytes);
      assert buf[pos..end][..8] == bytes;
    }
  }

  method CopySizeAndData(m: Machine, buf: array<byte>, pos: nat, end: nat) returns (ok: bool, p: nat, dest: seq<byte>)
    requires pos <= end <= buf.Length
    ensures pos <= p <= end && (ok <==> Decode(m.order, SizedShape, buf[pos..end]).Some?)
    ensures ok ==> Decode(m.order, SizedShape, buf[pos..end]) == Some((Sized(dest), p - pos))
  {
    hide Load32;
    var size: u32;
    dest := [];
    ok, p, size := CopyUint32(m, buf, pos, end);
    if !ok {
      return;
    }
    ghost var s := buf[..][pos..end];
    SubSlice(buf[..], pos, s, 0, 4);
    ok, p, dest := CopyFromBuf(buf, p, end, size);
    if ok {
      SubSlice(buf[..], pos, s, 4, 4 + size);
    }
  }

  /** Whether `len` bytes from `pos` end before `end`, or, unless `strict`, at it. */
  predicate BufferBoundCheck(strict: bool, pos: nat, end: nat, len: nat) {
    if strict then pos + len < end else pos + len <= end
  }

  /** A collection stands at the start of `s` and passes the bounds check. */
  predicate CollectionReadable(strict: bool, order: Endian, s: seq<byte>) {
    var r := Decode(order, CollectionShape, s);
    r.Some? && BufferBoundCheck(strict, 0, |s|, r.value.1)
  }

  /**
   * A written collection can be read back exactly if the bounds check admits data that ends where the buffer ends, or
   * something follows it: with the strict check a buffer of just the announced size cannot be read.
   */
  lemma ReadableIffNotStrict(strict: bool, order: Endian, items: seq<byte>, rest: seq<byte>)
    requires Encodable(Collection(items))
    ensures CollectionReadable(strict, order, Encode(order, Collection(items)) + rest) <==> !strict || rest != []
  {
    hide Encode, Decode;
    FieldRoundTrip(order, Collection(items), rest);
  }

  /** Appends the bytes read to what the target already holds. */
  method CopyCollection(m: Machine, strict: bool, buf: array<byte>, pos: nat, end: nat, value: seq<byte>)
    returns (ok: bool, p: nat, result: seq<byte>)
    requires pos <= end <= buf.Length
    ensures pos <= p <= end && (ok <==> CollectionReadable(strict, m.order, buf[pos..end]))
    ensures ok ==>
      && value <= result
      && Decode(m.order, CollectionShape, buf[pos..end]) == Some((Collection(result[|value|..]), p - pos))
    ensures !ok ==> result == value
  {
    hide Load32;
    result := value;
    var size: u32;
    ok, p, size := CopyUint32(m, buf, pos, end);
    if !ok {
      return;
    }
    ghost var s := buf[..][pos..end];
    SubSlice(buf[..], pos, s, 0, 4);
    if !BufferBoundCheck(strict, p, end, size) {
      return false, p, result;
    }
    var valueEnd := p + size;
    ghost var start := p;
    while p < valueEnd
      invariant start <= p <= valueEnd
      invariant result == value + buf[start..p]
    {
      result := result + [buf[p]];
      p := p + 1;
    }
    SubSlice(buf[..], pos, s, 4, 4 + size);
    assert result[|value|..] == buf[start..valueEnd];
  }

  /**
   * Reads a count and that many values. `count` is set as soon as it has been read, whether or not the values follow.
   * The tests on the count and on the wrapped end address reject exactly the arrays that do not fit.
   */
  method CopyUint32Array(m: Machine, base: nat, buf: array<byte>, pos: nat, end: nat, oldCount: nat)
    returns (ok: bool, p: nat, count: nat, data: seq<u32>)
    requires m.Valid() && base + buf.Length < m.word && pos <= end <= buf.Length
    ensures pos <= p <= end && (ok <==> Decode(m.order, ArrayShape, buf[pos..end]).Some?)
    ensures ok ==> count == |data| && Decode(m.order, ArrayShape, buf[pos..end]) == Some((Array(data), p - pos))
    ensures count == if pos + 4 <= end then Load32(m.order, buf[pos..pos + 4]) else oldCount
  {
    hide Load32, Loads32, Advance;
    data := [];
    count := oldCount;
    var size: u32;
    ok, p, size := CopyUint32(m, buf, pos, end);
    if !ok {
      return;
    }
    count := size;
    ghost var s := buf[..][pos..end];
    SubSlice(buf[..], pos, s, 0, 4);
    var arrayEnd := Advance(m, base + p, count * 4 % m.word);
    EndAddress(m, base, p, end, count);
    if count >= ARRAY_LIMIT || arrayEnd < base + p || arrayEnd > base + end {
      return false, p, count, data;
    }
    p, data := CopyValues(m, buf, p, end, count);
    ok := true;
    SubSlice(buf[..], pos, s, 4, 4 + 4 * count);
  }

  /** The loop that fills newly allocated storage with the values. */
  method CopyValues(m: Machine, buf: array<byte>, start: nat, end: nat, count: nat) returns (p: nat, data: seq<u32>)
    requires start <= start + 4 * count <= end <= buf.Length
    ensures p == start + 4 * count && data == Loads32(m.order, buf[start..p], count)
  {
    hide Load32, Decode;
    var values := new u32[count](_ => 0);
    p := start;
    for i := 0 to count
      invariant p == start + 4 * i
      invariant values[..i] == Loads32(m.order, buf[start..p], i)
    {
      var ok, v;
      LoadsStep(m.order, buf[..], start, i);
      ok, p, v := CopyUint32(m, buf, p, end);
      values[i] := v;
      assert values[..i + 1] == values[..i] + [v];
      assert buf[p - 4..p] == buf[..][p - 4..p];
    }
    data := values[..];
    assert data == values[..count];
  }

  lemma LoadsStep(order: Endian, s: seq<byte>, start: nat, i: nat)
    requires start + 4 * (i + 1) <= |s|
    ensures
      var p := start + 4 * i;
      Loads32(order, s[start..p + 4], i + 1) == Loads32(order, s[start..p], i) + [Load32(order, s[p..p + 4])]
  {
    hide Load32;
    var p := start + 4 * i;
    assert s[start..p + 4][..4 * i] == s[start..p] && s[start..p + 4][4 * i..] == s[p..p + 4];
  }

  /** For a count below the limit the wrapped end address is past neither end exactly if the values fit. */
  lemma EndAddress(m: Machine, base: nat, p: nat, end: nat, count: u32)
    requires m.Valid() && base + end < m.word && p <= end
    ensures
      var arrayEnd := Advance(m, base + p, count * 4 % m.word);
      count < ARRAY_LIMIT ==> (p + 4 * count <= end <==> base + p <= arrayEnd <= base + end)
  {
    if count < ARRAY_LIMIT {
      SmallMod(count * 4, m.word);
      var sum := base + p + count * 4;
      if sum < m.word {
        SmallMod(sum, m.word);
      } else {
        UniqueMod(sum, m.word, 1, sum - m.word);
      }
    }
  }
}
