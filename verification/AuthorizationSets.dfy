/** The proxy that shows two authorization sets as one, of keymaster/authorization_set.h. */
module AuthorizationSets {
  datatype Param = Param(tag: nat, value: nat)

  const SIZE_T: nat := 0x1_0000_0000_0000_0000
  // ~size_t(0)
  const INVALID: nat := SIZE_T - 1

  /** How many elements a query matches. */
  function CountMatches(s: seq<Param>, query: Param -> bool): nat {
    if s == [] then 0 else CountMatches(s[..|s| - 1], query) + if query(s[|s| - 1]) then 1 else 0
  }

  /** A set as its users see it; its queries are those of a class whose bodies are elsewhere. */
  class AuthorizationSet {
    const elems: seq<Param>

    constructor (elems: seq<Param>)
      requires |elems| < SIZE_T
      ensures this.elems == elems
    {
      this.elems := elems;
    }

    function Size(): nat { |elems| }

    predicate Contains(query: Param -> bool) { exists i :: 0 <= i < |elems| && query(elems[i]) }

    function GetTagCount(query: Param -> bool): nat { CountMatches(elems, query) }
  }

  // ---------- positions ----------

  /** `++pos_`, which turns into the end marker at the total size. */
  function NextPos(pos: nat, size: nat): nat
    requires pos < SIZE_T
  {
    if pos == INVALID then pos else if pos + 1 == size then INVALID else pos + 1
  }

  /** The position after `n` increments from the beginning. */
  function PosAfter(n: nat, size: nat): (p: nat)
    ensures p < SIZE_T
  {
    if n == 0 then 0 else NextPos(PosAfter(n - 1, size), size)
  }

  /** Before the last step the position counts the steps; at the total size it is the end marker and stays there. */
  lemma {:induction false} StepsCount(n: nat, size: nat)
    requires 0 < size < SIZE_T
    ensures PosAfter(n, size) == if n < size then n else INVALID
  {
    if n > 0 {
      StepsCount(n - 1, size);
    }
  }

  /** As many steps as elements reach the end exactly when there is one; an empty proxy counts upwards all the way. */
  lemma EndReachedIffNonEmpty(size: nat)
    requires size < SIZE_T
    ensures PosAfter(size, size) == INVALID <==> size > 0
    ensures size == 0 ==> forall n: nat :: n <= INVALID ==> PosAfter(n, 0) == n
  {
    if size > 0 {
      StepsCount(size, size);
    } else {
      forall n: nat | n <= INVALID ensures PosAfter(n, 0) == n {
        EmptySteps(n);
      }
    }
  }

  lemma {:induction false} EmptySteps(n: nat)
    requires n <= INVALID
    ensures PosAfter(n, 0) == n
  {
    if n > 0 {
      EmptySteps(n - 1);
    }
  }

  // ---------- the iterator ----------

  class AuthProxyIterator {
    var pos: nat
    var set1: AuthorizationSet?
    var set2: AuthorizationSet?

    ghost predicate Valid()
      reads this
    {
      && pos < SIZE_T
      && (pos != INVALID ==> set1 != null && set2 != null && set1.Size() + set2.Size() < SIZE_T)
    }

    constructor End()
      ensures Valid() && pos == INVALID && set1 == null && set2 == null
    {
      pos, set1, set2 := INVALID, null, null;
    }

    constructor Begin(s1: AuthorizationSet, s2: AuthorizationSet)
      requires s1.Size() + s2.Size() < SIZE_T
      ensures Valid() && pos == 0 && set1 == s1 && set2 == s2
    {
      pos, set1, set2 := 0, s1, s2;
    }

    method Assign(rhs: AuthProxyIterator)
      requires rhs.Valid()
      modifies this
      ensures Valid() && pos == old(rhs.pos) && set1 == old(rhs.set1) && set2 == old(rhs.set2)
    {
      if this != rhs {
        pos, set1, set2 := rhs.pos, rhs.set1, rhs.set2;
      }
    }

    method Increment()
      requires Valid()
      modifies this`pos
      ensures Valid()
      ensures pos == if old(pos) == 0xFFFF_FFFF_FFFF_FFFF then old(pos)
                     else if old(pos) + 1 == |set1.elems + set2.elems| then 0xFFFF_FFFF_FFFF_FFFF
                     else old(pos) + 1
      ensures pos == if old(pos) == INVALID then INVALID else NextPos(old(pos), set1.Size() + set2.Size())
    {
      if pos == INVALID {
        return;
      }
      pos := pos + 1;
      if pos == set1.Size() + set2.Size() {
        pos := INVALID;
      }
    }

    function Current(): (r: Param)
      requires set1 != null && set2 != null && pos < set1.Size() + set2.Size()
      reads this
      ensures r == (set1.elems + set2.elems)[pos]
    {
      if pos < set1.Size() then set1.elems[pos] else set2.elems[pos - set1.Size()]
    }

    /** Two end markers are equal whatever sets they came from; other positions only within the same two sets. */
    predicate Equals(rhs: AuthProxyIterator)
      reads this, rhs
      ensures Equals(rhs) <==>
              pos == rhs.pos && (pos != 0xFFFF_FFFF_FFFF_FFFF ==> set1 == rhs.set1 && set2 == rhs.set2)
    {
      if pos == rhs.pos then pos == INVALID || (set1 == rhs.set1 && set2 == rhs.set2) else false
    }
  }

  // ---------- the proxy ----------

  class AuthProxy {
    const hwEnforced: AuthorizationSet
    const swEnforced: AuthorizationSet

    constructor (hw: AuthorizationSet, sw: AuthorizationSet)
      ensures hwEnforced == hw && swEnforced == sw
    {
      hwEnforced, swEnforced := hw, sw;
    }

    /** What the proxy stands for. */
    function All(): seq<Param> { hwEnforced.elems + swEnforced.elems }

    function Size(): (n: nat)
      ensures n == |All()|
    {
      hwEnforced.Size() + swEnforced.Size()
    }

    /** The element at a position, or the default parameter past the last. */
    function Get(pos: nat): (r: Param)
      ensures var all := hwEnforced.elems + swEnforced.elems; r == if pos < |all| then all[pos] else Param(0, 0)
    {
      if pos < hwEnforced.Size() then hwEnforced.elems[pos]
      else if pos - hwEnforced.Size() < swEnforced.Size() then swEnforced.elems[pos - hwEnforced.Size()]
      else Param(0, 0)
    }

    predicate Contains(query: Param -> bool) { hwEnforced.Contains(query) || swEnforced.Contains(query) }

    function GetTagCount(query: Param -> bool): nat { hwEnforced.GetTagCount(query) + swEnforced.GetTagCount(query) }

    /** Visiting every element from begin to end takes `Size()` steps and yields one set after the other. */
    method Visit() returns (visited: seq<Param>, steps: nat)
      requires 0 < Size() < SIZE_T
      ensures visited == hwEnforced.elems + swEnforced.elems && steps == |visited|
      ensures forall i :: 0 <= i < |visited| ==> visited[i] == Get(i)
    {
      visited, steps := [], 0;
      var it := new AuthProxyIterator.Begin(hwEnforced, swEnforced);
      var end := new AuthProxyIterator.End();
      while !it.Equals(end)
        invariant it != end && fresh(it) && fresh(end) && it.Valid() && end.pos == INVALID && end.set1 == null
        invariant it.set1 == hwEnforced && it.set2 == swEnforced
        invariant steps <= Size() && it.pos == PosAfter(steps, Size())
        invariant it.pos == if steps < Size() then steps else INVALID
        invariant visited == All()[..steps]
        decreases Size() - steps
      {
        visited := visited + [it.Current()];
        StepsCount(steps + 1, Size());
        it.Increment();
        steps := steps + 1;
      }
    }
  }

  lemma {:induction false} CountConcat(a: seq<Param>, b: seq<Param>, query: Param -> bool)
    ensures CountMatches(a + b, query) == CountMatches(a, query) + CountMatches(b, query)
  {
    if b == [] {
      assert a + b == a;
    } else {
      var n := |b| - 1;
      CountConcat(a, b[..n], query);
      assert (a + b)[..|a + b| - 1] == a + b[..n];
    }
  }

  lemma {:induction false} CountPositive(s: seq<Param>, query: Param -> bool)
    ensures CountMatches(s, query) > 0 <==> exists i :: 0 <= i < |s| && query(s[i])
  {
    if s != [] {
      var n := |s| - 1;
      CountPositive(s[..n], query);
      if i :| 0 <= i < n && query(s[i]) {
        assert query(s[..n][i]);
      }
      if i :| 0 <= i < |s[..n]| && query(s[..n][i]) {
        assert query(s[i]);
      }
    }
  }

  /** Counting is counting the positions that match. */
  lemma {:induction false} CountsPositions(s: seq<Param>, query: Param -> bool)
    ensures CountMatches(s, query) == |set i | 0 <= i < |s| && query(s[i])|
  {
    if s != [] {
      var n := |s| - 1;
      CountsPositions(s[..n], query);
      PositionsLast(s, query);
    }
  }

  lemma PositionsLast(s: seq<Param>, query: Param -> bool)
    requires s != []
    ensures
      var n := |s| - 1;
      |set i | 0 <= i < |s| && query(s[i])| == |set i | 0 <= i < n && query(s[..n][i])| + if query(s[n]) then 1 else 0
  {
    var n := |s| - 1;
    var before, all := set i | 0 <= i < n && query(s[..n][i]), set i | 0 <= i < |s| && query(s[i]);
    assert forall i :: 0 <= i < n ==> s[..n][i] == s[i];
    if query(s[n]) {
      assert all == before + {n};
    } else {
      assert all == before;
    }
  }

  /** A query counts the matching elements of both sets, and holds exactly when there is one. */
  lemma QueriesAgree(proxy: AuthProxy, query: Param -> bool)
    ensures var all := proxy.hwEnforced.elems + proxy.swEnforced.elems;
            && proxy.GetTagCount(query) == |set i | 0 <= i < |all| && query(all[i])|
            && (proxy.Contains(query) <==> exists i :: 0 <= i < |all| && query(all[i]))
    ensures proxy.GetTagCount(query) == CountMatches(proxy.All(), query)
    ensures proxy.Contains(query) <==> proxy.GetTagCount(query) > 0
    ensures proxy.Contains(query) <==> exists i :: 0 <= i < proxy.Size() && query(proxy.Get(i))
  {
    CountConcat(proxy.hwEnforced.elems, proxy.swEnforced.elems, query);
    CountsPositions(proxy.All(), query);
    CountPositive(proxy.hwEnforced.elems, query);
    CountPositive(proxy.swEnforced.elems, query);
    CountPositive(proxy.All(), query);
    assert forall i :: 0 <= i < proxy.Size() ==> proxy.Get(i) == proxy.All()[i];
  }
}
