/** The circular doubly-linked list with a sentinel of keymaster/List.h. */
module RingList {
  class Node<T(0)> {
    var val: T
    var prev: Node?<T>
    var next: Node?<T>

    constructor (v: T)
      ensures val == v
    {
      val := v;
      prev, next := null, null;
    }

    /** Storage for a node whose value is never read. */
    constructor Raw() {
      prev, next := null, null;
    }
  }

  /** The i-th node of a ring, the sentinel standing before the first and after the last. */
  ghost function NodeAt<T(0)>(m: Node<T>, s: seq<Node<T>>, i: int): Node<T> {
    if 0 <= i < |s| then s[i] else m
  }

  /** Following `next` from the sentinel `m` visits the nodes `s` once each and comes back; `prev` goes backwards. */
  ghost predicate RingOf<T(0)>(m: Node<T>, s: seq<Node<T>>)
    reads m, s
  {
    && m !in s
    && (forall i, j :: 0 <= i < j < |s| ==> s[i] != s[j])
    && m.next == NodeAt(m, s, 0)
    && m.prev == NodeAt(m, s, |s| - 1)
    && (forall i {:trigger s[i].next} :: 0 <= i < |s| ==> s[i].next == NodeAt(m, s, i + 1))
    && (forall i {:trigger s[i].prev} :: 0 <= i < |s| ==> s[i].prev == NodeAt(m, s, i - 1))
  }

  ghost function Values<T(0)>(s: seq<Node<T>>): (r: seq<T>)
    reads (set n | n in s)`val
    ensures |r| == |s| && forall i :: 0 <= i < |s| ==> r[i] == s[i].val
  {
    if s == [] then [] else Values(s[..|s| - 1]) + [s[|s| - 1].val]
  }

  lemma {:induction false} ValuesConcat<T(0)>(s: seq<Node<T>>, t: seq<Node<T>>)
    ensures Values(s + t) == Values(s) + Values(t)
  {
    if t == [] {
      assert s + t == s;
    } else {
      var k := |t| - 1;
      ValuesConcat(s, t[..k]);
      assert (s + t)[..|s + t| - 1] == s + t[..k];
    }
  }

  /** The values of a list with a stretch of nodes replaced by others. */
  lemma ValuesSpliced<T(0)>(s: seq<Node<T>>, a: nat, m: seq<Node<T>>, b: nat)
    requires a <= b <= |s|
    ensures Values(s[..a] + m + s[b..]) == Values(s)[..a] + Values(m) + Values(s)[b..]
    ensures Values(s[a..b]) == Values(s)[a..b]
  {
    hide Values;
    ValuesConcat(s[..a] + m, s[b..]);
    ValuesConcat(s[..a], m);
    ValuesConcat(s[..a], s[a..b]);
    ValuesConcat(s[..b], s[b..]);
    assert s[..a] + s[a..b] == s[..b] && s[..b] + s[b..] == s;
  }

  lemma SingleValue<T(0)>(n: Node<T>)
    ensures Values([n]) == [n.val]
  {
  }

  lemma SameValues<T(0)>(s: seq<Node<T>>, t: seq<Node<T>>)
    requires |s| == |t| && forall i :: 0 <= i < |s| ==> s[i].val == t[i].val
    ensures Values(s) == Values(t)
  {
  }

  /** The links alone determine which nodes a ring visits, and in which order. */
  lemma RingDetermined<T(0)>(m: Node<T>, s: seq<Node<T>>, t: seq<Node<T>>)
    requires RingOf(m, s) && RingOf(m, t)
    ensures s == t
  {
    SamePrefix(m, s, t, if |s| < |t| then |s| else |t|);
    NotLonger(m, s, t);
    NotLonger(m, t, s);
  }

  /** A ring whose first nodes are those of another ends where the other ends. */
  lemma NotLonger<T(0)>(m: Node<T>, s: seq<Node<T>>, t: seq<Node<T>>)
    requires RingOf(m, s) && RingOf(m, t)
    requires var k := if |s| < |t| then |s| else |t|; s[..k] == t[..k]
    ensures |t| <= |s|
  {
    if s != [] && t != [] {
      var k := if |s| < |t| then |s| else |t|;
      assert s[k - 1] == s[..k][k - 1] == t[..k][k - 1] == t[k - 1];
      assert s[k - 1].next == NodeAt(m, s, k) && t[k - 1].next == NodeAt(m, t, k);
    }
  }

  lemma {:induction false} SamePrefix<T(0)>(m: Node<T>, s: seq<Node<T>>, t: seq<Node<T>>, k: nat)
    requires RingOf(m, s) && RingOf(m, t) && k <= |s| && k <= |t|
    ensures s[..k] == t[..k]
  {
    if k > 0 {
      SamePrefix(m, s, t, k - 1);
      if k > 1 {
        assert s[k - 2] == s[..k - 1][k - 2] == t[k - 2];
        assert s[k - 2].next == s[k - 1] && t[k - 2].next == t[k - 1];
      }
      assert s[..k] == s[..k - 1] + [s[k - 1]] && t[..k] == t[..k - 1] + [t[k - 1]];
    }
  }

  /** In a ring `next` and `prev` undo each other at every node, the sentinel included. */
  lemma MutualInverses<T(0)>(m: Node<T>, s: seq<Node<T>>, n: Node<T>)
    requires RingOf(m, s) && (n == m || n in s)
    ensures n.next != null && n.next.prev == n && n.prev != null && n.prev.next == n
  {
    if n != m {
      var i :| 0 <= i < |s| && s[i] == n;
      assert i + 1 < |s| ==> s[i + 1].prev == s[i];
      assert i > 0 ==> s[i - 1].next == s[i];
    } else if s != [] {
      assert s[0].prev == m && s[|s| - 1].next == m;
    }
  }

  /** The links around position `i`. */
  lemma LinksAt<T(0)>(m: Node<T>, s: seq<Node<T>>, i: nat)
    requires RingOf(m, s) && i <= |s|
    ensures NodeAt(m, s, i).prev == NodeAt(m, s, i - 1)
    ensures i < |s| ==> NodeAt(m, s, i).next == NodeAt(m, s, i + 1)
  {
  }

  /** No two positions hold the same node. */
  lemma PositionsDiffer<T(0)>(m: Node<T>, s: seq<Node<T>>, i: nat, j: nat)
    requires RingOf(m, s) && i < j <= |s|
    ensures NodeAt(m, s, i) != NodeAt(m, s, j)
    ensures forall k :: 0 <= k < i ==> s[k] != NodeAt(m, s, i)
  {
  }

  /** A ring with a node linked in before position `i` is a ring again. */
  lemma InsertedRing<T(0)>(m: Node<T>, s: seq<Node<T>>, i: nat, n: Node<T>)
    requires m !in s && n !in s && n != m && i <= |s|
    requires forall j, k :: 0 <= j < k < |s| ==> s[j] != s[k]
    requires forall j {:trigger s[j].next} :: 0 <= j < |s| && j != i - 1 ==> s[j].next == NodeAt(m, s, j + 1)
    requires forall j {:trigger s[j].prev} :: 0 <= j < |s| && j != i ==> s[j].prev == NodeAt(m, s, j - 1)
    requires i > 0 ==> m.next == NodeAt(m, s, 0)
    requires i < |s| ==> m.prev == NodeAt(m, s, |s| - 1)
    requires NodeAt(m, s, i - 1).next == n && n.prev == NodeAt(m, s, i - 1)
    requires NodeAt(m, s, i).prev == n && n.next == NodeAt(m, s, i)
    ensures RingOf(m, s[..i] + [n] + s[i..])
  {
    var t := s[..i] + [n] + s[i..];
    forall j {:trigger t[j].next} | 0 <= j < |t|
      ensures t[j].next == NodeAt(m, t, j + 1) && t[j].prev == NodeAt(m, t, j - 1)
    {
      assert t[j] == if j < i then s[j] else if j == i then n else s[j - 1];
    }
  }

  /** A ring with the node at position `i` linked out is a ring again. */
  lemma ErasedRing<T(0)>(m: Node<T>, s: seq<Node<T>>, i: nat)
    requires m !in s && i < |s|
    requires forall j, k :: 0 <= j < k < |s| ==> s[j] != s[k]
    requires forall j {:trigger s[j].next} :: 0 <= j < |s| && j != i && j != i - 1 ==> s[j].next == NodeAt(m, s, j + 1)
    requires forall j {:trigger s[j].prev} :: 0 <= j < |s| && j != i && j != i + 1 ==> s[j].prev == NodeAt(m, s, j - 1)
    requires i > 0 ==> m.next == NodeAt(m, s, 0)
    requires i + 1 < |s| ==> m.prev == NodeAt(m, s, |s| - 1)
    requires NodeAt(m, s, i - 1).next == NodeAt(m, s, i + 1)
    requires NodeAt(m, s, i + 1).prev == NodeAt(m, s, i - 1)
    ensures RingOf(m, s[..i] + s[i + 1..])
  {
    var t := s[..i] + s[i + 1..];
    forall j {:trigger t[j].next} | 0 <= j < |t|
      ensures t[j].next == NodeAt(m, t, j + 1) && t[j].prev == NodeAt(m, t, j - 1)
    {
      assert t[j] == if j < i then s[j] else s[j + 1];
    }
  }

  /** The first `k` elements of `r`, then what `c` has from there on. */
  ghost function Mixed<X>(r: seq<X>, c: seq<X>, k: nat): seq<X>
    requires k <= |r| && k <= |c|
  {
    r[..k] + c[k..]
  }

  lemma MixedSteps<X>(r: seq<X>, c: seq<X>, k: nat)
    requires k <= |r| && k <= |c|
    ensures Mixed(r, c, 0) == c && |Mixed(r, c, k)| == |c|
    ensures k == |r| ==> Mixed(r, c, k)[..k] + Mixed(r, c, k)[|c|..] == r
    ensures k == |c| ==> Mixed(r, c, k)[..k] + r[k..] + Mixed(r, c, k)[k..] == r
    ensures k < |r| && k < |c| ==> Mixed(r, c, k)[k := r[k]] == Mixed(r, c, k + 1)
  {
  }

  lemma MixedFront<X>(r: seq<X>, c: seq<X>, k: nat)
    requires k <= |r| && k <= |c|
    ensures Mixed(r, c, k)[..k] == r[..k] && |Mixed(r, c, k)| == |c|
    ensures k == |r| ==> Mixed(r, c, k)[..k] == r
    ensures k == |c| ==> Mixed(r, c, k) == r[..k]
  {
  }

  lemma DropOne<X>(s: seq<X>, a: nat, k: nat)
    requires a <= k < |s|
    ensures var t := s[..a] + s[k..]; t[..a] + t[a + 1..] == s[..a] + s[k + 1..] && t[a] == s[k]
  {
  }

  lemma SplitAt<X>(p: seq<X>, m: seq<X>, q: seq<X>)
    ensures var t, k := p + m + q, |p| + |m|;
            && t[..k] == p + m && t[k..] == q
            && (m != [] ==> t[k - 1] == m[|m| - 1])
            && (m == [] && p != [] ==> t[k - 1] == p[|p| - 1])
            && forall x :: p + m + [x] + q == p + (m + [x]) + q
  {
  }

  /** With nodes put in between `p` and `q`, the links within `p` and within `q` are as they would be without them. */
  lemma StepBeside<T(0)>(m: Node<T>, p: seq<Node<T>>, added: seq<Node<T>>, q: seq<Node<T>>, k: nat)
    requires RingOf(m, p + added + q) && (k + 1 < |p| || |p| <= k < |p| + |q|)
    ensures NodeAt(m, p + q, k).next == NodeAt(m, p + q, k + 1)
  {
    var t := p + added + q;
    var j := if k < |p| then k else k + |added|;
    assert t[j] == (p + q)[k] && t[j].next == NodeAt(m, t, j + 1);
  }

  /** None of the nodes of a ring has been deleted. */
  ghost predicate AllLive<T(0)>(m: Node<T>, s: seq<Node<T>>, freed: set<Node<T>>) {
    m !in freed && forall i :: 0 <= i < |s| ==> s[i] !in freed
  }

  lemma LiveSpliced<T(0)>(m: Node<T>, s: seq<Node<T>>, a: nat, t: seq<Node<T>>, b: nat, freed: set<Node<T>>)
    requires AllLive(m, s, freed) && a <= b <= |s| && forall i :: 0 <= i < |t| ==> t[i] !in freed
    ensures AllLive(m, s[..a] + t + s[b..], freed)
  {
  }

  lemma LiveErased<T(0)>(m: Node<T>, s: seq<Node<T>>, i: nat, freed: set<Node<T>>)
    requires AllLive(m, s, freed) && RingOf(m, s) && i < |s|
    ensures AllLive(m, s[..i] + s[i + 1..], freed + {s[i]})
  {
  }

  /** The nodes at positions [a, b). */
  ghost function Stretch<T(0)>(s: seq<Node<T>>, a: nat, b: nat): (r: set<Node<T>>)
    requires a <= b <= |s|
    ensures forall i :: a <= i < b ==> s[i] in r
    ensures forall n :: n in r ==> exists i :: a <= i < b && s[i] == n
  {
    if a == b then {} else Stretch(s, a, b - 1) + {s[b - 1]}
  }

  lemma NoStretch<T(0)>(s: seq<Node<T>>, a: nat)
    requires a <= |s|
    ensures Stretch(s, a, a) == {}
  {
  }

  lemma StretchStep<T(0)>(m: Node<T>, s: seq<Node<T>>, a: nat, k: nat)
    requires a <= k < |s|
    ensures Stretch(s, a, k + 1) == Stretch(s, a, k) + {s[k]}
    ensures RingOf(m, s) ==> s[k] !in Stretch(s, a, k) && m !in Stretch(s, a, k + 1)
  {
  }

  /** With a stretch in front of position `k` gone, the nodes beside the one at `k` are nodes of the old ring. */
  lemma NeighboursKnown<T(0)>(m: Node<T>, s: seq<Node<T>>, a: nat, k: nat)
    requires a <= k < |s|
    ensures
      var t, all := s[..a] + s[k..], {m} + set n | n in s;
      NodeAt(m, t, a - 1) in all && NodeAt(m, t, a) in all && NodeAt(m, t, a + 1) in all
  {
    var t := s[..a] + s[k..];
    assert a > 0 ==> t[a - 1] == s[a - 1];
    assert t[a] == s[k] && (k + 1 < |s| ==> t[a + 1] == s[k + 1]);
  }

  class List<T(0)> {
    var middle: Node<T>
    ghost var nodes: seq<Node<T>>
    /** What this list has deleted: nodes of which nothing may be read or written any more. */
    ghost var freed: set<Node<T>>

    ghost predicate Valid()
      reads this, middle, nodes
    {
      RingOf(middle, nodes) && AllLive(middle, nodes, freed)
    }

    /** The values in the list, first to last. */
    ghost function Contents(): (r: seq<T>)
      reads this, (set n | n in nodes)`val
      ensures |r| == |nodes|
    {
      Values(nodes)
    }

    /** The node an iterator at position `i` points to; past the last element it is the sentinel. */
    ghost function At(i: int): Node<T>
      reads this
    {
      NodeAt(middle, nodes, i)
    }

    /** All nodes of the ring. */
    ghost function Links(): set<Node<T>>
      reads this
    {
      {middle} + set n | n in nodes
    }

    /** The two lists have no node in common. */
    ghost predicate Apart(other: List<T>)
      reads this, other
    {
      && middle != other.middle && middle !in other.nodes && other.middle !in nodes
      && forall n :: n in nodes ==> n !in other.nodes
    }

    constructor ()
      ensures Valid() && nodes == [] && fresh(middle)
    {
      var m := new Node<T>.Raw();
      middle, nodes, freed := m, [], {};
      new;
      middle.prev := middle;
      middle.next := middle;
    }

    /** Copies every element of `src` into a new list. */
    constructor Copy(src: List<T>)
      requires src.Valid()
      ensures Valid() && Contents() == src.Contents()
      ensures fresh(middle) && fresh(nodes)
    {
      var m := new Node<T>.Raw();
      middle, nodes, freed := m, [], {};
      new;
      middle.prev := middle;
      middle.next := middle;
      assert Valid();
      hide RingOf, AllLive, Values;
      LinksAt(src.middle, src.nodes, 0);
      assert src.Valid() && Apart(src);
      ghost var added := InsertRange(middle.next, src, src.middle.next, src.middle, 0, 0, |src.nodes|);
      assert nodes == added;
      SameValues(nodes, src.nodes);
    }

    /** `begin()`: the first node, or the sentinel of an empty list. */
    method First() returns (n: Node<T>)
      requires Valid()
      ensures n == At(0)
    {
      n := middle.next;
    }

    /** Whether the list has no element. */
    method Empty() returns (r: bool)
      requires Valid()
      ensures r <==> Contents() == []
    {
      r := middle.next == middle;
      assert nodes != [] ==> nodes[0] != middle;
    }

    /** `*it = v` at position `i`: the links stay as they are. */
    method SetValue(n: Node<T>, v: T, ghost i: nat)
      requires Valid() && i < |nodes| && n == At(i)
      modifies n`val
      ensures Valid() && Contents() == old(Contents())[i := v]
    {
      n.val := v;
    }

    lemma AtLive(i: nat)
      requires Valid() && i <= |nodes|
      ensures At(i) !in freed
    {
    }

    method NextOf(n: Node<T>) returns (r: Node?<T>)
      requires n !in freed
      ensures r == n.next
    {
      r := n.next;
    }

    method PrevOf(n: Node<T>) returns (r: Node?<T>)
      requires n !in freed
      ensures r == n.prev
    {
      r := n.prev;
    }

    /** `delete n`, for a node that has not been deleted before. */
    method Delete(n: Node<T>)
      requires n !in freed
      modifies this`freed
      ensures freed == old(freed) + {n}
    {
      freed := freed + {n};
    }

    /** Makes a new node and links it in before position `i`, where `posn` points. */
    method LinkIn(posn: Node<T>, v: T, ghost i: nat) returns (n: Node<T>)
      requires Valid() && i <= |nodes| && posn == At(i)
      modifies this`nodes, posn`prev, posn.prev`next
      ensures Valid() && middle == old(middle) && fresh(n) && n.val == v
      ensures nodes == old(nodes)[..i] + [n] + old(nodes)[i..]
    {
      hide AllLive;
      n := new Node<T>(v);
      LiveSpliced(middle, nodes, i, [n], i, freed);
      n.next := posn;
      n.prev := posn.prev;
      posn.prev.next := n;
      posn.prev := n;
      InsertedRing(middle, nodes, i, n);
      nodes := nodes[..i] + [n] + nodes[i..];
    }

    /** Unlinks the node `posn` at position `i` and deletes it. */
    method LinkOut(posn: Node<T>, ghost i: nat) returns (n: Node<T>)
      requires Valid() && i < |nodes| && posn == At(i)
      modifies this`nodes, this`freed, posn.next`prev, posn.prev`next
      ensures Valid() && middle == old(middle) && freed == old(freed) + {posn}
      ensures nodes == old(nodes)[..i] + old(nodes)[i + 1..] && n == At(i)
    {
      hide AllLive;
      AtLive(i);
      LinksAt(middle, nodes, i);
      LiveErased(middle, nodes, i, freed);
      var pNext := NextOf(posn);
      var pPrev := PrevOf(posn);
      pPrev.next := pNext;
      pNext.prev := pPrev;
      ErasedRing(middle, nodes, i);
      Delete(posn);
      nodes := nodes[..i] + nodes[i + 1..];
      n := pNext;
    }

    /** Puts a new element before position `i`, where `posn` points; returns the new node. */
    method Insert(posn: Node<T>, v: T, ghost i: nat) returns (n: Node<T>)
      requires Valid() && i <= |nodes| && posn == At(i)
      modifies this`nodes, posn`prev, posn.prev`next
      ensures Valid() && middle == old(middle) && fresh(n) && n.val == v
      ensures nodes == old(nodes)[..i] + [n] + old(nodes)[i..]
      ensures Contents() == old(Contents())[..i] + [v] + old(Contents())[i..]
    {
      hide RingOf, AllLive, Values;
      n := LinkIn(posn, v, i);
      ValuesSpliced(old(nodes), i, [n], i);
      SingleValue(n);
    }

    /** Takes out the element at position `i`, where `posn` points; returns the node after it. */
    method Erase(posn: Node<T>, ghost i: nat) returns (n: Node<T>)
      requires Valid() && i < |nodes| && posn == At(i)
      modifies this`nodes, this`freed, posn.next`prev, posn.prev`next
      ensures Valid() && middle == old(middle) && freed == old(freed) + {posn}
      ensures nodes == old(nodes)[..i] + old(nodes)[i + 1..] && n == At(i)
      ensures Contents() == old(Contents())[..i] + old(Contents())[i + 1..]
    {
      hide RingOf, AllLive, Values;
      n := LinkOut(posn, i);
      ValuesSpliced(old(nodes), i, [], i + 1);
      assert old(nodes)[..i] + [] + old(nodes)[i + 1..] == nodes;
    }

    /** One turn of the range insertion: a node goes in between `added` and what follows it. */
    method InsertBehind(posn: Node<T>, v: T, ghost p: seq<Node<T>>, ghost added: seq<Node<T>>, ghost q: seq<Node<T>>)
      returns (n: Node<T>)
      requires Valid() && nodes == p + added + q && posn == NodeAt(middle, q, 0) && posn.prev != null
      modifies this`nodes, posn`prev, posn.prev`next
      ensures Valid() && middle == old(middle) && fresh(n) && n.val == v
      ensures nodes == p + (added + [n]) + q
      ensures posn.prev == n
    {
      hide RingOf, AllLive;
      SplitAt(p, added, q);
      n := LinkIn(posn, v, |p| + |added|);
      LinksAt(middle, nodes, |p| + |added| + 1);
    }

    /** Copies the elements [first, last) of another list in front of `posn`, in their order. */
    method InsertRange(posn: Node<T>, src: List<T>, first: Node<T>, last: Node<T>,
                       ghost i: nat, ghost a: nat, ghost b: nat) returns (ghost added: seq<Node<T>>)
      requires Valid() && i <= |nodes| && posn == At(i)
      requires src.Valid() && Apart(src) && src != this
      requires a <= b <= |src.nodes| && first == src.At(a) && last == src.At(b)
      modifies this`nodes, posn`prev, posn.prev`next
      ensures Valid() && middle == old(middle)
      ensures nodes == old(nodes)[..i] + added + old(nodes)[i..] && fresh(added)
      ensures |added| == b - a && forall k :: 0 <= k < b - a ==> added[k].val == src.nodes[a + k].val
      ensures Contents() == old(Contents())[..i] + src.Contents()[a..b] + old(Contents())[i..]
    {
      hide RingOf, AllLive, Values;
      ghost var all := nodes;
      added := CopyNodes(posn, src, first, last, i, a, b);
      ValuesSpliced(all, i, added, i);
      ValuesSpliced(src.nodes, a, [], b);
      forall k | 0 <= k < b - a ensures added[k].val == src.nodes[a..b][k].val {
        assert src.nodes[a..b][k] == src.nodes[a + k];
      }
      SameValues(added, src.nodes[a..b]);
    }

    method CopyNodes(posn: Node<T>, src: List<T>, first: Node<T>, last: Node<T>,
                     ghost i: nat, ghost a: nat, ghost b: nat) returns (ghost added: seq<Node<T>>)
      requires Valid() && i <= |nodes| && posn == At(i)
      requires src.Valid() && Apart(src) && src != this
      requires a <= b <= |src.nodes| && first == src.At(a) && last == src.At(b)
      modifies this`nodes, posn`prev, posn.prev`next
      ensures Valid() && middle == old(middle)
      ensures nodes == old(nodes)[..i] + added + old(nodes)[i..] && fresh(added)
      ensures |added| == b - a && forall k :: 0 <= k < b - a ==> added[k].val == src.nodes[a + k].val
    {
      hide RingOf, AllLive;
      ghost var p, q := nodes[..i], nodes[i..];
      LinksAt(middle, nodes, i);
      ghost var before := posn.prev;
      OutsideOther(src, i);
      var it := first;
      added := [];
      while it != last
        invariant |added| <= b - a && it == src.At(a + |added|)
        invariant Valid() && middle == old(middle) && src.Valid()
        invariant nodes == p + added + q && fresh(added)
        invariant posn.prev == before || (posn.prev != null && fresh(posn.prev))
        invariant forall k :: 0 <= k < |added| ==> added[k].val == src.nodes[a + k].val
        decreases b - a - |added|
      {
        LinksAt(src.middle, src.nodes, a + |added|);
        var n := InsertBehind(posn, it.val, p, added, q);
        added := added + [n];
        it := it.next;
      }
      if |added| < b - a {
        PositionsDiffer(src.middle, src.nodes, a + |added|, b);
      }
    }

    /** The nodes on both sides of position `i` belong to no other list. */
    lemma OutsideOther(src: List<T>, i: nat)
      requires Valid() && Apart(src) && i <= |nodes|
      ensures At(i) != src.middle && At(i) !in src.nodes
      ensures At(i).prev != src.middle && At(i).prev !in src.nodes
    {
      LinksAt(middle, nodes, i);
    }

    /**
     * Copies a range of the list itself in front of `posn`. That comes to an end if the position is not after `first`
     * or is behind `last`; `OwnRangeTurns` has the other case.
     */
    method InsertOwnRange(posn: Node<T>, first: Node<T>, last: Node<T>, ghost i: nat, ghost a: nat, ghost b: nat)
      returns (ghost added: seq<Node<T>>)
      requires Valid() && i <= |nodes| && posn == At(i)
      requires a <= b <= |nodes| && first == At(a) && last == At(b)
      requires a == b || i <= a || b < i
      modifies this`nodes, posn`prev, posn.prev`next
      ensures Valid() && middle == old(middle)
      ensures nodes == old(nodes)[..i] + added + old(nodes)[i..] && fresh(added)
      ensures Contents() == old(Contents())[..i] + old(Contents())[a..b] + old(Contents())[i..]
    {
      hide RingOf, AllLive, Values;
      ghost var all := nodes;
      added := CopyOwnNodes(posn, first, last, i, a, b);
      ValuesSpliced(all, i, added, i);
      ValuesSpliced(all, a, [], b);
      SameValues(added, all[a..b]);
    }

    method CopyOwnNodes(posn: Node<T>, first: Node<T>, last: Node<T>, ghost i: nat, ghost a: nat, ghost b: nat)
      returns (ghost added: seq<Node<T>>)
      requires Valid() && i <= |nodes| && posn == At(i)
      requires a <= b <= |nodes| && first == At(a) && last == At(b)
      requires a == b || i <= a || b < i
      modifies this`nodes, posn`prev, posn.prev`next
      ensures Valid() && middle == old(middle)
      ensures nodes == old(nodes)[..i] + added + old(nodes)[i..] && fresh(added)
      ensures |added| == b - a && forall k :: 0 <= k < b - a ==> added[k].val == old(nodes)[a..b][k].val
    {
      hide RingOf, AllLive;
      ghost var p, q, all := nodes[..i], nodes[i..], nodes;
      assert all == p + q;
      LinksAt(middle, nodes, i);
      forall k | a <= k < b ensures NodeAt(middle, all, k) != last {
        PositionsDiffer(middle, nodes, k, b);
      }
      ghost var before := posn.prev;
      var it := first;
      added := [];
      while it != last
        invariant |added| <= b - a && it == NodeAt(middle, all, a + |added|)
        invariant Valid() && middle == old(middle)
        invariant nodes == p + added + q && fresh(added)
        invariant posn.prev == before || (posn.prev != null && fresh(posn.prev))
        invariant forall k :: 0 <= k < |added| ==> added[k].val == all[a + k].val
        decreases b - a - |added|
      {
        var n := InsertBehind(posn, it.val, p, added, q);
        added := added + [n];
        StepBeside(middle, p, added, q, a + |added| - 1);
        it := it.next;
      }
    }

    /**
     * The first turns of the same loop with the position behind `first` and not behind `last`: each new node lands
     * before `last`, so however many turns are made, the walk has as far to go as at the start.
     */
    method OwnRangeTurns(posn: Node<T>, first: Node<T>, last: Node<T>, turns: nat,
                         ghost i: nat, ghost a: nat, ghost b: nat)
      returns (it: Node<T>, ghost added: seq<Node<T>>)
      requires Valid() && a < i <= b <= |nodes| && posn == At(i) && first == At(a) && last == At(b)
      modifies this`nodes, posn`prev, posn.prev`next
      ensures Valid() && middle == old(middle)
      ensures nodes == old(nodes)[..i] + added + old(nodes)[i..] && |added| == turns && fresh(added)
      ensures it == At(a + turns) && last == At(b + turns) && it != last
      ensures forall k :: 0 <= k < turns ==> added[k].val == nodes[a + k].val
    {
      hide RingOf, AllLive, Values;
      ghost var p, q := nodes[..i], nodes[i..];
      LinksAt(middle, nodes, i);
      ghost var before := posn.prev;
      it := first;
      added := [];
      for t := 0 to turns
        invariant |added| == t && Valid() && middle == old(middle)
        invariant nodes == p + added + q && fresh(added)
        invariant it == At(a + t)
        invariant posn.prev == before || (posn.prev != null && fresh(posn.prev))
        invariant forall k :: 0 <= k < t ==> added[k].val == nodes[a + k].val
      {
        ghost var was := nodes;
        var n := InsertBehind(posn, it.val, p, added, q);
        added := added + [n];
        assert forall k :: 0 <= k < i + t ==> nodes[k] == was[k];
        LinksAt(middle, nodes, a + t);
        it := it.next;
      }
      PositionsDiffer(middle, nodes, a + turns, b + turns);
    }

    /** Takes out the elements [first, last), stepping from each before it is deleted; exactly these are deleted. */
    method EraseRange(first: Node<T>, last: Node<T>, ghost a: nat, ghost b: nat) returns (n: Node<T>)
      requires Valid() && a <= b <= |nodes| && first == At(a) && last == At(b)
      modifies this`nodes, this`freed, Links()`prev, Links()`next
      ensures Valid() && middle == old(middle) && n == last
      ensures freed == old(freed) + Stretch(old(nodes), a, b)
      ensures nodes == old(nodes)[..a] + old(nodes)[b..]
      ensures Contents() == old(Contents())[..a] + old(Contents())[b..]
    {
      hide RingOf, Values, AllLive, Stretch;
      EraseNodes(first, last, a, b);
      ValuesSpliced(old(nodes), a, [], b);
      assert old(nodes)[..a] + [] + old(nodes)[b..] == nodes;
      n := last;
    }

    method EraseNodes(first: Node<T>, last: Node<T>, ghost a: nat, ghost b: nat)
      requires Valid() && a <= b <= |nodes| && first == At(a) && last == At(b)
      modifies this`nodes, this`freed, Links()`prev, Links()`next
      ensures Valid() && middle == old(middle)
      ensures freed == old(freed) + Stretch(old(nodes), a, b)
      ensures nodes == old(nodes)[..a] + old(nodes)[b..]
    {
      hide RingOf, AllLive, Stretch;
      var it := first;
      ghost var k := a;
      NoStretch(nodes, a);
      while it != last
        invariant a <= k <= b
        invariant Valid() && middle == old(middle)
        invariant nodes == old(nodes)[..a] + old(nodes)[k..]
        invariant it == At(a) && freed == old(freed) + Stretch(old(nodes), a, k)
        decreases b - k
      {
        DropOne(old(nodes), a, k);
        StretchStep(middle, old(nodes), a, k);
        NeighboursKnown(middle, old(nodes), a, k);
        LinksAt(middle, nodes, a);
        LinksAt(middle, nodes, a + 1);
        it := EraseAndStep(it, a);
        k := k + 1;
      }
      if k < b {
        PositionsDiffer(middle, nodes, a, a + (b - k));
      }
    }

    /** `erase(it++)` at position `a`. */
    method EraseAndStep(it: Node<T>, ghost a: nat) returns (next: Node<T>)
      requires Valid() && a < |nodes| && it == At(a)
      modifies this`nodes, this`freed, it.next`prev, it.prev`next
      ensures Valid() && middle == old(middle) && freed == old(freed) + {it}
      ensures nodes == old(nodes)[..a] + old(nodes)[a + 1..] && next == At(a)
    {
      hide RingOf, AllLive;
      AtLive(a);
      LinksAt(middle, nodes, a);
      next := NextOf(it);
      var _ := LinkOut(it, a);
    }

    /** Empties the list: walks the ring once, deletes each node after stepping from it, and closes the sentinel. */
    method Clear()
      requires Valid()
      modifies this`nodes, this`freed, middle
      ensures Valid() && middle == old(middle) && nodes == []
      ensures freed == old(freed) + Stretch(old(nodes), 0, |old(nodes)|)
    {
      var current := NextOf(middle);
      ghost var k := 0;
      while current != middle
        invariant k <= |nodes| && current == At(k)
        invariant freed == old(freed) + Stretch(nodes, 0, k) && middle !in freed
        modifies this`freed
        decreases |nodes| - k
      {
        StretchStep(middle, nodes, 0, k);
        var pNext := NextOf(current);
        Delete(current);
        current := pNext;
        k := k + 1;
      }
      middle.prev := middle;
      middle.next := middle;
      nodes := [];
    }

    /** The destructor: what is left of the list is deleted, each node once and the sentinel last. */
    method Destroy()
      requires Valid()
      modifies this`nodes, this`freed, middle
      ensures freed == old(freed) + Stretch(old(nodes), 0, |old(nodes)|) + {old(middle)}
    {
      Clear();
      Delete(middle);
    }

    /** The number of steps from `first` to `last`, which is not before it. */
    method Distance(first: Node<T>, last: Node<T>, ghost a: nat, ghost b: nat) returns (count: nat)
      requires Valid() && a <= b <= |nodes| && first == At(a) && last == At(b)
      ensures count == b - a
    {
      count := 0;
      var it := first;
      while it != last
        invariant count <= b - a && it == At(a + count)
        decreases b - a - count
      {
        it := it.next;
        count := count + 1;
      }
    }

    method Size() returns (n: nat)
      requires Valid()
      ensures n == |Contents()|
    {
      n := Distance(middle.next, middle, 0, |nodes|);
    }

    method PushFront(v: T)
      requires Valid()
      modifies this`nodes, middle, middle.next
      ensures Valid() && middle == old(middle) && |nodes| == |old(nodes)| + 1 && nodes[1..] == old(nodes)
      ensures fresh(nodes[0]) && nodes[0].val == v
    {
      var _ := Insert(middle.next, v, 0);
    }

    method PushBack(v: T)
      requires Valid()
      modifies this`nodes, middle, middle.prev
      ensures Valid() && middle == old(middle) && |nodes| == |old(nodes)| + 1 && nodes[..|nodes| - 1] == old(nodes)
      ensures fresh(nodes[|nodes| - 1]) && nodes[|nodes| - 1].val == v
    {
      var _ := Insert(middle, v, |nodes|);
    }

    /**
     * Assignment: the target ends up with the source's values, keeps as many of its own first nodes as the source
     * has elements, and the source stays as it is. Assigning a list to itself changes nothing.
     */
    method Assign(right: List<T>)
      requires Valid() && right.Valid() && (this == right || Apart(right))
      modifies this`nodes, this`freed, Links()
      ensures Valid() && middle == old(middle)
      ensures right.Valid() && right.nodes == (if this == right then old(nodes) else old(right.nodes))
      ensures Contents() == right.Contents() == old(right.Contents())
      ensures var k := if |old(nodes)| < |right.nodes| then |old(nodes)| else |right.nodes|;
              && nodes[..k] == old(nodes)[..k] && fresh(nodes[k..])
              && freed == old(freed) + Stretch(old(nodes), k, |old(nodes)|)
    {
      if this == right {
        assert nodes[|nodes|..] == [];
        NoStretch(nodes, |nodes|);
        return;
      }
      AssignOther(right);
    }

    method AssignOther(right: List<T>)
      requires Valid() && right.Valid() && Apart(right)
      modifies this`nodes, this`freed, Links()
      ensures Valid() && middle == old(middle) && right.Valid() && right.nodes == old(right.nodes)
      ensures Contents() == right.Contents() == old(right.Contents())
      ensures var k := if |old(nodes)| < |right.nodes| then |old(nodes)| else |right.nodes|;
              && nodes[..k] == old(nodes)[..k] && fresh(nodes[k..])
              && freed == old(freed) + Stretch(old(nodes), k, |old(nodes)|)
    {
      hide RingOf, AllLive, Values, Mixed, Stretch, List.Apart;
      var firstDst, firstSrc, k := CopyValues(right);
      MixedFront(right.Contents(), old(Contents()), k);
      if k < |right.nodes| {
        PositionsDiffer(right.middle, right.nodes, k, |right.nodes|);
      }
      LinksAt(middle, nodes, |nodes|);
      if firstSrc == right.middle {
        DropRest(right, firstDst, k);
      } else {
        AppendRest(right, firstSrc, k);
      }
    }

    /** The target has elements left that the source has no values for. */
    method DropRest(right: List<T>, first: Node<T>, ghost k: nat)
      requires Valid() && k <= |nodes| && first == At(k)
      requires right.Valid() && Apart(right) && k == |right.nodes| && Contents()[..k] == right.Contents()
      modifies this`nodes, this`freed, Links()`prev, Links()`next
      ensures Valid() && middle == old(middle) && nodes == old(nodes)[..k]
      ensures freed == old(freed) + Stretch(old(nodes), k, |old(nodes)|)
      ensures right.Valid() && right.nodes == old(right.nodes)
      ensures Contents() == right.Contents() == old(right.Contents())
    {
      hide RingOf, AllLive, Values, Stretch;
      var _ := EraseRange(first, middle, k, |nodes|);
    }

    /** The source has values left that the target has no elements for. */
    method AppendRest(right: List<T>, firstSrc: Node<T>, ghost k: nat)
      requires Valid() && right.Valid() && Apart(right) && right != this
      requires k == |nodes| <= |right.nodes| && firstSrc == right.At(k) && Contents() == right.Contents()[..k]
      modifies this`nodes, middle`prev, middle.prev`next
      ensures Valid() && middle == old(middle)
      ensures k <= |nodes| && nodes[..k] == old(nodes) && fresh(nodes[k..])
      ensures freed == old(freed) + Stretch(old(nodes), k, |old(nodes)|)
      ensures right.Valid() && right.nodes == old(right.nodes)
      ensures Contents() == right.Contents() == old(right.Contents())
    {
      hide RingOf, AllLive, Values, Stretch;
      ghost var r := right.Contents();
      OutsideOther(right, k);
      ghost var added := InsertRange(middle, right, firstSrc, right.middle, |nodes|, k, |right.nodes|);
      NoStretch(old(nodes), k);
      assert nodes[..k] == old(nodes) && nodes[k..] == added;
      assert r[..k] + r[k..|r|] == r;
    }

    /** The loop of the assignment that overwrites values while both lists have elements left. */
    method CopyValues(right: List<T>) returns (firstDst: Node<T>, firstSrc: Node<T>, ghost k: nat)
      requires Valid() && right.Valid() && Apart(right)
      modifies (set n | n in nodes)`val
      ensures Valid() && right.Valid() && right.Contents() == old(right.Contents())
      ensures k == if |nodes| < |right.nodes| then |nodes| else |right.nodes|
      ensures firstDst == At(k) && firstSrc == right.At(k)
      ensures Contents() == Mixed(right.Contents(), old(Contents()), k)
    {
      hide RingOf, AllLive, Values, Mixed;
      ghost var n, m := |nodes|, |right.nodes|;
      ghost var c, r := Contents(), right.Contents();
      MixedSteps(r, c, 0);
      firstDst := First();
      firstSrc := right.First();
      k := 0;
      var lastDst, lastSrc := middle, right.middle;
      while firstSrc != lastSrc && firstDst != lastDst
        invariant k <= n && k <= m && firstDst == At(k) && firstSrc == right.At(k)
        invariant Valid() && right.Valid() && right.Contents() == r
        invariant Contents() == Mixed(r, c, k)
        decreases n - k
      {
        LinksAt(middle, nodes, k);
        LinksAt(right.middle, right.nodes, k);
        assert firstSrc == right.nodes[k] && firstSrc.val == r[k];
        MixedSteps(r, c, k);
        SetValue(firstDst, firstSrc.val, k);
        firstDst, firstSrc := firstDst.next, firstSrc.next;
        k := k + 1;
      }
      if k < m && k < n {
        PositionsDiffer(right.middle, right.nodes, k, m);
        PositionsDiffer(middle, nodes, k, n);
      }
    }
  }
}
