/** The circular doubly linked lists of linkedlist.h, against the sequences they stand for. */
module LinkedList {
  import opened Bytes

  class Node {
    var prev: Node?
    var next: Node?

    constructor ()
      ensures prev == null && next == null
    {
      prev, next := null, null;
    }
  }

  function After(n: nat, i: nat): (j: nat)
    requires i < n
    ensures j < n
  {
    if i + 1 < n then i + 1 else 0
  }

  function Before(n: nat, i: nat): (j: nat)
    requires i < n
    ensures j < n
  {
    if i > 0 then i - 1 else n - 1
  }

  /** The nodes of s are linked in a ring, in order. */
  ghost predicate Ring(s: seq<Node>)
    reads s
  {
    && Distinct(s)
    && (forall i {:trigger s[i].next} :: 0 <= i < |s| ==> s[i].next == s[After(|s|, i)])
    && (forall i {:trigger s[i].prev} :: 0 <= i < |s| ==> s[i].prev == s[Before(|s|, i)])
  }

  lemma RingLinks(s: seq<Node>)
    requires s != [] && Distinct(s)
    requires forall k {:trigger s[k].next} :: 0 <= k < |s| - 1 ==> s[k].next == s[k + 1]
    requires forall k {:trigger s[k].prev} :: 0 < k < |s| ==> s[k].prev == s[k - 1]
    requires s[|s| - 1].next == s[0] && s[0].prev == s[|s| - 1]
    ensures Ring(s)
  {
  }

  /** Where x is in s. */
  ghost function Position<T>(s: seq<T>, x: T): (k: nat)
    requires x in s
    ensures k < |s| && s[k] == x
  {
    var k :| 0 <= k < |s| && s[k] == x;
    k
  }

  /** s without x. */
  ghost function Without<T>(s: seq<T>, x: T): seq<T> {
    if x in s then s[..Position(s, x)] + s[Position(s, x) + 1..] else s
  }

  lemma WithoutAt<T>(s: seq<T>, x: T, k: nat)
    requires Distinct(s) && k < |s| && s[k] == x
    ensures Without(s, x) == s[..k] + s[k + 1..]
  {
  }

  /** Going forward and back, or back and forward, comes to the same node. */
  lemma Inversion(s: seq<Node>, x: Node)
    requires Ring(s) && x in s
    ensures x.next != null && x.prev != null && x.next in s && x.prev in s
    ensures x.next.prev == x && x.prev.next == x
  {
    var i := Position(s, x);
    assert s[After(|s|, i)].prev == s[Before(|s|, After(|s|, i))];
    assert s[Before(|s|, i)].next == s[After(|s|, Before(|s|, i))];
  }

  /** The links determine the sequence: from its first node a ring reads one way only. */
  lemma RingUnique(s: seq<Node>, t: seq<Node>)
    requires Ring(s) && Ring(t) && s != [] && t != [] && s[0] == t[0]
    ensures s == t
  {
    var n := if |s| < |t| then |s| else |t|;
    SamePrefix(s, t, n);
    assert s[n - 1] == s[..n][n - 1] == t[..n][n - 1] == t[n - 1];
    assert s[After(|s|, n - 1)] == s[n - 1].next == t[n - 1].next == t[After(|t|, n - 1)];
    assert s == s[..|s|] && t == t[..|t|];
  }

  lemma {:induction false} SamePrefix(s: seq<Node>, t: seq<Node>, n: nat)
    requires Ring(s) && Ring(t) && 1 <= n <= |s| && n <= |t| && s[0] == t[0]
    ensures s[..n] == t[..n]
  {
    if n > 1 {
      SamePrefix(s, t, n - 1);
      assert s[n - 2] == s[..n - 1][n - 2] == t[..n - 1][n - 2] == t[n - 2];
      assert s[n - 2].next == s[n - 1] && t[n - 2].next == t[n - 1];
    }
  }

  /** A ring may be entered one node earlier. */
  lemma RingTurns(s: seq<Node>, x: Node)
    requires Ring(s + [x])
    ensures Ring([x] + s)
  {
    var was, now := s + [x], [x] + s;
    var n := |s|;
    assert now[0] == was[n] && forall k :: 0 < k <= n ==> now[k] == was[k - 1];
    assert forall k {:trigger was[k].next} :: 0 <= k < n ==> was[k].next == was[k + 1];
    assert forall k {:trigger was[k].prev} :: 0 < k <= n ==> was[k].prev == was[k - 1];
    assert was[n].next == was[0] && was[0].prev == was[n];
    assert Distinct(now);
    hide *;
    RingLinks(now);
  }

  /** The four assignments that put a node between the last node of a ring and its first. */
  method Link(head: Node, item: Node, ghost s: seq<Node>)
    requires s != [] && Ring(s) && head == s[0] && item !in s
    modifies item, s
    ensures Ring(s + [item])
  {
    ghost var n, t := |s|, s + [item];
    assert head.prev == s[n - 1];
    assert forall k :: 0 < k < n ==> s[k] != head;
    assert forall k :: 0 <= k < n - 1 ==> s[k] != s[n - 1];
    item.prev := head.prev;
    item.next := head;
    head.prev.next := item;
    head.prev := item;
    assert forall k {:trigger s[k].next} :: 0 <= k < n - 1 ==> s[k].next == s[k + 1];
    assert forall k {:trigger s[k].prev} :: 0 < k < n ==> s[k].prev == s[k - 1];
    hide *;
    RingLinks(t);
  }

  /** The links of s, except around s[k], and the links that skip it. */
  ghost predicate Skips(s: seq<Node>, k: nat)
    requires k < |s|
    reads s
  {
    && Distinct(s) && |s| > 1
    && (forall j {:trigger s[j].next} :: 0 <= j < |s| && j != k && j != Before(|s|, k) ==> s[j].next == s[After(|s|, j)])
    && (forall j {:trigger s[j].prev} :: 0 <= j < |s| && j != k && j != After(|s|, k) ==> s[j].prev == s[Before(|s|, j)])
    && s[Before(|s|, k)].next == s[After(|s|, k)] && s[After(|s|, k)].prev == s[Before(|s|, k)]
  }

  lemma SkipsStep(s: seq<Node>, k: nat, j: nat)
    requires k < |s| && Skips(s, k) && j < |s| - 2
    ensures var t := s[..k] + s[k + 1..]; t[j].next == t[j + 1] && t[j + 1].prev == t[j]
  {
    var t := s[..k] + s[k + 1..];
    var i := if j < k then j else j + 1;
    assert t[j] == s[i];
    if j + 1 == k {
      assert t[j + 1] == s[k + 1];
    } else {
      assert t[j + 1] == s[i + 1];
      assert s[i].next == s[i + 1] && s[i + 1].prev == s[i];
    }
  }

  lemma SkipsEnds(s: seq<Node>, k: nat)
    requires k < |s| && Skips(s, k)
    ensures var t := s[..k] + s[k + 1..]; Distinct(t) && t[|t| - 1].next == t[0] && t[0].prev == t[|t| - 1]
  {
    var n, t := |s|, s[..k] + s[k + 1..];
    assert t[0] == s[if k == 0 then 1 else 0] && t[n - 2] == s[if k == n - 1 then n - 2 else n - 1];
    if k != 0 && k != n - 1 {
      assert s[n - 1].next == s[0] && s[0].prev == s[n - 1];
    }
  }

  /** Links that skip s[k] make a ring of the others. */
  lemma RingSkips(s: seq<Node>, k: nat)
    requires k < |s| && Skips(s, k)
    ensures Ring(s[..k] + s[k + 1..])
  {
    var t := s[..k] + s[k + 1..];
    SkipsEnds(s, k);
    assert |t| == |s| - 1 > 0;
    hide *;
    forall j {:trigger t[j].next} | 0 <= j < |t| - 1
      ensures t[j].next == t[j + 1]
    {
      SkipsStep(s, k, j);
    }
    forall j {:trigger t[j].prev} | 0 < j < |t|
      ensures t[j].prev == t[j - 1]
    {
      SkipsStep(s, k, j - 1);
    }
    RingLinks(t);
  }

  /** The two assignments that take a node out of a longer ring. */
  method Unlink(item: Node, ghost s: seq<Node>)
    requires Ring(s) && item in s && |s| > 1
    modifies s
    ensures Ring(Without(s, item)) && item.prev == old(item.prev) && item.next == old(item.next)
  {
    ghost var n, k := |s|, Position(s, item);
    ghost var t := s[..k] + s[k + 1..];
    ghost var before, after := s[Before(n, k)], s[After(n, k)];
    assert item.prev == before && item.next == after;
    assert forall j :: 0 <= j < n && j != k ==> s[j] != item;
    assert forall j :: 0 <= j < n && j != Before(n, k) ==> s[j] != before;
    assert forall j :: 0 <= j < n && j != After(n, k) ==> s[j] != after;
    item.next.prev := item.prev;
    item.prev.next := item.next;
    assert Skips(s, k);
    hide *;
    RingSkips(s, k);
    WithoutAt(s, item, k);
  }

  /** Out of the ring and back in at its end. */
  method Move(head: Node, item: Node, ghost s: seq<Node>)
    requires Ring(s) && item in s && |s| > 1 && Without(s, item) != [] && head == Without(s, item)[0]
    modifies s
    ensures Ring(Without(s, item) + [item])
  {
    hide *;
    WithoutFacts(s, item);
    ghost var t := Without(s, item);
    Unlink(item, s);
    assert forall j :: 0 <= j < |t| ==> t[j] in s;
    Link(head, item, t);
  }

  /** A head pointer and, for the proofs, the sequence it stands for. */
  class List {
    var first: Node?
    ghost var items: seq<Node>

    ghost predicate Valid()
      reads this, items
    {
      && Ring(items)
      && first == if items == [] then null else items[0]
    }

    constructor ()
      ensures Valid() && items == []
    {
      first := null;
      items := [];
    }

    /** LINKEDLIST_PREPEND */
    method Prepend(item: Node)
      requires Valid() && item !in items
      modifies this, item, items
      ensures Valid() && items == [item] + old(items)
    {
      ghost var s := items;
      items := [item] + s;
      if first == null {
        first, item.prev, item.next := item, item, item;
      } else {
        Link(first, item, s);
        RingTurns(s, item);
        first := item;
      }
    }

    /** LINKEDLIST_APPEND */
    method Append(item: Node)
      requires Valid() && item !in items
      modifies this, item, items
      ensures Valid() && items == old(items) + [item]
    {
      ghost var s := items;
      items := s + [item];
      if first == null {
        first, item.prev, item.next := item, item, item;
      } else {
        Link(first, item, s);
      }
    }

    /** LINKEDLIST_REMOVE: of a node of the list, or of a node that is in no list. */
    method Remove(item: Node)
      requires Valid() && (item in items || item.prev == null || item.next == null)
      modifies this, item, items
      ensures Valid() && items == Without(old(items), item)
      ensures item.prev == null && item.next == null && item !in items
    {
      ghost var s := items;
      items := Without(s, item);
      WithoutFacts(s, item);
      if item.prev == null || item.next == null {
      } else if first == item {
        if item.next == item {
          first := null;
        } else {
          first := item.next;
          Unlink(item, s);
        }
      } else {
        Unlink(item, s);
      }
      item.prev, item.next := null, null;
    }

    /** LINKEDLIST_SHUFFLE: a node of the list goes to its end. */
    method Shuffle(item: Node)
      requires Valid() && item in items
      modifies this, items
      ensures Valid() && items == Without(old(items), item) + [item]
    {
      hide *;
      ghost var s := items;
      ValidIs();
      WithoutFacts(s, item);
      items := Without(s, item) + [item];
      if first == item {
        if item.next == item {
        } else {
          first := item.next;
          Move(first, item, s);
        }
      } else {
        Move(first, item, s);
      }
      ValidIs();
    }

    lemma ValidIs()
      ensures Valid() <==> Ring(items) && first == if items == [] then null else items[0]
    {
    }
  }

  lemma WithoutFacts(s: seq<Node>, x: Node)
    requires Ring(s)
    ensures x !in Without(s, x) && forall y :: y in Without(s, x) ==> y in s
    ensures x in s ==>
              && x.next != null && x.prev != null
              && |Without(s, x)| == |s| - 1
              && (x.next == x <==> |s| == 1)
              && (|s| > 1 ==> Without(s, x)[0] == if s[0] == x then x.next else s[0])
              && (|s| == 1 ==> Without(s, x) + [x] == s)
  {
    if x in s {
      var k := Position(s, x);
      assert x.next == s[After(|s|, k)] && x.prev == s[Before(|s|, k)];
    }
  }
}
