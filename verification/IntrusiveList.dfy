/** The doubly linked list threaded through its members: a sentinel head, no back edge from the
    last node.  Inserting puts a node first; a node can be taken out without its list. */
module IntrusiveList {

  ghost predicate NoDup<T>(s: seq<T>) { forall i, j | 0 <= i < j < |s| :: s[i] != s[j] }

  /** The list without one member, the order of the others kept. */
  function Unlink<T(==)>(s: seq<T>, x: T): seq<T> {
    if s == [] then [] else if s[0] == x then s[1..] else [s[0]] + Unlink(s[1..], x)
  }

  lemma {:induction false} UnlinkIs<T>(s: seq<T>, x: T)
    requires NoDup(s) && x in s
    ensures |Unlink(s, x)| == |s| - 1 && NoDup(Unlink(s, x))
    ensures forall y :: y in Unlink(s, x) <==> y in s && y != x
  {
    if s[0] != x {
      UnlinkIs(s[1..], x);
      var rest := Unlink(s[1..], x);
      assert s == [s[0]] + s[1..] && s[0] !in s[1..];
      forall i, j | 0 <= i < j < |Unlink(s, x)| ensures Unlink(s, x)[i] != Unlink(s, x)[j] {
        assert Unlink(s, x)[j] == rest[j - 1] && rest[j - 1] in rest;
      }
    }
  }


  lemma {:induction false} UnlinkAt<T>(s: seq<T>, k: nat)
    requires NoDup(s) && k < |s|
    ensures Unlink(s, s[k]) == s[..k] + s[k + 1..]
  {
    if k > 0 {
      UnlinkAt(s[1..], k - 1);
      assert s[1..][..k - 1] + s[1..][k..] == s[1..k] + s[k + 1..];
      assert [s[0]] + s[1..k] == s[..k];
    }
  }

  lemma NoDupTail<T>(x: T, s: seq<T>)
    requires NoDup([x] + s)
    ensures NoDup(s)
  {
    assert forall i | 0 <= i < |s| :: s[i] == ([x] + s)[i + 1];
  }

  // ----- links

  class Link {
    var prev: Link?
    var next: Link?

    constructor ()
      ensures prev == null && next == null
    {
      prev, next := null, null;
    }

    /** Puts a node right after this one. */
    method Insert(node: Link)
      requires node != this && node != next && next != this
      modifies this, node, next
      ensures next == node && prev == old(prev)
      ensures node.next == old(next) && node.prev == this
      ensures old(next) != null ==> old(next).prev == node && old(next).next == old(next.next)
    {
      if next != null { next.prev := node; }
      node.next := next;
      node.prev := this;
      next := node;
    }

    /** Takes this node out from between its neighbours. */
    method Remove()
      requires prev != this && next != this && (prev != null ==> prev != next)
      modifies this, prev, next
      ensures prev == null && next == null
      ensures old(next) != null ==> old(next).prev == old(prev) && old(next).next == old(next.next)
      ensures old(prev) != null ==> old(prev).next == old(next) && old(prev).prev == old(prev.prev)
    {
      if next != null { next.prev := prev; }
      if prev != null { prev.next := next; }
      prev, next := null, null;
    }
  }

  /** The sentinel and the nodes are linked both ways, in order, with null at both ends. */
  ghost predicate ChainedAt(full: seq<Link>, i: nat)
    requires i < |full|
    reads full
  {
    && full[i].next == (if i + 1 < |full| then full[i + 1] else null)
    && full[i].prev == (if i > 0 then full[i - 1] else null)
  }

  ghost predicate Chained(full: seq<Link>)
    reads full
  {
    NoDup(full) && forall i: nat {:trigger ChainedAt(full, i)} | i < |full| :: ChainedAt(full, i)
  }

  lemma FrontNoDup(was: seq<Link>, node: Link, now: seq<Link>)
    requires NoDup(was) && was != [] && node !in was && now == [was[0], node] + was[1..]
    ensures NoDup(now)
  {
    forall i, j | 0 <= i < j < |now| ensures now[i] != now[j] {
      assert j >= 2 ==> now[j] == was[j - 1];
      assert i >= 2 ==> now[i] == was[i - 1];
    }
  }

  lemma WithoutNoDup(was: seq<Link>, k: nat, now: seq<Link>)
    requires NoDup(was) && k < |was| && now == was[..k] + was[k + 1..]
    ensures NoDup(now)
    ensures forall i | 0 <= i < |now| :: now[i] == was[if i < k then i else i + 1]
  {}

  class List {
    const head: Link
    var count: nat
    ghost var nodes: seq<Link>

    ghost predicate Valid()
      reads this, head, nodes
    {
      count == |nodes| && Chained([head] + nodes)
    }

    constructor ()
      ensures Valid() && nodes == [] && fresh(head)
    {
      head := new Link();
      count, nodes := 0, [];
      new;
      forall i: nat | i < |[head]| ensures ChainedAt([head], i) {}
    }

    /** The new node becomes the first. */
    method Insert(node: Link)
      requires Valid() && node != head && node !in nodes
      modifies this, head, nodes, node
      ensures Valid() && nodes == [node] + old(nodes)
    {
      ghost var was, now := [head] + nodes, [head, node] + nodes;
      assert ChainedAt(was, 0);
      assert nodes != [] ==> was[1] == nodes[0] && ChainedAt(was, 1);
      FrontNoDup(was, node, now);
      label before:
      head.Insert(node);
      count := count + 1;
      nodes := [node] + nodes;
      assert [head] + nodes == now;
      forall i: nat | i < |now| ensures ChainedAt(now, i) {
        if i >= 2 {
          assert now[i] == was[i - 1] && old@before(ChainedAt(was, i - 1));
          assert i > 2 ==> now[i] != was[1];
        }
      }
    }

    /** Any member can be taken out; the others keep their order. */
    method Remove(node: Link)
      requires Valid() && node in nodes
      modifies this, head, nodes
      ensures Valid() && nodes == Unlink(old(nodes), node) && node.prev == null && node.next == null
    {
      ghost var k :| 0 <= k < |nodes| && nodes[k] == node;
      NoDupTail(head, nodes);
      UnlinkAt(nodes, k);
      RemoveAt(node, k);
    }

    method RemoveAt(node: Link, ghost k: nat)
      requires Valid() && k < |nodes| && nodes[k] == node
      modifies this, head, nodes
      ensures Valid() && nodes == old(nodes[..k] + nodes[k + 1..]) && node.prev == null && node.next == null
    {
      ghost var was := [head] + nodes;
      ghost var now := [head] + (nodes[..k] + nodes[k + 1..]);
      assert was[k + 1] == node && ChainedAt(was, k + 1) && ChainedAt(was, k);
      assert k + 2 < |was| ==> ChainedAt(was, k + 2);
      WithoutNoDup(was, k + 1, now);
      label before:
      node.Remove();
      count := count - 1;
      nodes := nodes[..k] + nodes[k + 1..];
      forall i: nat | i < |now| ensures ChainedAt(now, i) {
        if i <= k {
          assert now[i] == was[i] && old@before(ChainedAt(was, i));
        } else {
          assert now[i] == was[i + 1] && old@before(ChainedAt(was, i + 1));
        }
      }
    }

    /** The first member, if any. */
    method Pop() returns (node: Link?)
      requires Valid()
      modifies this, head, nodes
      ensures Valid()
      ensures if old(nodes) == [] then node == null && nodes == [] else node == old(nodes[0]) && nodes == old(nodes[1..])
    {
      assert ChainedAt([head] + nodes, 0);
      node := head.next;
      if node != null {
        Remove(node);
      }
    }
  }
}
