/** kernel/tools/list.c: the intrusive doubly linked list. A node is embedded in a task, which
    list_node_parent recovers from the node's address; here the node carries the task's id, which
    the kernel makes from the task's address. */
module IntrusiveList {

  class Node {
    const tid: nat
    var pre: Node?
    var next: Node?

    /** node_init */
    constructor (task: nat)
      ensures tid == task && pre == null && next == null
    {
      tid := task;
      pre, next := null, null;
    }
  }

  /** s without its first occurrence of x. */
  ghost function Without<T>(s: seq<T>, x: T): seq<T> {
    if s == [] then [] else if s[0] == x then s[1..] else [s[0]] + Without(s[1..], x)
  }

  lemma {:induction false} WithoutAt<T>(s: seq<T>, k: nat)
    requires k < |s| && forall i :: 0 <= i < k ==> s[i] != s[k]
    ensures Without(s, s[k]) == s[..k] + s[k + 1..]
    decreases k
  {
    if k > 0 {
      WithoutAt(s[1..], k - 1);
      assert s[..k] + s[k + 1..] == [s[0]] + (s[1..][..k - 1] + s[1..][k..]);
    } else {
      assert s[..0] + s[1..] == s[1..];
    }
  }

  class List {
    var first: Node?
    var last: Node?
    var count: int
    ghost var nodes: seq<Node>

    /** count, both link directions and both ends agree with the sequence of nodes. */
    ghost predicate Valid()
      reads this, nodes
    {
      && count == |nodes|
      && (forall i, j :: 0 <= i < j < |nodes| ==> nodes[i] != nodes[j])
      && (forall i, j {:trigger nodes[i], nodes[j]} :: 0 <= i < |nodes| - 1 && j == i + 1 ==>
            nodes[i].next == nodes[j] && nodes[j].pre == nodes[i])
      && if nodes == [] then first == null && last == null
         else first == nodes[0] && last == nodes[|nodes| - 1]
              && nodes[0].pre == null && nodes[|nodes| - 1].next == null
    }

    constructor ()
      ensures Valid() && nodes == []
    {
      first, last, count := null, null, 0;
      nodes := [];
    }

    method InsertFirst(node: Node)
      requires Valid() && node !in nodes
      modifies this, node, nodes
      ensures Valid() && nodes == [node] + old(nodes)
    {
      node.next := first;
      node.pre := null;
      if count == 0 {
        first := node;
        last := first;
      } else {
        first.pre := node;
        first := node;
      }
      count := count + 1;
      nodes := [node] + nodes;
    }

    method InsertLast(node: Node)
      requires Valid() && node !in nodes
      modifies this, node, nodes
      ensures Valid() && nodes == old(nodes) + [node]
    {
      node.next := null;
      node.pre := last;
      if count == 0 {
        first := node;
        last := first;
      } else {
        last.next := node;
        last := node;
      }
      count := count + 1;
      nodes := nodes + [node];
    }

    method RemoveFirst() returns (removed: Node?)
      requires Valid()
      modifies this, nodes
      ensures Valid()
      ensures if old(nodes) == [] then removed == null && nodes == []
              else removed == old(nodes)[0] && nodes == old(nodes)[1..] && removed.pre == null && removed.next == null
    {
      if count == 0 {
        return null;
      }
      removed := first;
      assert |nodes| > 1 ==> nodes[0].next == nodes[1] && nodes[1] in nodes;
      first := first.next;
      if first == null {
        last := null;
      } else {
        removed.next.pre := null;
      }
      count := count - 1;
      removed.next := null;
      removed.pre := null;
      nodes := nodes[1..];
    }

    method RemoveLast() returns (removed: Node?)
      requires Valid()
      modifies this, nodes
      ensures Valid()
      ensures if old(nodes) == [] then removed == null && nodes == []
              else removed == old(nodes)[|old(nodes)| - 1] && nodes == old(nodes)[..|old(nodes)| - 1]
                   && removed.pre == null && removed.next == null
    {
      if count == 0 {
        return null;
      }
      removed := last;
      ghost var m := |nodes| - 2;
      assert m >= 0 ==> nodes[m + 1].pre == nodes[m] && nodes[m] in nodes;
      last := last.pre;
      if last == null {
        first := null;
      } else {
        removed.pre.next := null;
      }
      count := count - 1;
      removed.next := null;
      removed.pre := null;
      nodes := nodes[..|nodes| - 1];
    }

    /** list_remove of a node of the list, wherever it stands. */
    method Remove(node: Node)
      requires Valid() && node in nodes
      modifies this, nodes
      ensures Valid() && nodes == Without(old(nodes), node)
      ensures node.pre == null && node.next == null && node !in nodes
      ensures forall n :: n in nodes <==> n in old(nodes) && n != node
    {
      hide *;
      ghost var s := nodes;
      ghost var k := Linking(node);
      if node == first {
        first := node.next;
      }
      if node == last {
        last := node.pre;
      }
      Unlink(node, s, k);
      count := count - 1;
      nodes := s[..k] + s[k + 1..];
      Relinked(s, k);
    }

    lemma Linking(node: Node) returns (k: nat)
      requires Valid() && node in nodes
      ensures k < |nodes| && nodes[k] == node
      ensures Linked(nodes) && count == |nodes| && Without(nodes, node) == nodes[..k] + nodes[k + 1..]
      ensures node.pre == Before(nodes, k) && node.next == After(nodes, k)
      ensures (node == first <==> k == 0) && (node == last <==> k + 1 == |nodes|)
      ensures first == nodes[0] && last == nodes[|nodes| - 1]
    {
      hide Linked, Without;
      k :| 0 <= k < |nodes| && nodes[k] == node;
      WithoutAt(nodes, k);
      IsLinked();
      Neighbours(k);
    }

    lemma IsLinked()
      requires Valid()
      ensures Linked(nodes)
    {
      hide Valid;
      DistinctNodes();
      forall i | 0 <= i < |nodes|
        ensures nodes[i].pre == Before(nodes, i) && nodes[i].next == After(nodes, i)
      {
        Neighbours(i);
      }
    }

    lemma DistinctNodes()
      requires Valid()
      ensures AllDistinct(nodes)
    {
    }

    lemma Neighbours(i: nat)
      requires Valid() && i < |nodes|
      ensures nodes[i].pre == Before(nodes, i) && nodes[i].next == After(nodes, i)
    {
    }

    /** The pointer part of list_remove: join the neighbours, clear the node. */
    method Unlink(node: Node, ghost s: seq<Node>, ghost k: nat)
      requires Linked(s) && k < |s| && s[k] == node
      modifies s
      ensures LinkedWithout(s, k) && node.pre == null && node.next == null
    {
      assert node.pre == Before(s, k) && node.next == After(s, k);
      if node.pre != null {
        node.pre.next := node.next;
      }
      if node.next != null {
        node.next.pre := node.pre;
      }
      node.next := null;
      node.pre := null;
    }

    lemma Relinked(s: seq<Node>, k: nat)
      requires k < |s| && LinkedWithout(s, k) && nodes == s[..k] + s[k + 1..] && count == |nodes|
      requires first == if k > 0 then s[0] else After(s, 0)
      requires last == if k + 1 < |s| then s[|s| - 1] else Before(s, |s| - 1)
      ensures Valid() && s[k] !in nodes && forall n :: n in nodes <==> n in s && n != s[k]
    {
      hide Linked, AllDistinct;
      WithoutMembers(s, k, nodes);
      forall i, j | 0 <= i < |nodes| - 1 && j == i + 1
        ensures nodes[i].next == nodes[j] && nodes[j].pre == nodes[i]
      {
        LinkAt(s, k, nodes, i);
      }
      DistinctIs(nodes);
    }
  }

  lemma DistinctIs(t: seq<Node>)
    requires AllDistinct(t)
    ensures forall i, j :: 0 <= i < j < |t| ==> t[i] != t[j]
  {
  }

  lemma LinkAt(s: seq<Node>, k: nat, t: seq<Node>, i: nat)
    requires k < |s| && LinkedWithout(s, k) && t == s[..k] + s[k + 1..] && i + 1 < |t|
    ensures t[i].next == t[i + 1] && t[i + 1].pre == t[i]
  {
    hide AllDistinct;
    if i + 1 < k {
      assert s[i].next == After(s, i) && s[i + 1].pre == Before(s, i + 1);
    } else if i + 1 > k {
      assert s[i + 1].next == After(s, i + 1) && (i == k || s[i + 2].pre == Before(s, i + 2));
    }
  }

  lemma WithoutMembers(s: seq<Node>, k: nat, t: seq<Node>)
    requires AllDistinct(s) && k < |s| && t == s[..k] + s[k + 1..]
    ensures AllDistinct(t) && s[k] !in t && forall n :: n in t <==> n in s && n != s[k]
  {
    forall i | 0 <= i < |t|
      ensures t[i] in s && t[i] != s[k]
    {
      assert t[i] == if i < k then s[i] else s[i + 1];
    }
    forall i | 0 <= i < |s| && i != k
      ensures s[i] in t
    {
      assert s[i] == t[if i < k then i else i - 1];
    }
  }

  ghost function Before(s: seq<Node>, i: nat): Node?
    requires i < |s|
  {
    if i == 0 then null else s[i - 1]
  }

  ghost function After(s: seq<Node>, i: nat): Node?
    requires i < |s|
  {
    if i + 1 == |s| then null else s[i + 1]
  }

  ghost predicate AllDistinct(s: seq<Node>) {
    forall i, j :: 0 <= i < j < |s| ==> s[i] != s[j]
  }

  /** The nodes of s point to their neighbours in s, in both directions. */
  ghost predicate Linked(s: seq<Node>)
    reads s
  {
    && AllDistinct(s)
    && (forall i :: 0 <= i < |s| ==> s[i].pre == Before(s, i))
    && (forall i :: 0 <= i < |s| ==> s[i].next == After(s, i))
  }

  /** The nodes of s except the k-th point to their neighbours, over the gap where it was. */
  ghost predicate LinkedWithout(s: seq<Node>, k: nat)
    reads s
    requires k < |s|
  {
    && AllDistinct(s)
    && (forall i :: 0 <= i < |s| && i != k && i != k + 1 ==> s[i].pre == Before(s, i))
    && (forall i :: 0 <= i < |s| && i != k && i != k - 1 ==> s[i].next == After(s, i))
    && (k + 1 < |s| ==> s[k + 1].pre == Before(s, k))
    && (k > 0 ==> s[k - 1].next == After(s, k))
  }
}
