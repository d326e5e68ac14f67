/**
 * The singly linked list of util/linkedlist.c on heap nodes.  A `List` object stands for one
 * `LIST_ELEMENT*` variable.  The record a node points to belongs to that node alone, so it is stored in
 * the node.
 */
module LinkedList {

  class Node<T> {
    var next: Node?<T>
    var content: T

    constructor (data: T)
      ensures next == null && content == data
    {
      next, content := null, data;
    }
  }

  /** The elements of `s` the comparison does not call equal (0), in their order. */
  function Keep<T>(s: seq<T>, cmpfunc: T -> int): seq<T> {
    if s == [] then []
    else Keep(s[..|s| - 1], cmpfunc) + if cmpfunc(s[|s| - 1]) == 0 then [] else [s[|s| - 1]]
  }

  function Map<T>(s: seq<T>, f: T -> T): seq<T> {
    seq(|s|, i requires 0 <= i < |s| => f(s[i]))
  }

  ghost function NodeAt<T>(ns: seq<Node<T>>, i: nat): Node?<T> {
    if i < |ns| then ns[i] else null
  }

  ghost function Without<T>(s: seq<T>, i: nat): (r: seq<T>)
    requires i < |s|
    ensures |r| == |s| - 1
    ensures forall k :: 0 <= k < i ==> r[k] == s[k]
    ensures forall k :: i < k < |s| ==> r[k - 1] == s[k]
  {
    s[..i] + s[i + 1..]
  }

  /** The first `j` elements of `before` have been visited: `i` of them were kept, the others follow. */
  ghost predicate Visited<T>(s: seq<T>, i: nat, before: seq<T>, j: nat, cmpfunc: T -> int) {
    j <= |before| && i <= |s| && s[..i] == Keep(before[..j], cmpfunc) && s[i..] == before[j..]
  }

  lemma VisitNext<T>(s: seq<T>, i: nat, before: seq<T>, j: nat, cmpfunc: T -> int)
    requires Visited(s, i, before, j, cmpfunc) && i < |s|
    ensures j < |before|
    ensures if cmpfunc(s[i]) == 0 then Visited(Without(s, i), i, before, j + 1, cmpfunc)
            else Visited(s, i + 1, before, j + 1, cmpfunc)
  {
    assert s[i] == s[i..][0] == before[j..][0];
    assert before[..j + 1][..j] == before[..j];
    assert s[i + 1..] == s[i..][1..] == before[j + 1..];
    assert Without(s, i)[..i] == s[..i] && Without(s, i)[i..] == s[i + 1..];
    assert s[..i + 1] == s[..i] + [s[i]];
  }

  lemma VisitedAll<T>(s: seq<T>, i: nat, before: seq<T>, j: nat, cmpfunc: T -> int)
    requires Visited(s, i, before, j, cmpfunc) && i == |s|
    ensures s == Keep(before, cmpfunc)
  {
    assert s[..i] == s && before[..j] == before;
  }

  class List<T> {
    var head: Node?<T>
    ghost var nodes: seq<Node<T>>  // the nodes reachable from head, in order
    ghost var Contents: seq<T>     // what they store
    ghost var Repr: set<Node<T>>   // nodes this list may write to

    /** The chain from `head` visits exactly `nodes`, in order, and ends in null. */
    ghost predicate Valid()
      reads this, Repr
    {
      && (forall i :: 0 <= i < |nodes| ==> nodes[i] in Repr)
      && |Contents| == |nodes| && head == NodeAt(nodes, 0)
      && (forall i {:trigger nodes[i].next} :: 0 <= i < |nodes| ==> nodes[i].next == NodeAt(nodes, i + 1))
      && (forall i :: 0 <= i < |nodes| ==> nodes[i].content == Contents[i])
      && (forall i, j :: 0 <= i < j < |nodes| ==> nodes[i] != nodes[j])
    }

    constructor ()
      ensures Valid() && Contents == [] && Repr == {}
    {
      head, nodes, Contents, Repr := null, [], [], {};
    }

    /** find_last_node: walk from the head until there is no successor. */
    method FindLastNode() returns (last: Node?<T>)
      requires Valid()
      ensures last == if nodes == [] then null else nodes[|nodes| - 1]
    {
      last := head;
      if last == null {
        return;
      }
      ghost var i := 0;
      while last.next != null
        invariant 0 <= i < |nodes| && last == nodes[i]
        decreases |nodes| - i
      {
        last := last.next;
        i := i + 1;
      }
    }

    /** insert_data and insert_node: a fresh node behind the last one. */
    method InsertData(data: T)
      requires Valid()
      modifies this, Repr
      ensures Valid() && Contents == old(Contents) + [data]
      ensures fresh(Repr - old(Repr))
    {
      var node := new Node(data);
      var last := FindLastNode();
      if last == null {
        head := node;
      } else {
        last.next := node;
      }
      nodes, Contents, Repr := nodes + [node], Contents + [data], Repr + {node};
    }

    /** list_concat: hang the other chain behind the last node; the nodes are shared, not copied. */
    method Concat(other: List<T>)
      requires Valid() && other.Valid() && other != this && Repr !! other.Repr
      modifies this, Repr
      ensures Repr == old(Repr) + old(other.Repr)
      ensures Valid() && Contents == old(Contents) + old(other.Contents)
    {
      var last := FindLastNode();
      if last == null {
        head := other.head;
      } else {
        last.next := other.head;
      }
      ghost var first := |nodes|;
      nodes, Contents, Repr := nodes + other.nodes, Contents + other.Contents, Repr + other.Repr;
      assert forall i :: first <= i < |nodes| ==> nodes[i] == other.nodes[i - first];
    }

    /** The assignment `list = NULL`. */
    method SetNull()
      modifies this
      ensures Valid() && Contents == [] && Repr == {}
    {
      head, nodes, Contents, Repr := null, [], [], {};
    }

    /** list_traverse with a function that only updates the record it is given. */
    method Traverse(func: T -> T)
      requires Valid()
      modifies this, Repr
      ensures Valid() && Contents == Map(old(Contents), func) && nodes == old(nodes) && Repr == old(Repr)
    {
      var node := head;
      ghost var i := 0;
      while node != null
        invariant 0 <= i <= |nodes| && node == NodeAt(nodes, i) && Valid()
        invariant |Contents| == |old(Contents)| && nodes == old(nodes) && Repr == old(Repr)
        invariant forall k :: 0 <= k < |nodes| ==>
                    Contents[k] == if k < i then func(old(Contents)[k]) else old(Contents)[k]
        decreases |nodes| - i
      {
        var tmp := node.next;
        node.content := func(node.content);
        Contents := Contents[i := node.content];
        node := tmp;
        i := i + 1;
      }
    }

    /**
     * remove_data: unlink every node whose content the comparison calls equal (0).  The C code walks with
     * a pointer to the link that leads to the current node; `prev` is the owner of that link, null for
     * the list variable itself.
     */
    method RemoveData(cmpfunc: T -> int)
      requires Valid()
      modifies this, Repr
      ensures Valid() && Contents == Keep(old(Contents), cmpfunc)
      ensures Repr == old(Repr)
    {
      var prev: Node?<T> := null;
      var curr := head;
      ghost var i, j := 0, 0;
      ghost var before := Contents;
      while curr != null
        invariant Valid() && 0 <= i && 0 <= j
        invariant i <= |nodes| && curr == NodeAt(nodes, i) && prev == if i == 0 then null else nodes[i - 1]
        invariant Visited(Contents, i, before, j, cmpfunc)
        invariant Repr == old(Repr)
        decreases |before| - j
      {
        assert curr.content == Contents[i];
        VisitNext(Contents, i, before, j, cmpfunc);
        if cmpfunc(curr.content) == 0 {
          curr := curr.next;
          UnlinkAfter(prev, curr, i);
        } else {
          prev := curr;
          curr := curr.next;
          i := i + 1;
        }
        j := j + 1;
      }
      VisitedAll(Contents, i, before, j, cmpfunc);
    }

    /** The unlinking in remove_data: the link held by `prev` (or the list variable) skips node `i`. */
    method UnlinkAfter(prev: Node?<T>, rest: Node?<T>, ghost i: nat)
      requires Valid() && i < |nodes|
      requires prev == (if i == 0 then null else nodes[i - 1]) && rest == NodeAt(nodes, i + 1)
      modifies this, Repr
      ensures Valid()
      ensures Repr == old(Repr) && nodes == Without(old(nodes), i) && Contents == Without(old(Contents), i)
    {
      if prev == null {
        head := rest;
      } else {
        prev.next := rest;
      }
      ghost var before := nodes;
      nodes, Contents := Without(nodes, i), Without(Contents, i);
      assert forall k :: i <= k < |nodes| ==> nodes[k] == before[k + 1];
    }

    /** lookup_data: the first content the comparison calls equal. */
    method LookupData(cmpfunc: T -> int) returns (index: nat, node: Node?<T>)
      requires Valid()
      ensures index <= |nodes| && node == NodeAt(nodes, index)
      ensures node != null ==> cmpfunc(node.content) == 0
      ensures forall k :: 0 <= k < index ==> cmpfunc(Contents[k]) != 0
    {
      index, node := 0, head;
      while node != null
        invariant 0 <= index <= |nodes| && node == NodeAt(nodes, index)
        invariant forall k :: 0 <= k < index ==> cmpfunc(Contents[k]) != 0
        decreases |nodes| - index
      {
        if cmpfunc(node.content) == 0 {
          return;
        }
        node := node.next;
        index := index + 1;
      }
    }
  }
}
