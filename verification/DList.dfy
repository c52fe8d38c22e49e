/** `cu_DList`: a doubly linked list and the sequence it spells in both directions. */
module DLists {
  import opened Options

  datatype Error = OutOfMemory | Empty

  class Node<T> {
    var prev: Node?<T>
    var next: Node?<T>
    const data: T

    constructor (data: T)
      ensures this.data == data && prev == null && next == null
    {
      this.data := data;
      prev, next := null, null;
    }
  }

  ghost function PrevOf<T>(ns: seq<Node<T>>, i: int): Node?<T>
    requires 0 <= i <= |ns|
  {
    if i == 0 then null else ns[i - 1]
  }

  ghost function NextOf<T>(ns: seq<Node<T>>, i: int): Node?<T>
    requires -1 <= i < |ns|
  {
    if i + 1 == |ns| then null else ns[i + 1]
  }

  /** The forward chain from `head` and the backward chain from `tail` are mirror images
      of the sequence. */
  ghost predicate Linked<T>(ns: seq<Node<T>>, head: Node?<T>, tail: Node?<T>)
    reads (set n | n in ns)`prev, (set n | n in ns)`next
  {
    && head == NextOf(ns, -1) && tail == PrevOf(ns, |ns|)
    && (forall i {:trigger PrevOf(ns, i)} :: 0 <= i < |ns| ==> ns[i].prev == PrevOf(ns, i))
    && (forall i {:trigger NextOf(ns, i)} :: 0 <= i < |ns| ==> ns[i].next == NextOf(ns, i))
    && (forall i, j :: 0 <= i < j < |ns| ==> ns[i] != ns[j])
  }

  function Inserted<T>(s: seq<T>, j: int, x: T): seq<T>
    requires 0 <= j <= |s|
  {
    s[..j] + [x] + s[j..]
  }

  function Removed<T>(s: seq<T>, j: int): seq<T>
    requires 0 <= j < |s|
  {
    s[..j] + s[j + 1..]
  }

  ghost function DataOf<T>(ns: seq<Node<T>>): (r: seq<T>)
    ensures |r| == |ns| && forall i :: 0 <= i < |ns| ==> r[i] == ns[i].data
  {
    if ns == [] then [] else [ns[0].data] + DataOf(ns[1..])
  }

  lemma LinksOf<T>(ns: seq<Node<T>>, head: Node?<T>, tail: Node?<T>)
    requires Linked(ns, head, tail)
    ensures head == NextOf(ns, -1) && tail == PrevOf(ns, |ns|)
    ensures forall i {:trigger ns[i].prev} :: 0 <= i < |ns| ==> ns[i].prev == PrevOf(ns, i)
    ensures forall i {:trigger ns[i].next} :: 0 <= i < |ns| ==> ns[i].next == NextOf(ns, i)
    ensures forall i, j :: 0 <= i < j < |ns| ==> ns[i] != ns[j]
  {
  }

  lemma InsertedAt<T>(s: seq<T>, j: nat, x: T, i: nat)
    requires j <= |s| && i <= |s|
    ensures |Inserted(s, j, x)| == |s| + 1
    ensures Inserted(s, j, x)[i] == if i < j then s[i] else if i == j then x else s[i - 1]
  {
  }

  lemma RemovedAt<T>(s: seq<T>, j: nat, i: nat)
    requires j < |s| && i < |s| - 1
    ensures |Removed(s, j)| == |s| - 1
    ensures Removed(s, j)[i] == if i < j then s[i] else s[i + 1]
  {
  }

  lemma StillDistinct<T>(ns: seq<Node<T>>, j: nat, n: Node<T>)
    requires j <= |ns| && n !in ns
    requires forall i, k :: 0 <= i < k < |ns| ==> ns[i] != ns[k]
    ensures var ms := Inserted(ns, j, n); forall i, k :: 0 <= i < k < |ms| ==> ms[i] != ms[k]
  {
    var ms := Inserted(ns, j, n);
    forall i, k | 0 <= i < k < |ms| ensures ms[i] != ms[k] {
      InsertedAt(ns, j, n, i);
      InsertedAt(ns, j, n, k);
    }
  }

  /** Four links around a new node make it a member of the list. */
  lemma InsertedLinks<T>(ns: seq<Node<T>>, j: nat, n: Node<T>)
    requires j <= |ns| && n !in ns
    requires forall i {:trigger ns[i].prev} :: 0 <= i < |ns| ==> ns[i].prev == if i == j then n else PrevOf(ns, i)
    requires forall i {:trigger ns[i].next} :: 0 <= i < |ns| ==> ns[i].next == if i == j - 1 then n else NextOf(ns, i)
    requires n.prev == PrevOf(ns, j) && n.next == NextOf(ns, j - 1)
    requires forall i, k :: 0 <= i < k < |ns| ==> ns[i] != ns[k]
    ensures Linked(Inserted(ns, j, n), if j == 0 then n else NextOf(ns, -1), if j == |ns| then n else PrevOf(ns, |ns|))
  {
    var ms := Inserted(ns, j, n);
    forall i: nat | i <= |ns| ensures ms[i] == if i < j then ns[i] else if i == j then n else ns[i - 1] {
      InsertedAt(ns, j, n, i);
    }
    StillDistinct(ns, j, n);
    forall i | 0 <= i < |ms| ensures ms[i].prev == PrevOf(ms, i) && ms[i].next == NextOf(ms, i) {
      if i != j {
        var k := if i < j then i else i - 1;
        assert ms[i] == ns[k] && ns[k].prev == (if k == j then n else PrevOf(ns, k));
        assert ns[k].next == if k == j - 1 then n else NextOf(ns, k);
      }
    }
  }

  /** Without the links to it a node is no member any more. */
  lemma RemovedLinks<T>(ns: seq<Node<T>>, j: nat)
    requires j < |ns|
    requires forall i {:trigger ns[i].prev} :: 0 <= i < |ns| && i != j ==>
      ns[i].prev == if i == j + 1 then PrevOf(ns, j) else PrevOf(ns, i)
    requires forall i {:trigger ns[i].next} :: 0 <= i < |ns| && i != j ==>
      ns[i].next == if i == j - 1 then NextOf(ns, j) else NextOf(ns, i)
    requires forall i, k :: 0 <= i < k < |ns| ==> ns[i] != ns[k]
    ensures Linked(Removed(ns, j), if j == 0 then NextOf(ns, 0) else NextOf(ns, -1),
      if j == |ns| - 1 then PrevOf(ns, j) else PrevOf(ns, |ns|))
  {
    var ms := Removed(ns, j);
    forall i: nat | i < |ms| ensures ms[i] == if i < j then ns[i] else ns[i + 1] { RemovedAt(ns, j, i); }
    forall i | 0 <= i < |ms| ensures ms[i].prev == PrevOf(ms, i) && ms[i].next == NextOf(ms, i) {
      var k := if i < j then i else i + 1;
      assert ms[i] == ns[k] && ns[k].prev == if k == j + 1 then PrevOf(ns, j) else PrevOf(ns, k);
      assert ns[k].next == if k == j - 1 then NextOf(ns, j) else NextOf(ns, k);
    }
  }

  lemma DataInserted<T>(ns: seq<Node<T>>, j: nat, n: Node<T>)
    requires j <= |ns|
    ensures DataOf(Inserted(ns, j, n)) == Inserted(DataOf(ns), j, n.data)
  {
    var a, b := DataOf(Inserted(ns, j, n)), Inserted(DataOf(ns), j, n.data);
    forall i: nat | i <= |ns| ensures a[i] == b[i] {
      InsertedAt(ns, j, n, i);
      InsertedAt(DataOf(ns), j, n.data, i);
      assert a[i] == Inserted(ns, j, n)[i].data;
    }
  }

  lemma DataRemoved<T>(ns: seq<Node<T>>, j: nat)
    requires j < |ns|
    ensures DataOf(Removed(ns, j)) == Removed(DataOf(ns), j)
  {
    var a, b := DataOf(Removed(ns, j)), Removed(DataOf(ns), j);
    forall i: nat | i < |ns| - 1 ensures a[i] == b[i] {
      RemovedAt(ns, j, i);
      RemovedAt(DataOf(ns), j, i);
      assert a[i] == Removed(ns, j)[i].data;
    }
  }

  lemma RemovedEnds<T>(s: seq<T>)
    requires s != []
    ensures s == [s[0]] + Removed(s, 0) && s == Removed(s, |s| - 1) + [s[|s| - 1]]
  {
  }

  class DList<T> {
    var head: Node?<T>
    var tail: Node?<T>
    var length: nat
    ghost var nodes: seq<Node<T>>
    ghost var repr: set<object>

    ghost predicate Valid()
      reads this, repr
    {
      && this in repr && (forall n :: n in nodes ==> n in repr)
      && length == |nodes| && Linked(nodes, head, tail)
    }

    ghost function Contents(): seq<T>
      reads this
    {
      DataOf(nodes)
    }

    constructor ()
      ensures Valid() && Contents() == [] && fresh(repr)
    {
      head, tail, length := null, null, 0;
      nodes, repr := [], {this};
    }

    /** Records a node now linked in at `j`. */
    ghost method Record(j: nat, node: Node<T>)
      requires this in repr && (forall n :: n in nodes ==> n in repr) && j <= |nodes| && length == |nodes| + 1
      requires Linked(Inserted(nodes, j, node), head, tail)
      modifies `nodes, `repr
      ensures Valid() && nodes == Inserted(old(nodes), j, node) && repr == old(repr) + {node}
      ensures Contents() == Inserted(old(Contents()), j, node.data)
    {
      DataInserted(nodes, j, node);
      hide Linked;
      nodes, repr := Inserted(nodes, j, node), repr + {node};
    }

    /** Forgets the node that was linked at `j`. */
    ghost method Forget(j: nat)
      requires this in repr && (forall n :: n in nodes ==> n in repr) && j < |nodes| && length == |nodes| - 1
      requires Linked(Removed(nodes, j), head, tail)
      modifies `nodes
      ensures Valid() && nodes == Removed(old(nodes), j) && Contents() == Removed(old(Contents()), j)
    {
      DataRemoved(nodes, j);
      hide Linked;
      nodes := Removed(nodes, j);
    }

    /** Puts a new node before the `j`th one, or behind the last. */
    method InsertAt(node: Node<T>, prev: Node?<T>, next: Node?<T>, ghost j: nat)
      requires Valid() && node !in repr && j <= |nodes| && prev == PrevOf(nodes, j) && next == NextOf(nodes, j - 1)
      modifies repr, node
      ensures Valid() && repr == old(repr) + {node}
      ensures nodes == Inserted(old(nodes), j, node) && Contents() == Inserted(old(Contents()), j, node.data)
    {
      LinkBetween(node, prev, next, nodes, head, tail, j);
      hide Linked, Inserted;
      if prev == null {
        head := node;
      }
      if next == null {
        tail := node;
      }
      length := length + 1;
      Record(j, node);
    }

    method PushFront(elem: T, granted: bool) returns (e: Option<Error>)
      requires Valid()
      modifies repr
      ensures Valid() && fresh(repr - old(repr))
      ensures e == if granted then None else Some(OutOfMemory)
      ensures Contents() == if granted then [elem] + old(Contents()) else old(Contents())
    {
      if !granted {
        return Some(OutOfMemory);
      }
      var node := new Node<T>(elem);
      InsertAt(node, null, head, 0);
      e := None;
    }

    method PushBack(elem: T, granted: bool) returns (e: Option<Error>)
      requires Valid()
      modifies repr
      ensures Valid() && fresh(repr - old(repr))
      ensures e == if granted then None else Some(OutOfMemory)
      ensures Contents() == if granted then old(Contents()) + [elem] else old(Contents())
    {
      if !granted {
        return Some(OutOfMemory);
      }
      var node := new Node<T>(elem);
      InsertAt(node, tail, null, |nodes|);
      e := None;
    }

    /** Without a position the element goes to the front. */
    method InsertAfter(pos: Node?<T>, elem: T, granted: bool, ghost j: nat) returns (e: Option<Error>)
      requires Valid() && (pos != null ==> j < |nodes| && nodes[j] == pos)
      modifies repr
      ensures Valid() && fresh(repr - old(repr))
      ensures e == if granted then None else Some(OutOfMemory)
      ensures Contents() ==
        if !granted then old(Contents()) else Inserted(old(Contents()), if pos == null then 0 else j + 1, elem)
    {
      if !granted {
        return Some(OutOfMemory);
      }
      var node := new Node<T>(elem);
      if pos == null {
        InsertAt(node, null, head, 0);
      } else {
        LinksOf(nodes, head, tail);
        InsertAt(node, pos, pos.next, j + 1);
      }
      e := None;
    }

    /** Without a position the element goes to the front here as well. */
    method InsertBefore(pos: Node?<T>, elem: T, granted: bool, ghost j: nat) returns (e: Option<Error>)
      requires Valid() && (pos != null ==> j < |nodes| && nodes[j] == pos)
      modifies repr
      ensures Valid() && fresh(repr - old(repr))
      ensures e == if granted then None else Some(OutOfMemory)
      ensures Contents() ==
        if !granted then old(Contents()) else Inserted(old(Contents()), if pos == null then 0 else j, elem)
    {
      if pos == null {
        e := InsertAfter(null, elem, granted, 0);
        return;
      }
      if !granted {
        return Some(OutOfMemory);
      }
      var node := new Node<T>(elem);
      LinksOf(nodes, head, tail);
      InsertAt(node, pos.prev, pos, j);
      e := None;
    }

    method PopFront() returns (e: Option<Error>, elem: Option<T>)
      requires Valid()
      modifies repr
      ensures Valid() && repr == old(repr)
      ensures e == if old(Contents()) == [] then Some(Empty) else None
      ensures e.Some? ==> Contents() == [] && elem == None
      ensures e.None? ==> elem.Some? && old(Contents()) == [elem.value] + Contents()
    {
      hide Linked, Removed;
      if length == 0 {
        return Some(Empty), None;
      }
      ghost var c := Contents();
      LinksOf(nodes, head, tail);
      var node := head;
      elem := Some(node.data);
      CutFront(node, nodes, head, tail);
      head := node.next;
      if head == null {
        tail := null;
      }
      length := length - 1;
      Forget(0);
      RemovedEnds(c);
      e := None;
    }

    method PopBack() returns (e: Option<Error>, elem: Option<T>)
      requires Valid()
      modifies repr
      ensures Valid() && repr == old(repr)
      ensures e == if old(Contents()) == [] then Some(Empty) else None
      ensures e.Some? ==> Contents() == [] && elem == None
      ensures e.None? ==> elem.Some? && old(Contents()) == Contents() + [elem.value]
    {
      hide Linked, Removed;
      if length == 0 {
        return Some(Empty), None;
      }
      ghost var c := Contents();
      LinksOf(nodes, head, tail);
      var node := tail;
      elem := Some(node.data);
      CutBack(node, nodes, head, tail);
      tail := node.prev;
      if tail == null {
        head := null;
      }
      length := length - 1;
      Forget(|nodes| - 1);
      RemovedEnds(c);
      e := None;
    }

    /** The step of an iteration: the node after `node`, or the first one. */
    method Iter(node: Node?<T>, ghost j: nat) returns (cur: Node?<T>)
      requires Valid() && (node != null ==> j < |nodes| && nodes[j] == node)
      ensures var k := if node == null then 0 else j + 1;
        cur == (if k < |nodes| then nodes[k] else null) &&
          (cur != null ==> k < |Contents()| && cur.data == Contents()[k])
    {
      LinksOf(nodes, head, tail);
      cur := if node == null then head else node.next;
    }
  }

  method LinkBetween<T>(node: Node<T>, prev: Node?<T>, next: Node?<T>, ghost ns: seq<Node<T>>, ghost head: Node?<T>,
      ghost tail: Node?<T>, ghost j: nat)
    requires Linked(ns, head, tail) && node !in ns && j <= |ns| && prev == PrevOf(ns, j) && next == NextOf(ns, j - 1)
    modifies node`prev, node`next, (set n | n in ns)`prev, (set n | n in ns)`next
    ensures Linked(Inserted(ns, j, node), if prev == null then node else head, if next == null then node else tail)
  {
    LinksOf(ns, head, tail);
    hide Linked, Inserted;
    node.prev := prev;
    node.next := next;
    if prev != null {
      prev.next := node;
    }
    if next != null {
      next.prev := node;
    }
    InsertedLinks(ns, j, node);
  }

  method CutFront<T>(node: Node<T>, ghost ns: seq<Node<T>>, ghost head: Node?<T>, ghost tail: Node?<T>)
    requires Linked(ns, head, tail) && node == head
    modifies (set n | n in ns)`prev
    ensures |ns| > 0 && Linked(Removed(ns, 0), node.next, if node.next == null then null else tail)
  {
    LinksOf(ns, head, tail);
    hide Linked, Removed;
    if node.next != null {
      node.next.prev := null;
    }
    RemovedLinks(ns, 0);
  }

  method CutBack<T>(node: Node<T>, ghost ns: seq<Node<T>>, ghost head: Node?<T>, ghost tail: Node?<T>)
    requires Linked(ns, head, tail) && node == tail
    modifies (set n | n in ns)`next
    ensures |ns| > 0 && Linked(Removed(ns, |ns| - 1), if node.prev == null then null else head, node.prev)
  {
    LinksOf(ns, head, tail);
    hide Linked, Removed;
    if node.prev != null {
      node.prev.next := null;
    }
    RemovedLinks(ns, |ns| - 1);
  }
}
