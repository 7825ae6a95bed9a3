/**
 The intrusive doubly linked lists, at the level of the pointers the list macros rewrite. A list is a head
 pointer; the sequence of nodes it stands for is carried along as a ghost.
 */
module Lists {
  import opened Common

  class Node<T> {
    var next: Node?<T>
    var prev: Node?<T>
    const item: T

    constructor (item: T)
      ensures this.item == item && next == null && prev == null
    {
      this.item := item;
      next, prev := null, null;
    }
  }

  /** The node at an index, NULL outside the list. */
  ghost function At<T>(q: seq<Node<T>>, i: int): Node?<T> {
    if 0 <= i < |q| then q[i] else null
  }

  /** Forward and backward pointers both spell out the sequence. */
  ghost predicate Chained<T>(q: seq<Node<T>>)
    reads q
  {
    && (forall i {:trigger q[i].next} | 0 <= i < |q| :: q[i].next == At(q, i + 1))
    && (forall i {:trigger q[i].prev} | 0 <= i < |q| :: q[i].prev == At(q, i - 1))
  }

  /** `head` leads to a well-formed doubly linked list of the nodes `q`. */
  ghost predicate IsList<T>(head: Node?<T>, q: seq<Node<T>>)
    reads q
  {
    NoDup(q) && Chained(q) && head == At(q, 0)
  }

  /** Two lists without a common node: rewriting one leaves the other alone. */
  ghost predicate Apart<T>(q: seq<Node<T>>, r: seq<Node<T>>) {
    forall i, j | 0 <= i < |q| && 0 <= j < |r| :: q[i] != r[j]
  }

  ghost function Items<T>(q: seq<Node<T>>): (r: seq<T>)
    ensures |r| == |q|
  {
    seq(|q|, i requires 0 <= i < |q| => q[i].item)
  }

  /** A list of distinct nodes without its `i`-th: the rest are distinct, and its ends are where they were
      unless the node was one of them. */
  lemma WithoutNth<T>(q: seq<Node<T>>, i: nat)
    requires NoDup(q) && i < |q|
    ensures var r := q[..i] + q[i + 1..];
            && NoDup(r) && q[i] !in r
            && At(r, 0) == At(q, if i == 0 then 1 else 0)
  {
  }

  lemma SameNode<T>(q: seq<Node<T>>, j: nat, k: int)
    requires NoDup(q) && j < |q|
    ensures q[j] == At(q, k) <==> j == k
  {
  }

  /** INSERT_TO_HEADER */
  method InsertToHeader<T>(node: Node<T>, head: Node?<T>, ghost q: seq<Node<T>>) returns (h: Node<T>)
    requires IsList(head, q) && node !in q
    modifies node, q
    ensures h == node && IsList(h, [node] + q)
  {
    node.next := head;
    node.prev := null;
    if head != null {
      head.prev := node;
    }
    h := node;
  }

  /** The pointer half of DELETE_FROM_LIST: the neighbours of the node are joined, the node is cleared, and
      no other node of `q` changes. */
  method Join<T>(node: Node<T>, ghost q: seq<Node<T>>)
    requires node in q && node.next != node && node.prev != node
    requires (node.next != null ==> node.next in q) && (node.prev != null ==> node.prev in q)
    modifies q
    ensures forall n {:trigger n.next} | n in q ::
              n.next == if n == node then null else if n == old(node.prev) then old(node.next) else old(n.next)
    ensures forall n {:trigger n.prev} | n in q ::
              n.prev == if n == node then null else if n == old(node.next) then old(node.prev) else old(n.prev)
  {
    if node.next != null {
      node.next.prev := node.prev;
    }
    if node.prev != null {
      node.prev.next := node.next;
    }
    node.next, node.prev := null, null;
  }

  /** Where the pointers of the `j`-th node lead once the gap at `i` is closed. */
  ghost predicate Bridged<T>(q: seq<Node<T>>, i: nat, j: nat)
    requires j < |q|
    reads q
  {
    && q[j].next == At(q, if j == i - 1 then i + 1 else j + 1)
    && q[j].prev == At(q, if j == i + 1 then i - 1 else j - 1)
  }

  method Unlink<T>(node: Node<T>, ghost q: seq<Node<T>>, ghost i: nat)
    requires NoDup(q) && Chained(q) && i < |q| && q[i] == node
    modifies q
    ensures forall j | 0 <= j < |q| && j != i :: Bridged(q, i, j)
    ensures node.next == null && node.prev == null
  {
    hide NoDup;
    SameNode(q, i, i + 1);
    SameNode(q, i, i - 1);
    Join(node, q);
    forall j | 0 <= j < |q| && j != i ensures Bridged(q, i, j) {
      assert q[j] in q;
      assert old(q[j].next) == At(q, j + 1) && old(q[j].prev) == At(q, j - 1);
      SameNode(q, j, i - 1);
      SameNode(q, j, i);
      SameNode(q, j, i + 1);
    }
  }

  lemma Spliced<T>(q: seq<Node<T>>, i: nat)
    requires i < |q| && forall j | 0 <= j < |q| && j != i :: Bridged(q, i, j)
    ensures Chained(q[..i] + q[i + 1..])
  {
    var r := q[..i] + q[i + 1..];
    forall k | 0 <= k < |r| ensures r[k].next == At(r, k + 1) && r[k].prev == At(r, k - 1) {
      var j := if k < i then k else k + 1;
      assert r[k] == q[j] && Bridged(q, i, j);
    }
  }

  /** DELETE_FROM_LIST of the `i`-th node. Deleting a node that is not in the list would lose the whole list,
      so a caller must know that it is. */
  method DeleteFromList<T>(node: Node<T>, head: Node?<T>, ghost q: seq<Node<T>>, ghost i: nat) returns (h: Node?<T>)
    requires IsList(head, q) && i < |q| && q[i] == node
    modifies q
    ensures IsList(h, q[..i] + q[i + 1..])
    ensures node !in q[..i] + q[i + 1..] && node.next == null && node.prev == null
  {
    WithoutNth(q, i);
    assert node.next == At(q, i + 1) && node.prev == At(q, i - 1);
    hide NoDup, Chained, Bridged;
    h := if node.prev == null then node.next else head;
    Unlink(node, q, i);
    Spliced(q, i);
  }

  /**
   INSERT_TO_FIFO. With a tail that names the last node, the node is appended. A tail that names a node outside
   the queue is written through all the same: the queue keeps its nodes, and the new one is not among them
   unless the queue was empty.
   */
  method InsertToFifo<T>(node: Node<T>, head: Node?<T>, tail: Node?<T>, ghost q: seq<Node<T>>)
    returns (h: Node?<T>, t: Node<T>)
    requires IsList(head, q) && node !in q && node != tail && (tail == At(q, |q| - 1) || tail !in q)
    modifies node, q, if tail == null then {} else {tail}
    ensures t == node
    ensures tail == At(q, |q| - 1) ==> IsList(h, q + [node])
    ensures tail != null && tail !in q ==> tail.next == node && (q != [] ==> IsList(h, q))
  {
    node.next := null;
    node.prev := tail;
    if tail != null {
      tail.next := node;
    }
    t := node;
    h := if head == null then node else head;
  }

  /** Following `next` from the `i`-th node. */
  lemma NextOf<T>(head: Node?<T>, q: seq<Node<T>>, i: nat)
    requires IsList(head, q)
    ensures head == At(q, 0) && (i < |q| ==> q[i].next == At(q, i + 1))
  {
  }

  // ---- Several lists ----------------------------------------------------------------------

  ghost function AllNodes<T>(qs: seq<seq<Node<T>>>): set<Node<T>> {
    set h, i | 0 <= h < |qs| && 0 <= i < |qs[h]| :: qs[h][i]
  }

  ghost function AllItems<T>(qs: seq<seq<Node<T>>>): (r: seq<seq<T>>)
    ensures |r| == |qs|
  {
    seq(|qs|, h requires 0 <= h < |qs| => Items(qs[h]))
  }

  ghost predicate Within<T>(qs: seq<seq<Node<T>>>, live: set<Node<T>>) {
    forall h, i | 0 <= h < |qs| && 0 <= i < |qs[h]| :: qs[h][i] in live
  }

  /** The heads lead to well-formed lists, no two of which share a node. */
  ghost predicate AreLists<T>(heads: seq<Node?<T>>, qs: seq<seq<Node<T>>>)
    reads AllNodes(qs)
  {
    && |heads| == |qs|
    && (forall h | 0 <= h < |qs| :: IsList(heads[h], qs[h]))
    && (forall g, h | 0 <= g < |qs| && 0 <= h < |qs| && g != h :: Apart(qs[g], qs[h]))
  }

  /** INSERT_TO_HEADER on one of several lists leaves the others alone. */
  method InsertInto<T>(node: Node<T>, heads: seq<Node?<T>>, h: nat, ghost qs: seq<seq<Node<T>>>)
    returns (r: seq<Node?<T>>)
    requires AreLists(heads, qs) && h < |qs| && forall g | 0 <= g < |qs| :: Apart(qs[g], [node])
    modifies node, qs[h]
    ensures AreLists(r, qs[h := [node] + qs[h]])
  {
    hide IsList;
    assert node !in qs[h] by { assert Apart(qs[h], [node]) && [node][0] == node; }
    var head := InsertToHeader(node, heads[h], qs[h]);
    ghost var rs := qs[h := [node] + qs[h]];
    forall g | 0 <= g < |qs| && g != h ensures IsList(heads[g], qs[g]) && Apart(rs[g], rs[h]) && Apart(rs[h], rs[g]) {
      assert old(IsList(heads[g], qs[g])) && Apart(qs[g], qs[h]) && Apart(qs[g], [node]) && [node][0] == node;
    }
    r := heads[h := head];
  }

  /** INSERT_TO_FIFO on one of several lists: with a tail that names its last node, the node is appended and the
      others are left alone. */
  method AppendInto<T>(node: Node<T>, heads: seq<Node?<T>>, tail: Node?<T>, h: nat, ghost qs: seq<seq<Node<T>>>)
    returns (r: seq<Node?<T>>, t: Node<T>)
    requires AreLists(heads, qs) && h < |qs| && (forall g | 0 <= g < |qs| :: Apart(qs[g], [node])) && node != tail
    requires tail == At(qs[h], |qs[h]| - 1) || tail !in qs[h]
    modifies node, qs[h], if tail == null then {} else {tail}
    ensures t == node
    ensures tail == At(qs[h], |qs[h]| - 1) ==> AreLists(r, qs[h := qs[h] + [node]])
  {
    hide IsList;
    ghost var rs := qs[h := qs[h] + [node]];
    assert node !in qs[h] by { assert Apart(qs[h], [node]) && [node][0] == node; }
    var head;
    head, t := InsertToFifo(node, heads[h], tail, qs[h]);
    if tail == At(qs[h], |qs[h]| - 1) {
      forall g | 0 <= g < |qs| && g != h ensures IsList(heads[g], qs[g]) && Apart(rs[g], rs[h]) && Apart(rs[h], rs[g]) {
        assert old(IsList(heads[g], qs[g])) && Apart(qs[g], qs[h]) && Apart(qs[g], [node]) && [node][0] == node;
      }
    }
    r := heads[h := head];
  }

  /** DELETE_FROM_LIST on one of several lists leaves the others alone. */
  method DeleteFrom<T>(node: Node<T>, heads: seq<Node?<T>>, h: nat, ghost qs: seq<seq<Node<T>>>, ghost i: nat)
    returns (r: seq<Node?<T>>)
    requires AreLists(heads, qs) && h < |qs| && i < |qs[h]| && qs[h][i] == node
    modifies qs[h]
    ensures AreLists(r, qs[h := qs[h][..i] + qs[h][i + 1..]])
    ensures node !in qs[h][..i] + qs[h][i + 1..]
  {
    hide IsList;
    var head := DeleteFromList(node, heads[h], qs[h], i);
    ghost var rs := qs[h := qs[h][..i] + qs[h][i + 1..]];
    forall g | 0 <= g < |qs| && g != h ensures IsList(heads[g], qs[g]) && Apart(rs[g], rs[h]) && Apart(rs[h], rs[g]) {
      assert old(IsList(heads[g], qs[g])) && Apart(qs[g], qs[h]);
    }
    r := heads[h := head];
  }
}
