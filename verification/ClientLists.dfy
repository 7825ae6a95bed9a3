/**
 The server's intrusive lists of clients: the timer list and the 64 hash chains. Every client has one node for
 each embedded in it; `node` leads to the node of a client. `freed` are the nodes of clients that were freed.
 */
module ClientLists {
  import opened Common
  import opened Frame
  import opened Lists
  import opened Connections

  type Nodes = seq<Node<u32>>

  /** Each node of the list is the one embedded in its client. */
  ghost predicate Embedded(q: Nodes, node: map<u32, Node<u32>>) {
    forall i {:trigger q[i]} | 0 <= i < |q| :: q[i].item in node && node[q[i].item] == q[i]
  }

  /** A map from the ids of live clients to their own nodes, none of them freed. */
  ghost predicate Owned(node: map<u32, Node<u32>>, live: set<Node<u32>>, freed: set<Node<u32>>) {
    live !! freed && forall id | id in node :: node[id] in live && node[id].item == id
  }

  lemma IdsDistinct(q: Nodes, node: map<u32, Node<u32>>)
    requires NoDup(q) && Embedded(q, node)
    ensures NoDup(Items(q))
  {
  }

  /** A list of nodes without its `i`-th has the ids without that id. */
  lemma IdsWithout(q: Nodes, node: map<u32, Node<u32>>, i: nat)
    requires NoDup(q) && Embedded(q, node) && i < |q|
    ensures var r := q[..i] + q[i + 1..];
            Items(r) == Without(Items(q), q[i].item) && q[i].item !in Items(r) && Embedded(r, node - {q[i].item})
  {
    IdsDistinct(q, node);
    var r := q[..i] + q[i + 1..];
    WithoutAt(Items(q), i, q[i].item);
    assert Items(r) == Items(q)[..i] + Items(q)[i + 1..];
    forall k | 0 <= k < |r| ensures r[k].item in node - {q[i].item} && (node - {q[i].item})[r[k].item] == r[k] {
      var j := if k < i then k else k + 1;
      assert r[k] == q[j] && q[j] != q[i];
    }
  }

  /** A client's id is in the list exactly if its own node is. */
  lemma IdInList(q: Nodes, node: map<u32, Node<u32>>, id: u32)
    requires Embedded(q, node) && id in node && node[id].item == id
    ensures id in Items(q) <==> node[id] in q
  {
    if id in Items(q) {
      var i :| 0 <= i < |q| && Items(q)[i] == id;
      assert q[i] == node[id];
    }
    if node[id] in q {
      var i :| 0 <= i < |q| && q[i] == node[id];
      assert Items(q)[i] == id;
    }
  }

  // ---- The timer list ---------------------------------------------------------------------

  class TimerList {
    var head: Node?<u32>
    var node: map<u32, Node<u32>>
    ghost var q: Nodes
    ghost var live: set<Node<u32>>
    ghost var freed: set<Node<u32>>

    /** A well-formed list of nodes of live clients: no freed node can be reached. */
    ghost predicate Valid()
      reads this, live
    {
      && Owned(node, live, freed)
      && (forall n <- q :: n in live)
      && Embedded(q, node)
      && IsList(head, q)
    }

    constructor ()
      ensures Valid() && q == [] && node == map[] && live == {}
    {
      head, node, q, live, freed := null, map[], [], {}, {};
    }

    /** A new client's node is linked at the head. */
    method Link(id: u32)
      requires Valid() && id !in node
      modifies this, live
      ensures Valid() && Items(q) == [id] + old(Items(q)) && node.Keys == old(node.Keys) + {id}
      ensures old(live) <= live && fresh(live - old(live)) && freed == old(freed)
    {
      hide NoDup, Chained;
      var n := new Node(id);
      head := InsertToHeader(n, head, q);
      q := [n] + q;
      node := node[id := n];
      live := live + {n};
    }

    /** The node of a client in the list is unlinked. */
    method Unlink(id: u32, ghost i: nat)
      requires Valid() && id in node && i < |q| && q[i] == node[id]
      modifies this`head, this`q, live
      ensures Valid() && Items(q) == Without(old(Items(q)), id) && id !in Items(q) && node[id] !in q
      ensures q == old(q)[..i] + old(q)[i + 1..]
    {
      hide NoDup, Chained, Items, Without;
      IdsWithout(q, node, i);
      ghost var r := q[..i] + q[i + 1..];
      head := DeleteFromList(node[id], head, q, i);
      q := r;
    }

    /** The memory of a client goes, and its node with it, which is unlinked first if it is still in the list.
        Deleting a node that is out already would lose the list, and freeing one that is in would leave the
        list with a freed node: `linked` must tell. */
    method Free(id: u32, linked: bool)
      requires Valid() && id in node && (linked <==> id in Items(q))
      modifies this, live
      ensures Valid() && node.Keys == old(node.Keys) - {id} && live <= old(live)
      ensures Items(q) == if linked then Without(old(Items(q)), id) else old(Items(q))
      ensures !linked ==> q == old(q)
      ensures freed == old(freed) + {old(node)[id]}
    {
      hide NoDup, Chained, Items, Without;
      IdInList(q, node, id);
      ghost var n := node[id];
      if linked {
        ghost var i :| 0 <= i < |q| && q[i] == n;
        Unlink(id, i);
      }
      assert IsList(head, q) && forall i | 0 <= i < |q| :: q[i] != n;
      node := node - {id};
      live := live - {n};
      freed := freed + {n};
    }
  }

  // ---- The hash chains --------------------------------------------------------------------

  /** Chain `h` holds the embedded nodes of clients with that hash. */
  ghost predicate Sorted(qs: seq<Nodes>, node: map<u32, Node<u32>>) {
    && |qs| == CLI_HASH_SIZE
    && (forall h | 0 <= h < CLI_HASH_SIZE :: Embedded(qs[h], node))
    && (forall h, n | 0 <= h < CLI_HASH_SIZE && n in qs[h] :: Hash(n.item) == h)
  }

  lemma OwnedWithout(node: map<u32, Node<u32>>, live: set<Node<u32>>, freed: set<Node<u32>>, id: u32)
    requires Owned(node, live, freed) && id in node
    ensures Owned(node - {id}, live - {node[id]}, freed + {node[id]})
  {
  }

  lemma OwnedWith(node: map<u32, Node<u32>>, live: set<Node<u32>>, freed: set<Node<u32>>, n: Node<u32>)
    requires Owned(node, live, freed) && n !in freed
    ensures Owned(node[n.item := n], live + {n}, freed)
  {
  }

  lemma SortedWith(qs: seq<Nodes>, node: map<u32, Node<u32>>, live: set<Node<u32>>, n: Node<u32>)
    requires Sorted(qs, node) && Within(qs, live) && n.item !in node
    ensures var h := Hash(n.item); var rs := qs[h := [n] + qs[h]];
            && Sorted(rs, node[n.item := n]) && AllItems(rs) == AllItems(qs)[h := [n.item] + AllItems(qs)[h]]
            && Within(rs, live + {n})
  {
    var h := Hash(n.item);
    var rs := qs[h := [n] + qs[h]];
    assert Items(rs[h]) == [n.item] + Items(qs[h]);
    forall g | 0 <= g < CLI_HASH_SIZE ensures Embedded(rs[g], node[n.item := n]) {
      assert Embedded(qs[g], node);
    }
  }

  lemma SortedWithout(qs: seq<Nodes>, node: map<u32, Node<u32>>, live: set<Node<u32>>, h: nat, i: nat)
    requires Sorted(qs, node) && Within(qs, live) && h < CLI_HASH_SIZE && i < |qs[h]| && NoDup(qs[h])
    ensures var id := qs[h][i].item; var rs := qs[h := qs[h][..i] + qs[h][i + 1..]];
            && Sorted(rs, node - {id}) && AllItems(rs) == AllItems(qs)[h := Without(AllItems(qs)[h], id)]
            && Within(rs, live - {qs[h][i]})
  {
    var q := qs[h];
    var id, r := q[i].item, q[..i] + q[i + 1..];
    assert Embedded(q, node) && q[i] in q;
    IdsWithout(q, node, i);
    hide Without;
    var rs := qs[h := r];
    forall g | 0 <= g < CLI_HASH_SIZE ensures Embedded(rs[g], node - {id}) {
      if g != h {
        assert Embedded(qs[g], node);
        assert forall k | 0 <= k < |qs[g]| :: qs[g][k] in qs[g];
      }
    }
    assert forall n <- r :: n in q;
  }

  class ClientTable {
    var heads: seq<Node?<u32>>
    var node: map<u32, Node<u32>>
    ghost var qs: seq<Nodes>
    ghost var live: set<Node<u32>>
    ghost var freed: set<Node<u32>>

    /** Well-formed chains of nodes of live clients, each in the chain of its hash: no freed node can be reached. */
    ghost predicate Valid()
      reads this, live
    {
      && |qs| == CLI_HASH_SIZE && Within(qs, live) && AreLists(heads, qs)
      && Sorted(qs, node) && Owned(node, live, freed)
    }

    constructor ()
      ensures Valid() && qs == seq(CLI_HASH_SIZE, _ => []) && node == map[] && live == {}
    {
      heads, node := seq(CLI_HASH_SIZE, _ => null), map[];
      qs, live, freed := seq(CLI_HASH_SIZE, _ => []), {}, {};
    }

    /** A new client's node is linked at the head of its chain. */
    method Link(id: u32)
      requires Valid() && id !in node
      modifies this, live
      ensures Valid() && node.Keys == old(node.Keys) + {id}
      ensures AllItems(qs) == old(AllItems(qs))[Hash(id) := [id] + old(AllItems(qs))[Hash(id)]]
      ensures old(live) <= live && fresh(live - old(live)) && freed == old(freed)
    {
      hide IsList, Sorted, AllItems, Owned;
      var n := new Node(id);
      SortedWith(qs, node, live, n);
      OwnedWith(node, live, freed, n);
      heads := InsertInto(n, heads, Hash(id), qs);
      qs := qs[Hash(id) := [n] + qs[Hash(id)]];
      live := live + {n};
      node := node[id := n];
    }

    /** A client's node is unlinked from its chain, and goes with the client's memory. */
    method Unlink(id: u32)
      requires Valid() && id in node && id in AllItems(qs)[Hash(id)]
      modifies this, live
      ensures Valid() && node.Keys == old(node.Keys) - {id} && live <= old(live)
      ensures AllItems(qs) == old(AllItems(qs))[Hash(id) := Without(old(AllItems(qs))[Hash(id)], id)]
      ensures freed == old(freed) + {old(node)[id]}
    {
      hide IsList, Sorted, AllItems, Owned, Without, NoDup;
      var h, n := Hash(id), node[id];
      ghost var i := IndexOf(id);
      SortedWithout(qs, node, live, h, i);
      OwnedWithout(node, live, freed, id);
      heads := DeleteFrom(n, heads, h, qs, i);
      qs := qs[h := qs[h][..i] + qs[h][i + 1..]];
      node := node - {id};
      live := live - {n};
      freed := freed + {n};
    }

    ghost method IndexOf(id: u32) returns (i: nat)
      requires Valid() && id in node && id in AllItems(qs)[Hash(id)]
      ensures i < |qs[Hash(id)]| && qs[Hash(id)][i] == node[id] && node[id].item == id && NoDup(qs[Hash(id)])
    {
      IdInList(qs[Hash(id)], node, id);
      i :| 0 <= i < |qs[Hash(id)]| && qs[Hash(id)][i] == node[id];
    }
  }

  // ---- Both together ----------------------------------------------------------------------

  /** The lists of the live clients: every client has one node in each. */
  class Roster {
    const table: ClientTable
    const hst: TimerList
    /** All objects the lists consist of. */
    ghost var repr: set<object>

    ghost predicate Valid()
      reads this, repr
    {
      && this !in repr && table in repr && hst in repr && table.live <= repr && hst.live <= repr
      && table.Valid() && hst.Valid() && table.live !! hst.live
      && table.node.Keys == hst.node.Keys
    }

    ghost function Buckets(): seq<seq<u32>>
      reads this, table
    {
      AllItems(table.qs)
    }

    ghost function Timers(): seq<u32>
      reads this, hst
    {
      Items(hst.q)
    }

    ghost function Clients(): set<u32>
      reads this, table
    {
      table.node.Keys
    }

    /** The nodes of clients that are gone; by `Valid` no list reaches one. */
    ghost function Freed(): set<Node<u32>>
      reads this, table, hst
    {
      table.freed + hst.freed
    }

    ghost function NodesOf(id: u32): set<Node<u32>>
      reads this, table, hst
      requires id in table.node && id in hst.node
    {
      {table.node[id], hst.node[id]}
    }

    /** Where a walk of the timer list starts. */
    lemma Walk()
      requires Valid()
      ensures hst.head == At(hst.q, 0) && |Timers()| == |hst.q|
      ensures forall i | 0 <= i < |hst.q| :: Timers()[i] == hst.q[i].item
    {
    }

    ghost method IndexOf(id: u32) returns (i: nat)
      requires Valid() && id in Clients() && id in Timers()
      ensures i < |hst.q| && hst.q[i] == hst.node[id]
    {
      IdInList(hst.q, hst.node, id);
      i :| 0 <= i < |hst.q| && hst.q[i] == hst.node[id];
    }

    lemma NotOwn()
      requires Valid()
      ensures this !in repr
    {
    }

    constructor ()
      ensures Valid() && fresh(repr) && Clients() == {}
      ensures Buckets() == seq(CLI_HASH_SIZE, _ => []) && Timers() == []
    {
      table := new ClientTable();
      hst := new TimerList();
      new;
      repr := {table, hst};
      assert AllItems(table.qs) == seq(CLI_HASH_SIZE, _ => []);
    }

    /** A new client's nodes go to the head of its chain and of the timer list. */
    method Link(id: u32)
      requires Valid() && id !in Clients()
      modifies this, repr
      ensures Valid() && fresh(repr - old(repr)) && Clients() == old(Clients()) + {id}
      ensures Timers() == [id] + old(Timers())
      ensures Buckets() == old(Buckets())[Hash(id) := [id] + old(Buckets())[Hash(id)]]
    {
      hide AllItems, Items, ClientTable.Valid, TimerList.Valid;
      table.Link(id);
      hst.Link(id);
      repr := repr + table.live + hst.live;
    }

    /** A client leaves the timer list and stays alive. */
    method Unlink(id: u32, ghost i: nat)
      requires Valid() && id in Clients() && i < |hst.q| && hst.q[i] == hst.node[id]
      modifies repr
      ensures Valid() && Clients() == old(Clients())
      ensures Timers() == Without(old(Timers()), id) && id !in Timers() && Buckets() == old(Buckets())
      ensures hst.q == old(hst.q)[..i] + old(hst.q)[i + 1..]
    {
      hide AllItems, Items, Without, ClientTable.Valid, TimerList.Valid;
      hst.Unlink(id, i);
    }

    /** A client's nodes are unlinked and freed. */
    method Destroy(id: u32, linked: bool)
      requires Valid() && id in Clients() && id in Buckets()[Hash(id)]
      requires linked <==> id in Timers()
      modifies repr
      ensures Valid() && Clients() == old(Clients()) - {id}
      ensures Timers() == if linked then Without(old(Timers()), id) else old(Timers())
      ensures Buckets() == old(Buckets())[Hash(id) := Without(old(Buckets())[Hash(id)], id)]
      ensures !linked ==> hst.q == old(hst.q)
      ensures Freed() == old(Freed()) + old(NodesOf(id))
    {
      hide AllItems, Items, Without, ClientTable.Valid, TimerList.Valid;
      table.Unlink(id);
      hst.Free(id, linked);
    }
  }
}
