/**
 Singly linked chains, as the hash table keeps them: several heads, each leading to a chain of its own. The
 sequences of links they stand for are carried along as ghosts.
 */
module Chains {
  import opened Common

  class Link<T> {
    var next: Link?<T>
    var item: T

    constructor (item: T)
      ensures this.item == item && next == null
    {
      this.item, next := item, null;
    }
  }

  /** The link at an index, NULL past the end. */
  ghost function At<T>(q: seq<Link<T>>, i: nat): Link?<T> {
    if i < |q| then q[i] else null
  }

  ghost function Members<T>(qs: seq<seq<Link<T>>>): set<Link<T>> {
    set h, i | 0 <= h < |qs| && 0 <= i < |qs[h]| :: qs[h][i]
  }

  ghost predicate IsChain<T>(head: Link?<T>, q: seq<Link<T>>)
    reads q`next
  {
    head == At(q, 0) && forall i {:trigger q[i].next} | 0 <= i < |q| :: q[i].next == At(q, i + 1)
  }

  /** No link occurs twice, in one chain or in two. */
  ghost predicate Separate<T>(qs: seq<seq<Link<T>>>) {
    forall g, i, h, j | 0 <= g < |qs| && 0 <= i < |qs[g]| && 0 <= h < |qs| && 0 <= j < |qs[h]| ::
      qs[g][i] == qs[h][j] ==> g == h && i == j
  }

  ghost predicate AreChains<T>(heads: seq<Link?<T>>, qs: seq<seq<Link<T>>>)
    reads Members(qs)`next
  {
    |heads| == |qs| && Separate(qs) && forall h | 0 <= h < |qs| :: IsChain(heads[h], qs[h])
  }

  /** The contents of the chains. */
  ghost predicate Shows<T>(qs: seq<seq<Link<T>>>, bs: seq<seq<T>>)
    reads Members(qs)`item
  {
    && |bs| == |qs| && (forall h | 0 <= h < |qs| :: |bs[h]| == |qs[h]|)
    && forall h, i | 0 <= h < |qs| && 0 <= i < |qs[h]| :: qs[h][i].item == bs[h][i]
  }

  lemma ShowsPush<T>(qs: seq<seq<Link<T>>>, bs: seq<seq<T>>, h: nat, n: Link<T>)
    requires Shows(qs, bs) && h < |qs|
    ensures Shows(qs[h := [n] + qs[h]], bs[h := [n.item] + bs[h]])
  {
  }

  lemma ShowsCut<T>(qs: seq<seq<Link<T>>>, bs: seq<seq<T>>, h: nat, i: nat)
    requires Shows(qs, bs) && h < |qs| && i < |qs[h]|
    ensures Shows(qs[h := qs[h][..i] + qs[h][i + 1..]], bs[h := bs[h][..i] + bs[h][i + 1..]])
  {
  }

  /** A new link at the head of a chain. */
  method Push<T>(n: Link<T>, heads: seq<Link?<T>>, h: nat, ghost qs: seq<seq<Link<T>>>) returns (r: seq<Link?<T>>)
    requires AreChains(heads, qs) && h < |qs| && n !in Members(qs)
    modifies n`next
    ensures AreChains(r, qs[h := [n] + qs[h]])
  {
    assert forall g, i | 0 <= g < |qs| && 0 <= i < |qs[g]| :: qs[g][i] in Members(qs);
    n.next := heads[h];
    r := heads[h := n];
  }

  /** The head of one chain moves to the head of another. */
  method Move<T>(n: Link<T>, heads: seq<Link?<T>>, a: nat, b: nat, ghost qs: seq<seq<Link<T>>>) returns (r: seq<Link?<T>>)
    requires AreChains(heads, qs) && a < |qs| && b < |qs| && a != b && qs[a] != [] && qs[a][0] == n
    modifies n`next
    ensures AreChains(r, qs[a := qs[a][1..]][b := [n] + qs[b]])
  {
    assert IsChain(heads[a], qs[a]);
    var next := n.next;
    n.next := heads[b];
    r := heads[a := next][b := n];
  }

  /** The `i`-th link of a chain is taken out; `prev` is the one before it. */
  method Cut<T>(prev: Link?<T>, n: Link<T>, heads: seq<Link?<T>>, h: nat, ghost qs: seq<seq<Link<T>>>, ghost i: nat)
    returns (r: seq<Link?<T>>)
    requires AreChains(heads, qs) && h < |qs| && i < |qs[h]| && qs[h][i] == n
    requires if i == 0 then prev == null else prev == qs[h][i - 1]
    modifies qs[h]`next
    ensures AreChains(r, qs[h := qs[h][..i] + qs[h][i + 1..]])
  {
    assert IsChain(heads[h], qs[h]);
    if prev != null {
      prev.next := n.next;
      r := heads;
    } else {
      r := heads[h := n.next];
    }
    ghost var q := qs[h];
    ghost var c := q[..i] + q[i + 1..];
    forall k {:trigger c[k].next} | 0 <= k < |c| ensures c[k].next == At(c, k + 1) {
      assert c[k] == q[if k < i then k else k + 1];
    }
    assert IsChain(r[h], c);
    forall g | 0 <= g < |qs| && g != h ensures IsChain(heads[g], qs[g]) {
      assert old(IsChain(heads[g], qs[g]));
    }
  }
}
