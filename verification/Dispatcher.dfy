/** Method registration and dispatch as the server runs it: intrusive lists of commands, updated in place. */
module Dispatcher {
  import opened Common
  import opened Frame
  import opened Lists
  import opened Urls
  import opened Dispatch
  import opened DispatchSafety
  import opened DispatchMeaning

  type Nodes = seq<Node<Cmd>>

  /** The header of the prefix queue comes after those of the buckets. */
  const PREFIX: nat := CMD_HASH_SIZE
  const HEADERS: nat := CMD_HASH_SIZE + 1

  /** The tables that 33 lists and a default stand for. */
  ghost function Contents(qs: seq<Nodes>, def: Option<Cmd>): Tables
    requires |qs| == HEADERS
  {
    Tables(AllItems(qs)[..PREFIX], Items(qs[PREFIX]), def)
  }

  class Dispatcher {
    /** The heads of the buckets and of the prefix queue. */
    var heads: seq<Node?<Cmd>>
    /** The tail pointer of the prefix queue. */
    var prefixT: Node?<Cmd>
    var def: Option<Cmd>
    ghost var qs: seq<Nodes>
    /** The nodes allocated and those freed; whether a freed node was written to; and the operations so far. */
    ghost var live: set<Node<Cmd>>
    ghost var freed: set<Node<Cmd>>
    ghost var wild: bool
    ghost var ops: seq<Op>

    /** Well-formed lists of allocated nodes. */
    ghost predicate Listed()
      reads this`heads, this`qs, this`live, this`freed, live
    {
      |qs| == HEADERS && live !! freed && Within(qs, live) && AreLists(heads, qs)
    }

    /** The tail names a node that was freed. */
    ghost predicate Stale()
      reads this`prefixT, this`freed
    {
      prefixT != null && prefixT in freed
    }

    /** While nothing has written to a freed node, the lists hold what the history of operations says, and the tail
        is stale exactly when the last prefix method of the queue was ever removed. */
    ghost predicate Valid()
      reads this, live
    {
      && !wild && |qs| == HEADERS && Listed()
      && Contents(qs, def) == After(ops) && Safe(ops)
      && (Stale() <==> LostLast(ops))
      && (!Stale() ==> prefixT == At(qs[PREFIX], |qs[PREFIX]| - 1))
    }

    constructor ()
      ensures Valid() && ops == [] && live == freed == {}
    {
      heads, prefixT, def := seq(HEADERS, _ => null), null, None;
      qs, live, freed, wild, ops := seq(HEADERS, _ => []), {}, {}, false, [];
      new;
      assert AllItems(qs)[..PREFIX] == Empty().cmds;
    }

    method UrlHash(url: Url) returns (h: nat)
      ensures h == Hash(url)
    {
      var sum := 0;
      var i := 0;
      while i < |url|
        invariant sum + SumFrom(url, i) == SumFrom(url, 0)
        decreases |url| - i
      {
        sum := sum + url[i] as nat;
        i := i + 2;
      }
      h := sum % CMD_HASH_SIZE;
    }

    /** A new command at the head of a bucket. */
    method InsertExact(h: nat, n: Node<Cmd>)
      requires Listed() && h < PREFIX && n !in live && n !in freed
      modifies this`heads, this`qs, this`live, live, n
      ensures Listed() && live == old(live) + {n} && qs == old(qs)[h := [n] + old(qs)[h]]
    {
      hide IsList;
      heads := InsertInto(n, heads, h, qs);
      qs := qs[h := [n] + qs[h]];
      live := live + {n};
    }

    /** A new command behind the tail of the queue. If the tail names a freed node, that node is written to. */
    method AppendPrefix(n: Node<Cmd>)
      requires Listed() && n !in live && n !in freed && !wild
      requires Stale() || prefixT == At(qs[PREFIX], |qs[PREFIX]| - 1)
      modifies this`heads, this`prefixT, this`qs, this`live, this`wild, live, freed, n
      ensures (wild <==> old(Stale())) && live == old(live) + {n}
      ensures !wild ==> Listed() && prefixT == n && qs == old(qs)[PREFIX := old(qs)[PREFIX] + [n]]
    {
      hide IsList;
      wild := Stale();
      assert Stale() ==> prefixT !in qs[PREFIX];
      heads, prefixT := AppendInto(n, heads, prefixT, PREFIX, qs);
      qs := qs[PREFIX := qs[PREFIX] + [n]];
      live := live + {n};
    }

    /** Deletes the `i`-th command of a list and frees it. The tail of the queue is not looked at. */
    method DeleteCmd(h: nat, n: Node<Cmd>, ghost i: nat)
      requires Listed() && h < HEADERS && i < |qs[h]| && qs[h][i] == n
      modifies this`heads, this`qs, this`live, this`freed, live
      ensures Listed() && n in old(live) && freed == old(freed) + {n} && live == old(live) - {n}
      ensures qs == old(qs)[h := old(qs)[h][..i] + old(qs)[h][i + 1..]]
    {
      hide IsList;
      heads := DeleteFrom(n, heads, h, qs, i);
      ghost var r := qs[h][..i] + qs[h][i + 1..];
      assert forall g, k | 0 <= g < |qs| && g != h && 0 <= k < |qs[g]| :: Apart(qs[g], qs[h]) && qs[g][k] != qs[h][i];
      assert forall k | 0 <= k < |r| :: r[k] in r;
      qs := qs[h := r];
      live := live - {n};
      freed := freed + {n};
    }

    /**
     Registers a method. A prefix method is written behind the queue's tail. The program writes to a freed node
     exactly when the history becomes unsafe; what it does afterwards is not defined.
     */
    method AddMethod(url: Url, handler: nat) returns (ok: bool)
      requires Valid()
      modifies this, live, freed
      ensures ok <==> url != "" && url[0] == '/'
      ensures ops == old(ops) + [Add(url, handler)]
      ensures wild <==> !Safe(ops)
      ensures !wild ==> Valid()
      ensures fresh(live - old(live)) && freed == old(freed)
    {
      hide Hash, Listed, Contents, After, Safe, LostLast, Registered;
      ghost var op := Add(url, handler);
      Advance(op);
      SafeSnoc(ops, op);
      LostLastSnoc(ops, op);
      ops := ops + [op];
      if !Rooted(url) {
        return false;
      }
      var cmd := Cmd(url, handler);
      if |url| == 1 {
        DefaultSet(qs, def, Some(cmd));
        def := Some(cmd);
      } else {
        var n := new Node(cmd);
        if url[|url| - 1] == '/' {
          Appended(qs, def, n);
          AppendPrefix(n);
        } else {
          var h := UrlHash(url);
          Inserted(qs, def, h, n);
          InsertExact(h, n);
        }
      }
      ok := true;
    }

    /** Walks a list for the first command stored under the path of `url`. */
    method FindCmd(h: nat, url: Url) returns (found: Node?<Cmd>, ghost i: nat)
      requires Listed() && h < HEADERS && forall c: Cmd <- Items(qs[h]) :: IsPrefix(c.url) == IsPrefix(url)
      ensures found == null ==> DropFirst(Items(qs[h]), url) == Items(qs[h]) && !HitsLast(Items(qs[h]), url)
      ensures found != null ==> i < |qs[h]| && qs[h][i] == found
                                && DropFirst(Items(qs[h]), url) == Items(qs[h])[..i] + Items(qs[h])[i + 1..]
                                && (HitsLast(Items(qs[h]), url) <==> i == |qs[h]| - 1)
    {
      hide NoDup, Chained, DropFirst, HitsLast, Path, IsPrefix;
      ghost var q := qs[h];
      ghost var cs := Items(q);
      var cur := heads[h];
      assert IsList(cur, q);
      NextOf(cur, q, 0);
      i := 0;
      assert cs[..0] + DropFirst(cs[0..], url) == DropFirst(cs, url);
      while cur != null
        invariant i <= |q| && cur == At(q, i)
        invariant forall c <- cs[..i] :: c.url != url
        invariant DropFirst(cs, url) == cs[..i] + DropFirst(cs[i..], url)
        decreases |q| - i
      {
        NextOf(heads[h], q, i);
        assert cs[i] == cur.item && cs[i] in cs && cs[..i + 1] == cs[..i] + [cs[i]];
        SamePath(cur.item.url, url);
        DropAt(cs, i, url);
        if Path(cur.item.url) == Path(url) {
          return cur, i;
        }
        cur := cur.next;
        i := i + 1;
      }
      DropNothing(cs, url);
      return null, i;
    }

    method RemoveMethod(url: Url)
      requires Valid()
      modifies this, live
      ensures Valid() && ops == old(ops) + [Remove(url)]
      ensures live <= old(live) && freed <= old(freed) + old(live)
    {
      hide Hash, Listed, After, Safe, LostLast, Registered, Contents, HitsLast, DropFirst;
      ghost var op := Remove(url);
      Advance(op);
      SafeSnoc(ops, op);
      LostLastSnoc(ops, op);
      KindsApart(ops);
      ContentsOf(qs, def);
      if !Rooted(url) {
        ops := ops + [op];
      } else if |url| == 1 {
        DefaultSet(qs, def, None);
        ops := ops + [op];
        def := None;
      } else {
        var h := PREFIX;
        if url[|url| - 1] != '/' {
          h := UrlHash(url);
        }
        RemoveFrom(h, url);
      }
    }

    /** Walks one list and deletes the first command of `url`. */
    method RemoveFrom(h: nat, url: Url)
      requires Valid() && Rooted(url) && |url| > 1 && h == (if IsPrefix(url) then PREFIX else Hash(url))
      modifies this, live
      ensures Valid() && ops == old(ops) + [Remove(url)]
      ensures live <= old(live) && freed <= old(freed) + old(live)
    {
      hide Hash, After, Safe, LostLast, Registered, Contents, HitsLast, DropFirst, AreLists, Within;
      ghost var op := Remove(url);
      Advance(op);
      SafeSnoc(ops, op);
      LostLastSnoc(ops, op);
      OneKind(h, url);
      ContentsOf(qs, def);
      ghost var i;
      var n;
      n, i := FindCmd(h, url);
      if n == null {
        ops := ops + [op];
      } else {
        Deleted(qs, def, h, i);
        TailAfter(h, i);
        DeleteCmd(h, n, i);
        ops := ops + [op];
      }
    }

    /** The first exact command of a bucket. */
    method FindExact(h: nat, url: Url) returns (r: Option<Cmd>)
      requires Listed() && h < PREFIX
      ensures r == FirstExact(Items(qs[h]), url)
    {
      hide NoDup, Chained;
      ghost var q, cs, i := qs[h], Items(qs[h]), 0;
      var cur := heads[h];
      assert IsList(cur, q);
      NextOf(cur, q, 0);
      assert cs[0..] == cs;
      while cur != null
        invariant i <= |q| && cur == At(q, i) && FirstExact(cs, url) == FirstExact(cs[i..], url)
        decreases |q| - i
      {
        NextOf(heads[h], q, i);
        assert cs[i..][1..] == cs[i + 1..];
        if cur.item.url == url { return Some(cur.item); }
        cur := cur.next;
        i := i + 1;
      }
      return None;
    }

    /** The first prefix of the queue that matches at a segment boundary. */
    method FindPrefix(url: Url) returns (r: Option<Cmd>)
      requires Listed()
      ensures r == FirstPrefix(Items(qs[PREFIX]), url)
    {
      hide NoDup, Chained, Path;
      ghost var q, cs, i := qs[PREFIX], Items(qs[PREFIX]), 0;
      var cur := heads[PREFIX];
      assert IsList(cur, q);
      NextOf(cur, q, 0);
      assert cs[0..] == cs;
      while cur != null
        invariant i <= |q| && cur == At(q, i) && FirstPrefix(cs, url) == FirstPrefix(cs[i..], url)
        decreases |q| - i
      {
        NextOf(heads[PREFIX], q, i);
        assert cs[i..][1..] == cs[i + 1..];
        var path := Path(cur.item.url);
        if |path| <= |url| && url[..|path|] == path {
          if |path| == |url| || url[|path|] == '/' { return Some(cur.item); }
        }
        cur := cur.next;
        i := i + 1;
      }
      return None;
    }

    /** The command an RPC request is dispatched to. */
    method CmdMatch(url: Url) returns (r: Option<Cmd>)
      requires Valid()
      ensures r == FlatMatch(Registered(ops), url)
      ensures Dispatched(ops, url, r)
    {
      hide Hash, FlatMatch, Dispatched, Listed, After, Safe, LostLast, Registered, Contents;
      DispatchAgrees(ops, url);
      DispatchMeans(ops, url);
      ContentsOf(qs, def);
      var h := UrlHash(url);
      r := FindExact(h, url);
      if r.None? {
        r := FindPrefix(url);
        if r.None? {
          r := def;
        }
      }
    }

    lemma Advance(op: Op)
      requires Valid()
      ensures Shaped(Contents(qs, def)) && After(ops + [op]) == Applied(Contents(qs, def), op)
    {
      assert (ops + [op])[..|ops|] == ops;
    }

    /** The tail names the node to be deleted only if it is right and that node is the last of the queue. */
    lemma TailAfter(h: nat, i: nat)
      requires Valid() && h < HEADERS && i < |qs[h]|
      ensures prefixT == qs[h][i] <==> !Stale() && h == PREFIX && i == |qs[h]| - 1
      ensures var q := qs[h := qs[h][..i] + qs[h][i + 1..]][PREFIX];
              !Stale() && prefixT != qs[h][i] ==> prefixT == At(q, |q| - 1)
    {
      hide Chained, Contents, After, Safe, LostLast;
      assert IsList(heads[PREFIX], qs[PREFIX]);
      if h != PREFIX {
        assert Apart(qs[PREFIX], qs[h]);
      }
    }

    lemma OneKind(h: nat, url: Url)
      requires Valid() && |url| > 1 && h == (if IsPrefix(url) then PREFIX else Hash(url))
      ensures h < HEADERS && forall c: Cmd <- Items(qs[h]) :: IsPrefix(c.url) == IsPrefix(url)
    {
      hide Hash, IsPrefix, After;
      KindsApart(ops);
      ContentsOf(qs, def);
    }
  }

  /** A server with one prefix method removes it and adds another: the second write goes to the freed node. */
  method AddAfterRemove(u: Url, v: Url, handler: nat) returns (d: Dispatcher)
    requires Rooted(u) && IsPrefix(u) && Rooted(v) && IsPrefix(v)
    ensures d.wild && d.ops == [Add(u, handler), Remove(u), Add(v, handler)]
  {
    hide Safe, LostLast, IsPrefix;
    d := new Dispatcher();
    var _ := d.AddMethod(u, handler);
    OneOp(Add(u, handler));
    d.RemoveMethod(u);
    var _ := d.AddMethod(v, handler);
    PrefixAfterRemovalUnsafe(u, v, handler);
    assert d.ops == [Add(u, handler), Remove(u), Add(v, handler)];
  }

  lemma OneOp(op: Op)
    ensures Safe([] + [op])
  {
  }

  // ---- What the list operations do to the contents ----------------------------------------

  lemma ContentsOf(qs: seq<Nodes>, def: Option<Cmd>)
    requires |qs| == HEADERS
    ensures var t := Contents(qs, def);
            && t.prefixes == Items(qs[PREFIX]) && t.def == def && |t.cmds| == CMD_HASH_SIZE
            && forall h | 0 <= h < CMD_HASH_SIZE :: t.cmds[h] == Items(qs[h])
  {
  }

  lemma DefaultSet(qs: seq<Nodes>, def: Option<Cmd>, next: Option<Cmd>)
    requires |qs| == HEADERS
    ensures Contents(qs, next) == Contents(qs, def).(def := next)
  {
  }

  lemma Inserted(qs: seq<Nodes>, def: Option<Cmd>, h: nat, n: Node<Cmd>)
    requires |qs| == HEADERS && h < PREFIX
    ensures var t := Contents(qs, def);
            Contents(qs[h := [n] + qs[h]], def) == t.(cmds := t.cmds[h := [n.item] + t.cmds[h]])
  {
    var rs := qs[h := [n] + qs[h]];
    assert Items(rs[h]) == [n.item] + Items(qs[h]);
    assert AllItems(rs)[..PREFIX] == AllItems(qs)[..PREFIX][h := Items(rs[h])];
  }

  lemma Appended(qs: seq<Nodes>, def: Option<Cmd>, n: Node<Cmd>)
    requires |qs| == HEADERS
    ensures var t := Contents(qs, def);
            Contents(qs[PREFIX := qs[PREFIX] + [n]], def) == t.(prefixes := t.prefixes + [n.item])
  {
    var rs := qs[PREFIX := qs[PREFIX] + [n]];
    assert Items(rs[PREFIX]) == Items(qs[PREFIX]) + [n.item];
    assert AllItems(rs)[..PREFIX] == AllItems(qs)[..PREFIX];
  }

  lemma Deleted(qs: seq<Nodes>, def: Option<Cmd>, h: nat, i: nat)
    requires |qs| == HEADERS && h < HEADERS && i < |qs[h]|
    ensures var t := Contents(qs, def); var cs := Items(qs[h]); var r := cs[..i] + cs[i + 1..];
            Contents(qs[h := qs[h][..i] + qs[h][i + 1..]], def)
            == if h == PREFIX then t.(prefixes := r) else t.(cmds := t.cmds[h := r])
  {
    var rs := qs[h := qs[h][..i] + qs[h][i + 1..]];
    var cs := Items(qs[h]);
    assert Items(rs[h]) == cs[..i] + cs[i + 1..];
    if h == PREFIX {
      assert AllItems(rs)[..PREFIX] == AllItems(qs)[..PREFIX];
    } else {
      assert AllItems(rs)[..PREFIX] == AllItems(qs)[..PREFIX][h := Items(rs[h])];
    }
  }

  lemma SamePath(u: Url, v: Url)
    requires IsPrefix(u) == IsPrefix(v)
    ensures Path(u) == Path(v) <==> u == v
  {
    if IsPrefix(u) {
      assert u == Path(u) + "/" && v == Path(v) + "/";
    }
  }

  /** The first command of `url` is at `k`, or past it. */
  lemma DropAt(q: seq<Cmd>, k: nat, url: Url)
    requires k < |q| && forall c <- q[..k] :: c.url != url
    requires DropFirst(q, url) == q[..k] + DropFirst(q[k..], url)
    ensures q[k].url != url ==> DropFirst(q, url) == q[..k + 1] + DropFirst(q[k + 1..], url)
    ensures q[k].url == url ==> DropFirst(q, url) == q[..k] + q[k + 1..] && (HitsLast(q, url) <==> k == |q| - 1)
  {
    assert q[k..][1..] == q[k + 1..];
    if q[k].url != url {
      assert q[..k + 1] == q[..k] + [q[k]];
    } else if k < |q| - 1 {
      assert q[k] in q[..|q| - 1];
    }
  }

  lemma DropNothing(q: seq<Cmd>, url: Url)
    requires forall c <- q[..|q|] :: c.url != url
    requires DropFirst(q, url) == q[..|q|] + DropFirst(q[|q|..], url)
    ensures DropFirst(q, url) == q && !HitsLast(q, url)
  {
    assert q[..|q|] == q;
  }

  /** The queue holds prefixes and the buckets do not. */
  lemma KindsApart(ops: seq<Op>)
    ensures forall c <- After(ops).prefixes :: IsPrefix(c.url)
    ensures forall h, c | 0 <= h < CMD_HASH_SIZE && c in After(ops).cmds[h] :: !IsPrefix(c.url)
  {
    HistoryRepresents(ops);
    var f := Registered(ops).methods;
    QueueKind(f);
    forall h, c | 0 <= h < CMD_HASH_SIZE && c in After(ops).cmds[h] ensures !IsPrefix(c.url) {
      BucketKind(f, h);
    }
  }

  lemma {:induction false} QueueKind(f: seq<Cmd>)
    ensures forall c <- PrefixesOf(f) :: IsPrefix(c.url)
  {
    if f != [] { QueueKind(f[..|f| - 1]); }
  }

  lemma {:induction false} BucketKind(f: seq<Cmd>, h: nat)
    ensures forall c <- BucketOf(f, h) :: !IsPrefix(c.url)
  {
    if f != [] { BucketKind(f[..|f| - 1], h); }
  }
}
