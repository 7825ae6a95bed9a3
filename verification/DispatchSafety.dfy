/** The dispatch tables agree with the flat registry, and when the queue's tail pointer goes stale. */
module DispatchSafety {
  import opened Frame
  import opened Urls
  import opened Dispatch

  predicate Has(f: seq<Cmd>, url: Url) {
    exists c <- f :: c.url == url
  }

  lemma {:induction false} DropFirstSnoc(f: seq<Cmd>, c: Cmd, url: Url)
    ensures DropFirst(f + [c], url)
            == if Has(f, url) then DropFirst(f, url) + [c] else if c.url == url then f else f + [c]
  {
    if f == [] {
      assert [c][1..] == [];
    } else {
      assert (f + [c])[1..] == f[1..] + [c];
      assert f == [f[0]] + f[1..];
      if f[0].url != url { DropFirstSnoc(f[1..], c, url); }
    }
  }

  lemma {:induction false} FirstPrefixSnoc(q: seq<Cmd>, c: Cmd, url: Url)
    ensures FirstPrefix(q + [c], url)
            == if FirstPrefix(q, url).Some? then FirstPrefix(q, url)
               else if PrefixMatches(Path(c.url), url) then Some(c) else None
  {
    if q == [] {
      assert [c][1..] == [];
    } else {
      assert (q + [c])[1..] == q[1..] + [c];
      FirstPrefixSnoc(q[1..], c, url);
    }
  }

  lemma BucketSnoc(f: seq<Cmd>, c: Cmd, h: nat)
    ensures BucketOf(f + [c], h) == if IsExact(c.url) && Hash(c.url) == h then [c] + BucketOf(f, h) else BucketOf(f, h)
  {
    assert (f + [c])[..|f|] == f;
  }

  lemma PrefixesSnoc(f: seq<Cmd>, c: Cmd)
    ensures PrefixesOf(f + [c]) == if IsPrefix(c.url) then PrefixesOf(f) + [c] else PrefixesOf(f)
  {
    assert (f + [c])[..|f|] == f;
  }

  lemma DropFirstCons(c: Cmd, q: seq<Cmd>, url: Url)
    ensures DropFirst([c] + q, url) == if c.url == url then q else [c] + DropFirst(q, url)
  {
    assert ([c] + q)[1..] == q;
  }

  // ---- Removal ----------------------------------------------------------------------------

  /** Taking the newest registration of an exact URL out of the registry takes the head-most of that URL out
      of its bucket, and leaves the other buckets and the queue alone. */
  lemma {:induction false} DropLastBuckets(f: seq<Cmd>, url: Url, h: nat)
    requires IsExact(url)
    ensures BucketOf(DropLast(f, url), h)
            == if h == Hash(url) then DropFirst(BucketOf(f, h), url) else BucketOf(f, h)
  {
    if f != [] {
      var n := |f| - 1;
      var g, c := f[..n], f[n];
      assert f == g + [c] && DropLast(f, url) == if c.url == url then g else DropLast(g, url) + [c];
      hide Hash, IsExact, BucketOf, DropFirst, DropLast;
      BucketSnoc(g, c, h);
      DropFirstCons(c, BucketOf(g, h), url);
      if c.url != url {
        DropLastBuckets(g, url, h);
        BucketSnoc(DropLast(g, url), c, h);
      }
    }
  }

  lemma {:induction false} DropLastPrefixes(f: seq<Cmd>, url: Url)
    requires IsExact(url)
    ensures PrefixesOf(DropLast(f, url)) == PrefixesOf(f)
  {
    if f != [] {
      var n := |f| - 1;
      if f[n].url != url {
        DropLastPrefixes(f[..n], url);
        PrefixesSnoc(DropLast(f[..n], url), f[n]);
      }
    }
  }

  /** Taking the oldest registration of a prefix out of the registry takes the first of that URL out of the
      queue, and leaves the buckets alone. */
  lemma {:induction false} DropFirstQueue(f: seq<Cmd>, url: Url)
    requires IsPrefix(url)
    ensures PrefixesOf(DropFirst(f, url)) == DropFirst(PrefixesOf(f), url)
    ensures Has(PrefixesOf(f), url) <==> Has(f, url)
  {
    if f != [] {
      var n := |f| - 1;
      var g, c := f[..n], f[n];
      assert f == g + [c];
      HasSnoc(g, c, url);
      HasSnoc(PrefixesOf(g), c, url);
      if !Has(g, url) { DropFirstAbsent(g, url); }
      hide Has, PrefixesOf, DropFirst;
      DropFirstQueue(g, url);
      DropFirstSnoc(g, c, url);
      PrefixesSnoc(g, c);
      PrefixesSnoc(DropFirst(g, url), c);
      DropFirstSnoc(PrefixesOf(g), c, url);
    }
  }

  lemma {:induction false} DropFirstAbsent(f: seq<Cmd>, url: Url)
    requires !Has(f, url)
    ensures DropFirst(f, url) == f
  {
    if f != [] { DropFirstAbsent(f[1..], url); }
  }

  lemma HasSnoc(f: seq<Cmd>, c: Cmd, url: Url)
    ensures Has(f + [c], url) <==> Has(f, url) || c.url == url
  {
    if Has(f, url) {
      var d :| d in f && d.url == url;
      assert d in f + [c];
    }
    assert c in f + [c];
  }

  lemma {:induction false} DropFirstBuckets(f: seq<Cmd>, url: Url, h: nat)
    requires IsPrefix(url)
    ensures BucketOf(DropFirst(f, url), h) == BucketOf(f, h)
  {
    if f != [] {
      var n := |f| - 1;
      var g, c := f[..n], f[n];
      assert f == g + [c];
      DropFirstBuckets(g, url, h);
      DropFirstSnoc(g, c, url);
      BucketSnoc(g, c, h);
      BucketSnoc(DropFirst(g, url), c, h);
    }
  }

  // ---- Agreement --------------------------------------------------------------------------

  lemma AddRepresents(t: Tables, f: Registry, op: Op)
    requires Represents(t, f) && op.Add? && Rooted(op.url)
    ensures Represents(Applied(t, op), Flat(f, op))
  {
    if !IsDefault(op.url) {
      var c := Cmd(op.url, op.handler);
      PrefixesSnoc(f.methods, c);
      forall h | 0 <= h < CMD_HASH_SIZE ensures Applied(t, op).cmds[h] == BucketOf(f.methods + [c], h) {
        BucketSnoc(f.methods, c, h);
      }
    }
  }

  lemma RemoveRepresents(t: Tables, f: Registry, op: Op)
    requires Represents(t, f) && op.Remove? && Rooted(op.url)
    ensures Represents(Applied(t, op), Flat(f, op))
  {
    if IsPrefix(op.url) {
      DropFirstQueue(f.methods, op.url);
      forall h | 0 <= h < CMD_HASH_SIZE ensures Applied(t, op).cmds[h] == BucketOf(Flat(f, op).methods, h) {
        DropFirstBuckets(f.methods, op.url, h);
      }
    } else if IsExact(op.url) {
      DropLastPrefixes(f.methods, op.url);
      forall h | 0 <= h < CMD_HASH_SIZE ensures Applied(t, op).cmds[h] == BucketOf(Flat(f, op).methods, h) {
        DropLastBuckets(f.methods, op.url, h);
      }
    }
  }

  /** After every history the tables stand for the registry. */
  lemma {:induction false} HistoryRepresents(ops: seq<Op>)
    ensures Represents(After(ops), Registered(ops))
    decreases |ops|
  {
    if ops != [] {
      var init, op := ops[..|ops| - 1], ops[|ops| - 1];
      HistoryRepresents(init);
      if Rooted(op.url) {
        if op.Add? { AddRepresents(After(init), Registered(init), op); }
        else { RemoveRepresents(After(init), Registered(init), op); }
      }
    }
  }

  lemma {:induction false} BucketFindsNewest(f: seq<Cmd>, url: Url)
    ensures FirstExact(BucketOf(f, Hash(url)), url) == NewestExact(f, url)
  {
    if f != [] {
      var n := |f| - 1;
      BucketFindsNewest(f[..n], url);
      var b := BucketOf(f[..n], Hash(url));
      assert ([f[n]] + b)[1..] == b;
    }
  }

  lemma {:induction false} QueueFindsOldest(f: seq<Cmd>, url: Url)
    ensures FirstPrefix(PrefixesOf(f), url) == OldestPrefix(f, url)
  {
    if f != [] {
      var n := |f| - 1;
      QueueFindsOldest(f[..n], url);
      FirstPrefixSnoc(PrefixesOf(f[..n]), f[n], url);
    }
  }

  /** Bucketed dispatch is flat dispatch: for every URL, after every history. */
  lemma DispatchAgrees(ops: seq<Op>, url: Url)
    ensures Match(After(ops), url) == FlatMatch(Registered(ops), url)
  {
    HistoryRepresents(ops);
    BucketFindsNewest(Registered(ops).methods, url);
    QueueFindsOldest(Registered(ops).methods, url);
  }

  /** Removing an exact method undoes adding it: whatever it shadowed is exposed again. */
  lemma RemoveUndoesAdd(ops: seq<Op>, url: Url, handler: nat, u: Url)
    requires Rooted(url) && IsExact(url)
    ensures Match(After(ops + [Add(url, handler)]), url) == Some(Cmd(url, handler))
    ensures Match(After(ops + [Add(url, handler), Remove(url)]), u) == Match(After(ops), u)
  {
    hide After, Match;
    var a, b := Add(url, handler), Remove(url);
    RegisteredAgain(ops, url, handler);
    assert (ops + [a, b])[..|ops| + 1] == ops + [a] && (ops + [a])[..|ops|] == ops;
    DispatchAgrees(ops, u);
    DispatchAgrees(ops + [a], url);
    DispatchAgrees(ops + [a, b], u);
  }

  lemma RegisteredAgain(ops: seq<Op>, url: Url, handler: nat)
    requires Rooted(url) && IsExact(url)
    ensures NewestExact(Registered(ops + [Add(url, handler)]).methods, url) == Some(Cmd(url, handler))
    ensures Registered(ops + [Add(url, handler), Remove(url)]) == Registered(ops)
  {
    var a, b := Add(url, handler), Remove(url);
    assert (ops + [a, b])[..|ops| + 1] == ops + [a] && (ops + [a])[..|ops|] == ops;
    var f := Registered(ops).methods;
    assert (f + [Cmd(url, handler)])[..|f|] == f;
  }

  // ---- Safe histories ---------------------------------------------------------------------

  /** The `i`-th operation removes what is then the last prefix method. */
  predicate RemovesLast(ops: seq<Op>, i: nat)
    requires i < |ops|
  {
    var op := ops[i];
    op.Remove? && Rooted(op.url) && IsPrefix(op.url) && HitsLast(PrefixesOf(Registered(ops[..i]).methods), op.url)
  }

  /** At some time what was then the last prefix method was removed. */
  predicate LostLast(ops: seq<Op>) {
    exists i | 0 <= i < |ops| :: RemovesLast(ops, i)
  }

  /** No prefix method is added after the last one of the queue was removed. */
  predicate Safe(ops: seq<Op>) {
    !exists i, j | 0 <= i < j < |ops| :: RemovesLast(ops, i) && AddsPrefix(ops[j])
  }

  lemma SamePrefix(ops: seq<Op>, op: Op)
    ensures forall i | 0 <= i < |ops| :: RemovesLast(ops + [op], i) == RemovesLast(ops, i)
    ensures RemovesLast(ops + [op], |ops|)
            <==> op.Remove? && Rooted(op.url) && IsPrefix(op.url) && HitsLast(After(ops).prefixes, op.url)
  {
    forall i | 0 <= i <= |ops| ensures (ops + [op])[..i] == ops[..i] {
    }
    assert ops[..|ops|] == ops;
    HistoryRepresents(ops);
  }

  lemma LostLastSnoc(ops: seq<Op>, op: Op)
    ensures LostLast(ops + [op]) <==> LostLast(ops) || (op.Remove? && Rooted(op.url) && IsPrefix(op.url)
                                                        && HitsLast(After(ops).prefixes, op.url))
  {
    SamePrefix(ops, op);
    hide HitsLast, PrefixesOf, Registered, After, RemovesLast;
    if LostLast(ops) {
      var i :| 0 <= i < |ops| && RemovesLast(ops, i);
      assert RemovesLast(ops + [op], i);
    }
  }

  lemma SafeSnoc(ops: seq<Op>, op: Op)
    ensures Safe(ops + [op]) <==> Safe(ops) && !(AddsPrefix(op) && LostLast(ops))
  {
    hide RemovesLast, After, AddsPrefix;
    SamePrefix(ops, op);
    var all := ops + [op];
    if !Safe(ops) {
      var i, j :| 0 <= i < j < |ops| && RemovesLast(ops, i) && AddsPrefix(ops[j]);
      assert RemovesLast(all, i) && AddsPrefix(all[j]);
    } else if AddsPrefix(op) && LostLast(ops) {
      var i :| 0 <= i < |ops| && RemovesLast(ops, i);
      assert RemovesLast(all, i) && AddsPrefix(all[|ops|]);
    }
  }

  /** The shortest unsafe history: the only prefix method is removed, and any other added. */
  lemma PrefixAfterRemovalUnsafe(u: Url, v: Url, handler: nat)
    requires Rooted(u) && IsPrefix(u) && Rooted(v) && IsPrefix(v)
    ensures !Safe([Add(u, handler), Remove(u), Add(v, handler)])
  {
    hide Hash;
    var a, r, b := Add(u, handler), Remove(u), Add(v, handler);
    assert [a][..0] == [] && After([a]).prefixes == [Cmd(u, handler)];
    LostLastSnoc([a], r);
    assert [a] + [r] == [a, r] && [a, r] + [b] == [a, r, b];
    SafeSnoc([a, r], b);
  }
}
