/**
 What a request is dispatched to, in terms of the history of operations alone: which registrations survive, and
 which of the survivors serves a URL.
 */
module DispatchMeaning {
  import opened Common
  import opened Frame
  import opened Urls
  import opened Dispatch
  import opened DispatchSafety

  function Adds(ops: seq<Op>, u: Url): (n: nat)
  {
    if ops == [] then 0
    else Adds(ops[..|ops| - 1], u) + if ops[|ops| - 1].Add? && ops[|ops| - 1].url == u then 1 else 0
  }

  function Removals(ops: seq<Op>, u: Url): (n: nat)
  {
    if ops == [] then 0
    else Removals(ops[..|ops| - 1], u) + if ops[|ops| - 1] == Remove(u) then 1 else 0
  }

  /** How many registrations of `u` are left, if every removal takes one while there is one. */
  function Kept(ops: seq<Op>, u: Url): (n: nat)
  {
    if ops == [] then 0
    else
      var n, op := Kept(ops[..|ops| - 1], u), ops[|ops| - 1];
      if op.url != u then n else if op.Add? then n + 1 else if n > 0 then n - 1 else 0
  }

  /** At no time had `u` been removed more often than registered. */
  ghost predicate Covered(ops: seq<Op>, u: Url) {
    forall k | 0 <= k <= |ops| :: Removals(ops[..k], u) <= Adds(ops[..k], u)
  }

  /**
   The removals since the `i`-th operation spared what it registered. They take the newest registration of an exact
   URL, so there must never have been more of them than of newer registrations; they take the oldest registration
   of a prefix, so there must have been at most as many as there were older ones to take.
   */
  ghost predicate Outlives(ops: seq<Op>, i: nat)
    requires i < |ops| && ops[i].url != ""
  {
    var u, later := ops[i].url, ops[i + 1..];
    if u[|u| - 1] == '/' then Removals(later, u) <= Kept(ops[..i], u) else Covered(later, u)
  }

  /** The `i`-th operation registered a method, exact or prefix, that is still registered. */
  ghost predicate Survives(ops: seq<Op>, i: nat) {
    i < |ops| && ops[i].Add? && |ops[i].url| > 1 && ops[i].url[0] == '/' && Outlives(ops, i)
  }

  /** A surviving registration of exactly this URL. */
  ghost predicate ServesExactly(ops: seq<Op>, i: nat, url: Url) {
    Survives(ops, i) && ops[i].url == url && url[|url| - 1] != '/'
  }

  /** A surviving registration of a prefix `p + "/"` where the URL is `p` or begins with `p + "/"`. */
  ghost predicate ServesSubtree(ops: seq<Op>, i: nat, url: Url) {
    && Survives(ops, i) && var u := ops[i].url; u[|u| - 1] == '/' && (url + "/" == u || u <= url)
  }

  /** The newest surviving registration of the URL; else the oldest surviving prefix it lies under; else the default
      that was set last, if it was not taken away since. */
  ghost predicate Dispatched(ops: seq<Op>, url: Url, r: Option<Cmd>) {
    if exists i: nat :: ServesExactly(ops, i, url) then
      exists i: nat :: ServesExactly(ops, i, url) && (forall j: nat | ServesExactly(ops, j, url) :: j <= i)
                  && r == Some(Cmd(ops[i].url, ops[i].handler))
    else if exists i: nat :: ServesSubtree(ops, i, url) then
      exists i: nat :: ServesSubtree(ops, i, url) && (forall j: nat | ServesSubtree(ops, j, url) :: i <= j)
                  && r == Some(Cmd(ops[i].url, ops[i].handler))
    else DefaultIs(ops, r)
  }

  ghost predicate SetsDefault(ops: seq<Op>, i: nat) {
    i < |ops| && ops[i].Add? && ops[i].url == "/"
  }

  ghost predicate ClearedAfter(ops: seq<Op>, i: nat) {
    exists j: nat :: i < j < |ops| && ops[j] == Remove("/")
  }

  ghost predicate DefaultIs(ops: seq<Op>, r: Option<Cmd>) {
    match r
    case None => forall i: nat | SetsDefault(ops, i) :: ClearedAfter(ops, i)
    case Some(c) => c.url == "/" && exists i: nat :: SetsDefault(ops, i) && ops[i].handler == c.handler
                                              && forall j | i < j < |ops| :: ops[j].url != "/"
  }

  // ---- Registrations by the index they were made at ---------------------------------------

  /** The history with every handler replaced by the index of its operation. */
  function Numbered(ops: seq<Op>): (r: seq<Op>)
    ensures |r| == |ops|
  {
    seq(|ops|, i requires 0 <= i < |ops| => if ops[i].Add? then Add(ops[i].url, i) else ops[i])
  }

  function Survivors(ops: seq<Op>): seq<Cmd> {
    Registered(Numbered(ops)).methods
  }

  lemma NumberedSnoc(ops: seq<Op>)
    requires ops != []
    ensures var n := |ops| - 1;
            && Numbered(ops)[..n] == Numbered(ops[..n])
            && Numbered(ops)[n] == if ops[n].Add? then Add(ops[n].url, n) else ops[n]
  {
  }

  /** The indices of the commands with URL `u`. */
  function Of(f: seq<Cmd>, u: Url): (r: seq<nat>)
  {
    if f == [] then []
    else Of(f[..|f| - 1], u) + if f[|f| - 1].url == u then [f[|f| - 1].handler] else []
  }

  lemma OfSnoc(f: seq<Cmd>, c: Cmd, u: Url)
    ensures Of(f + [c], u) == if c.url == u then Of(f, u) + [c.handler] else Of(f, u)
  {
    assert (f + [c])[..|f|] == f;
  }

  lemma {:induction false} OfDropLast(f: seq<Cmd>, u: Url, v: Url)
    ensures var q := Of(f, v); Of(DropLast(f, u), v) == if u == v && q != [] then q[..|q| - 1] else q
  {
    if f != [] {
      var n := |f| - 1;
      OfDropLast(f[..n], u, v);
      OfSnoc(f[..n], f[n], v);
      if f[n].url != u {
        OfSnoc(DropLast(f[..n], u), f[n], v);
      }
    }
  }

  lemma {:induction false} OfHas(f: seq<Cmd>, u: Url)
    ensures Of(f, u) != [] <==> Has(f, u)
  {
    if f != [] {
      var n := |f| - 1;
      OfHas(f[..n], u);
      HasSnoc(f[..n], f[n], u);
      assert f == f[..n] + [f[n]];
    }
  }

  lemma {:induction false} OfDropFirst(f: seq<Cmd>, u: Url, v: Url)
    ensures var q := Of(f, v); Of(DropFirst(f, u), v) == if u == v && q != [] then q[1..] else q
  {
    if f != [] {
      var n := |f| - 1;
      var g, c := f[..n], f[n];
      assert f == g + [c];
      OfDropFirst(g, u, v);
      OfSnoc(g, c, v);
      OfHas(g, u);
      DropFirstSnoc(g, c, u);
      OfSnoc(DropFirst(g, u), c, v);
    }
  }

  /** The survivors of one URL, one operation later. */
  ghost predicate LineAfter(op: Op, n: nat, u: Url, q: seq<nat>, r: seq<nat>)
    requires u != ""
  {
    r == if op.url != u then q
         else if op.Add? then q + [n]
         else if q == [] then q
         else if u[|u| - 1] == '/' then q[1..] else q[..|q| - 1]
  }

  lemma OfStep(ops: seq<Op>, u: Url)
    requires ops != [] && Rooted(u) && |u| > 1
    ensures var n := |ops| - 1; LineAfter(ops[n], n, u, Of(Survivors(ops[..n]), u), Of(Survivors(ops), u))
  {
    hide DropFirst, DropLast, Of, Numbered;
    var n := |ops| - 1;
    var f, op := Survivors(ops[..n]), ops[n];
    NumberedSnoc(ops);
    if op.Add? {
      OfSnoc(f, Cmd(op.url, n), u);
    } else {
      OfDropFirst(f, op.url, u);
      OfDropLast(f, op.url, u);
    }
  }

  // ---- Who survives -----------------------------------------------------------------------

  lemma CountSnoc(s: seq<Op>, op: Op, u: Url)
    ensures Adds(s + [op], u) == Adds(s, u) + if op.Add? && op.url == u then 1 else 0
    ensures Removals(s + [op], u) == Removals(s, u) + if op == Remove(u) then 1 else 0
  {
    assert (s + [op])[..|s|] == s;
  }

  lemma CoveredSnoc(s: seq<Op>, op: Op, u: Url)
    ensures Covered(s + [op], u) <==> Covered(s, u) && Removals(s + [op], u) <= Adds(s + [op], u)
  {
    var t := s + [op];
    assert forall k | 0 <= k <= |s| :: t[..k] == s[..k];
    assert t[..|t|] == t;
  }

  /** How many more removals of its URL a registration could see now: those that newer registrations of an exact
      URL, or older ones of a prefix, would take. */
  ghost function Spare(ops: seq<Op>, i: nat): int
    requires i < |ops| && ops[i].url != ""
  {
    var u, later := ops[i].url, ops[i + 1..];
    (if u[|u| - 1] == '/' then Kept(ops[..i], u) else Adds(later, u)) - Removals(later, u)
  }

  /** A registration survives one more operation exactly if it had survived and could spare a removal. */
  lemma SurvivesSnoc(ops: seq<Op>, i: nat)
    requires ops != [] && i < |ops| - 1 && ops[i].url != ""
    ensures var n, u := |ops| - 1, ops[i].url;
            && (Survives(ops, i) <==> Survives(ops[..n], i) && Spare(ops, i) >= 0)
            && Spare(ops, i) == Spare(ops[..n], i)
                                + if ops[n].url != u then 0 else if ops[n].Remove? then -1
                                  else if u[|u| - 1] == '/' then 0 else 1
  {
    hide Covered, Adds, Removals, Kept;
    var n := |ops| - 1;
    var init, u := ops[..n], ops[i].url;
    var before, later := init[i + 1..], ops[i + 1..];
    assert later == before + [ops[n]] && init[..i] == ops[..i];
    CountSnoc(before, ops[n], u);
    CoveredSnoc(before, ops[n], u);
  }

  /** The last operation survives if it registers a method at all. */
  lemma NewestSurvives(ops: seq<Op>)
    requires ops != []
    ensures var n := |ops| - 1; var u := ops[n].url;
            && (Survives(ops, n) <==> ops[n].Add? && |u| > 1 && u[0] == '/')
            && (u != "" ==> Spare(ops, n) == if u[|u| - 1] == '/' then Kept(ops[..n], u) else 0)
  {
    assert ops[|ops|..] == [];
  }

  /** The registrations `q` of URL `u` that survive. Those of an exact URL form a stack: `q[k]` has
      `|q| - 1 - k` above it. Those of a prefix form a queue: `q[k]` has `k` before it. */
  ghost predicate Line(ops: seq<Op>, u: Url, q: seq<nat>)
    requires u != ""
  {
    && (forall k | 0 <= k < |q| ::
          && Survives(ops, q[k]) && ops[q[k]].url == u
          && Spare(ops, q[k]) == if u[|u| - 1] == '/' then k else |q| - 1 - k)
    && (forall i: nat | Survives(ops, i) && ops[i].url == u :: i in q)
    && (u[|u| - 1] == '/' ==> Kept(ops, u) == |q|)
  }

  lemma LineStep(ops: seq<Op>, u: Url, q: seq<nat>, r: seq<nat>)
    requires ops != [] && Rooted(u) && |u| > 1 && Line(ops[..|ops| - 1], u, q)
    requires LineAfter(ops[|ops| - 1], |ops| - 1, u, q, r)
    ensures Line(ops, u, r)
  {
    hide Outlives, Spare, LineAfter, Kept;
    forall k | 0 <= k < |r|
      ensures Survives(ops, r[k]) && ops[r[k]].url == u
      ensures Spare(ops, r[k]) == if u[|u| - 1] == '/' then k else |r| - 1 - k
    {
      Lined(ops, u, q, r, k);
    }
    forall i: nat | Survives(ops, i) && ops[i].url == u ensures i in r {
      InLine(ops, u, q, r, i);
    }
    if u[|u| - 1] == '/' { KeptInLine(ops, u, q, r); }
  }

  lemma KeptInLine(ops: seq<Op>, u: Url, q: seq<nat>, r: seq<nat>)
    requires ops != [] && u != "" && u[|u| - 1] == '/' && Kept(ops[..|ops| - 1], u) == |q|
    requires LineAfter(ops[|ops| - 1], |ops| - 1, u, q, r)
    ensures Kept(ops, u) == |r|
  {
  }

  lemma Lined(ops: seq<Op>, u: Url, q: seq<nat>, r: seq<nat>, k: nat)
    requires ops != [] && Rooted(u) && |u| > 1 && Line(ops[..|ops| - 1], u, q)
    requires LineAfter(ops[|ops| - 1], |ops| - 1, u, q, r) && k < |r|
    ensures r[k] < |ops| && Survives(ops, r[k]) && ops[r[k]].url == u
    ensures Spare(ops, r[k]) == if u[|u| - 1] == '/' then k else |r| - 1 - k
  {
    hide Outlives, Spare;
    var n := |ops| - 1;
    if ops[n].url == u && ops[n].Add? && k == |q| {
      NewestSurvives(ops);
    } else {
      var g := if ops[n].url == u && ops[n].Remove? && u[|u| - 1] == '/' then k + 1 else k;
      assert r[k] == q[g];
      SurvivesSnoc(ops, r[k]);
    }
  }

  lemma InLine(ops: seq<Op>, u: Url, q: seq<nat>, r: seq<nat>, i: nat)
    requires ops != [] && Rooted(u) && |u| > 1 && Line(ops[..|ops| - 1], u, q)
    requires LineAfter(ops[|ops| - 1], |ops| - 1, u, q, r)
    requires Survives(ops, i) && i < |ops| && ops[i].url == u
    ensures i in r
  {
    hide Outlives, Spare;
    var n := |ops| - 1;
    if i < n {
      SurvivesSnoc(ops, i);
      var g :| 0 <= g < |q| && q[g] == i;
      if ops[n].url == u && ops[n].Remove? {
        assert i == r[if u[|u| - 1] == '/' then g - 1 else g];
      }
    }
  }

  lemma {:induction false} LineOfSurvivors(ops: seq<Op>, u: Url)
    requires Rooted(u) && |u| > 1
    ensures Line(ops, u, Of(Survivors(ops), u))
    decreases |ops|
  {
    if ops == [] {
    } else {
      hide Outlives, Survivors, Of, Spare;
      LineOfSurvivors(ops[..|ops| - 1], u);
      OfStep(ops, u);
      LineStep(ops, u, Of(Survivors(ops[..|ops| - 1]), u), Of(Survivors(ops), u));
    }
  }

  // ---- Survivors and registered methods, one for one ----------------------------------------

  /** The survivors stand in the order they were registered, and are the registered methods. */
  ghost predicate Tagged(ops: seq<Op>, f: seq<Cmd>, g: seq<Cmd>) {
    && |f| == |g|
    && (forall k | 0 <= k < |f| ::
          && |f[k].url| > 1 && f[k].url[0] == '/' && f[k].url == g[k].url
          && f[k].handler < |ops| && ops[f[k].handler] == Add(g[k].url, g[k].handler))
    && (forall j, k | 0 <= j < k < |f| :: f[j].handler < f[k].handler)
  }

  /** `f` without its `i`-th command. */
  function Cut(f: seq<Cmd>, i: nat): (r: seq<Cmd>)
  {
    if i < |f| then f[..i] + f[i + 1..] else f
  }

  lemma CutCons(f: seq<Cmd>, j: nat)
    requires j < |f|
    ensures [f[0]] + Cut(f[1..], j) == Cut(f, j + 1)
  {
    var g := f[1..];
    if j < |g| {
      assert g[..j] == f[1..j + 1] && g[j + 1..] == f[j + 2..];
      assert [f[0]] + f[1..j + 1] == f[..j + 1];
    } else {
      assert [f[0]] + g == f;
    }
  }

  lemma CutFirst(f: seq<Cmd>)
    ensures Cut(f, 0) == if f == [] then [] else f[1..]
  {
  }

  lemma {:induction false} DropFirstAt(f: seq<Cmd>, u: Url) returns (i: nat)
    ensures i <= |f| && (i < |f| ==> f[i].url == u) && forall k | 0 <= k < i :: f[k].url != u
    ensures DropFirst(f, u) == Cut(f, i)
  {
    hide Cut;
    if f == [] || f[0].url == u {
      i := 0;
      CutFirst(f);
    } else {
      var j := DropFirstAt(f[1..], u);
      i := j + 1;
      CutCons(f, j);
    }
  }

  lemma {:induction false} DropLastAt(f: seq<Cmd>, u: Url) returns (i: nat)
    ensures i <= |f| && (i < |f| ==> f[i].url == u && forall k | i < k < |f| :: f[k].url != u)
    ensures i == |f| ==> forall k | 0 <= k < |f| :: f[k].url != u
    ensures DropLast(f, u) == Cut(f, i)
  {
    var n := |f| - 1;
    if f == [] {
      i := 0;
    } else if f[n].url == u {
      i := n;
    } else {
      var j := DropLastAt(f[..n], u);
      i := if j == n then n + 1 else j;
      assert Cut(f[..n], j) + [f[n]] == Cut(f, i);
    }
  }

  lemma TaggedStep(ops: seq<Op>, f: seq<Cmd>, g: seq<Cmd>)
    requires ops != [] && Tagged(ops[..|ops| - 1], f, g)
    ensures Tagged(ops, f, g)
    ensures var op := ops[|ops| - 1];
            && op.Add? && |op.url| > 1 && op.url[0] == '/'
            ==> Tagged(ops, f + [Cmd(op.url, |ops| - 1)], g + [Cmd(op.url, op.handler)])
  {
  }

  lemma TaggedCut(ops: seq<Op>, f: seq<Cmd>, g: seq<Cmd>, i: nat)
    requires Tagged(ops, f, g)
    ensures Tagged(ops, Cut(f, i), Cut(g, i))
  {
  }

  lemma TaggedDrop(ops: seq<Op>, f: seq<Cmd>, g: seq<Cmd>, u: Url)
    requires Tagged(ops, f, g)
    ensures Tagged(ops, DropFirst(f, u), DropFirst(g, u))
    ensures Tagged(ops, DropLast(f, u), DropLast(g, u))
  {
    hide DropFirst, DropLast, Cut;
    var i := DropFirstAt(f, u);
    var i' := DropFirstAt(g, u);
    assert i == i';
    TaggedCut(ops, f, g, i);
    var j := DropLastAt(f, u);
    var j' := DropLastAt(g, u);
    assert j == j';
    TaggedCut(ops, f, g, j);
  }

  lemma TaggedAtFirst()
    ensures Tagged([], Survivors([]), Registered([]).methods)
  {
  }

  lemma {:induction false} SurvivorsTagged(ops: seq<Op>)
    ensures Tagged(ops, Survivors(ops), Registered(ops).methods)
    decreases |ops|
  {
    hide Tagged, DropFirst, DropLast, Numbered;
    if ops == [] {
      TaggedAtFirst();
    } else {
      var n := |ops| - 1;
      var init, op := ops[..n], ops[n];
      var f, g := Survivors(init), Registered(init).methods;
      SurvivorsTagged(init);
      NumberedSnoc(ops);
      TaggedStep(ops, f, g);
      if op.Remove? { TaggedDrop(ops, f, g, op.url); }
    }
  }

  lemma {:induction false} OfMember(f: seq<Cmd>, u: Url, i: nat)
    ensures i in Of(f, u) <==> Cmd(u, i) in f
  {
    if f != [] {
      var n := |f| - 1;
      OfMember(f[..n], u, i);
      assert f == f[..n] + [f[n]];
    }
  }

  /** The registered methods are the surviving registrations. */
  lemma SurvivorsSurvive(ops: seq<Op>, u: Url, i: nat)
    requires |u| > 1 && u[0] == '/'
    ensures Cmd(u, i) in Survivors(ops) <==> Survives(ops, i) && ops[i].url == u
  {
    hide Outlives, Survivors, Of;
    LineOfSurvivors(ops, u);
    OfMember(Survivors(ops), u, i);
  }

  // ---- Which survivor serves ----------------------------------------------------------------

  lemma {:induction false} NewestAt(f: seq<Cmd>, url: Url) returns (k: nat)
    ensures NewestExact(f, url).None? ==> forall j | 0 <= j < |f| :: !(IsExact(f[j].url) && f[j].url == url)
    ensures NewestExact(f, url).Some? ==>
              && k < |f| && NewestExact(f, url) == Some(f[k]) && IsExact(f[k].url) && f[k].url == url
              && forall j | k < j < |f| :: f[j].url != url
  {
    k := 0;
    if f != [] {
      var n := |f| - 1;
      if IsExact(f[n].url) && f[n].url == url { k := n; } else { k := NewestAt(f[..n], url); }
    }
  }

  lemma {:induction false} OldestAt(f: seq<Cmd>, url: Url) returns (k: nat)
    ensures OldestPrefix(f, url).None? ==> forall j | 0 <= j < |f| :: !Under(f[j].url, url)
    ensures OldestPrefix(f, url).Some? ==>
              && k < |f| && OldestPrefix(f, url) == Some(f[k]) && Under(f[k].url, url)
              && forall j | 0 <= j < k :: !Under(f[j].url, url)
  {
    k := 0;
    if f != [] {
      var n := |f| - 1;
      k := OldestAt(f[..n], url);
      UnderMeans(f[n].url, url);
      if OldestPrefix(f[..n], url).None? { k := n; }
    }
  }

  ghost predicate Under(u: Url, url: Url) {
    |u| > 1 && u[|u| - 1] == '/' && (url + "/" == u || u <= url)
  }

  lemma UnderMeans(u: Url, url: Url)
    ensures Under(u, url) <==> IsPrefix(u) && PrefixMatches(Path(u), url)
  {
    if IsPrefix(u) {
      var n := |u| - 1;
      assert u == u[..n] + "/";
      if u <= url { assert url[..n] == u[..n] && url[n] == u[n]; }
      if PrefixMatches(Path(u), url) && |url| > n { assert url[..n + 1] == u; }
    }
  }

  /** Where a survivor stands. */
  lemma Position(ops: seq<Op>, i: nat) returns (k: nat)
    requires Survives(ops, i)
    ensures i < |ops| && ops[i].Add? && k < |Survivors(ops)| == |Registered(ops).methods|
    ensures Survivors(ops)[k].handler == i && Registered(ops).methods[k] == Cmd(ops[i].url, ops[i].handler)
  {
    hide Outlives, Survivors, Registered;
    SurvivorsTagged(ops);
    SurvivorsSurvive(ops, ops[i].url, i);
    k :| 0 <= k < |Survivors(ops)| && Survivors(ops)[k] == Cmd(ops[i].url, i);
  }

  /** What stands at a position has survived. */
  lemma Standing(ops: seq<Op>, k: nat)
    requires k < |Registered(ops).methods|
    ensures k < |Survivors(ops)|
    ensures var i, c := Survivors(ops)[k].handler, Registered(ops).methods[k];
            Survives(ops, i) && ops[i] == Add(c.url, c.handler)
    ensures forall j | 0 <= j < k :: Survivors(ops)[j].handler < Survivors(ops)[k].handler
  {
    hide Outlives, Survivors, Registered;
    SurvivorsTagged(ops);
    SurvivorsSurvive(ops, Survivors(ops)[k].url, Survivors(ops)[k].handler);
  }

  lemma ExactMeans(ops: seq<Op>, url: Url)
    ensures var r := NewestExact(Registered(ops).methods, url);
            if r.None? then forall i: nat :: !ServesExactly(ops, i, url)
            else exists i: nat :: ServesExactly(ops, i, url) && (forall j: nat | ServesExactly(ops, j, url) :: j <= i)
                             && r == Some(Cmd(ops[i].url, ops[i].handler))
  {
    hide Outlives, Survivors, Registered, NewestExact;
    var f, g := Survivors(ops), Registered(ops).methods;
    var k := NewestAt(g, url);
    if NewestExact(g, url).Some? {
      Standing(ops, k);
      assert ServesExactly(ops, f[k].handler, url);
    }
    forall i: nat | ServesExactly(ops, i, url) ensures NewestExact(g, url).Some? && i <= f[k].handler {
      var j := Position(ops, i);
    }
  }

  lemma SubtreeMeans(ops: seq<Op>, url: Url)
    ensures var r := OldestPrefix(Registered(ops).methods, url);
            if r.None? then forall i: nat :: !ServesSubtree(ops, i, url)
            else exists i: nat :: ServesSubtree(ops, i, url) && (forall j: nat | ServesSubtree(ops, j, url) :: i <= j)
                             && r == Some(Cmd(ops[i].url, ops[i].handler))
  {
    hide Outlives, Survivors, Registered, OldestPrefix;
    var f, g := Survivors(ops), Registered(ops).methods;
    var k := OldestAt(g, url);
    if OldestPrefix(g, url).Some? {
      Standing(ops, k);
      assert ServesSubtree(ops, f[k].handler, url);
    }
    forall i: nat | ServesSubtree(ops, i, url) ensures OldestPrefix(g, url).Some? && f[k].handler <= i {
      var j := Position(ops, i);
      assert Under(g[j].url, url);
      Standing(ops, j);
    }
  }

  lemma DefaultStep(ops: seq<Op>)
    requires ops != []
    ensures var n := |ops| - 1;
            Registered(ops).def == if ops[n].url != "/" then Registered(ops[..n]).def
                                   else if ops[n].Add? then Some(Cmd("/", ops[n].handler)) else None
  {
    hide DropFirst, DropLast;
    var u := ops[|ops| - 1].url;
    if |u| == 1 && u[0] == '/' { assert u == "/"; }
  }

  lemma DefaultKept(ops: seq<Op>, r: Option<Cmd>)
    requires ops != [] && ops[|ops| - 1].url != "/" && DefaultIs(ops[..|ops| - 1], r)
    ensures DefaultIs(ops, r)
  {
    var n := |ops| - 1;
    var init := ops[..n];
    if r.None? {
      forall i: nat | SetsDefault(ops, i) ensures ClearedAfter(ops, i) {
        assert SetsDefault(init, i);
        var j: nat :| i < j < n && init[j] == Remove("/");
        assert ops[j] == init[j];
      }
    } else {
      var i: nat :| SetsDefault(init, i) && init[i].handler == r.value.handler
                    && forall j | i < j < n :: init[j].url != "/";
      assert SetsDefault(ops, i);
    }
  }

  lemma DefaultNow(ops: seq<Op>)
    requires ops != [] && ops[|ops| - 1].url == "/"
    ensures var op := ops[|ops| - 1]; DefaultIs(ops, if op.Add? then Some(Cmd("/", op.handler)) else None)
  {
    var n := |ops| - 1;
    if ops[n].Add? {
      assert SetsDefault(ops, n);
    } else {
      assert ops[n] == Remove("/");
    }
  }

  lemma {:induction false} DefaultMeans(ops: seq<Op>)
    ensures DefaultIs(ops, Registered(ops).def)
    decreases |ops|
  {
    if ops != [] {
      hide DefaultIs, Registered;
      DefaultMeans(ops[..|ops| - 1]);
      DefaultStep(ops);
      if ops[|ops| - 1].url == "/" { DefaultNow(ops); } else { DefaultKept(ops, Registered(ops).def); }
    }
  }

  /** Every request goes to the newest surviving registration of its URL, else to the oldest surviving prefix it
      lies under, else to the default: for every history and every URL. */
  lemma DispatchMeans(ops: seq<Op>, url: Url)
    ensures Dispatched(ops, url, Match(After(ops), url))
  {
    hide Match, After, ServesExactly, ServesSubtree, Registered, DefaultIs, NewestExact, OldestPrefix;
    DispatchAgrees(ops, url);
    ExactMeans(ops, url);
    SubtreeMeans(ops, url);
    DefaultMeans(ops);
  }
}
