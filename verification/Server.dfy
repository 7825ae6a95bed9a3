/** The server's connection handling as it runs: intrusive lists of clients and timers, updated in place. */
module Server {
  import opened Common
  import opened Frame
  import opened Lists
  import opened Probing
  import opened Urls
  import opened Connections
  import opened ConnectionSafety
  import opened ClientLists

  class Server {
    const cfg: Config
    var ncid: u32
    /** The hash chains and the timer list. */
    const roster: Roster
    /** The fields of the live clients. */
    var conns: map<u32, Conn>
    var event: bool

    ghost function View(): State
      reads this, roster, roster.table, roster.hst
    {
      State(ncid, roster.Buckets(), conns, roster.Timers(), event)
    }

    ghost predicate Shape()
      reads this, roster, roster.repr
    {
      roster.Valid() && this !in roster.repr && roster.Clients() == conns.Keys
    }

    ghost predicate Valid()
      reads this, roster, roster.repr
    {
      Sane(cfg) && Shape() && Inv(cfg, View())
    }

    constructor (cfg: Config)
      requires Sane(cfg)
      ensures Valid() && this.cfg == cfg && View() == Start()
      ensures fresh(roster) && fresh(roster.repr)
    {
      this.cfg := cfg;
      ncid, conns, event := 0, map[], false;
      roster := new Roster();
      new;
      ServerInvariant(cfg, []);
      assert View() == Start();
    }

    /** Walks the chain of an id. */
    method Find(id: u32) returns (found: bool)
      requires roster.Valid()
      ensures found <==> id in roster.Buckets()[Hash(id)]
    {
      hide NoDup, Chained;
      var table := roster.table;
      ghost var q := table.qs[Hash(id)];
      var cur := table.heads[Hash(id)];
      assert IsList(cur, q);
      ghost var i := 0;
      NextOf(cur, q, 0);
      while cur != null
        invariant i <= |q| && cur == At(q, i) && id !in Items(q)[..i]
        decreases |q| - i
      {
        if cur.item == id {
          assert Items(q)[i] == id;
          return true;
        }
        NextOf(table.heads[Hash(id)], q, i);
        cur := cur.next;
        i := i + 1;
      }
      assert Items(q)[..i] == Items(q);
      return false;
    }

    /** Draws ids until one is free: across wrap-around, after passing over at most as many as are taken. */
    method DrawId(ghost taken: set<u32>) returns (id: u32, next: u32)
      requires roster.Valid() && |taken| < IDS
      requires forall x: u32 :: x in roster.Buckets()[Hash(x)] <==> x in taken
      ensures id == FreshId(ncid, taken) && next == (id + 1) % 0x1_0000_0000 && id !in taken
      ensures forall x: u32 | (if ncid <= id then ncid <= x < id else x >= ncid || x < id) :: x in taken
    {
      hide Probe, AllTaken, Skipped, Hash, Roster.Valid, Roster.Buckets;
      ghost var k := 0;
      DrawFirst(ncid, IDS, taken);
      next := ncid;
      while true
        invariant k <= |taken| && next == Probe(ncid, IDS, k) && AllTaken(ncid, IDS, taken, k)
        decreases |taken| - k
      {
        id := next;
        next := (next + 1) % IDS;
        var found := Find(id);
        if !found {
          SkippedUnique(ncid, IDS, taken, k);
          DrawnInOrder(ncid, IDS, taken, k);
          return;
        }
        DrawNext(ncid, IDS, taken, k);
        k := k + 1;
      }
    }

    method NewId() returns (id: u32)
      requires Shape() && TableOk(View()) && |conns| < IDS
      modifies this`ncid
      ensures id == FreshId(old(ncid), conns.Keys) && ncid == (id + 1) % IDS
    {
      hide FreshId, TableOk, NoDup, Roster.Valid, Roster.Buckets, Roster.Timers, Roster.Clients;
      InTable(View());
      id, ncid := DrawId(conns.Keys);
    }

    /** The length of one chain. */
    method ChainLength(h: nat) returns (n: nat)
      requires roster.Valid() && h < CLI_HASH_SIZE
      ensures n == |roster.Buckets()[h]|
    {
      hide NoDup, Chained;
      var table := roster.table;
      var cur := table.heads[h];
      assert IsList(cur, table.qs[h]);
      NextOf(cur, table.qs[h], 0);
      n := 0;
      while cur != null
        invariant n <= |table.qs[h]| && cur == At(table.qs[h], n)
        decreases |table.qs[h]| - n
      {
        NextOf(table.heads[h], table.qs[h], n);
        n, cur := n + 1, cur.next;
      }
    }

    /** Walks every chain. */
    method CountClients() returns (n: nat)
      requires Valid()
      ensures n == |conns|
    {
      hide Inv, TableOk, NoDup, Roster.Valid, Roster.Buckets, Roster.Timers, Roster.Clients;
      ghost var s := View();
      Parts(cfg, s);
      n := 0;
      for h := 0 to CLI_HASH_SIZE
        invariant n == |LowConns(s, h)|
      {
        BucketAdds(s, h);
        var k := ChainLength(h);
        n := n + k;
      }
      assert LowConns(s, CLI_HASH_SIZE) == conns.Keys;
    }

    /** Gives a new client an id, its initial fields and its place in the lists. */
    method InitClient()
      requires Shape() && TableOk(View()) && |conns| < cfg.maxConns
      modifies this, roster, roster.repr
      ensures Shape() && View() == Accepted(cfg, old(View())) && fresh(roster.repr - old(roster.repr))
      ensures forall id | id in conns && id !in old(conns) :: conns[id] == Conn(cfg.handshake, true, false, false, [])
    {
      hide FreshId, TableOk, Roster.Valid, Roster.Buckets, Roster.Timers, Roster.Clients;
      var id := NewId();
      roster.Link(id);
      conns := conns[id := Conn(cfg.handshake, true, false, false, [])];
    }

    /** A new connection is turned away exactly when the limit is reached. */
    method AcceptConnection() returns (accepted: bool)
      requires Valid()
      modifies this, roster, roster.repr
      ensures Valid() && View() == Step(cfg, old(View()), Accept) && fresh(roster.repr - old(roster.repr))
      ensures accepted <==> |old(conns)| < cfg.maxConns
      ensures |conns| == |old(conns)| + (if accepted then 1 else 0)
      ensures forall id | id in conns && id !in old(conns) :: conns[id].linked && conns[id].alive == cfg.handshake
    {
      hide Inv, TableOk, Accepted, Roster.Valid, Roster.Buckets, Roster.Timers, Roster.Clients;
      Parts(cfg, View());
      StepKeepsInv(cfg, View(), Accept);
      NewIdCounts(cfg, View());
      var total := CountClients();
      accepted := total < cfg.maxConns;
      if accepted {
        InitClient();
      }
    }

    /** Takes a client out of its chain and, if it is linked, out of the timer list, and frees it. Deleting a
        node that is already out would lose the whole list, so `linked` must tell. */
    method DestroyClient(id: u32)
      requires Shape() && id in conns && id in View().buckets[Hash(id)]
      requires conns[id].linked <==> id in View().hst
      modifies this`conns, roster.repr
      ensures Shape() && View() == Destroyed(old(View()), id)
      ensures !old(conns)[id].linked ==> roster.hst.q == old(roster.hst.q)
      ensures roster.Freed() == old(roster.Freed()) + old(roster.NodesOf(id))
    {
      hide Roster.Valid, Roster.Buckets, Roster.Timers, Roster.Clients, Roster.Freed, Roster.NodesOf, Without;
      roster.NotOwn();
      var linked := conns[id].linked;
      conns := conns - {id};
      roster.Destroy(id, linked);
    }

    /** End of file or a receive error on a client's socket. */
    method PeerClosed(id: u32)
      requires Valid() && id in conns
      modifies this`conns, roster.repr
      ensures Valid() && View() == Step(cfg, old(View()), PeerClose(id))
      ensures roster.Freed() == old(roster.Freed()) + old(roster.NodesOf(id))
    {
      hide LinkingOk, Woken, SubsOk, Destroyed;
      hide Roster.Valid, Roster.Buckets, Roster.Timers, Roster.Clients, Roster.Freed, Roster.NodesOf;
      StepKeepsInv(cfg, View(), PeerClose(id));
      DestroyClient(id);
    }

    /** Walks the timer list, counting down every node; `emit` says that one has run out. */
    method TickNodes() returns (emit: bool)
      requires Shape() && TimerOk(View())
      modifies this`conns
      ensures Shape() && conns == TickedTo(old(View()), |old(View()).hst|)
      ensures emit <==> OneRunsOut(old(View()), |old(View()).hst|)
    {
      hide NoDup, Chained, TickedTo, TimerOk, OneRunsOut;
      ghost var s := View();
      ghost var q := roster.hst.q;
      var cur := roster.hst.head;
      NextOf(cur, q, 0);
      emit := false;
      TickedNone(s);
      ghost var i := 0;
      var cs := conns;
      while cur != null
        invariant i <= |q| && cur == At(q, i) && cs == TickedTo(s, i) && (emit <==> OneRunsOut(s, i))
        decreases |q| - i
      {
        TickedStep(s, i);
        NextOf(roster.hst.head, q, i);
        var id := cur.item;
        var c := cs[id];
        if c.alive <= TIMER_PERIOD {
          cs := cs[id := c.(alive := 0)];
          emit := true;
        } else {
          cs := cs[id := c.(alive := c.alive - TIMER_PERIOD)];
        }
        cur := cur.next;
        i := i + 1;
      }
      TickedKeys(s);
      conns := cs;
    }

    method TimerTick()
      requires Valid()
      modifies this`conns, this`event
      ensures Valid() && View() == Step(cfg, old(View()), Tick)
    {
      hide Inv, TimerOk, Ticked, TickedTo, OneRunsOut, Roster.Valid, Roster.Buckets, Roster.Timers, Roster.Clients;
      Parts(cfg, View());
      StepKeepsInv(cfg, View(), Tick);
      TickedAll(View());
      var emit := TickNodes();
      if emit {
        event := true;
      }
    }

    /** One turn of the sweep: reads the successor, then unlinks, destroys and frees the client if its time is up. */
    method ExpireNode(cur: Node<u32>, ghost kept: Nodes, ghost rest: Nodes) returns (next: Node?<u32>)
      requires Shape() && roster.hst.q == kept + [cur] + rest
      requires cur.item in View().buckets[Hash(cur.item)]
      modifies this`conns, roster.repr
      ensures Shape() && next == At(rest, 0) && roster.repr == old(roster.repr)
      ensures cur.item in old(conns)
      ensures old(conns)[cur.item].alive == 0 ==> View() == Unhooked(old(View()), cur.item) && roster.hst.q == kept + rest
      ensures old(conns)[cur.item].alive != 0 ==> View() == old(View()) && roster.hst.q == old(roster.hst.q)
    {
      hide Roster.Valid, Roster.Buckets, Roster.Timers, Roster.Clients, Roster.Freed, Roster.NodesOf;
      hide Without, NoDup, Chained, Hash;
      NodeAt(cur, kept, rest);
      next := cur.next;
      var id := cur.item;
      if conns[id].alive == 0 {
        conns := conns[id := conns[id].(linked := false)];
        roster.Unlink(id, |kept|);
        DestroyClient(id);
      }
    }

    /** The sweep has come to node `i` of the list `all` of state `s`, and kept the nodes `kept` before it. */
    ghost predicate Swept(s: State, all: Nodes, i: nat, kept: Nodes)
      reads this, roster, roster.repr, roster.table, roster.hst
    {
      && Shape() && !event && i <= |all| == |s.hst|
      && roster.hst.q == kept + all[i..] && GoneUpTo(s, View(), DeadIn(s, i))
    }

    method SweepNode(cur: Node<u32>, ghost s: State, ghost all: Nodes, ghost i: nat, ghost kept: Nodes)
      returns (next: Node?<u32>, ghost still: Nodes)
      requires TableOk(s) && TimerOk(s) && Swept(s, all, i, kept)
      requires i < |all| && cur == all[i] && s.hst[i] == cur.item
      modifies this`conns, roster.repr
      ensures Swept(s, all, i + 1, still) && next == At(all, i + 1) && roster.repr == old(roster.repr)
    {
      hide Roster.Valid, Roster.Buckets, Roster.Timers, Roster.Clients, Roster.Freed, Roster.NodesOf;
      hide Without, Minus, NoDup, Chained, Hash, TableOk, TimerOk, Dead, DeadIn, GoneUpTo, Unhooked;
      SweepAt(s, View(), i);
      Around(kept, all, i);
      next := ExpireNode(cur, kept, all[i + 1..]);
      still := if cur.item in Dead(s) then kept else kept + [cur];
    }

    /** Walks the timer list, destroying the clients whose counter is at zero. The successor of a node is read
        before the node goes, so the walk never follows a pointer of a freed node. */
    method SweepNodes()
      requires Shape() && TableOk(View()) && TimerOk(View()) && !event
      modifies this`conns, roster.repr
      ensures Shape() && GoneUpTo(old(View()), View(), Dead(old(View())))
    {
      hide Roster.Valid, Roster.Buckets, Roster.Timers, Roster.Clients;
      hide TableOk, TimerOk, Dead, DeadIn, GoneUpTo;
      ghost var s, all := View(), roster.hst.q;
      roster.Walk();
      InTable(s);
      NothingGone(s);
      DeadInAll(s);
      var cur := roster.hst.head;
      ghost var i, kept := 0, [];
      assert kept + all[0..] == all;
      while cur != null
        invariant i <= |all| && cur == At(all, i) && Swept(s, all, i, kept) && roster.repr == old(roster.repr)
        decreases |all| - i
      {
        cur, kept := SweepNode(cur, s, all, i, kept);
        i := i + 1;
      }
    }

    /** The event half of a poll. */
    method HandleEvent()
      requires Valid()
      modifies this`conns, this`event, roster.repr
      ensures Valid() && View() == Step(cfg, old(View()), Expire) && !event
    {
      hide Inv, TableOk, TimerOk, Expired, Dead, GoneUpTo, Roster.Valid, Roster.Buckets, Roster.Timers, Roster.Clients;
      ghost var s := View();
      Parts(cfg, s);
      StepKeepsInv(cfg, s, Expire);
      if event {
        AllGone(s);
        Drained(s);
        event := false;
        SweepNodes();
      } else {
        NothingDue(s);
      }
    }

    method HasSub(subs: seq<Url>, url: Url) returns (found: bool)
      ensures found <==> url in subs
    {
      for i := 0 to |subs|
        invariant url !in subs[..i]
      {
        if subs[i] == url { return true; }
      }
      return false;
    }

    /** Walks the subscriptions and takes out the first with this URL. */
    method DropSub(subs: seq<Url>, url: Url) returns (r: seq<Url>)
      ensures r == Without(subs, url)
    {
      hide Without;
      for i := 0 to |subs|
        invariant url !in subs[..i]
      {
        if subs[i] == url {
          WithoutAt(subs, i, url);
          return subs[..i] + subs[i + 1..];
        }
      }
      return subs;
    }

    /** A handshake switches the client to idle timing, or off the timer list when there is none. */
    method HandleServiceInfo(id: u32)
      requires Shape() && id in conns && (conns[id].linked ==> id in View().hst)
      modifies this`conns, roster.repr
      ensures Shape() && View() == Greeted(cfg, old(View()), id)
    {
      hide Roster.Valid, Roster.Buckets, Roster.Timers, Roster.Clients, Without;
      var c := conns[id];
      if cfg.keepalive > 0 {
        conns := conns[id := c.(alive := cfg.keepalive * 1000, onconn := true)];
      } else if c.linked {
        roster.NotOwn();
        ghost var i := roster.IndexOf(id);
        conns := conns[id := c.(alive := 0, linked := false, onconn := true)];
        roster.Unlink(id, i);
      } else {
        conns := conns[id := c.(onconn := true)];
      }
    }

    method HandleSubscribe(id: u32, url: Url) returns (ok: bool)
      requires id in conns
      modifies this`conns
      ensures conns == old(conns)[id := old(conns)[id].(subs := Subscribed(old(conns)[id].subs, Subscribe(url)))]
      ensures ok <==> url != "" && url[0] == '/'
    {
      ok := Rooted(url);
      if ok {
        var c := conns[id];
        var found := HasSub(c.subs, url);
        if !found {
          conns := conns[id := c.(subs := [url] + c.subs)];
        }
      }
    }

    method HandleUnsubscribe(id: u32, url: Url)
      requires id in conns
      modifies this`conns
      ensures conns == old(conns)[id := old(conns)[id].(subs := Subscribed(old(conns)[id].subs, Unsubscribe(url)))]
    {
      var c := conns[id];
      var subs := [];
      if Rooted(url) {
        subs := DropSub(c.subs, url);
      }
      conns := conns[id := c.(subs := subs)];
    }

    /** Any packet marks the client active and renews a running idle timer. */
    method Refresh(id: u32)
      requires id in conns
      modifies this`conns
      ensures conns == old(conns)[id := Refreshed(cfg, old(conns)[id])]
    {
      var c := conns[id].(active := true);
      if cfg.keepalive > 0 && c.alive != 0 {
        c := c.(alive := cfg.keepalive * 1000);
      }
      conns := conns[id := c];
    }

    method HandlePacket(id: u32, msg: Msg) returns (ok: bool)
      requires Shape() && id in conns && (conns[id].linked ==> id in View().hst)
      modifies this`conns, roster.repr
      ensures Shape() && View() == Received(cfg, old(View()), id, msg)
      ensures ok <==> (msg.Subscribe? ==> msg.url != "" && msg.url[0] == '/')
    {
      hide Roster.Valid, Roster.Buckets, Roster.Timers, Roster.Clients, Subscribed, Without, Greeted;
      ok := true;
      Refresh(id);
      match msg
      case ServiceInfo => HandleServiceInfo(id);
      case Subscribe(url) => ok := HandleSubscribe(id, url);
      case Unsubscribe(url) => HandleUnsubscribe(id, url);
      case Other => OtherKeepsSubs(conns[id].subs);
    }

    /** One packet from a client. `ok` is what the acknowledgement of a subscription reports. */
    method Receive(id: u32, msg: Msg) returns (ok: bool)
      requires Valid() && id in conns
      modifies this`conns, roster.repr
      ensures Valid() && View() == Step(cfg, old(View()), Packet(id, msg))
      ensures ok <==> (msg.Subscribe? ==> msg.url != "" && msg.url[0] == '/')
    {
      hide Inv, TimerOk, Received, Roster.Valid, Roster.Buckets, Roster.Timers, Roster.Clients;
      StepKeepsInv(cfg, View(), Packet(id, msg));
      LinkedInList(cfg, View(), id);
      ok := HandlePacket(id, msg);
    }

    method SubMatch(subs: seq<Url>, url: Url) returns (r: bool)
      requires forall u <- subs :: |u| > 0
      ensures r <==> AnyMatches(subs, url)
    {
      for i := 0 to |subs|
        invariant forall k | 0 <= k < i :: !SubMatches(subs[k], url)
      {
        var sub := subs[i];
        assert SubMatches(sub, url) ==> AnyMatches(subs, url);
        if |sub| == 1 {
          return true;
        } else if sub == url {
          return true;
        } else if sub[|sub| - 1] == '/' {
          var n := |sub| - 1;
          if |url| >= n && url[..n] == sub[..n] {
            if |url| == n || url[n] == '/' { return true; }
          }
        }
      }
      return false;
    }

    /** Sends to the matching clients of one chain. */
    method PublishChain(h: nat, url: Url, start: seq<u32>) returns (sent: seq<u32>)
      requires Valid() && h < CLI_HASH_SIZE && Reached(View(), url, h, 0, start)
      ensures Reached(View(), url, h + 1, 0, sent)
    {
      hide NoDup, Chained, TimerOk, LinkingOk, Woken, Inv, SubsOk, Reached, AnyMatches, Targets;
      ghost var s := View();
      var table := roster.table;
      ghost var q := table.qs[h];
      var cur := table.heads[h];
      assert IsList(cur, q);
      NextOf(cur, q, 0);
      sent := start;
      ghost var i := 0;
      while cur != null
        invariant i <= |q| && cur == At(q, i) && Reached(s, url, h, i, sent)
        decreases |q| - i
      {
        NextOf(table.heads[h], q, i);
        ReachedNext(cfg, s, url, h, i, sent);
        var id := cur.item;
        assert s.buckets[h][i] == id;
        if conns[id].active {
          var m := SubMatch(conns[id].subs, url);
          if m { sent := sent + [id]; }
        }
        cur := cur.next;
        i := i + 1;
      }
      ReachedChain(cfg, s, url, h, sent);
    }

    /** A publication attempts one send to each client with a matching subscription and none to any other:
        the `active` test leaves no subscriber out. */
    method Publish(url: Url) returns (ok: bool, sent: seq<u32>)
      requires Valid()
      ensures ok <==> url != "" && url[0] == '/'
      ensures !ok ==> sent == []
      ensures ok ==> NoDup(sent) && forall id: u32 :: id in sent <==> id in Targets(View(), url)
      ensures ok ==> forall id: u32 :: id in sent <==> id in conns && exists u <- conns[id].subs :: Covers(u, url)
    {
      hide Covers, Inv, Reached, Targets, NoDup, Roster.Valid, Roster.Buckets, Roster.Timers, Roster.Clients;
      sent := [];
      if !Rooted(url) { return false, []; }
      ReachedNone(cfg, View(), url);
      for h := 0 to CLI_HASH_SIZE
        invariant Reached(View(), url, h, 0, sent)
      {
        sent := PublishChain(h, url, sent);
      }
      ReachedAll(cfg, View(), url, sent);
      forall id: u32 ensures id in sent <==> id in conns && exists u <- conns[id].subs :: Covers(u, url) {
        TargetsCovered(View(), url, id);
      }
      ok := true;
    }

    lemma NodeAt(cur: Node<u32>, kept: Nodes, rest: Nodes)
      requires Shape() && roster.hst.q == kept + [cur] + rest
      ensures var q, i := roster.hst.q, |kept|;
              && cur.next == At(rest, 0) && cur.item in conns
              && q[i] == cur && roster.hst.node[cur.item] == cur && q[..i] + q[i + 1..] == kept + rest
      ensures roster !in roster.repr
    {
      var q, i := roster.hst.q, |kept|;
      NextOf(roster.hst.head, q, i);
      hide NoDup, Chained;
      assert q[i] == cur && At(q, i + 1) == At(rest, 0);
    }
  }

  // ---- Helpers ----------------------------------------------------------------------------

  lemma Parts(cfg: Config, s: State)
    requires Inv(cfg, s)
    ensures TableOk(s) && TimerOk(s) && Shaped(s)
  {
  }

  lemma InTable(s: State)
    requires TableOk(s)
    ensures Shaped(s) && |s.conns.Keys| == |s.conns|
    ensures forall id: u32 :: id in s.buckets[Hash(id)] <==> id in s.conns.Keys
  {
  }

  lemma LinkedInList(cfg: Config, s: State, id: u32)
    requires Inv(cfg, s) && id in s.conns
    ensures s.conns[id].linked ==> id in s.hst
  {
  }

  lemma Drained(s: State)
    requires TableOk(s) && TimerOk(s)
    ensures TableOk(s.(event := false)) && TimerOk(s.(event := false))
  {
  }

  lemma NothingDue(s: State)
    requires Shaped(s) && !s.event
    ensures Expired(s) == s
  {
  }

  /** The clients a publication has been sent to when it has passed the chains below `h` and `i` nodes of chain `h`. */
  ghost predicate Reached(s: State, url: Url, h: nat, i: nat, sent: seq<u32>) {
    && SubsOk(s) && Shaped(s) && h <= CLI_HASH_SIZE && (h < CLI_HASH_SIZE ==> i <= |s.buckets[h]|)
    && NoDup(sent)
    && forall id: u32 :: id in sent <==>
         id in Targets(s, url) && (Hash(id) < h || (h < CLI_HASH_SIZE && id in s.buckets[h][..i]))
  }

  lemma ReachedNone(cfg: Config, s: State, url: Url)
    requires Inv(cfg, s)
    ensures Reached(s, url, 0, 0, [])
  {
  }

  lemma ReachedNext(cfg: Config, s: State, url: Url, h: nat, i: nat, sent: seq<u32>)
    requires Inv(cfg, s) && h < CLI_HASH_SIZE && Reached(s, url, h, i, sent) && i < |s.buckets[h]|
    ensures var id := s.buckets[h][i];
            && id in s.conns && (forall u <- s.conns[id].subs :: |u| > 0)
            && Reached(s, url, h, i + 1,
                 if s.conns[id].active && AnyMatches(s.conns[id].subs, url) then sent + [id] else sent)
  {
    hide TimerOk, LinkingOk, Woken;
    var id := s.buckets[h][i];
    assert NoDup(s.buckets[h]) && id in s.buckets[h] && id !in s.buckets[h][..i];
    assert s.buckets[h][..i + 1] == s.buckets[h][..i] + [id];
  }

  lemma ReachedChain(cfg: Config, s: State, url: Url, h: nat, sent: seq<u32>)
    requires Inv(cfg, s) && h < CLI_HASH_SIZE && Reached(s, url, h, |s.buckets[h]|, sent)
    ensures Reached(s, url, h + 1, 0, sent)
  {
    hide TimerOk, LinkingOk, Woken, NoDup;
    assert s.buckets[h][..|s.buckets[h]|] == s.buckets[h];
  }

  lemma ReachedAll(cfg: Config, s: State, url: Url, sent: seq<u32>)
    requires Inv(cfg, s) && Reached(s, url, CLI_HASH_SIZE, 0, sent)
    ensures NoDup(sent) && SubsOk(s) && forall id: u32 :: id in sent <==> id in Targets(s, url)
  {
    hide TimerOk, LinkingOk, Woken, NoDup, TableOk;
  }

  lemma NewIdCounts(cfg: Config, s: State)
    requires Shaped(s)
    ensures var t := Accepted(cfg, s);
            |t.conns| == |s.conns| + (if |s.conns| < cfg.maxConns then 1 else 0) && (|s.conns| >= cfg.maxConns ==> t == s)
  {
    assert |s.conns.Keys| == |s.conns|;
  }

  /** The live clients in buckets below `h`. */
  ghost function LowConns(s: State, h: nat): set<u32> {
    set id | id in s.conns && Hash(id) < h
  }

  ghost function Members(q: seq<u32>): set<u32> {
    set x | x in q
  }

  lemma {:induction false} NoDupSize(q: seq<u32>)
    requires NoDup(q)
    ensures |Members(q)| == |q|
  {
    if q != [] {
      NoDupSize(q[1..]);
      assert q == [q[0]] + q[1..] && q[0] !in q[1..];
      assert Members(q) == Members(q[1..]) + {q[0]};
    }
  }

  lemma BucketAdds(s: State, h: nat)
    requires TableOk(s) && h < CLI_HASH_SIZE
    ensures Shaped(s)
    ensures |LowConns(s, h + 1)| == |LowConns(s, h)| + |s.buckets[h]|
  {
    assert NoDup(s.buckets[h]);
    NoDupSize(s.buckets[h]);
    assert LowConns(s, h + 1) == LowConns(s, h) + Members(s.buckets[h]);
    assert LowConns(s, h) !! Members(s.buckets[h]);
  }

  /** The counters after the first `i` nodes of the timer list have been ticked. */
  ghost function TickedTo(s: State, i: nat): map<u32, Conn>
    requires i <= |s.hst|
  {
    map id | id in s.conns ::
      if id in s.hst[..i] then s.conns[id].(alive := TickAlive(s.conns[id].alive)) else s.conns[id]
  }

  /** One of the first `i` nodes runs out at this tick. */
  ghost predicate OneRunsOut(s: State, i: nat)
    requires i <= |s.hst|
  {
    exists j | 0 <= j < i :: s.hst[j] in s.conns && s.conns[s.hst[j]].alive <= TIMER_PERIOD
  }

  lemma TickedNone(s: State)
    ensures TickedTo(s, 0) == s.conns && !OneRunsOut(s, 0)
  {
  }

  lemma TickedKeys(s: State)
    ensures TickedTo(s, |s.hst|).Keys == s.conns.Keys
  {
  }

  lemma TickedStep(s: State, i: nat)
    requires TimerOk(s) && i < |s.hst|
    ensures var id := s.hst[i];
            && id in s.conns && id in TickedTo(s, i) && TickedTo(s, i)[id] == s.conns[id]
            && TickedTo(s, i + 1) == TickedTo(s, i)[id := s.conns[id].(alive := TickAlive(s.conns[id].alive))]
            && (OneRunsOut(s, i + 1) <==> OneRunsOut(s, i) || s.conns[id].alive <= TIMER_PERIOD)
  {
    assert s.hst[i] in s.hst && s.hst[i] !in s.hst[..i];
    assert s.hst[..i + 1] == s.hst[..i] + [s.hst[i]];
  }

  lemma TickedAll(s: State)
    requires TimerOk(s)
    ensures Ticked(s) == s.(conns := TickedTo(s, |s.hst|),
                            event := s.event || OneRunsOut(s, |s.hst|))
  {
    assert s.hst[..|s.hst|] == s.hst;
    assert Ticked(s).conns == TickedTo(s, |s.hst|);
    forall j | 0 <= j < |s.hst| && s.conns[s.hst[j]].alive <= TIMER_PERIOD
      ensures Ticked(s).conns[s.hst[j]].alive == 0
    {
      assert s.hst[j] in s.hst;
    }
  }

  ghost function DeadIn(s: State, i: nat): set<u32>
    requires i <= |s.hst|
  {
    set id | id in s.hst[..i] && id in Dead(s)
  }

  lemma DeadInStep(s: State, i: nat)
    requires i < |s.hst|
    ensures DeadIn(s, i + 1) == DeadIn(s, i) + if s.hst[i] in Dead(s) then {s.hst[i]} else {}
  {
    assert s.hst[..i + 1] == s.hst[..i] + [s.hst[i]];
  }

  /** `t` is `s` with the event drained and the clients in `gone` removed everywhere. */
  ghost predicate GoneUpTo(s: State, t: State, gone: set<u32>) {
    && Shaped(s) && Shaped(t)
    && t.ncid == s.ncid && !t.event
    && t.conns == s.conns - gone
    && t.hst == Minus(s.hst, gone)
    && forall h | 0 <= h < CLI_HASH_SIZE :: t.buckets[h] == Minus(s.buckets[h], gone)
  }

  lemma {:induction false} MinusNone(q: seq<u32>)
    ensures Minus(q, {}) == q
  {
    if q != [] { MinusNone(q[1..]); }
  }

  lemma NothingGone(s: State)
    requires Shaped(s)
    ensures GoneUpTo(s, s.(event := false), DeadIn(s, 0))
  {
    assert DeadIn(s, 0) == {};
    MinusNone(s.hst);
    forall h | 0 <= h < CLI_HASH_SIZE ensures Minus(s.buckets[h], {}) == s.buckets[h] {
      MinusNone(s.buckets[h]);
    }
  }

  lemma {:induction false} MinusWithout(q: seq<u32>, gone: set<u32>, x: u32)
    requires NoDup(q) && x !in gone
    ensures Without(Minus(q, gone), x) == Minus(q, gone + {x})
  {
    if q != [] {
      assert NoDup(q[1..]);
      MinusWithout(q[1..], gone, x);
      if q[0] == x {
        MinusAbsent(q[1..], gone, x);
        assert Minus(q, gone) == [x] + Minus(q[1..], gone);
      } else if q[0] !in gone {
        assert Minus(q, gone) == [q[0]] + Minus(q[1..], gone);
      }
    }
  }

  lemma {:induction false} MinusAbsent(q: seq<u32>, gone: set<u32>, x: u32)
    requires x !in q
    ensures Minus(q, gone) == Minus(q, gone + {x})
  {
    if q != [] { MinusAbsent(q[1..], gone, x); }
  }

  /** `t` with one client unhooked from its bucket and from the timer list. */
  ghost function Unhooked(t: State, id: u32): State
    requires Shaped(t)
  {
    t.(buckets := t.buckets[Hash(id) := Without(t.buckets[Hash(id)], id)], conns := t.conns - {id},
       hst := Without(t.hst, id))
  }

  lemma OneMoreGone(s: State, t: State, gone: set<u32>, id: u32)
    requires TableOk(s) && TimerOk(s) && GoneUpTo(s, t, gone) && id !in gone
    ensures GoneUpTo(s, Unhooked(t, id), gone + {id})
  {
    MinusWithout(s.hst, gone, id);
    forall h | 0 <= h < CLI_HASH_SIZE
      ensures Unhooked(t, id).buckets[h] == Minus(s.buckets[h], gone + {id})
    {
      assert NoDup(s.buckets[h]);
      if h == Hash(id) {
        MinusWithout(s.buckets[h], gone, id);
      } else {
        MinusAbsent(s.buckets[h], gone, id);
      }
    }
    assert s.conns - (gone + {id}) == s.conns - gone - {id};
  }

  lemma NodeInSweep(s: State, i: nat)
    requires TimerOk(s) && i < |s.hst|
    ensures var id := s.hst[i];
            id in s.conns && id !in DeadIn(s, i) && (id in Dead(s) <==> s.conns[id].alive == 0)
  {
    assert s.hst[i] in s.hst && s.hst[i] !in s.hst[..i];
  }

  /** The `i`-th node of the timer list when the sweep has come to it. */
  lemma SweepAt(s: State, t: State, i: nat)
    requires TableOk(s) && TimerOk(s) && i < |s.hst| && GoneUpTo(s, t, DeadIn(s, i))
    ensures var id := s.hst[i];
            && Shaped(t) && id in t.conns && id in t.buckets[Hash(id)]
            && (id in Dead(s) <==> t.conns[id].alive == 0)
            && (id in Dead(s) ==> GoneUpTo(s, Unhooked(t, id), DeadIn(s, i + 1)))
            && (id !in Dead(s) ==> DeadIn(s, i + 1) == DeadIn(s, i))
  {
    hide Minus, Without;
    DeadInStep(s, i);
    NodeInSweep(s, i);
    var id := s.hst[i];
    if id in Dead(s) {
      OneMoreGone(s, t, DeadIn(s, i), id);
      assert DeadIn(s, i + 1) == DeadIn(s, i) + {id};
    }
  }

  lemma Around(kept: Nodes, all: Nodes, i: nat)
    requires i < |all|
    ensures kept + all[i..] == kept + [all[i]] + all[i + 1..]
  {
  }

  lemma DeadInAll(s: State)
    ensures DeadIn(s, |s.hst|) == Dead(s)
  {
    assert s.hst[..|s.hst|] == s.hst;
  }

  lemma AllGone(s: State)
    requires Shaped(s) && s.event
    ensures forall t | GoneUpTo(s.(event := false), t, Dead(s)) :: t == Expired(s)
    ensures Dead(s.(event := false)) == Dead(s)
  {
    forall t | GoneUpTo(s.(event := false), t, Dead(s)) ensures t == Expired(s) {
      assert t.buckets == Expired(s).buckets;
    }
  }

  lemma OtherKeepsSubs(subs: seq<Url>)
    ensures Subscribed(subs, Other) == subs
  {
  }
}
