/** What every run of the server's connection table keeps, and what follows for idle timing and subscriptions. */
module ConnectionSafety {
  import opened Common
  import opened Frame
  import opened Probing
  import opened Urls
  import opened Connections

  lemma AcceptKeepsTable(cfg: Config, s: State)
    requires Inv(cfg, s)
    ensures TableOk(Accepted(cfg, s)) && TimerOk(Accepted(cfg, s))
  {
    hide LinkingOk, Woken, SubsOk;
    var t := Accepted(cfg, s);
    if t != s {
      var id := FreshId(s.ncid, s.conns.Keys);
      assert id !in s.conns;
      forall h | 0 <= h < CLI_HASH_SIZE ensures NoDup(t.buckets[h]) {
        assert NoDup(s.buckets[h]);
      }
    }
  }

  lemma DestroyKeepsTable(cfg: Config, s: State, id: u32)
    requires Inv(cfg, s) && id in s.conns
    ensures TableOk(Destroyed(s, id)) && TimerOk(Destroyed(s, id))
  {
    hide LinkingOk, Woken, SubsOk;
    var t := Destroyed(s, id);
    forall h | 0 <= h < CLI_HASH_SIZE ensures NoDup(t.buckets[h]) {
      assert NoDup(s.buckets[h]);
    }
  }

  lemma ExpireKeepsTable(cfg: Config, s: State)
    requires Inv(cfg, s)
    ensures TableOk(Expired(s)) && TimerOk(Expired(s))
  {
    hide LinkingOk, Woken, SubsOk;
    var t := Expired(s);
    if s.event {
      forall h | 0 <= h < CLI_HASH_SIZE ensures NoDup(t.buckets[h]) {
        assert NoDup(s.buckets[h]);
      }
    }
  }

  lemma SubscribedOk(subs: seq<Url>, msg: Msg)
    requires NoDup(subs) && forall u <- subs :: Rooted(u)
    ensures NoDup(Subscribed(subs, msg)) && forall u <- Subscribed(subs, msg) :: Rooted(u)
  {
    hide Without;
    if msg.Subscribe? && msg.url !in subs {
      assert NoDup([msg.url] + subs);
    }
  }

  lemma ReceiveKeepsSubs(cfg: Config, s: State, id: u32, msg: Msg)
    requires Inv(cfg, s) && id in s.conns
    ensures SubsOk(Received(cfg, s, id, msg))
  {
    hide TableOk, TimerOk, LinkingOk, Woken, Without, NoDup, Subscribed, Rooted;
    SubscribedOk(s.conns[id].subs, msg);
  }

  lemma ReceiveKeepsTable(cfg: Config, s: State, id: u32, msg: Msg)
    requires Inv(cfg, s) && id in s.conns
    ensures var t := Received(cfg, s, id, msg); TableOk(t) && TimerOk(t) && t.conns.Keys == s.conns.Keys
  {
    hide LinkingOk, Woken, SubsOk, Subscribed;
    assert Received(cfg, s, id, msg).conns.Keys == s.conns.Keys;
  }

  lemma ReceiveKeepsTimers(cfg: Config, s: State, id: u32, msg: Msg)
    requires Sane(cfg) && Inv(cfg, s) && id in s.conns
    ensures var t := Received(cfg, s, id, msg); LinkingOk(cfg, t) && Woken(t)
  {
    hide TableOk, TimerOk, SubsOk, Subscribed;
  }

  lemma ReceiveKeepsInv(cfg: Config, s: State, id: u32, msg: Msg)
    requires Sane(cfg) && Inv(cfg, s) && id in s.conns
    ensures Inv(cfg, Received(cfg, s, id, msg))
  {
    hide TableOk, TimerOk, LinkingOk, Woken, SubsOk, Received;
    ReceiveKeepsTable(cfg, s, id, msg);
    ReceiveKeepsTimers(cfg, s, id, msg);
    ReceiveKeepsSubs(cfg, s, id, msg);
    assert |Received(cfg, s, id, msg).conns.Keys| == |s.conns.Keys|;
  }

  lemma FewerConns(m: map<u32, Conn>, gone: set<u32>)
    ensures |m - gone| <= |m|
  {
    assert (m - gone).Keys <= m.Keys;
    SubsetSize((m - gone).Keys, m.Keys);
  }

  lemma AcceptKeepsInv(cfg: Config, s: State)
    requires Sane(cfg) && Inv(cfg, s)
    ensures Inv(cfg, Accepted(cfg, s))
  {
    hide TableOk, TimerOk;
    AcceptKeepsTable(cfg, s);
  }

  lemma DestroyKeepsInv(cfg: Config, s: State, id: u32)
    requires Inv(cfg, s) && id in s.conns
    ensures Inv(cfg, Destroyed(s, id))
  {
    hide TableOk, TimerOk;
    DestroyKeepsTable(cfg, s, id);
    FewerConns(s.conns, {id});
  }

  lemma TickKeepsInv(cfg: Config, s: State)
    requires Inv(cfg, s)
    ensures Inv(cfg, Ticked(s))
  {
    assert Ticked(s).conns.Keys == s.conns.Keys;
  }

  lemma ExpireKeepsInv(cfg: Config, s: State)
    requires Inv(cfg, s)
    ensures Inv(cfg, Expired(s))
  {
    hide TableOk, Minus;
    ExpireKeepsTable(cfg, s);
    FewerConns(s.conns, Dead(s));
  }

  lemma StepKeepsInv(cfg: Config, s: State, e: Event)
    requires Sane(cfg) && Inv(cfg, s)
    ensures Inv(cfg, Step(cfg, s, e))
  {
    hide TimerOk, LinkingOk, Woken, SubsOk, Accepted, Received, Destroyed, Ticked, Expired;
    match e
    case Accept => AcceptKeepsInv(cfg, s);
    case Packet(id, msg) => if id in s.conns { ReceiveKeepsInv(cfg, s, id, msg); }
    case PeerClose(id) => if id in s.conns { DestroyKeepsInv(cfg, s, id); }
    case Tick => TickKeepsInv(cfg, s);
    case Expire => ExpireKeepsInv(cfg, s);
  }

  lemma {:induction false} PlayKeepsInv(cfg: Config, s: State, events: seq<Event>)
    requires Sane(cfg) && Inv(cfg, s)
    ensures Inv(cfg, Play(cfg, s, events))
    decreases |events|
  {
    if events != [] {
      PlayKeepsInv(cfg, s, events[..|events| - 1]);
      StepKeepsInv(cfg, Play(cfg, s, events[..|events| - 1]), events[|events| - 1]);
    }
  }

  /** In every state the server can reach: clients are in the buckets of their ids, the timer list is exactly
      the linked live clients, and the connection limit holds. */
  lemma ServerInvariant(cfg: Config, events: seq<Event>)
    requires Sane(cfg)
    ensures Inv(cfg, Play(cfg, Start(), events))
  {
    assert Inv(cfg, Start());
    PlayKeepsInv(cfg, Start(), events);
  }

  // ---- Handshake and idle timing ----------------------------------------------------------

  /** Nothing is received from the client and it does not hang up. */
  predicate SilentEvent(id: u32, e: Event) {
    !(e.Packet? && e.id == id) && !(e.PeerClose? && e.id == id)
  }

  predicate Silent(id: u32, events: seq<Event>) {
    forall e <- events :: SilentEvent(id, e)
  }

  function Ticks(events: seq<Event>): (n: nat)
  {
    if events == [] then 0 else Ticks(events[..|events| - 1]) + if events[|events| - 1].Tick? then 1 else 0
  }

  ghost predicate Waiting(s: State, id: u32, c: Conn) {
    id in s.conns && c.linked && s.conns[id] == c
  }

  /** A silent step leaves a waiting client alone, but for the tick of its counter. */
  lemma SilentStep(cfg: Config, s: State, id: u32, c: Conn, e: Event)
    requires Inv(cfg, s) && Waiting(s, id, c) && SilentEvent(id, e) && (e.Expire? ==> c.alive > 0)
    ensures Waiting(Step(cfg, s, e), id, if e.Tick? then c.(alive := TickAlive(c.alive)) else c)
  {
    hide TableOk, Woken, SubsOk, LinkingOk;
  }

  /** A linked client that hears nothing for `k` ticks has lost 50 ms for each; it is not destroyed, whatever
      else goes on in the server, as long as `k` is below the number of periods of its counter. */
  lemma {:induction false} NotDestroyedEarly(cfg: Config, s: State, id: u32, events: seq<Event>)
    requires Sane(cfg) && Inv(cfg, s) && id in s.conns && s.conns[id].linked
    requires Silent(id, events) && Ticks(events) < Periods(s.conns[id].alive)
    ensures var c := s.conns[id];
            Waiting(Play(cfg, s, events), id, c.(alive := c.alive - TIMER_PERIOD * Ticks(events)))
    decreases |events|
  {
    hide TimerOk, LinkingOk, Woken, SubsOk, Step;
    if events != [] {
      var init, last := events[..|events| - 1], events[|events| - 1];
      var c := s.conns[id];
      assert last in events && forall e <- init :: e in events;
      NotDestroyedEarly(cfg, s, id, init);
      PlayKeepsInv(cfg, s, init);
      SilentStep(cfg, Play(cfg, s, init), id, c.(alive := c.alive - TIMER_PERIOD * Ticks(init)), last);
    }
  }

  /** Not the client's handshake, and not its hanging up. */
  predicate NoRescue(id: u32, e: Event) {
    !(e.Packet? && e.id == id && e.msg.ServiceInfo?) && !(e.PeerClose? && e.id == id)
  }

  ghost predicate RanOut(s: State, id: u32) {
    id in s.conns && s.conns[id].linked && s.conns[id].alive == 0
  }

  lemma DueStep(cfg: Config, s: State, id: u32, e: Event)
    requires Inv(cfg, s) && RanOut(s, id) && NoRescue(id, e) && !e.Expire?
    ensures RanOut(Step(cfg, s, e), id)
  {
    hide TableOk, Woken, SubsOk, LinkingOk;
  }

  /** Once it has run out it stays so until an event-ready poll: no packet but a handshake renews it. */
  lemma {:induction false} StaysDue(cfg: Config, s: State, id: u32, events: seq<Event>)
    requires Sane(cfg) && Inv(cfg, s) && RanOut(s, id)
    requires forall e <- events :: NoRescue(id, e) && !e.Expire?
    ensures RanOut(Play(cfg, s, events), id)
    decreases |events|
  {
    hide TimerOk, LinkingOk, Woken, SubsOk, Step;
    if events != [] {
      var init, last := events[..|events| - 1], events[|events| - 1];
      assert last in events && forall e <- init :: e in events;
      StaysDue(cfg, s, id, init);
      PlayKeepsInv(cfg, s, init);
      DueStep(cfg, Play(cfg, s, init), id, last);
    }
  }

  lemma {:induction false} PlayAppend(cfg: Config, s: State, a: seq<Event>, b: seq<Event>)
    requires Shaped(s)
    ensures Play(cfg, s, a + b) == Play(cfg, Play(cfg, s, a), b)
    decreases |b|
  {
    hide Step;
    if b == [] {
      assert a + b == a;
    } else {
      assert (a + b)[..|a + b| - 1] == a + b[..|b| - 1];
      PlayAppend(cfg, s, a, b[..|b| - 1]);
    }
  }

  lemma ExpireDestroys(cfg: Config, s: State, id: u32)
    requires Inv(cfg, s) && RanOut(s, id)
    ensures s.event && id !in Expired(s).conns
  {
  }

  /** The tick that ends the last period of a silent client's counter leaves it at zero. */
  lemma RunsOut(cfg: Config, s: State, id: u32, pre: seq<Event>)
    requires Sane(cfg) && Inv(cfg, s) && id in s.conns && s.conns[id].linked
    requires Silent(id, pre) && Ticks(pre) + 1 == Periods(s.conns[id].alive)
    ensures Waiting(Play(cfg, s, pre + [Tick]), id, s.conns[id].(alive := 0))
  {
    hide TimerOk, LinkingOk, Woken, SubsOk, Step;
    assert (pre + [Tick])[..|pre|] == pre;
    NotDestroyedEarly(cfg, s, id, pre);
    PlayKeepsInv(cfg, s, pre);
    var c := s.conns[id];
    SilentStep(cfg, Play(cfg, s, pre), id, c.(alive := c.alive - TIMER_PERIOD * Ticks(pre)), Tick);
  }

  /** A linked client that stays silent through the last period of its counter is due: the event is raised,
      and the next event-ready poll, whenever it comes, destroys it, whatever it sends meanwhile short of a
      handshake. */
  lemma DestroyedWhenDue(cfg: Config, s: State, id: u32, pre: seq<Event>, mid: seq<Event>)
    requires Sane(cfg) && Inv(cfg, s) && id in s.conns && s.conns[id].linked
    requires Silent(id, pre) && forall e <- mid :: NoRescue(id, e) && !e.Expire?
    requires Ticks(pre) + 1 == Periods(s.conns[id].alive)
    ensures var t := Play(cfg, s, pre + [Tick] + mid);
            id in t.conns && t.event && id !in Step(cfg, t, Expire).conns
  {
    hide TimerOk, LinkingOk, Woken, SubsOk, Play, Ticks, Expired, Silent;
    var u, t := Play(cfg, s, pre + [Tick]), Play(cfg, s, pre + [Tick] + mid);
    RunsOut(cfg, s, id, pre);
    PlayKeepsInv(cfg, s, pre + [Tick]);
    StaysDue(cfg, u, id, mid);
    PlayAppend(cfg, s, pre + [Tick], mid);
    PlayKeepsInv(cfg, u, mid);
    ExpireDestroys(cfg, t, id);
  }

  /** With idle timing on, a packet in time gives a linked client a full idle period again; without, it leaves
      the handshake timer alone unless it is the handshake. */
  lemma PacketRenews(cfg: Config, s: State, id: u32, msg: Msg)
    requires Sane(cfg) && Inv(cfg, s) && id in s.conns && s.conns[id].linked && s.conns[id].alive > 0
    requires cfg.keepalive > 0 || !msg.ServiceInfo?
    ensures var t := Step(cfg, s, Packet(id, msg));
            && id in t.conns && t.conns[id].linked
            && t.conns[id].alive == if cfg.keepalive > 0 then IdleMs(cfg) else s.conns[id].alive
    ensures cfg.keepalive > 0 ==> Periods(IdleMs(cfg)) == 20 * cfg.keepalive
  {
    hide TableOk, TimerOk, Woken, SubsOk;
  }

  predicate Renews(cfg: Config, id: u32, e: Event) {
    cfg.keepalive > 0 && e.Packet? && e.id == id
  }

  /** What the client's counter was last set to: `start`, or a full idle period from its last packet on. */
  function Base(cfg: Config, start: nat, id: u32, events: seq<Event>): nat {
    if events == [] then start
    else if Renews(cfg, id, events[|events| - 1]) then IdleMs(cfg)
    else Base(cfg, start, id, events[..|events| - 1])
  }

  /** The ticks since then. */
  function Since(cfg: Config, id: u32, events: seq<Event>): nat {
    if events == [] || Renews(cfg, id, events[|events| - 1]) then 0
    else Since(cfg, id, events[..|events| - 1]) + if events[|events| - 1].Tick? then 1 else 0
  }

  /** At no time have as many ticks passed since the last packet as the counter has periods. */
  predicate HeardInTime(cfg: Config, start: nat, id: u32, events: seq<Event>) {
    forall k | 0 <= k <= |events| :: Since(cfg, id, events[..k]) < Periods(Base(cfg, start, id, events[..k]))
  }

  /** The client does not hang up; without idle timing it has not yet shaken hands. */
  predicate StaysTimed(cfg: Config, id: u32, e: Event) {
    e != PeerClose(id) && (cfg.keepalive > 0 || e != Packet(id, ServiceInfo))
  }

  /** A linked client that is heard in time is never destroyed by the timer, whatever else goes on, over any run;
      its counter always shows what it was last set to less 50 ms for each tick since. */
  lemma {:induction false} NeverExpires(cfg: Config, s: State, id: u32, events: seq<Event>)
    requires Sane(cfg) && Inv(cfg, s) && id in s.conns && s.conns[id].linked
    requires HeardInTime(cfg, s.conns[id].alive, id, events) && forall e <- events :: StaysTimed(cfg, id, e)
    ensures var t := Play(cfg, s, events); var b := Base(cfg, s.conns[id].alive, id, events);
            && id in t.conns && t.conns[id].linked
            && t.conns[id].alive == b - TIMER_PERIOD * Since(cfg, id, events) > 0
    decreases |events|
  {
    hide TimerOk, LinkingOk, Woken, SubsOk, NoDup, Step;
    var start := s.conns[id].alive;
    assert events[..|events|] == events;
    assert Since(cfg, id, events[..|events|]) < Periods(Base(cfg, start, id, events[..|events|]));
    if events != [] {
      var init, last := events[..|events| - 1], events[|events| - 1];
      assert last in events && forall e <- init :: e in events;
      forall k | 0 <= k <= |init|
        ensures Since(cfg, id, init[..k]) < Periods(Base(cfg, start, id, init[..k]))
      {
        assert init[..k] == events[..k];
      }
      NeverExpires(cfg, s, id, init);
      PlayKeepsInv(cfg, s, init);
      var t := Play(cfg, s, init);
      if last.Packet? && last.id == id {
        PacketRenews(cfg, t, id, last.msg);
      } else {
        SilentStep(cfg, t, id, t.conns[id], last);
      }
    }
  }

  /** Without idle timing a client that has shaken hands leaves only by hanging up. */
  lemma {:induction false} NoIdleTimer(cfg: Config, s: State, id: u32, events: seq<Event>)
    requires Sane(cfg) && Inv(cfg, s) && cfg.keepalive <= 0 && id in s.conns && s.conns[id].onconn
    requires forall e <- events :: e != PeerClose(id)
    ensures var t := Play(cfg, s, events); id in t.conns && t.conns[id].onconn
    decreases |events|
  {
    hide TimerOk, LinkingOk, Woken, SubsOk, NoDup, Step;
    if events != [] {
      var init, last := events[..|events| - 1], events[|events| - 1];
      assert last in events && forall e <- init :: e in events;
      NoIdleTimer(cfg, s, id, init);
      PlayKeepsInv(cfg, s, init);
      NoIdleTimerStep(cfg, Play(cfg, s, init), id, last);
    }
  }

  lemma NoIdleTimerStep(cfg: Config, s: State, id: u32, e: Event)
    requires Inv(cfg, s) && cfg.keepalive <= 0 && id in s.conns && s.conns[id].onconn && e != PeerClose(id)
    ensures var t := Step(cfg, s, e); id in t.conns && t.conns[id].onconn
  {
    hide TableOk, Woken, SubsOk, Minus, Without;
  }

  // ---- From the accept on -----------------------------------------------------------------

  /** A client that was just accepted is on the timer list, with the whole handshake timeout before it. */
  lemma AcceptStarts(cfg: Config, s: State, id: u32)
    requires Shaped(s) && id !in s.conns && id in Step(cfg, s, Accept).conns
    ensures var t := Step(cfg, s, Accept);
            && t.conns[id].linked && t.conns[id].alive == cfg.handshake && !t.conns[id].onconn && t.conns[id].subs == []
            && t.ncid == (id + 1) % 0x1_0000_0000
  {
    hide FreshId;
  }

  /** A client accepted after `pre` that then stays silent is still there after fewer than ceil(handshake / 50)
      ticks, whatever else goes on. */
  lemma HandshakeNotCutShort(cfg: Config, pre: seq<Event>, id: u32, post: seq<Event>)
    requires Sane(cfg) && Silent(id, post)
    ensures id !in Play(cfg, Start(), pre).conns && id in Play(cfg, Start(), pre + [Accept]).conns
            && Ticks(post) < (cfg.handshake + 49) / 50
            ==> id in Play(cfg, Start(), pre + [Accept] + post).conns
  {
    hide TimerOk, LinkingOk, Woken, SubsOk, NoDup, Step;
    var s := Play(cfg, Start(), pre);
    var t := Play(cfg, Start(), pre + [Accept]);
    assert (pre + [Accept])[..|pre|] == pre;
    ServerInvariant(cfg, pre + [Accept]);
    PlayAppend(cfg, Start(), pre + [Accept], post);
    if id !in s.conns && id in t.conns && Ticks(post) < (cfg.handshake + 49) / 50 {
      AcceptStarts(cfg, s, id);
      NotDestroyedEarly(cfg, t, id, post);
    }
  }

  /** And one that stays silent through that many ticks is destroyed by the next event-ready poll, unless its
      handshake still comes in before. */
  lemma HandshakeRunsOut(cfg: Config, pre: seq<Event>, id: u32, mid: seq<Event>, late: seq<Event>)
    requires Sane(cfg) && Silent(id, mid) && forall e <- late :: NoRescue(id, e) && !e.Expire?
    requires Ticks(mid) + 1 == (cfg.handshake + 49) / 50
    ensures id !in Play(cfg, Start(), pre).conns && id in Play(cfg, Start(), pre + [Accept]).conns ==>
              var t := Play(cfg, Start(), pre + [Accept] + (mid + [Tick] + late));
              id in t.conns && t.event && id !in Step(cfg, t, Expire).conns
  {
    hide TimerOk, LinkingOk, Woken, SubsOk, NoDup, Step, Silent;
    var s := Play(cfg, Start(), pre);
    var t := Play(cfg, Start(), pre + [Accept]);
    assert (pre + [Accept])[..|pre|] == pre;
    ServerInvariant(cfg, pre + [Accept]);
    PlayAppend(cfg, Start(), pre + [Accept], mid + [Tick] + late);
    if id !in s.conns && id in t.conns {
      AcceptStarts(cfg, s, id);
      DestroyedWhenDue(cfg, t, id, mid, late);
    }
  }

  /** The handshake, whenever it comes: with keepalive the client has the whole idle time before it, without it
      is off the timer list. */
  lemma HandshakeSwitches(cfg: Config, s: State, id: u32)
    requires Sane(cfg) && Inv(cfg, s) && id in s.conns
    ensures var t := Step(cfg, s, Packet(id, ServiceInfo));
            && id in t.conns && t.conns[id].onconn && (t.conns[id].linked <==> cfg.keepalive > 0)
            && (id in t.hst <==> cfg.keepalive > 0)
            && (cfg.keepalive > 0 ==> t.conns[id].alive == cfg.keepalive * 1000)
  {
    hide TableOk, Woken, SubsOk;
  }

  /** Every live client is in the chain that the low six bits of its id name, and in no other. */
  lemma ChainOfId(cfg: Config, events: seq<Event>, id: u32, h: nat)
    requires Sane(cfg) && h < 64
    ensures id in Play(cfg, Start(), events).buckets[h]
            <==> id in Play(cfg, Start(), events).conns && h == id % 64
  {
    hide Play, TimerOk, LinkingOk, Woken, SubsOk, NoDup;
    ServerInvariant(cfg, events);
    var s := Play(cfg, Start(), events);
    assert id in s.buckets[h] <==> id in s.conns && Hash(id) == h;
  }

  /** A tick raises the event exactly if a client on the timer list has 50 ms or less before it. */
  lemma TickRaises(cfg: Config, s: State)
    requires Inv(cfg, s)
    ensures Step(cfg, s, Tick).event <==> s.event || exists id | id in s.conns :: s.conns[id].linked && s.conns[id].alive <= 50
  {
    hide TableOk, LinkingOk, Woken, SubsOk, NoDup;
    var t := Ticked(s);
    if id :| id in s.conns && s.conns[id].linked && s.conns[id].alive <= 50 {
      assert id in s.hst && t.conns[id].alive == 0;
    }
  }

  // ---- Subscriptions ----------------------------------------------------------------------

  function SetOf(q: seq<Url>): set<Url> {
    set u | u in q
  }

  /** The set of subscriptions a history of requests amounts to. */
  function SubscribedTo(msgs: seq<Msg>): (r: set<Url>)
  {
    if msgs == [] then {}
    else
      var r := SubscribedTo(msgs[..|msgs| - 1]);
      match msgs[|msgs| - 1]
      case Subscribe(url) => if url != "" && url[0] == '/' then r + {url} else r
      case Unsubscribe(url) => if url != "" && url[0] == '/' then r - {url} else {}
      case _ => r
  }

  function SubsAfter(msgs: seq<Msg>): (r: seq<Url>)
  {
    if msgs == [] then [] else Subscribed(SubsAfter(msgs[..|msgs| - 1]), msgs[|msgs| - 1])
  }

  /** Under every history the list has no duplicates and is the set it should be. */
  lemma {:induction false} SubsRefineSet(msgs: seq<Msg>)
    ensures NoDup(SubsAfter(msgs)) && SetOf(SubsAfter(msgs)) == SubscribedTo(msgs)
  {
    if msgs != [] {
      SubsRefineSet(msgs[..|msgs| - 1]);
      var subs, msg := SubsAfter(msgs[..|msgs| - 1]), msgs[|msgs| - 1];
      if msg.Subscribe? && msg.url !in subs {
        assert NoDup([msg.url] + subs);
      }
    }
  }

  /** The messages of the client now called `id`, since it was accepted. */
  ghost function Messages(cfg: Config, id: u32, events: seq<Event>): (msgs: seq<Msg>)
  {
    if events == [] then []
    else
      var init, last := events[..|events| - 1], events[|events| - 1];
      var live := id in Play(cfg, Start(), init).conns;
      if last.Accept? && !live then []
      else if last.Packet? && last.id == id && live then Messages(cfg, id, init) + [last.msg]
      else Messages(cfg, id, init)
  }

  lemma SubsStep(cfg: Config, s: State, id: u32, e: Event)
    requires Shaped(s) && id in Step(cfg, s, e).conns
    ensures Step(cfg, s, e).conns[id].subs ==
            if id !in s.conns then []
            else if e.Packet? && e.id == id then Subscribed(s.conns[id].subs, e.msg)
            else s.conns[id].subs
    ensures id !in s.conns ==> e.Accept?
  {
    hide Minus, Without;
  }

  /** In every reachable state the subscriptions of every live client are, without duplicates, the set that its
      messages since it was accepted amount to. */
  lemma {:induction false} SubsOfClient(cfg: Config, id: u32, events: seq<Event>)
    requires Sane(cfg) && id in Play(cfg, Start(), events).conns
    ensures var subs := Play(cfg, Start(), events).conns[id].subs;
            NoDup(subs) && SetOf(subs) == SubscribedTo(Messages(cfg, id, events))
  {
    SubsFold(cfg, id, events);
    SubsRefineSet(Messages(cfg, id, events));
  }

  lemma {:induction false} SubsFold(cfg: Config, id: u32, events: seq<Event>)
    requires id in Play(cfg, Start(), events).conns
    ensures Play(cfg, Start(), events).conns[id].subs == SubsAfter(Messages(cfg, id, events))
    decreases |events|
  {
    hide Step, Subscribed;
    if events != [] {
      var init, last := events[..|events| - 1], events[|events| - 1];
      var s := Play(cfg, Start(), init);
      SubsStep(cfg, s, id, last);
      if id in s.conns {
        SubsFold(cfg, id, init);
        var m := Messages(cfg, id, init);
        if last.Packet? && last.id == id {
          assert (m + [last.msg])[..|m|] == m;
        }
      }
    }
  }

  /** What a publication must reach: every live client with a matching subscription. */
  ghost function Targets(s: State, url: Url): set<u32>
    requires SubsOk(s)
  {
    set id | id in s.conns && AnyMatches(s.conns[id].subs, url)
  }

  lemma TargetsCovered(s: State, url: Url, id: u32)
    requires SubsOk(s)
    ensures id in Targets(s, url) <==> id in s.conns && exists u <- s.conns[id].subs :: Covers(u, url)
  {
    hide SubMatches, Covers, NoDup;
    if id in s.conns {
      forall u | u in s.conns[id].subs ensures SubMatches(u, url) <==> Covers(u, url) {
        MatchesWhatItCovers(u, url);
      }
    }
  }

  /** In every reachable state a publication is for exactly those live clients whose messages since they were
      accepted leave them with a subscription that covers its URL. */
  lemma PublicationReaches(cfg: Config, events: seq<Event>, url: Url, id: u32)
    requires Sane(cfg)
    ensures var s := Play(cfg, Start(), events);
            && SubsOk(s)
            && (id in Targets(s, url) <==>
                id in s.conns && exists u <- SubscribedTo(Messages(cfg, id, events)) :: Covers(u, url))
  {
    hide Play, Targets, SubsOk, TableOk, TimerOk, LinkingOk, Woken, Covers, SubscribedTo, Messages;
    ServerInvariant(cfg, events);
    var s := Play(cfg, Start(), events);
    TargetsCovered(s, url, id);
    if id in s.conns {
      SubsOfClient(cfg, id, events);
    }
  }
}
