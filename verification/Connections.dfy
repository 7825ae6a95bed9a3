/**
 The server's connections: a hash table of clients under wrapping 32-bit ids, the handshake and idle timer
 list, and per-client subscriptions. A live client is named by its id where the server uses a pointer.
 */
module Connections {
  import opened Common
  import opened Frame
  import opened Probing
  import opened Urls

  const CLI_HASH_SIZE: nat := 64
  const IDS: nat := 0x1_0000_0000

  /** `handshake` is in milliseconds, `keepalive` in seconds; `keepalive <= 0` turns idle timing off. */
  datatype Config = Config(handshake: nat, keepalive: int, maxConns: u32)

  predicate Sane(cfg: Config) {
    cfg.handshake > 0
  }

  datatype Conn = Conn(alive: nat, linked: bool, active: bool, onconn: bool, subs: seq<Url>)

  /** `hst` is the timer list, `buckets` the hash table, `event` the wake-up flag set by the timer. */
  datatype State = State(ncid: u32, buckets: seq<seq<u32>>, conns: map<u32, Conn>, hst: seq<u32>, event: bool)

  datatype Msg = ServiceInfo | Subscribe(url: Url) | Unsubscribe(url: Url) | Other

  datatype Event = Accept | Packet(id: u32, msg: Msg) | PeerClose(id: u32) | Tick | Expire

  // ---- Sequences used as lists ------------------------------------------------------------

  /** The list without the first occurrence of `x`. */
  function Without<T(==, !new)>(q: seq<T>, x: T): (r: seq<T>)
    ensures NoDup(q) ==> NoDup(r) && forall y :: y in r <==> y in q && y != x
    ensures x !in q ==> r == q
    ensures forall y <- r :: y in q
  {
    if q == [] then []
    else if q[0] == x then (assert NoDup(q) ==> NoDup(q[1..]); q[1..])
    else
      assert NoDup(q) ==> NoDup(q[1..]);
      assert NoDup(q) ==> q[0] !in Without(q[1..], x);
      var r := [q[0]] + Without(q[1..], x);
      assert q == [q[0]] + q[1..];
      r
  }

  lemma {:induction false} WithoutAt<T(!new)>(q: seq<T>, i: nat, x: T)
    requires i < |q| && q[i] == x && x !in q[..i]
    ensures Without(q, x) == q[..i] + q[i + 1..]
  {
    if i > 0 {
      assert q[0] in q[..i] && forall y <- q[1..][..i - 1] :: y in q[..i];
      WithoutAt(q[1..], i - 1, x);
      assert q[..i] + q[i + 1..] == [q[0]] + (q[1..][..i - 1] + q[1..][i..]);
    }
  }

  /** The list without the members of `gone`. */
  function Minus<T(==, !new)>(q: seq<T>, gone: set<T>): (r: seq<T>)
    ensures forall y :: y in r <==> y in q && y !in gone
    ensures NoDup(q) ==> NoDup(r)
  {
    if q == [] then []
    else
      assert q == [q[0]] + q[1..];
      assert NoDup(q) ==> NoDup(q[1..]);
      if q[0] in gone then Minus(q[1..], gone) else [q[0]] + Minus(q[1..], gone)
  }

  // ---- Ids --------------------------------------------------------------------------------

  /** The first id from `n` on, wrapping at 32 bits, that is not taken. */
  ghost function FreshId(n: u32, taken: set<u32>): (id: u32)
    requires |taken| < IDS
    ensures id !in taken
  {
    Probe(n, IDS, Skipped(n, IDS, taken))
  }

  // ---- Steps ------------------------------------------------------------------------------

  function Hash(id: u32): (h: nat)
    ensures h < CLI_HASH_SIZE
  {
    id % CLI_HASH_SIZE
  }

  ghost predicate Shaped(s: State) {
    |s.buckets| == CLI_HASH_SIZE
  }

  ghost function Accepted(cfg: Config, s: State): (t: State)
    requires Shaped(s)
    ensures Shaped(t)
  {
    if |s.conns| >= cfg.maxConns then s
    else
      assert |s.conns.Keys| == |s.conns|;
      var id := FreshId(s.ncid, s.conns.Keys);
      var h := Hash(id);
      State((id + 1) % IDS, s.buckets[h := [id] + s.buckets[h]],
            s.conns[id := Conn(cfg.handshake, true, false, false, [])], [id] + s.hst, s.event)
  }

  ghost function Destroyed(s: State, id: u32): (t: State)
    requires Shaped(s) && id in s.conns
    ensures Shaped(t)
  {
    var h := Hash(id);
    s.(buckets := s.buckets[h := Without(s.buckets[h], id)],
       conns := s.conns - {id},
       hst := if s.conns[id].linked then Without(s.hst, id) else s.hst)
  }

  function TickAlive(a: nat): nat {
    if a <= TIMER_PERIOD then 0 else a - TIMER_PERIOD
  }

  ghost function Ticked(s: State): (t: State)
    ensures Shaped(s) ==> Shaped(t)
  {
    var conns := map id | id in s.conns ::
      if id in s.hst then s.conns[id].(alive := TickAlive(s.conns[id].alive)) else s.conns[id];
    s.(conns := conns, event := s.event || exists id | id in s.hst && id in conns :: conns[id].alive == 0)
  }

  ghost function Dead(s: State): set<u32> {
    set id | id in s.conns && id in s.hst && s.conns[id].alive == 0
  }

  ghost function Expired(s: State): (t: State)
    requires Shaped(s)
    ensures Shaped(t)
  {
    if !s.event then s
    else State(s.ncid,
               seq(CLI_HASH_SIZE, h requires 0 <= h < CLI_HASH_SIZE => Minus(s.buckets[h], Dead(s))),
               s.conns - Dead(s), Minus(s.hst, Dead(s)), false)
  }

  function IdleMs(cfg: Config): nat {
    if cfg.keepalive > 0 then cfg.keepalive * 1000 else 0
  }

  /** Any packet makes the client active and, with idle timing on, renews a timer that has not run out. */
  function Refreshed(cfg: Config, c: Conn): Conn {
    c.(active := true, alive := if cfg.keepalive > 0 && c.alive != 0 then IdleMs(cfg) else c.alive)
  }

  function Subscribed(subs: seq<Url>, msg: Msg): (r: seq<Url>)
  {
    match msg
    case Subscribe(url) => if Rooted(url) && url !in subs then [url] + subs else subs
    case Unsubscribe(url) => if Rooted(url) then Without(subs, url) else []
    case _ => subs
  }

  ghost function Received(cfg: Config, s: State, id: u32, msg: Msg): (t: State)
    requires id in s.conns
    ensures Shaped(s) ==> Shaped(t)
  {
    var c := Refreshed(cfg, s.conns[id]);
    if msg.ServiceInfo? then Greeted(cfg, s.(conns := s.conns[id := c]), id)
    else s.(conns := s.conns[id := c.(subs := Subscribed(c.subs, msg))])
  }

  /** The handshake: from now on the client's timer is the idle timer, if there is one. */
  ghost function Greeted(cfg: Config, s: State, id: u32): (t: State)
    requires id in s.conns
    ensures Shaped(s) ==> Shaped(t)
  {
    var c := s.conns[id];
    if cfg.keepalive > 0 then s.(conns := s.conns[id := c.(alive := IdleMs(cfg), onconn := true)])
    else if c.linked then
      s.(conns := s.conns[id := c.(alive := 0, linked := false, onconn := true)], hst := Without(s.hst, id))
    else s.(conns := s.conns[id := c.(onconn := true)])
  }

  ghost function Step(cfg: Config, s: State, e: Event): (t: State)
    requires Shaped(s)
    ensures Shaped(t)
  {
    match e
    case Accept => Accepted(cfg, s)
    case Packet(id, msg) => if id in s.conns then Received(cfg, s, id, msg) else s
    case PeerClose(id) => if id in s.conns then Destroyed(s, id) else s
    case Tick => Ticked(s)
    case Expire => Expired(s)
  }

  ghost function Start(): (s: State)
    ensures Shaped(s)
  {
    State(0, seq(CLI_HASH_SIZE, h => []), map[], [], false)
  }

  ghost function Play(cfg: Config, s: State, events: seq<Event>): (t: State)
    requires Shaped(s)
    ensures Shaped(t)
  {
    if events == [] then s else Step(cfg, Play(cfg, s, events[..|events| - 1]), events[|events| - 1])
  }

  // ---- The invariant ----------------------------------------------------------------------

  /** Every live client is in the bucket of its id, once, and nothing else is in the table. */
  ghost predicate TableOk(s: State) {
    && Shaped(s)
    && (forall h | 0 <= h < CLI_HASH_SIZE :: NoDup(s.buckets[h]))
    && forall h, id: u32 | 0 <= h < CLI_HASH_SIZE :: id in s.buckets[h] <==> id in s.conns && Hash(id) == h
  }

  /** The timer list holds exactly the live clients marked linked, once each. */
  ghost predicate TimerOk(s: State) {
    && NoDup(s.hst)
    && forall id: u32 :: id in s.hst <==> id in s.conns && s.conns[id].linked
  }

  /** With idle timing on every live client is linked; with it off, exactly those before their handshake. */
  ghost predicate LinkingOk(cfg: Config, s: State) {
    forall id | id in s.conns :: s.conns[id].linked <==> cfg.keepalive > 0 || !s.conns[id].onconn
  }

  /** A linked client whose time has run out has the event raised for it. */
  ghost predicate Woken(s: State) {
    forall id | id in s.conns && s.conns[id].linked && s.conns[id].alive == 0 :: s.event
  }

  /** Subscriptions form a set of rooted URLs, and a client that has any is active. */
  ghost predicate SubsOk(s: State) {
    forall id | id in s.conns ::
      && NoDup(s.conns[id].subs)
      && (forall u <- s.conns[id].subs :: Rooted(u))
      && (s.conns[id].subs != [] ==> s.conns[id].active)
  }

  ghost predicate Inv(cfg: Config, s: State) {
    TableOk(s) && TimerOk(s) && LinkingOk(cfg, s) && Woken(s) && SubsOk(s) && |s.conns| <= cfg.maxConns
  }
}
