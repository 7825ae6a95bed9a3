/**
 The client's pending requests: 1024 slots, an occupancy bitmap and a table from 16-bit sequence numbers
 to slots. This module gives every operation as a function on values and runs them against a history of
 registrations; `PendingPool` is the mutable form.

 A locked section of the client is one step, and one received packet is one step.
 */
module Pending {
  import opened Common
  import opened Frame
  import opened Bitmap

  const NO_SLOT: u16 := 0xFFFF

  const MSG_RPC_REQUEST: byte := 0x01
  const MSG_SUBSCRIBE: byte := 0x02
  const MSG_UNSUBSCRIBE: byte := 0x03
  const MSG_PUBLISH: byte := 0x04
  const MSG_MESSAGE: byte := 0x05
  const MSG_PING_ECHO: byte := 0xFF

  /** Which kind of callback a slot holds. */
  datatype Kind = Rpc | Res

  /** `owner` stands for the callback and its argument; in runs it is the number of the registration. */
  datatype Slot = Slot(seqno: u16, timeout: u32, kind: Kind, owner: nat)

  datatype Pool = Pool(bits: seq<bool>, slots: seq<Slot>, table: seq<u16>, next: u16)

  ghost predicate Sized(p: Pool) {
    |p.bits| == SLOTS && |p.slots| == SLOTS && |p.table| == SEQNOS
  }

  ghost function LeastFree(bits: seq<bool>): (k: nat)
    ensures IsLeastFree(bits, k)
  {
    if bits == [] then 0
    else if |bits| == LeastFree(bits[..|bits| - 1]) + 1 && bits[|bits| - 1] then |bits|
    else LeastFree(bits[..|bits| - 1])
  }

  /** Fill a claimed slot and enter it in the table. */
  ghost function Claim(p: Pool, i: nat, kind: Kind, timeout: nat, owner: nat): (q: Pool)
    requires Sized(p) && i < SLOTS
    ensures Sized(q)
  {
    Pool(p.bits[i := true],
         p.slots[i := Slot(p.next, timeout % 0x1_0000_0000, kind, owner)],
         p.table[p.next := i],
         (p.next + 1) % SEQNOS)
  }

  ghost function Free(p: Pool, i: nat): (q: Pool)
    requires Sized(p) && i < SLOTS
    ensures Sized(q)
  {
    var s := p.slots[i].seqno;
    p.(table := if p.table[s] == i then p.table[s := NO_SLOT] else p.table,
       bits := p.bits[i := false])
  }

  /** The slot a sequence number leads to. */
  ghost function Lookup(p: Pool, seqno: u16): (r: Option<nat>)
    requires Sized(p)
    ensures r.Some? ==> r.value < SLOTS && p.bits[r.value]
  {
    var i := p.table[seqno];
    if i == NO_SLOT || i >= SLOTS || !p.bits[i] then None else Some(i)
  }

  function TickDown(t: u32): (r: u32)
  {
    if t > TIMER_PERIOD then t - TIMER_PERIOD else 0
  }

  ghost function Ticked(p: Pool): (q: Pool)
    requires Sized(p)
    ensures Sized(q)
  {
    p.(slots := seq(SLOTS, i requires 0 <= i < SLOTS =>
         if p.bits[i] then p.slots[i].(timeout := TickDown(p.slots[i].timeout)) else p.slots[i]))
  }

  ghost predicate Due(p: Pool, i: nat, onlyTimeout: bool)
    requires Sized(p) && i < SLOTS
  {
    p.bits[i] && (onlyTimeout ==> p.slots[i].timeout == 0)
  }

  /** Free every due slot below `k`. */
  ghost function CollectedTo(p: Pool, k: nat, onlyTimeout: bool): (q: Pool)
    requires Sized(p) && k <= SLOTS
    ensures Sized(q)
  {
    p.(bits := seq(SLOTS, i requires 0 <= i < SLOTS => p.bits[i] && !(i < k && Due(p, i, onlyTimeout))),
       table := seq(SEQNOS, s requires 0 <= s < SEQNOS =>
         var i := p.table[s];
         if i < k && Due(p, i, onlyTimeout) && p.slots[i].seqno == s then NO_SLOT else i))
  }

  ghost function Collected(p: Pool, onlyTimeout: bool): (q: Pool)
    requires Sized(p)
    ensures Sized(q)
  {
    CollectedTo(p, SLOTS, onlyTimeout)
  }

  /** The owners called back by a collection. */
  ghost function DueOwners(p: Pool, onlyTimeout: bool): set<nat>
    requires Sized(p)
  {
    set i | 0 <= i < SLOTS && Due(p, i, onlyTimeout) :: p.slots[i].owner
  }

  /** Calls hold a reply callback, all other requests a result callback. */
  function KindOf(msgType: byte): Kind {
    if msgType == MSG_RPC_REQUEST then Rpc else Res
  }

  /** Whether a reply of this type makes a slot of this kind call back before it is freed. */
  predicate CallsBack(kind: Kind, msgType: byte) {
    match kind
    case Rpc => msgType == MSG_RPC_REQUEST
    case Res => msgType == MSG_SUBSCRIBE || msgType == MSG_UNSUBSCRIBE || msgType == MSG_PING_ECHO
  }

  // ---- Runs -------------------------------------------------------------------------------

  /** How a request left the pool. `Muted`: its slot was freed by a reply that called nothing back. */
  datatype Fate = InFlight | Answered | Muted | TimedOut | Flushed | Cancelled | SendFailed

  /** `msgType` is the type the request was sent with. */
  datatype Request = Request(msgType: byte, timeout: u32, born: nat, fate: Fate)

  /** `reqs` is the history of registrations, `now` counts timer ticks, `event` is the wake-up flag, and `plain`
      is the second counter, for requests without a callback. */
  datatype Run = Run(pool: Pool, reqs: seq<Request>, now: nat, event: bool, plain: u16)

  datatype Event =
    | Register(msgType: byte, timeout: nat, sent: bool)
    | Reply(msgType: byte, seqno: u16)
    | Tick
    | PollEvent
    | Flush
    | CancelPing(req: nat)
    | Plain

  /** The number the next request without a callback gets: 0 is skipped. */
  function PlainNumber(plain: u16): u16 {
    if plain == 0 then 1 else plain
  }

  ghost function Settle(reqs: seq<Request>, who: set<nat>, fate: Fate): (r: seq<Request>)
    ensures |r| == |reqs|
  {
    seq(|reqs|, o requires 0 <= o < |reqs| => if o in who then reqs[o].(fate := fate) else reqs[o])
  }

  ghost function Release(r: Run, i: nat, fate: Fate): (q: Run)
    requires Sized(r.pool) && i < SLOTS
    ensures Sized(q.pool)
  {
    r.(pool := Free(r.pool, i), reqs := Settle(r.reqs, {r.pool.slots[i].owner}, fate))
  }

  ghost function Step(r: Run, e: Event): (q: Run)
    requires Sized(r.pool)
    ensures Sized(q.pool)
  {
    match e
    case Register(msgType, timeout, sent) =>
      var i := LeastFree(r.pool.bits);
      if i == SLOTS then r
      else
        var q := r.(pool := Claim(r.pool, i, KindOf(msgType), timeout, |r.reqs|),
                    reqs := r.reqs + [Request(msgType, timeout % 0x1_0000_0000, r.now, InFlight)]);
        if sent then q else Release(q, i, SendFailed)
    case Reply(msgType, seqno) =>
      if msgType == MSG_PUBLISH || msgType == MSG_MESSAGE then r
      else
        (match Lookup(r.pool, seqno)
         case None => r
         case Some(i) => Release(r, i, if CallsBack(r.pool.slots[i].kind, msgType) then Answered else Muted))
    case Tick =>
      var p := Ticked(r.pool);
      r.(pool := p, now := r.now + 1,
         event := r.event || exists i | 0 <= i < SLOTS :: Due(p, i, true))
    case PollEvent =>
      if !r.event then r
      else r.(pool := Collected(r.pool, true), event := false,
              reqs := Settle(r.reqs, DueOwners(r.pool, true), TimedOut))
    case Flush =>
      r.(pool := Collected(r.pool, false), reqs := Settle(r.reqs, DueOwners(r.pool, false), Flushed))
    case CancelPing(k) =>
      (match Lookup(r.pool, k % SEQNOS)
       case None => r
       case Some(i) => Release(r, i, Cancelled))
    case Plain => r.(plain := (PlainNumber(r.plain) + 1) % SEQNOS)
  }

  ghost function InitialPool(): (p: Pool)
    ensures Sized(p)
  {
    Pool(seq(SLOTS, i => false), seq(SLOTS, i => Slot(0, 0, Rpc, 0)), seq(SEQNOS, s => NO_SLOT), 0)
  }

  ghost function Play(events: seq<Event>): (r: Run)
    ensures Sized(r.pool)
  {
    if events == [] then Run(InitialPool(), [], 0, false, 0)
    else Step(Play(events[..|events| - 1]), events[|events| - 1])
  }

  // ---- The invariant ----------------------------------------------------------------------

  /** Registration `o` is the latest of `n` registrations to have drawn its sequence number. */
  predicate Latest(o: nat, n: nat) {
    o < n <= o + SEQNOS
  }

  function Remaining(q: Request, now: nat): (t: int)
  {
    if TIMER_PERIOD * (now - q.born) >= q.timeout then 0 else q.timeout - TIMER_PERIOD * (now - q.born)
  }

  /** A live slot agrees with the history of the request it holds. */
  ghost predicate SlotOk(r: Run, i: nat)
    requires Sized(r.pool) && i < SLOTS
  {
    var s := r.pool.slots[i];
    && s.owner < |r.reqs|
    && s.seqno == s.owner % SEQNOS
    && var q := r.reqs[s.owner];
       q.fate.InFlight? && KindOf(q.msgType) == s.kind && q.born <= r.now && s.timeout == Remaining(q, r.now)
  }

  ghost predicate Holds(p: Pool, i: nat, o: nat)
    requires Sized(p)
  {
    i < SLOTS && p.bits[i] && p.slots[i].owner == o
  }

  /** A table entry leads to a live slot with that sequence number, held by its latest owner. */
  ghost predicate EntryOk(r: Run, s: nat)
    requires Sized(r.pool) && s < SEQNOS
  {
    var i := r.pool.table[s];
    i != NO_SLOT ==> i < SLOTS && r.pool.bits[i] && r.pool.slots[i].seqno == s
                     && Latest(r.pool.slots[i].owner, |r.reqs|)
  }

  ghost predicate SlotsOk(r: Run) {
    Sized(r.pool) && forall i | 0 <= i < SLOTS && r.pool.bits[i] :: SlotOk(r, i)
  }

  ghost predicate OwnersDistinct(r: Run) {
    && Sized(r.pool)
    && forall i, j | 0 <= i < j < SLOTS && r.pool.bits[i] && r.pool.bits[j] ::
         r.pool.slots[i].owner != r.pool.slots[j].owner
  }

  /** Every request in flight sits in some live slot. */
  ghost predicate AllHeld(r: Run) {
    && Sized(r.pool)
    && forall o | 0 <= o < |r.reqs| && r.reqs[o].fate.InFlight? :: exists i :: Holds(r.pool, i, o)
  }

  ghost predicate TableOk(r: Run) {
    Sized(r.pool) && forall s | 0 <= s < SEQNOS :: EntryOk(r, s)
  }

  /** A live slot whose owner is the latest of its number can be reached through the table. */
  ghost predicate LatestReachable(r: Run) {
    && Sized(r.pool)
    && forall i | 0 <= i < SLOTS && r.pool.bits[i] && Latest(r.pool.slots[i].owner, |r.reqs|) ::
         r.pool.table[r.pool.slots[i].seqno] == i
  }

  ghost predicate Inv(r: Run) {
    && Sized(r.pool) && SlotsOk(r) && OwnersDistinct(r) && AllHeld(r) && TableOk(r) && LatestReachable(r)
    && r.pool.next == |r.reqs| % SEQNOS
  }

  /** Every request that ran out during a tick has the wake-up flag raised for it. */
  ghost predicate Woken(r: Run) {
    && Sized(r.pool)
    && forall i | 0 <= i < SLOTS && r.pool.bits[i] && r.pool.slots[i].timeout == 0 ::
         r.pool.slots[i].owner < |r.reqs| && (r.reqs[r.pool.slots[i].owner].born < r.now ==> r.event)
  }
}
