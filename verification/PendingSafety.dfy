/** What every run of the pending pool keeps, and what follows for replies, timeouts and accounting. */
module PendingSafety {
  import opened Common
  import opened Frame
  import opened Bitmap
  import opened Pending

  ghost function Registered(r: Run, i: nat, msgType: byte, timeout: nat): (q: Run)
    requires Sized(r.pool) && i < SLOTS
    ensures Sized(q.pool)
  {
    r.(pool := Claim(r.pool, i, KindOf(msgType), timeout, |r.reqs|),
       reqs := r.reqs + [Request(msgType, timeout % 0x1_0000_0000, r.now, InFlight)])
  }

  /** A registration makes exactly one earlier one cease to be the latest: the one whose number it reuses. */
  lemma LatestAfter(o: nat, n: nat)
    requires o < n
    ensures Latest(o, n + 1) <==> Latest(o, n) && !(o % SEQNOS == n % SEQNOS && Latest(o, n))
  {
  }

  lemma RegisterKeepsSlots(r: Run, i: nat, msgType: byte, timeout: nat)
    requires Inv(r) && i < SLOTS && !r.pool.bits[i]
    ensures var q := Registered(r, i, msgType, timeout); SlotsOk(q) && OwnersDistinct(q) && AllHeld(q)
  {
    hide TableOk, LatestReachable;
    var q := Registered(r, i, msgType, timeout);
    forall k | 0 <= k < SLOTS && q.pool.bits[k] ensures SlotOk(q, k) {
      if k != i { assert SlotOk(r, k); }
    }
    forall o | 0 <= o < |q.reqs| && q.reqs[o].fate.InFlight? ensures exists k :: Holds(q.pool, k, o) {
      if o < |r.reqs| {
        var k :| Holds(r.pool, k, o);
        assert Holds(q.pool, k, o);
      } else {
        assert Holds(q.pool, i, o);
      }
    }
  }

  lemma RegisterKeepsTable(r: Run, i: nat, msgType: byte, timeout: nat)
    requires Inv(r) && i < SLOTS && !r.pool.bits[i]
    ensures var q := Registered(r, i, msgType, timeout); TableOk(q) && LatestReachable(q)
  {
    hide AllHeld, OwnersDistinct;
    var q := Registered(r, i, msgType, timeout);
    var n := |r.reqs|;
    forall s | 0 <= s < SEQNOS ensures EntryOk(q, s) {
      assert EntryOk(r, s);
      var k := r.pool.table[s];
      if s != n % SEQNOS && k != NO_SLOT {
        assert SlotOk(r, k);
        LatestAfter(r.pool.slots[k].owner, n);
      }
    }
    forall k | 0 <= k < SLOTS && q.pool.bits[k] && Latest(q.pool.slots[k].owner, |q.reqs|)
      ensures q.pool.table[q.pool.slots[k].seqno] == k
    {
      if k != i {
        assert SlotOk(r, k);
        LatestAfter(r.pool.slots[k].owner, n);
      }
    }
  }

  lemma RegisterKeepsInv(r: Run, i: nat, msgType: byte, timeout: nat)
    requires Inv(r) && i < SLOTS && !r.pool.bits[i]
    ensures Inv(Registered(r, i, msgType, timeout))
  {
    hide SlotsOk, OwnersDistinct, AllHeld, TableOk, LatestReachable;
    RegisterKeepsSlots(r, i, msgType, timeout);
    RegisterKeepsTable(r, i, msgType, timeout);
  }

  lemma ReleaseKeepsSlots(r: Run, i: nat, fate: Fate)
    requires Inv(r) && i < SLOTS && r.pool.bits[i] && !fate.InFlight?
    ensures var q := Release(r, i, fate); SlotsOk(q) && OwnersDistinct(q) && AllHeld(q)
  {
    hide TableOk, LatestReachable;
    var q := Release(r, i, fate);
    assert SlotOk(r, i);
    forall k | 0 <= k < SLOTS && q.pool.bits[k] ensures SlotOk(q, k) {
      assert SlotOk(r, k);
    }
    forall o | 0 <= o < |q.reqs| && q.reqs[o].fate.InFlight? ensures exists k :: Holds(q.pool, k, o) {
      var k :| Holds(r.pool, k, o);
      assert Holds(q.pool, k, o);
    }
  }

  lemma ReleaseKeepsTable(r: Run, i: nat, fate: Fate)
    requires Inv(r) && i < SLOTS && r.pool.bits[i] && !fate.InFlight?
    ensures var q := Release(r, i, fate); TableOk(q) && LatestReachable(q)
  {
    hide AllHeld, OwnersDistinct;
    var q := Release(r, i, fate);
    forall s | 0 <= s < SEQNOS ensures EntryOk(q, s) {
      assert EntryOk(r, s);
    }
  }

  lemma ReleaseKeepsInv(r: Run, i: nat, fate: Fate)
    requires Inv(r) && i < SLOTS && r.pool.bits[i] && !fate.InFlight?
    ensures Inv(Release(r, i, fate))
  {
    hide SlotsOk, OwnersDistinct, AllHeld, TableOk, LatestReachable;
    ReleaseKeepsSlots(r, i, fate);
    ReleaseKeepsTable(r, i, fate);
  }

  lemma TickKeepsInv(r: Run)
    requires Inv(r)
    ensures Inv(Step(r, Tick))
  {
    var q := Step(r, Tick);
    forall k | 0 <= k < SLOTS && q.pool.bits[k] ensures SlotOk(q, k) {
      assert SlotOk(r, k);
    }
    forall s | 0 <= s < SEQNOS ensures EntryOk(q, s) {
      assert EntryOk(r, s);
    }
    forall o | 0 <= o < |q.reqs| && q.reqs[o].fate.InFlight? ensures exists k :: Holds(q.pool, k, o) {
      var k :| Holds(r.pool, k, o);
      assert Holds(q.pool, k, o);
    }
  }

  ghost function Swept(r: Run, onlyTimeout: bool, fate: Fate, event: bool): (q: Run)
    requires Sized(r.pool)
    ensures Sized(q.pool)
  {
    r.(pool := Collected(r.pool, onlyTimeout), event := event,
       reqs := Settle(r.reqs, DueOwners(r.pool, onlyTimeout), fate))
  }

  lemma SweepKeepsInv(r: Run, onlyTimeout: bool, fate: Fate, event: bool)
    requires Inv(r) && !fate.InFlight?
    ensures Inv(Swept(r, onlyTimeout, fate, event))
  {
    var q := Swept(r, onlyTimeout, fate, event);
    assert SlotsOk(q) by {
      forall k | 0 <= k < SLOTS && q.pool.bits[k] ensures SlotOk(q, k) {
        assert SlotOk(r, k);
      }
    }
    assert AllHeld(q) by {
      forall o | 0 <= o < |q.reqs| && q.reqs[o].fate.InFlight? ensures exists k :: Holds(q.pool, k, o) {
        var k :| Holds(r.pool, k, o);
        assert Holds(q.pool, k, o);
      }
    }
    assert TableOk(q) by {
      forall s | 0 <= s < SEQNOS ensures EntryOk(q, s) {
        assert EntryOk(r, s);
      }
    }
  }

  lemma PlainKeepsInv(r: Run)
    requires Inv(r)
    ensures Inv(Step(r, Plain))
  {
    var q := Step(r, Plain);
    assert forall i | 0 <= i < SLOTS && r.pool.bits[i] :: SlotOk(q, i) == SlotOk(r, i);
    assert forall s | 0 <= s < SEQNOS :: EntryOk(q, s) == EntryOk(r, s);
  }

  lemma StepKeepsInv(r: Run, e: Event)
    requires Inv(r)
    ensures Inv(Step(r, e))
  {
    hide SlotsOk, OwnersDistinct, AllHeld, TableOk, LatestReachable, Free, Settle, Collected;
    match e
    case Register(msgType, timeout, sent) =>
      var i := LeastFree(r.pool.bits);
      if i < SLOTS {
        RegisterKeepsInv(r, i, msgType, timeout);
        if !sent { ReleaseKeepsInv(Registered(r, i, msgType, timeout), i, SendFailed); }
      }
    case Reply(msgType, seqno) =>
      if msgType != MSG_PUBLISH && msgType != MSG_MESSAGE && Lookup(r.pool, seqno).Some? {
        var i := Lookup(r.pool, seqno).value;
        ReleaseKeepsInv(r, i, if CallsBack(r.pool.slots[i].kind, msgType) then Answered else Muted);
      }
    case Tick => TickKeepsInv(r);
    case PollEvent => if r.event { SweepKeepsInv(r, true, TimedOut, false); }
    case Flush => SweepKeepsInv(r, false, Flushed, r.event);
    case CancelPing(k) =>
      if Lookup(r.pool, k % SEQNOS).Some? {
        ReleaseKeepsInv(r, Lookup(r.pool, k % SEQNOS).value, Cancelled);
      }
    case Plain => PlainKeepsInv(r);
  }

  lemma {:induction false} PlayKeepsInv(events: seq<Event>)
    ensures Inv(Play(events))
    decreases |events|
  {
    if events != [] {
      PlayKeepsInv(events[..|events| - 1]);
      StepKeepsInv(Play(events[..|events| - 1]), events[|events| - 1]);
    }
  }

  // ---- Replies ----------------------------------------------------------------------------

  /** The latest of `n` registrations that drew sequence number `s`. */
  function NewestFor(n: nat, s: nat): (o: nat)
    requires s < n && s < SEQNOS
    ensures Latest(o, n) && o % SEQNOS == s
  {
    n - 1 - (n - 1 - s) % SEQNOS
  }

  lemma LatestIsNewest(o: nat, n: nat)
    requires Latest(o, n)
    ensures o % SEQNOS < n && o == NewestFor(n, o % SEQNOS)
  {
  }

  ghost predicate Flying(r: Run, o: nat) {
    o < |r.reqs| && r.reqs[o].fate.InFlight?
  }

  /** The request, if any, whose slot a packet with this sequence number takes. */
  ghost function Taker(r: Run, s: u16): (t: Option<nat>)
  {
    if s < |r.reqs| && Flying(r, NewestFor(|r.reqs|, s)) then Some(NewestFor(|r.reqs|, s)) else None
  }

  /** The table finds the newest request of a sequence number if that one is still in flight, and nothing else. */
  lemma LookupFindsTaker(r: Run, s: u16)
    requires Inv(r)
    ensures Lookup(r.pool, s).Some? <==> Taker(r, s).Some?
    ensures Lookup(r.pool, s).Some? ==> r.pool.slots[Lookup(r.pool, s).value].owner == Taker(r, s).value
  {
    assert EntryOk(r, s);
    if Taker(r, s).Some? {
      var i :| Holds(r.pool, i, Taker(r, s).value);
      assert SlotOk(r, i);
      assert r.pool.table[s] == i;
    }
    if Lookup(r.pool, s).Some? {
      var i := Lookup(r.pool, s).value;
      assert SlotOk(r, i);
      LatestIsNewest(r.pool.slots[i].owner, |r.reqs|);
    }
  }

  /** The effect on the history of a packet or a cancellation that takes the slot of `o`. */
  ghost function Marked(reqs: seq<Request>, o: nat, fate: Fate): seq<Request>
    requires o < |reqs|
  {
    reqs[o := reqs[o].(fate := fate)]
  }

  lemma ReleaseMarks(r: Run, i: nat, fate: Fate)
    requires Sized(r.pool) && i < SLOTS && r.pool.slots[i].owner < |r.reqs|
    ensures Release(r, i, fate).reqs == Marked(r.reqs, r.pool.slots[i].owner, fate)
  {
  }

  /** Releasing the slot a number leads to marks the taker of that number. */
  lemma ReleaseMarksTaker(r: Run, s: u16, fate: Fate)
    requires Inv(r) && Lookup(r.pool, s).Some?
    ensures var i := Lookup(r.pool, s).value; var t := Taker(r, s);
            && t.Some? && KindOf(r.reqs[t.value].msgType) == r.pool.slots[i].kind
            && Release(r, i, fate).reqs == Marked(r.reqs, t.value, fate)
  {
    LookupFindsTaker(r, s);
    assert SlotOk(r, Lookup(r.pool, s).value);
    ReleaseMarks(r, Lookup(r.pool, s).value, fate);
  }

  /** Publications and messages carry no reply: they leave every request alone, whatever their number. */
  lemma PublicationsAnswerNothing(r: Run, s: u16)
    requires Sized(r.pool)
    ensures Step(r, Reply(0x04, s)) == r && Step(r, Reply(0x05, s)) == r
  {
  }

  /** What a packet with sequence number `s` does, in every reachable state and whoever it was meant for. */
  lemma ReplyEffect(events: seq<Event>, msgType: byte, s: u16)
    requires msgType != MSG_PUBLISH && msgType != MSG_MESSAGE
    ensures var r := Play(events); var q := Step(r, Reply(msgType, s)); var t := Taker(r, s);
            && (t.None? ==> q == r)
            && (t.Some? ==> q.reqs == Marked(r.reqs, t.value,
                                             if CallsBack(KindOf(r.reqs[t.value].msgType), msgType) then Answered else Muted))
  {
    hide Play, Inv, Step;
    PlayKeepsInv(events);
    TakerEffect(Play(events), msgType, s);
  }

  lemma TakerEffect(r: Run, msgType: byte, s: u16)
    requires Inv(r) && msgType != MSG_PUBLISH && msgType != MSG_MESSAGE
    ensures var q := Step(r, Reply(msgType, s)); var t := Taker(r, s);
            && (t.None? ==> q == r)
            && (t.Some? ==> q.reqs == Marked(r.reqs, t.value,
                                             if CallsBack(KindOf(r.reqs[t.value].msgType), msgType) then Answered else Muted))
  {
    hide Inv, Release, Lookup, Taker, Marked;
    InvSized(r);
    LookupFindsTaker(r, s);
    if Lookup(r.pool, s).Some? {
      var i := Lookup(r.pool, s).value;
      ReleaseMarksTaker(r, s, if CallsBack(r.pool.slots[i].kind, msgType) then Answered else Muted);
    }
  }

  /**
   A step meant for request `k` settles `k` if it is in flight and changes nothing otherwise, as long as fewer
   than 65536 registrations came after `k`. Later than that it hits another request exactly when the
   newest request with the same sequence number is in flight.
   */
  ghost predicate Settles(r: Run, q: Run, k: nat, fate: Fate) {
    var n := |r.reqs|;
    && k < n == |q.reqs|
    && (Latest(k, n) && Flying(r, k) ==> q.reqs == Marked(r.reqs, k, fate))
    && (Latest(k, n) && !Flying(r, k) ==> q == r)
    && ((exists o | 0 <= o < n && o != k :: q.reqs[o] != r.reqs[o])
        <==> !Latest(k, n) && Flying(r, NewestFor(n, k % SEQNOS)))
  }

  lemma TakerSettles(r: Run, q: Run, k: nat, fate: Fate, actual: Fate)
    requires k < |r.reqs| && !actual.InFlight?
    requires var t := Taker(r, k % SEQNOS);
             if t.None? then q == r else q.reqs == Marked(r.reqs, t.value, actual) && (t.value == k ==> actual == fate)
    ensures Settles(r, q, k, fate)
  {
    var n := |r.reqs|;
    if Latest(k, n) { LatestIsNewest(k, n); }
    var t := NewestFor(n, k % SEQNOS);
    if !Latest(k, n) && Flying(r, t) {
      assert q.reqs[t] != r.reqs[t];
    }
  }

  /** A reply to request `k`, of the type that request waits for. */
  lemma ReplyReachesItsRequest(events: seq<Event>, k: nat, msgType: byte)
    ensures var r := Play(events);
            k < |r.reqs| && CallsBack(KindOf(r.reqs[k].msgType), msgType)
            ==> Settles(r, Step(r, Reply(msgType, k % SEQNOS)), k, Answered)
  {
    hide Play, Step;
    var r := Play(events);
    if k < |r.reqs| && CallsBack(KindOf(r.reqs[k].msgType), msgType) {
      ReplyEffect(events, msgType, k % SEQNOS);
      var t := Taker(r, k % SEQNOS);
      TakerSettles(r, Step(r, Reply(msgType, k % SEQNOS)), k, Answered,
                   if t.Some? && !CallsBack(KindOf(r.reqs[t.value].msgType), msgType) then Muted else Answered);
    }
  }

  /**
   Which replies answer a request in flight that is the newest of its number, by message types. A call (0x01) is
   answered by a call reply; a subscription (0x02), its withdrawal (0x03) and a ping (0xFF) are answered by replies
   of any of these three types; any other reply but a publication (0x04) or a message (0x05) frees the slot without
   calling back. In particular a reply of the request's own type always answers it.
   */
  lemma ReplyByType(r: Run, k: nat, msgType: byte)
    requires Inv(r) && Flying(r, k) && Latest(k, |r.reqs|) && msgType != 0x04 && msgType != 0x05
    ensures var q := Step(r, Reply(msgType, k % SEQNOS)); var sent := r.reqs[k].msgType;
            && (msgType == 0x01 ==> q.reqs == Marked(r.reqs, k, if sent == 0x01 then Answered else Muted))
            && (msgType in {0x02, 0x03, 0xFF} ==> q.reqs == Marked(r.reqs, k, if sent != 0x01 then Answered else Muted))
            && (msgType !in {0x01, 0x02, 0x03, 0xFF} ==> q.reqs == Marked(r.reqs, k, Muted))
            && (msgType == sent && sent in {0x01, 0x02, 0x03, 0xFF} ==> q.reqs == Marked(r.reqs, k, Answered))
  {
    hide Inv, Step, Marked;
    LatestIsNewest(k, |r.reqs|);
    TakerEffect(r, msgType, k % SEQNOS);
  }

  lemma InvSized(r: Run)
    requires Inv(r)
    ensures Sized(r.pool)
  {
  }

  lemma CancelEffect(events: seq<Event>, k: nat)
    ensures var r := Play(events); var q := Step(r, CancelPing(k)); var t := Taker(r, k % SEQNOS);
            && (t.None? ==> q == r)
            && (t.Some? ==> q.reqs == Marked(r.reqs, t.value, Cancelled))
  {
    hide Play, Inv, Release, Lookup, Taker, Marked;
    var r := Play(events);
    PlayKeepsInv(events);
    LookupFindsTaker(r, k % SEQNOS);
    if Lookup(r.pool, k % SEQNOS).Some? {
      ReleaseMarksTaker(r, k % SEQNOS, Cancelled);
    }
  }

  /** Giving up on ping `k`. */
  lemma CancelHitsItsPing(events: seq<Event>, k: nat)
    ensures var r := Play(events); k < |r.reqs| ==> Settles(r, Step(r, CancelPing(k)), k, Cancelled)
  {
    hide Play, Step;
    var r := Play(events);
    if k < |r.reqs| {
      CancelEffect(events, k);
      TakerSettles(r, Step(r, CancelPing(k)), k, Cancelled, Cancelled);
    }
  }

  // ---- Requests without a callback --------------------------------------------------------

  function Plains(events: seq<Event>): (n: nat)
  {
    if events == [] then 0 else Plains(events[..|events| - 1]) + if events[|events| - 1].Plain? then 1 else 0
  }

  lemma StepPlain(r: Run, e: Event)
    ensures Sized(r.pool) ==> Step(r, e).plain == if e.Plain? then (PlainNumber(r.plain) + 1) % SEQNOS else r.plain
  {
    hide LeastFree;
  }

  /** Requests without a callback are numbered from 1 to 65535, over and over, whatever else is registered. */
  lemma {:induction false} PlainNumbers(events: seq<Event>)
    ensures PlainNumber(Play(events).plain) == Plains(events) % (SEQNOS - 1) + 1
    decreases |events|
  {
    hide Step;
    if events != [] {
      PlainNumbers(events[..|events| - 1]);
      StepPlain(Play(events[..|events| - 1]), events[|events| - 1]);
    }
  }

  /** The acknowledgement of such a request, numbered `s`, is harmless if and only if `s` has no taker. */
  lemma AckHarmlessExactly(events: seq<Event>, msgType: byte, s: u16)
    requires msgType != MSG_PUBLISH && msgType != MSG_MESSAGE
    ensures var r := Play(events); Step(r, Reply(msgType, s)) == r <==> Taker(r, s).None?
  {
    hide Play, Step;
    ReplyEffect(events, msgType, s);
  }

  lemma TwoInFlight(e: Event)
    requires e == Register(MSG_RPC_REQUEST, 1000, true)
    ensures Play([Plain, e, e]).reqs == [Request(MSG_RPC_REQUEST, 1000, 0, InFlight), Request(MSG_RPC_REQUEST, 1000, 0, InFlight)]
  {
    var r0 := Play([Plain]);
    var r1 := Step(r0, e);
    assert [Plain, e, e][..2] == [Plain, e] && [Plain, e][..1] == [Plain] && [Plain][..0] == [];
    assert r0 == Step(Play([]), Plain) && Play([Plain, e]) == r1 && Play([Plain, e, e]) == Step(r1, e);
    NextRegisters(r0, e);
    NextRegisters(r1, e);
  }

  lemma NextRegisters(r: Run, e: Event)
    requires e == Register(MSG_RPC_REQUEST, 1000, true) && Sized(r.pool) && r.now == 0
    requires !r.pool.bits[1]
    ensures var q := Step(r, e);
            && q.reqs == r.reqs + [Request(MSG_RPC_REQUEST, 1000, 0, InFlight)] && q.now == 0
            && (!r.pool.bits[0] ==> q.pool.bits[0] && !q.pool.bits[1])
  {
    hide LeastFree;
  }

  /**
   Requests without a callback draw their numbers from a second counter over the same 16 bits, so the
   acknowledgement of one can take a stranger's slot: here the second of two RPC calls loses its slot, uncalled,
   to the acknowledgement of a subscription that was sent before them.
   */
  lemma StrayAckMutesARequest()
    ensures var s := PlainNumber(Play([]).plain);
            var r := Play([Plain, Register(MSG_RPC_REQUEST, 1000, true), Register(MSG_RPC_REQUEST, 1000, true), Reply(MSG_SUBSCRIBE, s)]);
            |r.reqs| == 2 && r.reqs[1].fate == Muted
  {
    hide Step;
    var s := PlainNumber(Play([]).plain);
    assert s == 1;
    var e, ack := Register(MSG_RPC_REQUEST, 1000, true), Reply(MSG_SUBSCRIBE, s);
    assert [Plain, e, e, ack][..3] == [Plain, e, e];
    TwoInFlight(e);
    ReplyEffect([Plain, e, e], MSG_SUBSCRIBE, s);
  }

  // ---- Table and bitmap -------------------------------------------------------------------

  /** Fewer than 65536 registrations came after every request in flight. */
  ghost predicate AllYoung(r: Run) {
    forall o | Flying(r, o) :: Latest(o, |r.reqs|)
  }

  /** In every reachable state a table entry leads to a live slot holding that number; and while every request
      in flight is young, each live slot is what the table gives for its number: a one-to-one match. */
  lemma TableMatchesBitmap(events: seq<Event>)
    ensures var r := Play(events); var p := r.pool;
            && (forall s | 0 <= s < SEQNOS && p.table[s] != NO_SLOT ::
                  p.table[s] < SLOTS && p.bits[p.table[s]] && p.slots[p.table[s]].seqno == s)
            && (AllYoung(r) ==> forall i | 0 <= i < SLOTS && p.bits[i] :: p.table[p.slots[i].seqno] == i)
  {
    var r := Play(events);
    PlayKeepsInv(events);
    forall s | 0 <= s < SEQNOS && r.pool.table[s] != NO_SLOT
      ensures r.pool.table[s] < SLOTS && r.pool.bits[r.pool.table[s]] && r.pool.slots[r.pool.table[s]].seqno == s
    {
      assert EntryOk(r, s);
    }
    forall i | 0 <= i < SLOTS && r.pool.bits[i] ensures Flying(r, r.pool.slots[i].owner) {
      assert SlotOk(r, i);
    }
  }

  // ---- Accounting -------------------------------------------------------------------------

  /** `q` extends the history `r`: what has left the pool stays out, and nothing else about a request changes. */
  ghost predicate Extends(r: seq<Request>, q: seq<Request>) {
    && |r| <= |q|
    && forall o | 0 <= o < |r| ::
         q[o] == r[o] || (r[o].fate.InFlight? && q[o] == r[o].(fate := q[o].fate))
  }

  lemma StepExtends(r: Run, e: Event)
    requires Inv(r)
    ensures Extends(r.reqs, Step(r, e).reqs)
  {
    hide OwnersDistinct, AllHeld, TableOk, LatestReachable, LeastFree, Free, Collected, Ticked;
    forall i | 0 <= i < SLOTS && r.pool.bits[i] ensures Flying(r, r.pool.slots[i].owner) {
      assert SlotOk(r, i);
    }
  }

  /** Over any run, a request leaves the pool at most once, and how it left is never revised. */
  lemma {:induction false} LeavesOnce(events: seq<Event>, more: seq<Event>)
    ensures Extends(Play(events).reqs, Play(events + more).reqs)
    decreases |more|
  {
    hide Step, Inv;
    if more == [] {
      assert events + more == events;
    } else {
      var init, last := more[..|more| - 1], more[|more| - 1];
      assert (events + more)[..|events + more| - 1] == events + init;
      LeavesOnce(events, init);
      PlayKeepsInv(events + init);
      StepExtends(Play(events + init), last);
    }
  }

  function Count(reqs: seq<Request>, fate: Fate): (n: nat)
  {
    if reqs == [] then 0
    else Count(reqs[..|reqs| - 1], fate) + if reqs[|reqs| - 1].fate == fate then 1 else 0
  }

  lemma {:induction false} CountsAddUp(reqs: seq<Request>)
    ensures |reqs| == Count(reqs, InFlight) + Count(reqs, Answered) + Count(reqs, Muted) + Count(reqs, TimedOut)
                      + Count(reqs, Flushed) + Count(reqs, Cancelled) + Count(reqs, SendFailed)
  {
    if reqs != [] {
      CountsAddUp(reqs[..|reqs| - 1]);
    }
  }

  /** The number of set bits. */
  function Occupied(bits: seq<bool>): (n: nat)
  {
    if bits == [] then 0 else Occupied(bits[..|bits| - 1]) + if bits[|bits| - 1] then 1 else 0
  }

  ghost function LiveOwners(p: Pool, k: nat): set<nat>
    requires Sized(p) && k <= SLOTS
  {
    set i | 0 <= i < k && p.bits[i] :: p.slots[i].owner
  }

  ghost function FlyingSet(reqs: seq<Request>): set<nat>
  {
    set o | 0 <= o < |reqs| && reqs[o].fate.InFlight?
  }

  lemma {:induction false} FlyingCount(reqs: seq<Request>)
    ensures |FlyingSet(reqs)| == Count(reqs, InFlight)
  {
    if reqs != [] {
      var n := |reqs| - 1;
      FlyingCount(reqs[..n]);
      assert FlyingSet(reqs) == FlyingSet(reqs[..n]) + if reqs[n].fate.InFlight? then {n} else {};
    }
  }

  lemma LiveOwnersStep(r: Run, k: nat)
    requires OwnersDistinct(r) && 0 < k <= SLOTS
    ensures var p := r.pool; var o := p.slots[k - 1].owner;
            && LiveOwners(p, k) == LiveOwners(p, k - 1) + (if p.bits[k - 1] then {o} else {})
            && (p.bits[k - 1] ==> o !in LiveOwners(p, k - 1))
  {
    var p := r.pool;
    forall o | o in LiveOwners(p, k - 1) ensures o in LiveOwners(p, k) {
      var i :| 0 <= i < k - 1 && p.bits[i] && p.slots[i].owner == o;
    }
    forall o | o in LiveOwners(p, k) ensures o in LiveOwners(p, k - 1) || (p.bits[k - 1] && o == p.slots[k - 1].owner) {
      var i :| 0 <= i < k && p.bits[i] && p.slots[i].owner == o;
    }
  }

  lemma {:induction false} SlotsMatchOwners(r: Run, k: nat)
    requires OwnersDistinct(r) && k <= SLOTS
    ensures |LiveOwners(r.pool, k)| == Occupied(r.pool.bits[..k])
  {
    var p := r.pool;
    if k == 0 {
      assert LiveOwners(p, k) == {};
    } else {
      hide OwnersDistinct, LiveOwners;
      SlotsMatchOwners(r, k - 1);
      LiveOwnersStep(r, k);
      assert p.bits[..k][..k - 1] == p.bits[..k - 1];
    }
  }

  /** Conservation: the occupied slots and the requests that left, each counted once by how they left,
      make up all registrations. */
  lemma Conservation(events: seq<Event>)
    ensures var r := Play(events);
            |r.reqs| == Occupied(r.pool.bits) + Count(r.reqs, Answered) + Count(r.reqs, Muted)
                        + Count(r.reqs, TimedOut) + Count(r.reqs, Flushed) + Count(r.reqs, Cancelled)
                        + Count(r.reqs, SendFailed)
  {
    var r := Play(events);
    PlayKeepsInv(events);
    CountsAddUp(r.reqs);
    FlyingCount(r.reqs);
    SlotsMatchOwners(r, SLOTS);
    HeldAreFlying(r);
    assert r.pool.bits[..SLOTS] == r.pool.bits;
  }

  lemma HeldAreFlying(r: Run)
    requires Inv(r)
    ensures LiveOwners(r.pool, SLOTS) == FlyingSet(r.reqs)
  {
    hide OwnersDistinct, TableOk, LatestReachable;
    forall o | o in LiveOwners(r.pool, SLOTS) ensures o in FlyingSet(r.reqs) {
      var i :| 0 <= i < SLOTS && r.pool.bits[i] && r.pool.slots[i].owner == o;
      assert SlotOk(r, i);
    }
    forall o: nat | o in FlyingSet(r.reqs) ensures o in LiveOwners(r.pool, SLOTS) {
      var i: nat :| Holds(r.pool, i, o);
      assert r.pool.slots[i].owner == o;
    }
  }

  // ---- Timeouts ---------------------------------------------------------------------------

  lemma TickKeepsWoken(r: Run)
    requires SlotsOk(r) && Woken(r)
    ensures Woken(Step(r, Tick))
  {
    var q := Step(r, Tick);
    forall i | 0 <= i < SLOTS && q.pool.bits[i] && q.pool.slots[i].timeout == 0
      ensures q.pool.slots[i].owner < |q.reqs| && q.event
    {
      assert SlotOk(r, i);
      assert Due(q.pool, i, true);
    }
  }

  lemma RegisterKeepsWoken(r: Run, msgType: byte, timeout: nat, sent: bool)
    requires Woken(r)
    ensures Woken(Step(r, Register(msgType, timeout, sent)))
  {
    hide LeastFree;
  }

  lemma StepKeepsWoken(r: Run, e: Event)
    requires Inv(r) && Woken(r)
    ensures Woken(Step(r, e))
  {
    hide OwnersDistinct, AllHeld, TableOk, LatestReachable;
    match e
    case Register(msgType, timeout, sent) => RegisterKeepsWoken(r, msgType, timeout, sent);
    case Tick => TickKeepsWoken(r);
    case _ =>
  }

  lemma {:induction false} PlayKeepsWoken(events: seq<Event>)
    ensures Woken(Play(events))
    decreases |events|
  {
    if events != [] {
      PlayKeepsInv(events[..|events| - 1]);
      PlayKeepsWoken(events[..|events| - 1]);
      StepKeepsWoken(Play(events[..|events| - 1]), events[|events| - 1]);
    }
  }

  /** The slot of a request in flight for `k` ticks shows its timeout less 50 ms a tick, never below zero;
      it shows zero exactly from tick `Periods(timeout)` on. */
  lemma CounterAfterTicks(events: seq<Event>, i: nat)
    requires i < SLOTS && Play(events).pool.bits[i]
    ensures var r := Play(events); var s := r.pool.slots[i];
            && s.owner < |r.reqs|
            && var q := r.reqs[s.owner]; var k := r.now - q.born;
               && k >= 0
               && s.timeout == (if TIMER_PERIOD * k >= q.timeout then 0 else q.timeout - TIMER_PERIOD * k)
               && (s.timeout == 0 <==> k >= Periods(q.timeout))
  {
    PlayKeepsInv(events);
    assert SlotOk(Play(events), i);
  }

  lemma DueOwner(r: Run, i: nat, o: nat)
    requires OwnersDistinct(r) && Holds(r.pool, i, o)
    ensures o in DueOwners(r.pool, true) <==> r.pool.slots[i].timeout == 0
  {
    if r.pool.slots[i].timeout == 0 {
      assert Due(r.pool, i, true) && r.pool.slots[i].owner == o;
    }
  }

  /** An event-ready poll times out exactly the requests whose periods are over; and since every tick that
      lets a request run out raises the event, after any poll none that ran out during a tick is left. */
  lemma PollTimesOut(events: seq<Event>, o: nat)
    requires Flying(Play(events), o)
    ensures var r := Play(events); var q := Step(r, PollEvent); var req := r.reqs[o];
            && (q.reqs[o].fate.TimedOut? <==> r.event && r.now - req.born >= Periods(req.timeout))
            && (q.reqs[o].fate.InFlight? || q.reqs[o].fate.TimedOut?)
            && (r.now > req.born && r.now - req.born >= Periods(req.timeout) ==> q.reqs[o].fate.TimedOut?)
  {
    hide SlotsOk, TableOk, LatestReachable, DueOwners, OwnersDistinct;
    var r := Play(events);
    PlayKeepsInv(events);
    PlayKeepsWoken(events);
    var i: nat :| Holds(r.pool, i, o);
    CounterAfterTicks(events, i);
    DueOwner(r, i, o);
  }

  // ---- Who is called back -----------------------------------------------------------------

  /** A live slot for every request in flight, and no other. */
  lemma LiveIsFlying(r: Run, o: nat)
    requires Inv(r)
    ensures o in DueOwners(r.pool, false) <==> Flying(r, o)
  {
    hide OwnersDistinct, TableOk, LatestReachable;
    if o in DueOwners(r.pool, false) {
      var i :| 0 <= i < SLOTS && Due(r.pool, i, false) && r.pool.slots[i].owner == o;
      assert SlotOk(r, i);
    }
    if Flying(r, o) {
      var i: nat :| Holds(r.pool, i, o);
      assert Due(r.pool, i, false) && r.pool.slots[i].owner == o;
    }
  }

  /** The requests a poll times out: those in flight whose periods are over. */
  lemma DueIsOver(r: Run, o: nat)
    requires Inv(r)
    ensures o in DueOwners(r.pool, true) <==> Flying(r, o) && r.now - r.reqs[o].born >= Periods(r.reqs[o].timeout)
  {
    hide TableOk, LatestReachable;
    if o in DueOwners(r.pool, true) {
      var i :| 0 <= i < SLOTS && Due(r.pool, i, true) && r.pool.slots[i].owner == o;
      assert SlotOk(r, i);
    }
    if Flying(r, o) {
      var i: nat :| Holds(r.pool, i, o);
      assert SlotOk(r, i);
      DueOwner(r, i, o);
    }
  }

  lemma NothingLeft(p: Pool)
    requires Sized(p)
    ensures forall i | 0 <= i < SLOTS :: !Collected(p, false).bits[i]
  {
  }

  /** Losing the connection empties the pool: no slot stays taken, every request in flight is flushed, and every
      other keeps its fate. */
  lemma FlushEmptiesPool(r: Run)
    requires Inv(r)
    ensures var q := Step(r, Flush);
            && (forall i | 0 <= i < SLOTS :: !q.pool.bits[i])
            && |q.reqs| == |r.reqs|
            && forall o | 0 <= o < |r.reqs| ::
                 q.reqs[o] == if r.reqs[o].fate.InFlight? then r.reqs[o].(fate := Flushed) else r.reqs[o]
  {
    hide Inv, Collected, DueOwners, LeastFree, Claim, Free, Ticked;
    InvSized(r);
    NothingLeft(r.pool);
    forall o: nat | o < |r.reqs| ensures o in DueOwners(r.pool, false) <==> r.reqs[o].fate.InFlight? {
      LiveIsFlying(r, o);
    }
  }

  /** A tick raises the event exactly if the periods of some request in flight are over with it. */
  lemma TickRaises(r: Run)
    requires Inv(r)
    ensures Step(r, Tick).event <==>
            r.event || exists o | 0 <= o < |r.reqs| :: r.reqs[o].fate.InFlight?
                                                      && r.now + 1 - r.reqs[o].born >= Periods(r.reqs[o].timeout)
  {
    hide Inv;
    InvSized(r);
    var q := Step(r, Tick);
    StepKeepsInv(r, Tick);
    if i :| 0 <= i < SLOTS && Due(q.pool, i, true) {
      var o := q.pool.slots[i].owner;
      assert o in DueOwners(q.pool, true);
      DueIsOver(q, o);
    }
    if o :| 0 <= o < |r.reqs| && r.reqs[o].fate.InFlight? && r.now + 1 - r.reqs[o].born >= Periods(r.reqs[o].timeout) {
      DueIsOver(q, o);
      var i :| 0 <= i < SLOTS && Due(q.pool, i, true) && q.pool.slots[i].owner == o;
    }
  }

  // ---- From the request's own arguments ---------------------------------------------------

  /** Registering while a slot is free: the history records the type, the timeout in 32 bits and the time. If the
      send failed, nothing stays taken. */
  lemma RegisterRecords(r: Run, msgType: byte, timeout: nat, sent: bool, j: nat)
    requires Sized(r.pool) && j < SLOTS && !r.pool.bits[j]
    ensures var q := Step(r, Register(msgType, timeout, sent)); var k := |r.reqs|;
            && |q.reqs| == k + 1 && q.now == r.now
            && (forall o | 0 <= o < k :: q.reqs[o] == r.reqs[o])
            && q.reqs[k] == Request(msgType, timeout % 0x1_0000_0000, r.now, if sent then InFlight else SendFailed)
            && (!sent ==> q.pool.bits == r.pool.bits)
  {
    hide LeastFree;
    var i := LeastFree(r.pool.bits);
    if !sent {
      assert r.pool.bits[i := true][i := false] == r.pool.bits;
    }
  }

  function Ticks(events: seq<Event>): (n: nat)
  {
    if events == [] then 0 else Ticks(events[..|events| - 1]) + if events[|events| - 1].Tick? then 1 else 0
  }

  lemma StepNow(r: Run, e: Event)
    ensures Sized(r.pool) ==> Step(r, e).now == r.now + if e.Tick? then 1 else 0
  {
    hide LeastFree;
  }

  lemma {:induction false} NowAfter(pre: seq<Event>, post: seq<Event>)
    ensures Play(pre + post).now == Play(pre).now + Ticks(post)
    decreases |post|
  {
    hide Step;
    if post == [] {
      assert pre + post == pre;
    } else {
      var init := post[..|post| - 1];
      assert (pre + post)[..|pre + post| - 1] == pre + init;
      NowAfter(pre, init);
      StepNow(Play(pre + init), post[|post| - 1]);
    }
  }

  /**
   A request registered with timeout `t` and still in flight after whatever else happened is timed out by a poll
   exactly if the event is ready and ceil(t / 50) ticks have passed since, `t` taken in 32 bits.
   */
  lemma RequestTimesOut(pre: seq<Event>, msgType: byte, t: nat, post: seq<Event>, j: nat)
    requires j < SLOTS
    ensures var k := |Play(pre).reqs|; var r := Play(pre + [Register(msgType, t, true)] + post);
            !Play(pre).pool.bits[j] ==>
            && k < |r.reqs| && r.reqs[k].msgType == msgType
            && Flying(Play(pre + [Register(msgType, t, true)]), k)
            && (Flying(r, k) ==>
                 (Step(r, PollEvent).reqs[k].fate.TimedOut?
                  <==> r.event && Ticks(post) >= (t % 0x1_0000_0000 + 49) / 50))
  {
    hide Step;
    var mid := pre + [Register(msgType, t, true)];
    var k := |Play(pre).reqs|;
    assert mid[..|pre|] == pre;
    if !Play(pre).pool.bits[j] {
      RegisterRecords(Play(pre), msgType, t, true, j);
      LeavesOnce(mid, post);
      NowAfter(mid, post);
      if Flying(Play(mid + post), k) {
        PollTimesOut(mid + post, k);
      }
    }
  }
}
