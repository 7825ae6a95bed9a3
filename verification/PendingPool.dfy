/** The pending pool as the client holds it: arrays updated in place, each method one locked section. */
module PendingPool {
  import opened Common
  import opened Frame
  import opened Bitmap
  import opened Pending
  import opened PendingSafety

  class PendingPool {
    const bitmap: array<bv32>
    const slots: array<Slot>
    const table: array<u16>
    var seqno: u16
    var nextPlainSeqno: u16
    /** Numbers the callbacks handed in. */
    var registered: nat
    /** The wake-up event, signalled by the timer and drained by the poll. */
    var event: bool
    /** The abstract run this object has gone through. */
    ghost var run: Run

    ghost predicate Shape()
      reads this, bitmap, slots, table
    {
      bitmap.Length == WORDS && slots.Length == SLOTS && table.Length == SEQNOS
    }

    ghost function Model(): (p: Pool)
      requires Shape()
      reads this, bitmap, slots, table
      ensures Sized(p)
    {
      Pool(Bits(bitmap[..]), slots[..], table[..], seqno)
    }

    ghost predicate Valid()
      reads this, bitmap, slots, table
    {
      && Shape()
      && Model() == run.pool
      && registered == |run.reqs| && event == run.event && nextPlainSeqno == run.plain
      && Inv(run) && Woken(run)
    }

    constructor ()
      ensures Valid() && run == Play([])
      ensures fresh(bitmap) && fresh(slots) && fresh(table)
    {
      bitmap := new bv32[WORDS](_ => 0);
      slots := new Slot[SLOTS](_ => Slot(0, 0, Rpc, 0));
      table := new u16[SEQNOS](_ => NO_SLOT);
      seqno, nextPlainSeqno, registered, event := 0, 0, 0, false;
      run := Play([]);
      new;
      forall i | 0 <= i < SLOTS ensures !Bits(bitmap[..])[i] {
        NoBits(i % WORD_BITS);
      }
      assert Model() == InitialPool();
      PlayKeepsInv([]);
      PlayKeepsWoken([]);
    }

    /** Advances the abstract run by a step whose concrete effect is already in place. */
    ghost method Advance(e: Event)
      requires Shape() && Inv(run) && Woken(run) && Model() == Step(run, e).pool
      requires registered == |Step(run, e).reqs| && event == Step(run, e).event && nextPlainSeqno == Step(run, e).plain
      modifies this`run
      ensures Valid() && run == Step(old(run), e)
    {
      hide Step, Woken;
      StepKeepsInv(run, e);
      StepKeepsWoken(run, e);
      run := Step(run, e);
    }

    method FreeIndex(i: nat)
      requires Shape() && i < SLOTS
      modifies bitmap, table
      ensures Shape() && Model() == Free(old(Model()), i)
    {
      var s := slots[i].seqno;
      if table[s] == i {
        table[s] := NO_SLOT;
      }
      Clear(bitmap, i);
    }

    /** The slot a sequence number leads to. */
    method Snapshot(seqno: u16) returns (r: Option<nat>)
      requires Shape()
      ensures r == Lookup(Model(), seqno)
    {
      var i := table[seqno];
      if i == NO_SLOT || i >= SLOTS {
        return None;
      }
      var live := Test(bitmap, i);
      return if live then Some(i) else None;
    }

    /** Claims the least free slot, fills it in and enters it in the table. */
    method ClaimSlot(kind: Kind, timeoutMs: nat) returns (index: int)
      requires Shape()
      modifies this`seqno, this`registered, bitmap, slots, table
      ensures Shape() && index < SLOTS && LeastFree(old(Model()).bits) == (if index < 0 then SLOTS else index)
      ensures index < 0 ==> Model() == old(Model()) && registered == old(registered)
      ensures index >= 0 ==> registered == old(registered) + 1
                             && Model() == Claim(old(Model()), index, kind, timeoutMs, old(registered))
    {
      hide LeastFree, IsLeastFree, Bits;
      ghost var before := Model();
      index := Alloc(bitmap);
      LeastFreeUnique(before.bits, if index < 0 then SLOTS else index);
      if index >= 0 {
        slots[index] := Slot(seqno, timeoutMs % 0x1_0000_0000, kind, registered);
        table[seqno] := index;
        seqno := (seqno + 1) % SEQNOS;
        registered := registered + 1;
      }
    }

    /** A request with a callback: claims a slot, sends, and gives the slot back if sending failed. Refused
        exactly when all 1024 slots are taken. */
    method Register(msgType: byte, timeoutMs: nat, sent: bool) returns (r: Option<u16>)
      requires Valid()
      modifies this, bitmap, slots, table
      ensures Valid() && run == Step(old(run), Event.Register(msgType, timeoutMs, sent))
      ensures |run.reqs| == |old(run.reqs)| <==> forall i | 0 <= i < 1024 :: old(run.pool.bits)[i]
      ensures r.Some? ==> sent && r.value == |old(run.reqs)| % SEQNOS
      ensures r.None? ==> !sent || run == old(run)
      ensures r.Some? ==>
                run.reqs == old(run.reqs) + [Request(msgType, timeoutMs % 0x1_0000_0000, old(run.now), InFlight)]
      ensures !sent ==> run.pool.bits == old(run.pool.bits)
    {
      hide Inv, Woken, Claim, Free, Settle;
      ghost var e := Event.Register(msgType, timeoutMs, sent);
      FailedSendTakesNothing(run, msgType, timeoutMs);
      var number := seqno;
      NumberedInOrder(run);
      var index := ClaimSlot(if msgType == MSG_RPC_REQUEST then Rpc else Res, timeoutMs);
      if index < 0 {
        Advance(e);
        return None;
      }
      if !sent {
        FreeIndex(index);
        Advance(e);
        return None;
      }
      Advance(e);
      return Some(number);
    }

    /** The number of a request without a callback: a second counter over the same 16 bits, 0 skipped at first
        and after every wrap-around. */
    method PlainSeqno() returns (s: u16)
      requires Valid()
      modifies this`nextPlainSeqno, this`run
      ensures Valid() && run == Step(old(run), Plain)
      ensures s == PlainNumber(old(run).plain) != 0
    {
      hide Inv, Woken;
      if nextPlainSeqno == 0 {
        s, nextPlainSeqno := 1, 2;
      } else {
        s := nextPlainSeqno;
        nextPlainSeqno := (nextPlainSeqno + 1) % SEQNOS;
      }
      Advance(Plain);
    }

    method Handle(msgType: byte, seqno: u16) returns (called: Option<nat>)
      requires Valid()
      modifies this, bitmap, table
      ensures Valid() && run == Step(old(run), Reply(msgType, seqno))
      ensures called.Some? ==> Flying(old(run), called.value) && run.reqs == Marked(old(run.reqs), called.value, Answered)
      ensures called.None? ==> NobodyAnswered(old(run.reqs), run.reqs)
    {
      hide Inv, Woken, Free;
      ghost var e := Reply(msgType, seqno);
      if msgType == MSG_PUBLISH || msgType == MSG_MESSAGE {
        Advance(e);
        return None;
      }
      var r := Snapshot(seqno);
      if r.None? {
        Advance(e);
        return None;
      }
      var slot := slots[r.value];
      LiveOwner(run, r.value);
      called := None;
      if msgType == MSG_SUBSCRIBE || msgType == MSG_UNSUBSCRIBE || msgType == MSG_PING_ECHO {
        if slot.kind.Res? {
          called := Some(slot.owner);
        }
      } else if msgType == MSG_RPC_REQUEST {
        if slot.kind.Rpc? {
          called := Some(slot.owner);
        }
      }
      ReleaseMarks(run, r.value, if called.Some? then Answered else Muted);
      FreeIndex(r.value);
      Advance(e);
    }

    /** One received packet. `called` is the callback it invokes: a reply of the type that a request in flight was
        sent with, the newest of its number, calls that request back. */
    method Input(msgType: byte, seqno: u16) returns (called: Option<nat>)
      requires Valid()
      modifies this, bitmap, table
      ensures Valid() && run == Step(old(run), Reply(msgType, seqno))
      ensures called.Some? ==> Flying(old(run), called.value) && run.reqs == Marked(old(run.reqs), called.value, Answered)
      ensures called.None? ==> NobodyAnswered(old(run.reqs), run.reqs)
      ensures msgType == 0x04 || msgType == 0x05 ==> called == None && run == old(run)
      ensures msgType in {0x01, 0x02, 0x03, 0xFF} ==>
                forall k: nat | Flying(old(run), k) && Latest(k, |old(run.reqs)|) && k % SEQNOS == seqno
                                && old(run.reqs)[k].msgType == msgType :: called == Some(k)
    {
      hide Inv, Woken, Step, Marked, NobodyAnswered;
      ghost var r := run;
      SameTypeAnswers(r, msgType, seqno);
      Ignored(r, msgType, seqno);
      called := Handle(msgType, seqno);
      forall k: nat | Flying(r, k) && run.reqs == Marked(r.reqs, k, Answered) ensures called == Some(k) {
        MarkedOne(r.reqs, run.reqs, called, k);
      }
      if run == r {
        NobodyMarked(r.reqs, called);
      }
    }

    /** One timer tick over the pool; signals the event if some request has run out. */
    method Tick()
      requires Valid()
      modifies this, slots
      ensures Valid() && run == Step(old(run), Event.Tick)
      ensures event <==> old(event) || exists o | 0 <= o < |run.reqs| ::
                run.reqs[o].fate.InFlight? && run.now - run.reqs[o].born >= Periods(run.reqs[o].timeout)
    {
      hide Inv, Woken, Ticked, Due, Bits, Periods;
      TickRaises(run);
      var emit := false;
      ghost var p := Model();
      for i := 0 to SLOTS
        invariant Shape() && Model() == p.(slots := slots[..])
        invariant run == old(run) && registered == old(registered) && event == old(event)
        invariant nextPlainSeqno == old(nextPlainSeqno)
        invariant forall k | 0 <= k < i :: slots[k] == Ticked(p).slots[k]
        invariant forall k | i <= k < SLOTS :: slots[k] == p.slots[k]
        invariant emit <==> exists k | 0 <= k < i :: Due(Ticked(p), k, true)
      {
        TickedAt(p, i);
        var live := Test(bitmap, i);
        if live {
          if slots[i].timeout > TIMER_PERIOD {
            slots[i] := slots[i].(timeout := slots[i].timeout - TIMER_PERIOD);
          } else {
            slots[i] := slots[i].(timeout := 0);
            emit := true;
          }
        }
      }
      TickedAt(p, 0);
      assert slots[..] == Ticked(p).slots;
      if emit {
        event := true;
      }
      Advance(Event.Tick);
    }

    /** Collects the due requests and frees their slots; the callbacks run afterwards, in slot order. The
        collecting array has room for all of them. */
    method Collect(onlyTimeout: bool) returns (owners: seq<nat>)
      requires Shape()
      modifies bitmap, table
      ensures Shape() && Model() == Collected(old(Model()), onlyTimeout)
      ensures |owners| <= SLOTS
      ensures owners == DueList(old(Model()), SLOTS, onlyTimeout)
    {
      owners := [];
      ghost var p := Model();
      CollectNone(p, onlyTimeout);
      for i := 0 to SLOTS
        invariant Shape() && Model() == CollectedTo(p, i, onlyTimeout)
        invariant |owners| <= i && owners == DueList(p, i, onlyTimeout)
      {
        CollectOneMore(p, i, onlyTimeout);
        var live := Test(bitmap, i);
        if live && (!onlyTimeout || slots[i].timeout == 0) {
          owners := owners + [slots[i].owner];
          FreeIndex(i);
        }
      }
    }

    /** The event half of a poll: if the event is ready, drains it and times out what is due. */
    method PollEvent() returns (owners: seq<nat>)
      requires Valid()
      modifies this, bitmap, table
      ensures Valid() && run == Step(old(run), Event.PollEvent)
      ensures forall o: nat :: o in owners <==>
                old(event) && Flying(old(run), o)
                && old(run.now) - old(run.reqs)[o].born >= Periods(old(run.reqs)[o].timeout)
      ensures NoDup(owners)
    {
      hide Inv, Woken, DueList, DueOwners;
      DueListOnce(run, SLOTS, true);
      CalledBack(run);
      owners := [];
      if event {
        event := false;
        owners := Collect(true);
      }
      Advance(Event.PollEvent);
    }

    /** Connection loss, reconnect, disconnect and release: every request is called back. */
    method Flush() returns (owners: seq<nat>)
      requires Valid()
      modifies this, bitmap, table
      ensures Valid() && run == Step(old(run), Event.Flush)
      ensures forall o: nat :: o in owners <==> Flying(old(run), o)
      ensures forall i | 0 <= i < SLOTS :: !run.pool.bits[i]
      ensures forall o: nat :: !Flying(run, o)
      ensures NoDup(owners)
    {
      hide Inv, Woken, DueList, DueOwners, NoDup, Collected;
      DueListOnce(run, SLOTS, false);
      CalledBack(run);
      FlushEmptiesPool(run);
      owners := Collect(false);
      Advance(Event.Flush);
    }

    /** A ping that got no answer in time withdraws its registration. */
    method CancelPing(ghost k: nat, seqno: u16)
      requires Valid() && seqno == k % SEQNOS
      modifies this, bitmap, table
      ensures Valid() && run == Step(old(run), Event.CancelPing(k))
    {
      hide Inv, Woken, Free;
      var index := table[seqno];
      EntryInRange(run, seqno);
      if index != NO_SLOT {
        var live := Test(bitmap, index);
        if live {
          FreeIndex(index);
        }
      }
      Advance(Event.CancelPing(k));
    }
  }

  // ---- Helpers ----------------------------------------------------------------------------

  ghost predicate NobodyAnswered(before: seq<Request>, after: seq<Request>) {
    |before| == |after| && forall o | 0 <= o < |after| && before[o].fate.InFlight? :: !after[o].fate.Answered?
  }

  lemma MarkedOne(before: seq<Request>, after: seq<Request>, called: Option<nat>, k: nat)
    requires k < |before| && before[k].fate.InFlight? && after == Marked(before, k, Answered)
    requires called.Some? ==> called.value < |before| && after == Marked(before, called.value, Answered)
    requires called.None? ==> NobodyAnswered(before, after)
    ensures called == Some(k)
  {
    assert after[k].fate.Answered?;
  }

  lemma NobodyMarked(reqs: seq<Request>, called: Option<nat>)
    requires called.Some? ==> called.value < |reqs| && reqs[called.value].fate.InFlight?
                              && reqs == Marked(reqs, called.value, Answered)
    ensures called == None
  {
  }

  lemma Ignored(r: Run, msgType: byte, seqno: u16)
    requires Inv(r)
    ensures msgType == 0x04 || msgType == 0x05 ==> Step(r, Reply(msgType, seqno)) == r
  {
    PublicationsAnswerNothing(r, seqno);
  }

  lemma SameTypeAnswers(r: Run, msgType: byte, seqno: u16)
    requires Inv(r)
    ensures msgType in {0x01, 0x02, 0x03, 0xFF} ==>
              forall k: nat | Flying(r, k) && Latest(k, |r.reqs|) && k % SEQNOS == seqno && r.reqs[k].msgType == msgType ::
                Step(r, Reply(msgType, seqno)).reqs == Marked(r.reqs, k, Answered)
  {
    hide Inv, Step, Marked;
    InvSized(r);
    if msgType in {0x01, 0x02, 0x03, 0xFF} {
      forall k: nat | Flying(r, k) && Latest(k, |r.reqs|) && k % SEQNOS == seqno && r.reqs[k].msgType == msgType
        ensures Step(r, Reply(msgType, seqno)).reqs == Marked(r.reqs, k, Answered)
      {
        ReplyByType(r, k, msgType);
      }
    }
  }

  lemma FailedSendTakesNothing(r: Run, msgType: byte, timeout: nat)
    requires Inv(r)
    ensures Step(r, Event.Register(msgType, timeout, false)).pool.bits == r.pool.bits
  {
    hide LeastFree;
    var i := LeastFree(r.pool.bits);
    if i < SLOTS {
      assert r.pool.bits[i := true][i := false] == r.pool.bits;
    }
  }

  lemma NoBits(b: nat)
    ensures !Bit(0, b)
  {
  }

  lemma LeastFreeUnique(bits: seq<bool>, k: nat)
    requires IsLeastFree(bits, k)
    ensures k == LeastFree(bits)
  {
  }

  lemma NumberedInOrder(r: Run)
    requires Inv(r)
    ensures r.pool.next == |r.reqs| % SEQNOS
  {
  }

  lemma TickedAt(p: Pool, i: nat)
    requires Sized(p) && i < SLOTS
    ensures var q := Ticked(p);
            && q.slots[i] == (if p.bits[i] then p.slots[i].(timeout := TickDown(p.slots[i].timeout)) else p.slots[i])
            && (Due(q, i, true) <==> p.bits[i] && p.slots[i].timeout <= TIMER_PERIOD)
            && q == p.(slots := q.slots)
  {
  }

  lemma LiveOwner(r: Run, i: nat)
    requires Inv(r) && i < SLOTS && r.pool.bits[i]
    ensures Flying(r, r.pool.slots[i].owner)
  {
    assert SlotOk(r, i);
  }

  lemma EntryInRange(r: Run, s: u16)
    requires Inv(r)
    ensures r.pool.table[s] == NO_SLOT || r.pool.table[s] < SLOTS
  {
    assert EntryOk(r, s);
  }

  /** The owners of the due slots below `k`, in slot order. */
  ghost function DueList(p: Pool, k: nat, onlyTimeout: bool): (os: seq<nat>)
    requires Sized(p) && k <= SLOTS
  {
    if k == 0 then []
    else DueList(p, k - 1, onlyTimeout) + if Due(p, k - 1, onlyTimeout) then [p.slots[k - 1].owner] else []
  }

  lemma {:induction false} DueListOwners(p: Pool, k: nat, onlyTimeout: bool)
    requires Sized(p) && k <= SLOTS
    ensures forall o :: o in DueList(p, k, onlyTimeout)
                        <==> exists i | 0 <= i < k :: Due(p, i, onlyTimeout) && p.slots[i].owner == o
  {
    if k > 0 {
      DueListOwners(p, k - 1, onlyTimeout);
    }
  }

  /** Nobody is called back twice by one collection. */
  lemma {:induction false} DueListOnce(r: Run, k: nat, onlyTimeout: bool)
    requires Inv(r) && k <= SLOTS
    ensures NoDup(DueList(r.pool, k, onlyTimeout))
  {
    hide SlotsOk, AllHeld, TableOk, LatestReachable;
    if k > 0 {
      DueListOnce(r, k - 1, onlyTimeout);
      DueListOwners(r.pool, k - 1, onlyTimeout);
      if Due(r.pool, k - 1, onlyTimeout) {
        assert r.pool.slots[k - 1].owner !in DueList(r.pool, k - 1, onlyTimeout);
      }
    }
  }

  /** Who the two collections call back, in terms of the history. */
  lemma CalledBack(r: Run)
    requires Inv(r)
    ensures forall o: nat :: o in DueList(r.pool, SLOTS, false) <==> Flying(r, o)
    ensures forall o: nat :: o in DueList(r.pool, SLOTS, true) <==>
              Flying(r, o) && r.now - r.reqs[o].born >= Periods(r.reqs[o].timeout)
  {
    hide Inv, DueList;
    InvSized(r);
    DueListOwners(r.pool, SLOTS, false);
    DueListOwners(r.pool, SLOTS, true);
    forall o: nat
      ensures o in DueList(r.pool, SLOTS, false) <==> Flying(r, o)
      ensures o in DueList(r.pool, SLOTS, true) <==>
              Flying(r, o) && r.now - r.reqs[o].born >= Periods(r.reqs[o].timeout)
    {
      LiveIsFlying(r, o);
      DueIsOver(r, o);
    }
  }

  lemma CollectNone(p: Pool, onlyTimeout: bool)
    requires Sized(p)
    ensures CollectedTo(p, 0, onlyTimeout) == p
  {
    var q := CollectedTo(p, 0, onlyTimeout);
    assert q.bits == p.bits && q.table == p.table;
  }

  /** Freeing slot `i` is what extends a collection by one. */
  lemma CollectOneMore(p: Pool, i: nat, onlyTimeout: bool)
    requires Sized(p) && i < SLOTS
    ensures var q := CollectedTo(p, i, onlyTimeout);
            && q.bits[i] == p.bits[i] && q.slots == p.slots
            && CollectedTo(p, i + 1, onlyTimeout) == if Due(p, i, onlyTimeout) then Free(q, i) else q
  {
    var q, t := CollectedTo(p, i, onlyTimeout), CollectedTo(p, i + 1, onlyTimeout);
    if Due(p, i, onlyTimeout) {
      assert t.bits == Free(q, i).bits;
      assert t.table == Free(q, i).table;
    } else {
      assert t.bits == q.bits && t.table == q.table;
    }
  }
}
