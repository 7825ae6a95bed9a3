/**
 The protocol layer's own pool of pending RPC calls: 256 entries, a 16-bit sequence counter that skips
 numbers still in flight, and expiry by absolute time.
 */
module Rpc {
  import opened Common
  import opened Frame
  import opened Probing

  const MAX_PENDING: nat := 256
  const DEFAULT_TIMEOUT_MS: nat := 5000
  const NS_PER_S: nat := 1_000_000_000
  const NS_PER_MS: nat := 1_000_000

  // ---- Time -------------------------------------------------------------------------------

  datatype Timespec = Timespec(sec: nat, nsec: nat)

  predicate Normal(t: Timespec) {
    t.nsec < NS_PER_S
  }

  function Nanos(t: Timespec): nat {
    t.sec * NS_PER_S + t.nsec
  }

  function AddMs(t: Timespec, ms: nat): (r: Timespec)
  {
    var sec := t.sec + ms / 1000;
    var nsec := t.nsec + (ms % 1000) * NS_PER_MS;
    if nsec >= NS_PER_S then Timespec(sec + 1, nsec - NS_PER_S) else Timespec(sec, nsec)
  }

  /** The carry is exact: the sum is the start plus the timeout, to the nanosecond. */
  lemma AddMsExact(t: Timespec, ms: nat)
    requires Normal(t)
    ensures Normal(AddMs(t, ms)) && Nanos(AddMs(t, ms)) == Nanos(t) + ms * NS_PER_MS
  {
  }

  predicate Reached(now: Timespec, at: Timespec) {
    now.sec > at.sec || (now.sec == at.sec && now.nsec >= at.nsec)
  }

  lemma ReachedIsOrder(now: Timespec, at: Timespec)
    requires Normal(now) && Normal(at)
    ensures Reached(now, at) <==> Nanos(now) >= Nanos(at)
  {
  }

  function Timeout(ms: nat): nat {
    if ms == 0 then DEFAULT_TIMEOUT_MS else ms
  }

  // ---- The pool ---------------------------------------------------------------------------

  /** `owner` stands for the callback and its argument; in runs it is the number of the call. */
  datatype Entry = Entry(inUse: bool, seqno: u16, expire: Timespec, owner: nat)

  datatype Pool = Pool(entries: seq<Entry>, next: u16)

  ghost predicate Sized(p: Pool) {
    |p.entries| == MAX_PENDING
  }

  ghost predicate Carries(p: Pool, i: nat, s: u16) {
    i < |p.entries| && p.entries[i].inUse && p.entries[i].seqno == s
  }

  /** The first entry in use, if any, that carries a number. */
  ghost predicate IsFound(p: Pool, s: u16, i: int) {
    && -1 <= i < |p.entries|
    && (i >= 0 ==> Carries(p, i, s))
    && forall j | 0 <= j < (if i < 0 then |p.entries| else i) :: !Carries(p, j, s)
  }

  ghost function Held(p: Pool): set<u16> {
    set i | 0 <= i < |p.entries| && p.entries[i].inUse :: p.entries[i].seqno
  }

  /** At most as many numbers are held as there are entries. */
  lemma {:induction false} HeldBound(es: seq<Entry>, next: u16)
    ensures |Held(Pool(es, next))| <= |es|
  {
    var p := Pool(es, next);
    if es == [] {
      assert Held(p) == {};
    } else {
      var n := |es| - 1;
      var q := Pool(es[..n], next);
      HeldBound(es[..n], next);
      assert Held(p) <= Held(q) + {es[n].seqno} by {
        forall s | s in Held(p) ensures s in Held(q) + {es[n].seqno} {
          var i :| 0 <= i < |es| && es[i].inUse && es[i].seqno == s;
          assert i < n ==> q.entries[i] == es[i];
        }
      }
      SubsetSize(Held(p), Held(q) + {es[n].seqno});
    }
  }

  ghost function FirstFree(es: seq<Entry>): (i: nat)
    ensures i <= |es| && (forall j | 0 <= j < i :: es[j].inUse) && (i < |es| ==> !es[i].inUse)
  {
    if es == [] then 0
    else
      var i := FirstFree(es[..|es| - 1]);
      if i == |es| - 1 && es[i].inUse then |es| else i
  }

  /** Marking an entry in use comes before its number is drawn, so its old number counts as held too. */
  ghost function Marked(p: Pool, i: nat): Pool
    requires i < |p.entries|
  {
    p.(entries := p.entries[i := p.entries[i].(inUse := true)])
  }

  /** The number a call draws: the first from the counter on that no entry in use carries. */
  ghost function Drawn(p: Pool): (s: u16)
    requires Sized(p)
    ensures s !in Held(p)
  {
    HeldBound(p.entries, p.next);
    Probe(p.next, SEQNOS, Skipped(p.next, SEQNOS, Held(p)))
  }

  ghost function Called(p: Pool, i: nat, start: Timespec, timeoutMs: nat, owner: nat): (q: Pool)
    requires Sized(p) && i < MAX_PENDING
    ensures Sized(q)
  {
    var s := Drawn(Marked(p, i));
    Pool(p.entries[i := Entry(true, s, AddMs(start, Timeout(timeoutMs)), owner)], (s + 1) % SEQNOS)
  }

  /** The record of a call that begins in entry `i`. */
  ghost function CallIn(p: Pool, i: nat, start: Timespec, timeoutMs: nat): Call
    requires Sized(p) && i < MAX_PENDING
  {
    Call(Drawn(Marked(p, i)), start, Timeout(timeoutMs), Waiting)
  }

  ghost function Freed(p: Pool, i: nat): (q: Pool)
    requires Sized(p) && i < MAX_PENDING
    ensures Sized(q)
  {
    p.(entries := p.entries[i := p.entries[i].(inUse := false)])
  }

  ghost predicate Due(e: Entry, now: Timespec) {
    e.inUse && Reached(now, e.expire)
  }

  ghost function SweptTo(p: Pool, k: nat, now: Timespec): (q: Pool)
    ensures |q.entries| == |p.entries|
  {
    p.(entries := seq(|p.entries|, i requires 0 <= i < |p.entries| =>
         if i < k && Due(p.entries[i], now) then p.entries[i].(inUse := false) else p.entries[i]))
  }

  // ---- Runs -------------------------------------------------------------------------------

  datatype Fate = Waiting | Replied | Expired | SendFailed

  datatype Call = Call(seqno: u16, start: Timespec, timeoutMs: nat, fate: Fate)

  datatype Run = Run(pool: Pool, calls: seq<Call>)

  datatype Event =
    | Begin(start: Timespec, timeoutMs: nat, sent: bool)
    | Reply(seqno: u16)
    | Sweep(now: Timespec)

  /** The clock always gives normalised times. */
  predicate Proper(e: Event) {
    match e
    case Begin(start, _, _) => Normal(start)
    case Reply(_) => true
    case Sweep(now) => Normal(now)
  }

  ghost function Settle(calls: seq<Call>, who: set<nat>, fate: Fate): (r: seq<Call>)
    ensures |r| == |calls|
  {
    seq(|calls|, o requires 0 <= o < |calls| => if o in who then calls[o].(fate := fate) else calls[o])
  }

  ghost function Release(r: Run, i: nat, fate: Fate): (q: Run)
    requires Sized(r.pool) && i < MAX_PENDING
    ensures Sized(q.pool)
  {
    Run(Freed(r.pool, i), Settle(r.calls, {r.pool.entries[i].owner}, fate))
  }

  ghost function FoundAt(p: Pool, s: u16): (i: int)
    ensures IsFound(p, s, i)
  {
    FoundFrom(p, s, 0)
  }

  ghost function FoundFrom(p: Pool, s: u16, k: nat): (i: int)
    requires k <= |p.entries| && forall j | 0 <= j < k :: !Carries(p, j, s)
    ensures IsFound(p, s, i)
    decreases |p.entries| - k
  {
    if k == |p.entries| then -1 else if Carries(p, k, s) then k else FoundFrom(p, s, k + 1)
  }

  ghost function DueOwners(p: Pool, now: Timespec): set<nat> {
    set i | 0 <= i < |p.entries| && Due(p.entries[i], now) :: p.entries[i].owner
  }

  ghost function Step(r: Run, e: Event): (q: Run)
    requires Sized(r.pool)
    ensures Sized(q.pool)
  {
    match e
    case Begin(start, timeoutMs, sent) =>
      var i := FirstFree(r.pool.entries);
      if i == MAX_PENDING then r
      else
        var q := Run(Called(r.pool, i, start, timeoutMs, |r.calls|),
                     r.calls + [CallIn(r.pool, i, start, timeoutMs)]);
        if sent then q else Release(q, i, SendFailed)
    case Reply(s) =>
      var i := FoundAt(r.pool, s);
      if i < 0 then r else Release(r, i, Replied)
    case Sweep(now) =>
      Run(SweptTo(r.pool, MAX_PENDING, now), Settle(r.calls, DueOwners(r.pool, now), Expired))
  }

  ghost function Play(events: seq<Event>): (r: Run)
    ensures Sized(r.pool)
  {
    if events == [] then Run(Pool(seq(MAX_PENDING, _ => Entry(false, 0, Timespec(0, 0), 0)), 1), [])
    else Step(Play(events[..|events| - 1]), events[|events| - 1])
  }

  // ---- The invariant ----------------------------------------------------------------------

  /** No two entries in use carry the same number. */
  ghost predicate SeqnosDistinct(p: Pool) {
    forall i, j | 0 <= i < j < |p.entries| && p.entries[i].inUse && p.entries[j].inUse ::
      p.entries[i].seqno != p.entries[j].seqno
  }

  ghost predicate OwnersDistinct(p: Pool) {
    forall i, j | 0 <= i < j < |p.entries| && p.entries[i].inUse && p.entries[j].inUse ::
      p.entries[i].owner != p.entries[j].owner
  }

  ghost predicate EntryOk(r: Run, i: nat)
    requires i < |r.pool.entries|
  {
    var e := r.pool.entries[i];
    && e.owner < |r.calls|
    && var c := r.calls[e.owner];
       c.fate.Waiting? && c.seqno == e.seqno && Normal(c.start) && e.expire == AddMs(c.start, c.timeoutMs)
  }

  ghost predicate Holds(p: Pool, i: nat, o: nat) {
    i < |p.entries| && p.entries[i].inUse && p.entries[i].owner == o
  }

  ghost predicate Inv(r: Run) {
    && Sized(r.pool) && SeqnosDistinct(r.pool) && OwnersDistinct(r.pool)
    && (forall i | 0 <= i < MAX_PENDING && r.pool.entries[i].inUse :: EntryOk(r, i))
    && (forall o | 0 <= o < |r.calls| && r.calls[o].fate.Waiting? :: exists i :: Holds(r.pool, i, o))
  }

  lemma {:induction false} BeginKeepsInv(r: Run, i: nat, start: Timespec, timeoutMs: nat)
    requires Inv(r) && i < MAX_PENDING && !r.pool.entries[i].inUse && Normal(start)
    ensures Inv(Run(Called(r.pool, i, start, timeoutMs, |r.calls|),
                    r.calls + [CallIn(r.pool, i, start, timeoutMs)]))
  {
    var q := Run(Called(r.pool, i, start, timeoutMs, |r.calls|), r.calls + [CallIn(r.pool, i, start, timeoutMs)]);
    var m := Marked(r.pool, i);
    forall k | 0 <= k < MAX_PENDING && k != i && r.pool.entries[k].inUse
      ensures r.pool.entries[k].seqno != q.pool.entries[i].seqno
    {
      assert m.entries[k].seqno in Held(m);
    }
    forall k | 0 <= k < MAX_PENDING && q.pool.entries[k].inUse ensures EntryOk(q, k) {
      if k != i { assert EntryOk(r, k); }
    }
    forall o | 0 <= o < |q.calls| && q.calls[o].fate.Waiting? ensures exists k :: Holds(q.pool, k, o) {
      if o < |r.calls| {
        var k :| Holds(r.pool, k, o);
        assert Holds(q.pool, k, o);
      } else {
        assert Holds(q.pool, i, o);
      }
    }
  }

  lemma ReleaseKeepsInv(r: Run, i: nat, fate: Fate)
    requires Inv(r) && i < MAX_PENDING && r.pool.entries[i].inUse && !fate.Waiting?
    ensures Inv(Release(r, i, fate))
  {
    var q := Release(r, i, fate);
    forall k | 0 <= k < MAX_PENDING && q.pool.entries[k].inUse ensures EntryOk(q, k) {
      assert EntryOk(r, k);
    }
    forall o | 0 <= o < |q.calls| && q.calls[o].fate.Waiting? ensures exists k :: Holds(q.pool, k, o) {
      var k :| Holds(r.pool, k, o);
      assert Holds(q.pool, k, o);
    }
  }

  lemma SweepKeepsInv(r: Run, now: Timespec)
    requires Inv(r)
    ensures Inv(Step(r, Sweep(now)))
  {
    var q := Step(r, Sweep(now));
    forall k | 0 <= k < MAX_PENDING && q.pool.entries[k].inUse ensures EntryOk(q, k) {
      assert EntryOk(r, k);
    }
    forall o | 0 <= o < |q.calls| && q.calls[o].fate.Waiting? ensures exists k :: Holds(q.pool, k, o) {
      var k :| Holds(r.pool, k, o);
      assert Holds(q.pool, k, o);
    }
  }

  lemma StepKeepsInv(r: Run, e: Event)
    requires Inv(r) && Proper(e)
    ensures Inv(Step(r, e))
  {
    hide SeqnosDistinct, OwnersDistinct, Freed, Settle, SweptTo, Drawn;
    match e
    case Begin(start, timeoutMs, sent) =>
      var i := FirstFree(r.pool.entries);
      if i < MAX_PENDING {
        BeginKeepsInv(r, i, start, timeoutMs);
        if !sent {
          ReleaseKeepsInv(Run(Called(r.pool, i, start, timeoutMs, |r.calls|),
                              r.calls + [CallIn(r.pool, i, start, timeoutMs)]), i, SendFailed);
        }
      }
    case Reply(s) =>
      var i := FoundAt(r.pool, s);
      if i >= 0 { ReleaseKeepsInv(r, i, Replied); }
    case Sweep(now) => SweepKeepsInv(r, now);
  }

  /** In every reachable state the calls in flight have pairwise distinct numbers, and entries in use are
      exactly the waiting calls. */
  lemma {:induction false} PlayKeepsInv(events: seq<Event>)
    requires forall e <- events :: Proper(e)
    ensures Inv(Play(events))
    decreases |events|
  {
    if events != [] {
      var init, last := events[..|events| - 1], events[|events| - 1];
      assert last in events && forall e <- init :: e in events;
      PlayKeepsInv(init);
      StepKeepsInv(Play(init), last);
    }
  }

  // ---- Completion -------------------------------------------------------------------------

  /** At most 256 numbers are passed over, so the 257 candidates tried always include a free one. */
  lemma CandidatesSuffice(p: Pool)
    requires Sized(p)
    ensures |Held(p)| <= MAX_PENDING && Skipped(p.next, SEQNOS, Held(p)) <= MAX_PENDING
  {
    HeldBound(p.entries, p.next);
  }

  /** `d` extends the history `c`: a completed call stays as it was completed. */
  ghost predicate Extends(c: seq<Call>, d: seq<Call>) {
    && |c| <= |d|
    && forall o | 0 <= o < |c| :: d[o] == c[o] || (c[o].fate.Waiting? && d[o] == c[o].(fate := d[o].fate))
  }

  lemma StepExtends(r: Run, e: Event)
    requires Inv(r)
    ensures Extends(r.calls, Step(r, e).calls)
  {
    hide SeqnosDistinct, OwnersDistinct, Drawn;
    forall i | 0 <= i < MAX_PENDING && r.pool.entries[i].inUse
      ensures r.pool.entries[i].owner < |r.calls| && r.calls[r.pool.entries[i].owner].fate.Waiting?
    {
      assert EntryOk(r, i);
    }
  }

  /** Over any run a call is completed at most once. */
  lemma {:induction false} CompletedOnce(events: seq<Event>, more: seq<Event>)
    requires forall e <- events + more :: Proper(e)
    ensures Extends(Play(events).calls, Play(events + more).calls)
    decreases |more|
  {
    hide Step, Inv;
    if more == [] {
      assert events + more == events;
    } else {
      var init, last := more[..|more| - 1], more[|more| - 1];
      assert (events + more)[..|events + more| - 1] == events + init;
      assert forall e <- events + init :: e in events + more;
      CompletedOnce(events, init);
      PlayKeepsInv(events + init);
      StepExtends(Play(events + init), last);
    }
  }

  /** A reply completes the waiting call that carries its number, which is the only one, and no other. */
  lemma ReplyCompletesOne(events: seq<Event>, i: nat)
    requires forall e <- events :: Proper(e)
    requires i < MAX_PENDING && Play(events).pool.entries[i].inUse
    ensures var r := Play(events); var e := r.pool.entries[i];
            && e.owner < |r.calls| && r.calls[e.owner].fate.Waiting?
            && Step(r, Reply(e.seqno)).calls == r.calls[e.owner := r.calls[e.owner].(fate := Replied)]
  {
    var r := Play(events);
    PlayKeepsInv(events);
    hide Play;
    assert EntryOk(r, i);
    assert Carries(r.pool, i, r.pool.entries[i].seqno);
    assert FoundAt(r.pool, r.pool.entries[i].seqno) == i;
  }

  /** A reply whose number no call in flight carries is ignored. */
  lemma StrayReplyIgnored(r: Run, s: u16)
    requires Sized(r.pool) && s !in Held(r.pool)
    ensures Step(r, Reply(s)) == r
  {
  }

  /** Call `o` waits under the number that call `k` has or had. */
  ghost predicate WaitsAs(r: Run, k: nat, o: nat)
    requires k < |r.calls|
  {
    o < |r.calls| && r.calls[o].fate.Waiting? && r.calls[o].seqno == r.calls[k].seqno
  }

  /** A reply to call `k`, however late: it completes `k` if `k` still waits; it hits another call exactly if that
      one waits under the same number, drawn again after `k` was completed; and otherwise it changes nothing. */
  lemma ReplyHitsExactly(events: seq<Event>, k: nat)
    requires forall e <- events :: Proper(e)
    ensures var r := Play(events); k < |r.calls| ==>
              var q := Step(r, Reply(r.calls[k].seqno));
              && (forall o: nat | WaitsAs(r, k, o) :: q.calls == r.calls[o := r.calls[o].(fate := Replied)])
              && (q == r <==> !exists o: nat :: WaitsAs(r, k, o))
              && (r.calls[k].fate.Waiting? ==> forall o: nat | WaitsAs(r, k, o) :: o == k)
  {
    hide Play, Step, SeqnosDistinct;
    var r := Play(events);
    PlayKeepsInv(events);
    if k < |r.calls| {
      var s := r.calls[k].seqno;
      forall o: nat | WaitsAs(r, k, o)
        ensures exists i: nat :: Holds(r.pool, i, o) && Carries(r.pool, i, s)
        ensures Step(r, Reply(s)).calls == r.calls[o := r.calls[o].(fate := Replied)]
      {
        var i: nat :| Holds(r.pool, i, o);
        assert EntryOk(r, i);
        ReplyCompletesOne(events, i);
      }
      forall o: nat | WaitsAs(r, k, o) && r.calls[k].fate.Waiting? ensures o == k {
        assert WaitsAs(r, k, k);
        assert Step(r, Reply(s)).calls[k].fate.Replied?;
      }
      if !exists o: nat :: WaitsAs(r, k, o) {
        forall i | 0 <= i < MAX_PENDING && r.pool.entries[i].inUse ensures r.pool.entries[i].seqno != s {
          assert EntryOk(r, i);
          assert !WaitsAs(r, k, r.pool.entries[i].owner);
        }
        StrayReplyIgnored(r, s);
      }
    }
  }

  /** A sweep expires a waiting call if and only if its start plus its timeout has come, to the nanosecond. */
  lemma SweepExpiresExactly(events: seq<Event>, o: nat, now: Timespec)
    requires forall e <- events :: Proper(e)
    requires Normal(now) && o < |Play(events).calls| && Play(events).calls[o].fate.Waiting?
    ensures var r := Play(events); var c := r.calls[o]; var d := Step(r, Sweep(now)).calls[o];
            && (d.fate.Expired? <==> Nanos(now) >= Nanos(c.start) + c.timeoutMs * NS_PER_MS)
            && (d.fate.Expired? || d == c)
  {
    var r := Play(events);
    PlayKeepsInv(events);
    var i: nat :| Holds(r.pool, i, o);
    assert EntryOk(r, i);
    AddMsExact(r.calls[o].start, r.calls[o].timeoutMs);
    ReachedIsOrder(now, r.pool.entries[i].expire);
    if Due(r.pool.entries[i], now) {
      assert r.pool.entries[i].owner in DueOwners(r.pool, now);
    }
  }

  // ---- From the call's own arguments ------------------------------------------------------

  /** Beginning a call while an entry is free: it waits, with the caller's times. */
  lemma BeginRecords(r: Run, start: Timespec, ms: nat, sent: bool, j: nat)
    requires Sized(r.pool) && j < MAX_PENDING && !r.pool.entries[j].inUse
    ensures var q := Step(r, Begin(start, ms, sent)); var k := |r.calls|;
            && |q.calls| == k + 1 && q.calls[..k] == r.calls
            && q.calls[k].start == start && q.calls[k].timeoutMs == (if ms == 0 then 5000 else ms)
            && q.calls[k].fate == (if sent then Waiting else SendFailed)
  {
    hide Drawn;
    var k := |r.calls|;
    assert Step(r, Begin(start, ms, sent)).calls[..k] == r.calls;
  }

  lemma DrawnFresh(p: Pool, i: nat, x: nat)
    requires Sized(p) && i < MAX_PENDING && x < MAX_PENDING && p.entries[x].inUse
    ensures p.entries[x].seqno != Drawn(Marked(p, i))
  {
    hide Drawn;
    var q := Marked(p, i);
    assert q.entries[x].seqno in Held(q);
  }

  lemma SettledSeqno(calls: seq<Call>, who: set<nat>, fate: Fate, k: nat)
    requires k < |calls|
    ensures Settle(calls, who, fate)[k].seqno == calls[k].seqno
  {
  }

  /** The number a beginning call draws, and where the next call begins to look. */
  lemma BeginIn(r: Run, start: Timespec, ms: nat, sent: bool, j: nat)
    requires Sized(r.pool) && j < MAX_PENDING && !r.pool.entries[j].inUse
    ensures var i, q := FirstFree(r.pool.entries), Step(r, Begin(start, ms, sent));
            && i < MAX_PENDING && |q.calls| == |r.calls| + 1
            && q.calls[|r.calls|].seqno == Drawn(Marked(r.pool, i))
            && q.pool.next == (Drawn(Marked(r.pool, i)) + 1) % SEQNOS
  {
    hide Drawn, AddMs, Timeout, Marked, FirstFree, Settle, SweptTo, FoundAt, DueOwners;
    var i := FirstFree(r.pool.entries);
    var calls := r.calls + [CallIn(r.pool, i, start, ms)];
    SettledSeqno(calls, {Called(r.pool, i, start, ms, |r.calls|).entries[i].owner}, SendFailed, |r.calls|);
  }

  /** And it waits under a number that no entry in use carries; the next call looks from the number after it on. */
  lemma BeginDraws(r: Run, start: Timespec, ms: nat, sent: bool, j: nat, x: nat)
    requires Sized(r.pool) && j < MAX_PENDING && !r.pool.entries[j].inUse
    ensures var q := Step(r, Begin(start, ms, sent)); var k := |r.calls|;
            && |q.calls| == k + 1 && q.pool.next == (q.calls[k].seqno + 1) % 0x1_0000
            && (x < MAX_PENDING && r.pool.entries[x].inUse ==> r.pool.entries[x].seqno != q.calls[k].seqno)
  {
    hide Step, Drawn, Marked, FirstFree;
    BeginIn(r, start, ms, sent, j);
    if x < MAX_PENDING && r.pool.entries[x].inUse { DrawnFresh(r.pool, FirstFree(r.pool.entries), x); }
  }

  /** A call that could not be sent holds no entry: the entries in use are those from before. */
  lemma FailedBeginHoldsNothing(r: Run, start: Timespec, ms: nat)
    requires Sized(r.pool)
    ensures var q := Step(r, Begin(start, ms, false));
            forall i | 0 <= i < MAX_PENDING :: q.pool.entries[i].inUse == r.pool.entries[i].inUse
  {
    hide Drawn;
  }

  /**
   A call begun at `start` with timeout `ms`, and still waiting after whatever else happened, expires in a sweep
   at `now` if and only if `ms` milliseconds have passed since `start`, or five seconds if `ms` is 0.
   */
  lemma CallExpires(pre: seq<Event>, start: Timespec, ms: nat, post: seq<Event>, j: nat, now: Timespec)
    requires forall e <- pre + [Begin(start, ms, true)] + post :: Proper(e)
    requires Normal(now) && j < MAX_PENDING
    ensures var k := |Play(pre).calls|; var r := Play(pre + [Begin(start, ms, true)] + post);
            !Play(pre).pool.entries[j].inUse ==>
            && k < |r.calls| && k < |Play(pre + [Begin(start, ms, true)]).calls|
            && Play(pre + [Begin(start, ms, true)]).calls[k].fate.Waiting?
            && (r.calls[k].fate.Waiting? ==>
                 (Step(r, Sweep(now)).calls[k].fate.Expired?
                  <==> now.sec * 1_000_000_000 + now.nsec
                       >= start.sec * 1_000_000_000 + start.nsec + (if ms == 0 then 5_000_000_000 else ms * 1_000_000)))
  {
    hide Step;
    var b := Begin(start, ms, true);
    var mid, all := pre + [b], pre + [b] + post;
    var k := |Play(pre).calls|;
    assert mid[..|pre|] == pre;
    assert forall e <- mid :: e in all;
    if !Play(pre).pool.entries[j].inUse {
      BeginRecords(Play(pre), start, ms, true, j);
      CompletedOnce(mid, post);
      if Play(all).calls[k].fate.Waiting? {
        SweepExpiresExactly(all, k, now);
      }
    }
  }
}
