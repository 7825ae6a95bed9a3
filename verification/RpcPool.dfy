/** The RPC pool as it runs: an array of entries scanned by loops. */
module RpcPool {
  import opened Common
  import opened Frame
  import opened Probing
  import opened Rpc

  class RpcPool {
    const pool: array<Entry>
    var nextSeqno: u16
    /** Numbers the calls. */
    var begun: nat
    ghost var run: Run

    ghost function Model(): Pool
      reads this, pool
    {
      Pool(pool[..], nextSeqno)
    }

    ghost predicate Valid()
      reads this, pool
    {
      pool.Length == MAX_PENDING && Model() == run.pool && begun == |run.calls| && Inv(run)
    }

    constructor ()
      ensures Valid() && run == Play([]) && fresh(pool)
    {
      pool := new Entry[MAX_PENDING](_ => Entry(false, 0, Timespec(0, 0), 0));
      nextSeqno, begun := 1, 0;
      run := Play([]);
      new;
      assert pool[..] == seq(MAX_PENDING, _ => Entry(false, 0, Timespec(0, 0), 0));
      PlayKeepsInv([]);
    }

    ghost method Advance(e: Event)
      requires Proper(e) && Inv(run) && pool.Length == MAX_PENDING && Model() == Step(run, e).pool
      requires begun == |Step(run, e).calls|
      modifies this`run
      ensures Valid() && run == Step(old(run), e)
    {
      StepKeepsInv(run, e);
      hide Step;
      run := Step(run, e);
    }

    /** The first entry in use carrying `seqno`, or -1. */
    method Find(seqno: u16) returns (i: int)
      ensures IsFound(Model(), seqno, i)
    {
      for k := 0 to pool.Length
        invariant forall j | 0 <= j < k :: !Carries(Model(), j, seqno)
      {
        if pool[k].inUse && pool[k].seqno == seqno { return k; }
      }
      return -1;
    }

    /** Marks the first free entry in use; -1 when there is none. */
    method AllocSlot() returns (i: int)
      requires pool.Length == MAX_PENDING
      modifies pool
      ensures -1 <= i < MAX_PENDING && FirstFree(old(pool[..])) == (if i < 0 then MAX_PENDING else i)
      ensures Model() == if i < 0 then old(Model()) else Marked(old(Model()), i)
    {
      for k := 0 to pool.Length
        invariant pool[..] == old(pool[..])
        invariant forall j | 0 <= j < k :: pool[j].inUse
      {
        if !pool[k].inUse {
          FirstFreeUnique(pool[..], k);
          pool[k] := pool[k].(inUse := true);
          return k;
        }
      }
      FirstFreeUnique(pool[..], pool.Length);
      return -1;
    }

    /** Draws numbers until one is not carried by any entry in use. The branch that gives up after 257 draws is
        dead: 257 different numbers cannot all be carried by 256 entries. */
    method DrawSeqno() returns (seqno: u16)
      requires pool.Length == MAX_PENDING
      modifies this`nextSeqno
      ensures seqno == Drawn(old(Model())) && nextSeqno == (seqno + 1) % SEQNOS
    {
      hide Held, AllTaken, IsFound, Probe;
      ghost var p := Model();
      CandidatesSuffice(p);
      DrawFirst(p.next, SEQNOS, Held(p));
      seqno := nextSeqno;
      nextSeqno := (nextSeqno + 1) % SEQNOS;
      for i := 0 to MAX_PENDING + 1
        invariant seqno == Probe(p.next, SEQNOS, i) && nextSeqno == (seqno + 1) % SEQNOS
        invariant AllTaken(p.next, SEQNOS, Held(p), i) && i <= |Held(p)|
      {
        var at := Find(seqno);
        FoundIsHeld(p, Model(), seqno, at);
        if at < 0 {
          SkippedUnique(p.next, SEQNOS, Held(p), i);
          return;
        }
        DrawNext(p.next, SEQNOS, Held(p), i);
        seqno := nextSeqno;
        nextSeqno := (nextSeqno + 1) % SEQNOS;
        if i == MAX_PENDING {
          assert false;
        }
      }
      assert false;
    }

    /** Begins a call; refused exactly when all 256 entries are in use. */
    method Begin(start: Timespec, timeoutMs: nat, sent: bool) returns (ok: bool)
      requires Valid() && Normal(start)
      modifies this, pool
      ensures Valid() && run == Step(old(run), Event.Begin(start, timeoutMs, sent))
      ensures ok <==> sent && exists i | 0 <= i < 256 :: !old(pool[..])[i].inUse
      ensures !ok ==> forall i | 0 <= i < MAX_PENDING :: pool[i].inUse == old(pool[..])[i].inUse
    {
      hide Inv, Drawn;
      ghost var p := Model();
      var i := AllocSlot();
      if i < 0 {
        Advance(Event.Begin(start, timeoutMs, sent));
        return false;
      }
      assert !p.entries[i].inUse;
      var seqno := DrawSeqno();
      pool[i] := Entry(true, seqno, AddMs(start, if timeoutMs == 0 then DEFAULT_TIMEOUT_MS else timeoutMs), begun);
      begun := begun + 1;
      assert Model() == Called(p, i, start, timeoutMs, |run.calls|);
      if !sent {
        pool[i] := pool[i].(inUse := false);
      }
      Advance(Event.Begin(start, timeoutMs, sent));
      ok := sent;
    }

    /** A reply; `called` is the call it completes. */
    method HandleReply(seqno: u16) returns (called: Option<nat>)
      requires Valid()
      modifies this, pool
      ensures Valid() && run == Step(old(run), Reply(seqno))
      ensures called.Some? <==> exists i: nat :: Carries(old(run.pool), i, seqno)
      ensures forall i: nat | Carries(old(run.pool), i, seqno) :: called == Some(old(run.pool).entries[i].owner)
    {
      hide Inv;
      var i := Find(seqno);
      FoundUnique(Model(), seqno, i);
      called := None;
      if i >= 0 {
        called := Some(pool[i].owner);
        assert Carries(run.pool, i, seqno);
        OneCarrier(run, seqno, i);
        pool[i] := pool[i].(inUse := false);
      }
      Advance(Reply(seqno));
    }

    /** Expires every due call, in entry order. */
    method SweepExpired(now: Timespec) returns (called: seq<nat>)
      requires Valid() && Normal(now)
      modifies this, pool
      ensures Valid() && run == Step(old(run), Sweep(now))
      ensures forall o: nat :: o in called <==> o in DueOwners(old(run.pool), now)
      ensures NoDup(called)
    {
      assert OwnersDistinct(run.pool);
      hide Inv;
      ghost var p := Model();
      called := [];
      SweptNone(p, now);
      for k := 0 to MAX_PENDING
        invariant Model() == SweptTo(p, k, now) && run == old(run) && begun == old(begun)
        invariant forall o: nat :: o in called <==> exists i | 0 <= i < k :: Due(p.entries[i], now) && p.entries[i].owner == o
        invariant NoDup(called)
      {
        SweptStep(p, k, now);
        if pool[k].inUse && Reached(now, pool[k].expire) {
          assert pool[k].owner !in called;
          called := called + [pool[k].owner];
          pool[k] := pool[k].(inUse := false);
        }
      }
      Advance(Sweep(now));
    }
  }

  lemma FirstFreeUnique(es: seq<Entry>, k: nat)
    requires k <= |es| && (forall j | 0 <= j < k :: es[j].inUse) && (k < |es| ==> !es[k].inUse)
    ensures k == FirstFree(es)
  {
  }

  lemma FoundUnique(p: Pool, s: u16, i: int)
    requires IsFound(p, s, i)
    ensures i == FoundAt(p, s)
    ensures i < 0 <==> forall j: nat :: !Carries(p, j, s)
  {
  }

  lemma OneCarrier(r: Run, s: u16, i: nat)
    requires Inv(r) && Carries(r.pool, i, s)
    ensures forall j: nat | Carries(r.pool, j, s) :: j == i
  {
  }

  lemma FoundIsHeld(p: Pool, q: Pool, s: u16, i: int)
    requires q.entries == p.entries && IsFound(q, s, i)
    ensures i >= 0 <==> s in Held(p)
  {
    if i >= 0 {
      assert p.entries[i].seqno == s;
    }
    if s in Held(p) {
      var j :| 0 <= j < |p.entries| && p.entries[j].inUse && p.entries[j].seqno == s;
      assert Carries(q, j, s);
    }
  }

  lemma SweptNone(p: Pool, now: Timespec)
    ensures SweptTo(p, 0, now) == p
  {
    assert SweptTo(p, 0, now).entries == p.entries;
  }

  lemma SweptStep(p: Pool, k: nat, now: Timespec)
    requires k < |p.entries|
    ensures var q := SweptTo(p, k, now);
            && q.entries[k] == p.entries[k]
            && SweptTo(p, k + 1, now) == if Due(p.entries[k], now)
                                         then q.(entries := q.entries[k := q.entries[k].(inUse := false)]) else q
  {
    var q, t := SweptTo(p, k, now), SweptTo(p, k + 1, now);
    if Due(p.entries[k], now) {
      assert t.entries == q.entries[k := q.entries[k].(inUse := false)];
    } else {
      assert t.entries == q.entries;
    }
  }
}
