/**
 Closing, referencing and releasing one client from any number of threads while the timer scans the
 client list. Each step is one section under a lock.
 */
module Lifecycle {

  type Thread = nat

  /**
   `holders` are the references taken by API calls in progress, one entry per reference. A closing thread
   passes through `unlinkers` (has cleared `valid`) and `releasers` (has left the list, still has the
   creator's reference to drop); `freers` found the count at zero and will free the client. `scanning` says
   the timer has the list lock. `unlinks` and `frees` count what happened.
   */
  datatype Client = Client(
    valid: bool, refs: nat, linked: bool, scanning: bool,
    holders: multiset<Thread>, unlinkers: multiset<Thread>, releasers: multiset<Thread>, freers: multiset<Thread>,
    unlinks: nat, frees: nat)

  datatype Action =
    | Ref(t: Thread)
    | Unref(t: Thread)
    | Close(t: Thread)
    | Unlink(t: Thread)
    | Release(t: Thread)
    | FreeClient(t: Thread)
    | ScanBegin
    | ScanTouch
    | ScanEnd

  const CREATED: Client :=
    Client(true, 1, true, false, multiset{}, multiset{}, multiset{}, multiset{}, 0, 0)

  /** The locked half of dropping a reference: only the one that brings a closed client to zero frees it. */
  function Drop(c: Client, t: Thread): (d: Client)
  {
    if c.refs == 0 then c
    else c.(refs := c.refs - 1,
            freers := if c.refs == 1 && !c.valid then c.freers + multiset{t} else c.freers)
  }

  function Apply(c: Client, a: Action): (d: Client)
  {
    match a
    case Ref(t) => c.(refs := c.refs + 1, holders := c.holders + multiset{t})
    case Unref(t) => Drop(c, t).(holders := c.holders - multiset{t})
    case Close(t) => if !c.valid then c else c.(valid := false, unlinkers := c.unlinkers + multiset{t})
    case Unlink(t) => c.(linked := false, unlinks := c.unlinks + 1,
                         unlinkers := c.unlinkers - multiset{t}, releasers := c.releasers + multiset{t})
    case Release(t) => Drop(c, t).(releasers := c.releasers - multiset{t})
    case FreeClient(t) => c.(frees := c.frees + 1, freers := c.freers - multiset{t})
    case ScanBegin => c.(scanning := true)
    case ScanTouch => c
    case ScanEnd => c.(scanning := false)
  }

  /** A reference may be taken only while there is one. Anybody may call close at any time. The rest is the
      program order of a thread and the list lock, which excludes unlinking during a scan. */
  predicate Enabled(c: Client, a: Action) {
    match a
    case Ref(t) => c.refs > 0
    case Unref(t) => t in c.holders
    case Close(t) => true
    case Unlink(t) => t in c.unlinkers && !c.scanning
    case Release(t) => t in c.releasers
    case FreeClient(t) => t in c.freers
    case ScanBegin => !c.scanning
    case ScanTouch => c.scanning && c.linked
    case ScanEnd => c.scanning
  }

  /** The steps that read or write the client's memory. */
  predicate Touches(a: Action) {
    !a.ScanBegin? && !a.ScanEnd?
  }

  predicate Legal(run: seq<Action>) {
    run == [] || (Legal(run[..|run| - 1]) && Enabled(After(run[..|run| - 1]), run[|run| - 1]))
  }

  function After(run: seq<Action>): (c: Client)
  {
    if run == [] then CREATED else Apply(After(run[..|run| - 1]), run[|run| - 1])
  }

  function Int(b: bool): nat { if b then 1 else 0 }

  ghost predicate Inv(c: Client) {
    && c.refs == |c.holders| + |c.unlinkers| + |c.releasers| + Int(c.valid)
    && Int(c.valid) + |c.unlinkers| == Int(c.linked) == 1 - c.unlinks
    && |c.releasers| <= c.unlinks
    && |c.freers| + c.frees == Int(c.refs == 0)
  }

  lemma Without(m: multiset<Thread>, t: Thread)
    requires t in m
    ensures |m - multiset{t}| == |m| - 1
  {
  }

  lemma UnrefKeepsInv(c: Client, t: Thread)
    requires Inv(c) && t in c.holders
    ensures Inv(Apply(c, Unref(t)))
  {
    Without(c.holders, t);
  }

  lemma ReleaseKeepsInv(c: Client, t: Thread)
    requires Inv(c) && t in c.releasers
    ensures Inv(Apply(c, Release(t)))
  {
    Without(c.releasers, t);
  }

  lemma UnlinkKeepsInv(c: Client, t: Thread)
    requires Inv(c) && t in c.unlinkers
    ensures Inv(Apply(c, Unlink(t)))
  {
    Without(c.unlinkers, t);
  }

  lemma StepKeepsInv(c: Client, a: Action)
    requires Inv(c) && Enabled(c, a)
    ensures Inv(Apply(c, a))
  {
    match a
    case Unref(t) => UnrefKeepsInv(c, t);
    case Unlink(t) => UnlinkKeepsInv(c, t);
    case Release(t) => ReleaseKeepsInv(c, t);
    case FreeClient(t) => Without(c.freers, t);
    case _ =>
  }

  lemma {:induction false} RunKeepsInv(run: seq<Action>)
    requires Legal(run)
    ensures Inv(After(run))
    decreases |run|
  {
    if run != [] {
      RunKeepsInv(run[..|run| - 1]);
      StepKeepsInv(After(run[..|run| - 1]), run[|run| - 1]);
    }
  }

  /** No step of any legal run, the timer's included, touches a freed client, but for a close without a reference. */
  lemma NoUseAfterFree(run: seq<Action>, a: Action)
    requires Legal(run) && Enabled(After(run), a) && Touches(a) && (a.Close? ==> After(run).refs > 0)
    ensures After(run).frees == 0
  {
    RunKeepsInv(run);
  }

  /** Closed, and no thread has anything left to do on it. */
  predicate AtRest(c: Client) {
    && !c.valid
    && c.holders == multiset{} && c.unlinkers == multiset{} && c.releasers == multiset{} && c.freers == multiset{}
  }

  /** The client is freed at most once and unlinked at most once; it is freed only after it was closed,
      unlinked, and left by every holder; and once a closed client is at rest it has been freed. */
  lemma FreedOnceAfterLastHolder(run: seq<Action>)
    requires Legal(run)
    ensures var c := After(run);
            && c.frees <= 1 && c.unlinks <= 1
            && (c.frees == 1 ==> !c.valid && c.unlinks == 1 && c.refs == 0 && c.holders == multiset{}
                                 && c.unlinkers == multiset{} && c.releasers == multiset{})
            && (AtRest(c) ==> c.frees == 1)
  {
    RunKeepsInv(run);
  }

  lemma ClosedStep(c: Client, a: Action)
    ensures !c.valid || a.Close? ==> !Apply(c, a).valid
  {
  }

  /** A client that was closed never becomes valid again. */
  lemma {:induction false} StaysClosed(pre: seq<Action>, more: seq<Action>)
    requires !After(pre).valid
    ensures !After(pre + more).valid
    decreases |more|
  {
    hide Apply;
    if more == [] {
      assert pre + more == pre;
    } else {
      var init := more[..|more| - 1];
      StaysClosed(pre, init);
      assert (pre + more)[..|pre + more| - 1] == pre + init;
      ClosedStep(After(pre + init), more[|more| - 1]);
    }
  }

  /** Every close after the first, whatever happened in between, finds the client closed and changes nothing. */
  lemma CloseIsOnce(run: seq<Action>, t: Thread, more: seq<Action>, u: Thread)
    ensures After(run + [Close(t)] + more + [Close(u)]) == After(run + [Close(t)] + more)
  {
    var pre := run + [Close(t)];
    assert pre[..|run|] == run;
    StaysClosed(pre, more);
    assert (pre + more + [Close(u)])[..|pre + more|] == pre + more;
  }

  // ---- Late closes ------------------------------------------------------------------------

  /** Threads that have found the count at zero go on to free the client. */
  predicate OnlyFrees(more: seq<Action>) {
    forall a <- more :: a.FreeClient?
  }

  /** A second thread that closes after the first has freed the client takes the lock of a freed client. */
  lemma CloseAfterFree()
    ensures var run := [Close(1), Unlink(1), Release(1), FreeClient(1)];
            Legal(run) && Enabled(After(run), Close(2)) && After(run).frees == 1
  {
    var run := [Close(1), Unlink(1), Release(1), FreeClient(1)];
    assert run[..3] == [Close(1), Unlink(1), Release(1)] && run[..3][..2] == [Close(1), Unlink(1)]
           && run[..3][..2][..1] == [Close(1)] && run[..3][..2][..1][..0] == [];
    var c1 := After([Close(1)]);
    assert c1 == Apply(CREATED, Close(1)) && Legal([Close(1)]);
    var c2 := After([Close(1), Unlink(1)]);
    assert c2 == Apply(c1, Unlink(1)) && Legal([Close(1), Unlink(1)]);
    var c3 := After(run[..3]);
    assert c3 == Apply(c2, Release(1)) && Legal(run[..3]);
    assert After(run) == Apply(c3, FreeClient(1));
  }

  /** The exact condition: a close that begins now can find the client freed, by threads that were already on their
      way to free it, if and only if the count is zero. A caller that holds a reference is safe. */
  lemma CloseNeedsPositiveCount(run: seq<Action>)
    requires Legal(run)
    ensures (exists more :: OnlyFrees(more) && Legal(run + more) && After(run + more).frees > 0)
            <==> After(run).refs == 0
  {
    RunKeepsInv(run);
    var c := After(run);
    if c.refs == 0 {
      if c.frees > 0 {
        assert run + [] == run && OnlyFrees([]);
      } else {
        var t :| t in c.freers;
        assert (run + [FreeClient(t)])[..|run|] == run;
        assert OnlyFrees([FreeClient(t)]) && After(run + [FreeClient(t)]).frees == 1;
      }
    }
    forall more | OnlyFrees(more) && Legal(run + more) && c.refs > 0 ensures After(run + more).frees == 0 {
      NoFrees(run, more);
    }
  }

  lemma {:induction false} NoFrees(run: seq<Action>, more: seq<Action>)
    requires Legal(run) && Legal(run + more) && OnlyFrees(more) && After(run).refs > 0
    ensures more == [] && After(run + more).frees == 0
    decreases |more|
  {
    RunKeepsInv(run);
    if more == [] {
      assert run + more == run;
    } else {
      var init := more[..|more| - 1];
      assert (run + more)[..|run + more| - 1] == run + init;
      assert more[|more| - 1] in more && forall a <- init :: a in more;
      NoFrees(run, init);
    }
  }

  /**
   The side condition on new references is exact: in a reachable state, taking and dropping one more
   reference keeps the client freed at most once if and only if the count was positive.
   */
  lemma RefNeedsPositiveCount(run: seq<Action>, t: Thread)
    requires Legal(run)
    ensures var c := After(run); var d := Apply(Apply(c, Ref(t)), Unref(t));
            |d.freers| + d.frees <= 1 <==> c.refs > 0
  {
    RunKeepsInv(run);
    StepKeepsInvCounts(After(run), t);
  }

  lemma StepKeepsInvCounts(c: Client, t: Thread)
    requires Inv(c)
    ensures var d := Apply(Apply(c, Ref(t)), Unref(t));
            |d.freers| + d.frees == |c.freers| + c.frees + Int(c.refs == 0 && !c.valid)
  {
  }
}
