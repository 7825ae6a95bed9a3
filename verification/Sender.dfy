/** Building a packet in the send buffer and pushing it through a transport that may take it in pieces. */
module Sender {
  import opened Frame
  import opened Stream

  /** What one `send` call returns: a byte count, "would block", or any other error. */
  datatype SendOutcome = Sent(n: nat) | WouldBlock | Broken

  /** What one wait for writability returns. */
  datatype PollOutcome = Ready | TimedOut | Interrupted | PollFailed

  const POLL_SLICE_MS: nat := 100
  const DEFAULT_SEND_TIMEOUT_MS: nat := 5000

  /** A non-blocking transport. `sends` and `polls` fix its behaviour at every call and are arbitrary. */
  class Transport {
    const fd: int
    const sendTimeoutMs: int
    const sends: nat -> SendOutcome
    const polls: nat -> PollOutcome
    var sendCalls: nat
    var pollCalls: nat
    var waited: nat
    var wire: seq<byte>

    constructor (fd: int, sendTimeoutMs: int, sends: nat -> SendOutcome, polls: nat -> PollOutcome)
      ensures this.fd == fd && this.sendTimeoutMs == sendTimeoutMs && this.sends == sends && this.polls == polls
      ensures sendCalls == 0 && pollCalls == 0 && waited == 0 && wire == []
    {
      this.fd, this.sendTimeoutMs, this.sends, this.polls := fd, sendTimeoutMs, sends, polls;
      sendCalls, pollCalls, waited, wire := 0, 0, 0, [];
    }

    /** The kernel never takes more than it was offered. */
    method Send(s: seq<byte>) returns (r: SendOutcome)
      modifies this
      ensures sendCalls == old(sendCalls) + 1 && pollCalls == old(pollCalls) && waited == old(waited)
      ensures r.Sent? ==> r.n <= |s| && wire == old(wire) + s[..r.n]
      ensures !r.Sent? ==> wire == old(wire)
      ensures r.Sent? <==> sends(old(sendCalls)).Sent?
      ensures r.Sent? && s != [] ==> (r.n == 0 <==> sends(old(sendCalls)).n == 0)
      ensures !sends(old(sendCalls)).Sent? ==> r == sends(old(sendCalls))
    {
      r := sends(sendCalls);
      if r.Sent? {
        if r.n > |s| { r := Sent(|s|); }
        wire := wire + s[..r.n];
      }
      sendCalls := sendCalls + 1;
    }

    method Poll(ms: nat) returns (r: PollOutcome)
      modifies this
      ensures pollCalls == old(pollCalls) + 1 && waited == old(waited) + ms
      ensures sendCalls == old(sendCalls) && wire == old(wire)
      ensures r == polls(old(pollCalls))
    {
      r := polls(pollCalls);
      pollCalls, waited := pollCalls + 1, waited + ms;
    }

    /** The last `send` call hit a condition the loop gives up on, after `blocked` waits. */
    ghost predicate GaveUp(blocked: nat)
      reads this
    {
      && sendCalls > 0
      && match sends(sendCalls - 1)
         case Sent(n) => n == 0
         case Broken => true
         case WouldBlock => fd < 0 || blocked * POLL_SLICE_MS >= (if sendTimeoutMs > 0 then sendTimeoutMs else 5000)
                            || (pollCalls > 0 && polls(pollCalls - 1).PollFailed?)
    }
  }

  function Min(a: nat, b: nat): nat {
    if a < b then a else b
  }

  /**
   The send loop ends for every transport behaviour. It emits a prefix of the frame, the whole frame
   exactly when it reports success; the waiting it asks for is 100 ms a time and never exceeds the
   timeout; and it reports failure only for one of the conditions in `GaveUp`.
   */
  method SendLoop(t: Transport, frame: seq<byte>) returns (ok: bool, sent: nat)
    modifies t
    ensures sent <= |frame| && t.wire == old(t.wire) + frame[..sent]
    ensures ok <==> sent == |frame|
    ensures t.pollCalls >= old(t.pollCalls)
    ensures t.sendTimeoutMs > 0 ==>
              t.waited - old(t.waited) == Min(t.sendTimeoutMs, (t.pollCalls - old(t.pollCalls)) * 100) <= t.sendTimeoutMs
    ensures t.sendTimeoutMs <= 0 ==>
              t.waited - old(t.waited) == Min(5000, (t.pollCalls - old(t.pollCalls)) * 100) <= 5000
    ensures !ok ==> t.GaveUp(t.pollCalls - old(t.pollCalls))
  {
    var timeout := if t.sendTimeoutMs > 0 then t.sendTimeoutMs else DEFAULT_SEND_TIMEOUT_MS;
    var deadline := timeout;
    sent := 0;
    assert t.wire == old(t.wire) + frame[..0];
    while sent < |frame|
      invariant sent <= |frame| && t.wire == old(t.wire) + frame[..sent]
      invariant t.pollCalls >= old(t.pollCalls)
      invariant deadline + (t.waited - old(t.waited)) == timeout
      invariant t.waited - old(t.waited) == Min(timeout, (t.pollCalls - old(t.pollCalls)) * POLL_SLICE_MS)
      decreases |frame| - sent + deadline
    {
      var r := t.Send(frame[sent..]);
      if r.Sent? && r.n > 0 {
        assert frame[..sent] + frame[sent..][..r.n] == frame[..sent + r.n];
        sent := sent + r.n;
      } else if r.WouldBlock? {
        if deadline == 0 || t.fd < 0 {
          return false, sent;
        }
        var wait := Min(deadline, POLL_SLICE_MS);
        var pr := t.Poll(wait);
        deadline := deadline - wait;
        if pr.PollFailed? {
          return false, sent;
        }
      } else {
        assert frame[sent..][..0] == [];
        return false, sent;
      }
    }
    ok := true;
  }

  // ---- Writing the packet -----------------------------------------------------------------

  /** A caller's pointer-and-length pair; the pointer may be NULL. */
  datatype Ref = NullRef(length: nat) | Ref(bytes: seq<byte>) {
    function Len(): nat { if NullRef? then length else |bytes| }
    function Get(): seq<byte> { if NullRef? then [] else bytes }
  }

  function LenOf(r: Option<Ref>): nat { if r.None? then 0 else r.value.Len() }
  function BytesOf(r: Option<Ref>): seq<byte> { if r.None? then [] else r.value.Get() }

  predicate Acceptable(url: Option<Ref>, data: Option<Ref>) {
    && (url.Some? && url.value.NullRef? ==> url.value.length == 0)
    && (data.Some? && data.value.NullRef? ==> data.value.length == 0)
    && Sendable(LenOf(url), LenOf(data))
  }

  method Put(a: array<byte>, off: nat, s: seq<byte>)
    requires off + |s| <= a.Length
    modifies a
    ensures a[..] == old(a[..off]) + s + old(a[off + |s|..])
  {
    forall i | 0 <= i < |s| {
      a[off + i] := s[i];
    }
  }

  /** Overwriting the two length fields of an encoded header. */
  lemma SetLengths(h: Header, urlLen: u16, dataLen: u32)
    ensures var s := EncodeHeader(h);
            EncodeHeader(h.(urlLen := urlLen)) == s[..7] + Put16(urlLen) + s[9..]
    ensures var s := EncodeHeader(h);
            EncodeHeader(h.(dataLen := dataLen)) == s[..11] + Put32(dataLen)
  {
  }

  method WriteFields(outb: array<byte>, msgType: byte, status: u32, seqno: u16)
    requires outb.Length >= MAX_PACKET_SIZE
    modifies outb
    ensures outb[..HEADER_SIZE] == EncodeHeader(Header(MAGIC_BYTE, PROTOCOL_VERSION, msgType, status, 0, seqno, 0))
  {
    Put(outb, 0, [MAGIC_BYTE, PROTOCOL_VERSION, msgType]);
    Put(outb, 3, Put32(status));
    Put(outb, 7, Put16(0));
    Put(outb, 9, Put16(seqno));
    Put(outb, 11, Put32(0));
  }

  /** A fresh header, byte by byte in network order. */
  method CreateHeader(outb: array<byte>, msgType: byte, status: u32, seqno: u16)
    requires outb.Length >= MAX_PACKET_SIZE
    modifies outb
    ensures outb[..HEADER_SIZE] == EncodeHeader(Header(MAGIC_BYTE, PROTOCOL_VERSION, msgType, status, 0, seqno, 0))
    ensures outb[0] == 0x09 && outb[1] == 0x02 && outb[2] == msgType
    ensures var a: int, b: int, c: int, d: int := outb[3], outb[4], outb[5], outb[6];
            a * 0x100_0000 + b * 0x1_0000 + c * 0x100 + d == status
    ensures var a: int, b: int := outb[9], outb[10]; a * 0x100 + b == seqno
    ensures outb[7] == outb[8] == outb[11] == outb[12] == outb[13] == outb[14] == 0
  {
    hide EncodeHeader, Put16, Put32;
    WriteFields(outb, msgType, status, seqno);
    HeaderLayout(Header(MAGIC_BYTE, PROTOCOL_VERSION, msgType, status, 0, seqno, 0));
    assert forall i | 0 <= i < HEADER_SIZE :: outb[i] == outb[..HEADER_SIZE][i];
  }

  /** The message a header and the caller's references describe. */
  function Described(h: Header, url: Option<Ref>, data: Option<Ref>): Message {
    Message(h.msgType, h.status, h.seqno, BytesOf(url), BytesOf(data))
  }

  /** Fills in the lengths and copies the payload behind the header, unless the request must be refused. */
  method Assemble(hdr: array<byte>, ghost h: Header, url: Option<Ref>, data: Option<Ref>) returns (total: Option<nat>)
    requires hdr.Length >= MAX_PACKET_SIZE && hdr[..HEADER_SIZE] == EncodeHeader(h)
    requires h.magic == MAGIC_BYTE && h.version == PROTOCOL_VERSION
    requires (url.None? ==> h.urlLen == 0) && (data.None? ==> h.dataLen == 0)
    modifies hdr
    ensures total.Some? <==> Acceptable(url, data)
    ensures total.Some? ==> total.value <= hdr.Length && hdr[..total.value] == Encode(Described(h, url, data))
  {
    hide EncodeHeader, Put16, Put32;
    if url.Some? && (url.value.Len() > 0xFFFF || (url.value.NullRef? && url.value.Len() > 0)) {
      return None;
    }
    if data.Some? && (data.value.Len() > 0xFFFF_FFFF || (data.value.NullRef? && data.value.Len() > 0)) {
      return None;
    }
    var n := HEADER_SIZE + LenOf(url) + LenOf(data);
    if url.Some? {
      SetLengths(h, LenOf(url), 0);
      Put(hdr, 7, Put16(LenOf(url)));
    }
    ghost var h1 := h.(urlLen := LenOf(url));
    assert hdr[..HEADER_SIZE] == EncodeHeader(h1);
    if data.Some? {
      SetLengths(h1, 0, LenOf(data));
      Put(hdr, 11, Put32(LenOf(data)));
    }
    ghost var h2 := h1.(dataLen := LenOf(data));
    assert hdr[..HEADER_SIZE] == EncodeHeader(h2);
    if n > MAX_PACKET_SIZE {
      return None;
    }
    Put(hdr, HEADER_SIZE, BytesOf(url));
    Put(hdr, HEADER_SIZE + LenOf(url), BytesOf(data));
    assert HeaderOf(Described(h, url, data)) == h2;
    return Some(n);
  }

  /**
   `hdr` starts with a header `h` made by `CreateHeader`. What goes out is a prefix of the encoding of the
   described message, all of it exactly on success; a request with illegal lengths or a NULL pointer with
   a length sends nothing.
   */
  method SendMessage(t: Transport, hdr: array<byte>, ghost h: Header, url: Option<Ref>, data: Option<Ref>)
    returns (ok: bool, ghost sent: nat)
    requires hdr.Length >= MAX_PACKET_SIZE && hdr[..HEADER_SIZE] == EncodeHeader(h)
    requires h.magic == MAGIC_BYTE && h.version == PROTOCOL_VERSION
    requires (url.None? ==> h.urlLen == 0) && (data.None? ==> h.dataLen == 0)
    modifies t, hdr
    ensures !Acceptable(url, data) ==> !ok && t.wire == old(t.wire)
    ensures Acceptable(url, data) ==>
              var frame := Encode(Described(h, url, data));
              sent <= |frame| && t.wire == old(t.wire) + frame[..sent] && (ok <==> sent == |frame|)
    ensures t.pollCalls >= old(t.pollCalls)
    ensures t.waited - old(t.waited) <= if t.sendTimeoutMs > 0 then t.sendTimeoutMs else 5000
    ensures !ok && Acceptable(url, data) ==> t.GaveUp(t.pollCalls - old(t.pollCalls))
  {
    hide Encode;
    var total := Assemble(hdr, h, url, data);
    if total.None? {
      return false, 0;
    }
    var n;
    ok, n := SendLoop(t, hdr[..total.value]);
    sent := n;
  }

  // ---- Runs of sends ----------------------------------------------------------------------

  /** The messages within the size limits. */
  function Fitting(ms: seq<Message>): (r: seq<Message>)
    ensures forall m <- r :: Fits(m)
  {
    if ms == [] then []
    else
      var m := ms[|ms| - 1];
      Fitting(ms[..|ms| - 1]) + if Fits(m) then [m] else []
  }

  /** Sends one message with a header of its own. */
  method SendOne(t: Transport, buf: array<byte>, m: Message) returns (ok: bool, ghost k: nat)
    requires buf.Length >= MAX_PACKET_SIZE
    modifies t, buf
    ensures !Fits(m) ==> !ok && t.wire == old(t.wire)
    ensures Fits(m) ==> k <= |Encode(m)| && t.wire == old(t.wire) + Encode(m)[..k] && (ok <==> k == |Encode(m)|)
  {
    hide Encode, EncodeHeader;
    CreateHeader(buf, m.msgType, m.status, m.seqno);
    var h := Header(MAGIC_BYTE, PROTOCOL_VERSION, m.msgType, m.status, 0, m.seqno, 0);
    assert Described(h, Some(Ref(m.url)), Some(Ref(m.data))) == m;
    ok, k := SendMessage(t, buf, h, Some(Ref(m.url)), Some(Ref(m.data)));
  }

  /** A run of sends: a message that is refused is passed over, one that the transport fails on ends the run. What
      was reported as sent is on the wire, in order, followed by at most a piece of the message that failed. */
  method SendAll(t: Transport, buf: array<byte>, ms: seq<Message>)
    returns (sent: seq<Message>, n: nat, ghost piece: seq<byte>)
    requires buf.Length >= MAX_PACKET_SIZE
    modifies t, buf
    ensures n <= |ms| && sent == Fitting(ms[..n]) && (forall m <- sent :: Fits(m)) && Settled(piece)
    ensures t.wire == old(t.wire) + (Flatten(EncodeAll(sent)) + piece)
    ensures n == |ms| ==> piece == []
    ensures n < |ms| ==> Fits(ms[n]) && piece < Encode(ms[n])
  {
    hide Encode, Settled, Fits, Fitting, Flatten, EncodeAll;
    sent, n, piece := [], 0, [];
    NothingSettled();
    NothingSent(ms);
    while n < |ms|
      invariant n <= |ms| && sent == Fitting(ms[..n])
      invariant t.wire == old(t.wire) + Flatten(EncodeAll(sent))
    {
      var m := ms[n];
      FittingNext(ms, n);
      var ok, k := SendOne(t, buf, m);
      if Fits(m) {
        if !ok {
          piece := Encode(m)[..k];
          PieceSettles(m, k);
          assert t.wire == old(t.wire) + (Flatten(EncodeAll(sent)) + piece);
          return;
        }
        OneMoreSent(sent, m);
        assert Encode(m)[..k] == Encode(m);
      }
      if ok {
        sent := sent + [m];
      }
      n := n + 1;
    }
    assert Flatten(EncodeAll(sent)) + [] == Flatten(EncodeAll(sent));
  }

  lemma NothingSent(ms: seq<Message>)
    ensures Fitting(ms[..0]) == [] && Flatten(EncodeAll([])) == []
  {
  }

  lemma FittingNext(ms: seq<Message>, n: nat)
    requires n < |ms|
    ensures Fitting(ms[..n + 1]) == if Fits(ms[n]) then Fitting(ms[..n]) + [ms[n]] else Fitting(ms[..n])
  {
    assert ms[..n + 1][..n] == ms[..n];
  }

  lemma OneMoreSent(sent: seq<Message>, m: Message)
    requires Fits(m) && forall m <- sent :: Fits(m)
    ensures Flatten(EncodeAll(sent + [m])) == Flatten(EncodeAll(sent)) + Encode(m)
  {
    hide Encode, Fits;
    assert EncodeAll(sent + [m]) == EncodeAll(sent) + [Encode(m)];
    FlattenSnoc(EncodeAll(sent), Encode(m));
  }

  lemma NothingSettled()
    ensures Settled([])
  {
  }

  // ---- There and back ---------------------------------------------------------------------

  /** Cuts a stream into pieces of any sizes. */
  method Cut(s: seq<byte>, size: nat -> nat) returns (chunks: seq<seq<byte>>)
    ensures Flatten(chunks) == s
  {
    chunks := [];
    var i := 0;
    while i < |s|
      invariant i <= |s| && Flatten(chunks) == s[..i]
      decreases |s| - i
    {
      var n := 1 + Min(size(|chunks|), |s| - i - 1);
      FlattenSnoc(chunks, s[i..i + n]);
      assert s[..i] + s[i..i + n] == s[..i + n];
      chunks := chunks + [s[i..i + n]];
      i := i + n;
    }
    assert s[..i] == s;
  }

  /** The program's own sender and receiver back to back: whatever the transport takes at a time and however the
      bytes arrive, the messages reported as sent are received, each once, in order and field by field, and only
      the unfinished frame of a send that failed is left waiting. */
  method RoundTrip(t: Transport, buf: array<byte>, rx: StreamContext, ms: seq<Message>, size: nat -> nat, h: Handler)
    returns (sent: seq<Message>, n: nat, ok: bool, out: seq<Packet>)
    requires buf.Length >= MAX_PACKET_SIZE && buf != rx.buffer && t.wire == []
    requires rx.Valid() && rx.Pending() == []
    modifies t, buf, rx, rx.buffer
    ensures n <= |ms| && sent == Fitting(ms[..n]) && ok && rx.Valid()
    ensures (forall k | 1 <= k <= |sent| :: h(EncodeAll(sent)[..k])) ==>
              && |out| == |sent| && (forall i | 0 <= i < |sent| :: Decode(out[i]) == Some(sent[i]))
              && (if n == |ms| then rx.Pending() == [] else Fits(ms[n]) && rx.Pending() < Encode(ms[n]))
  {
    hide Encode, Decode, Settled, Parse, Fitting;
    ghost var piece;
    sent, n, piece := SendAll(t, buf, ms);
    var chunks := Cut(t.wire, size);
    assert t.wire == Flatten(EncodeAll(sent)) + piece;
    EndToEnd(sent, piece, chunks, h);
    NothingSettled();
    FragmentationIndependent([], chunks, [], h);
    assert [] + Flatten(chunks) == Flatten(chunks);
    DeliverNeverInvalid(EncodeAll(sent), piece, [], h);
    ok, out := rx.FeedAll(chunks, h);
  }

  lemma {:induction false} DeliverNeverInvalid(ps: seq<Packet>, tail: seq<byte>, log: seq<Packet>, h: Handler)
    ensures !Deliver(ps, tail, log, h).status.Invalid?
  {
    if ps != [] && h(log + [ps[0]]) {
      DeliverNeverInvalid(ps[1..], tail, log + [ps[0]], h);
    }
  }
}
