/**
 Reassembly of packets from a byte stream that arrives in arbitrary pieces.

 `Parse` is the reference: it takes packets greedily off the front of one byte sequence. `StreamContext`
 is the buffered parser with a read offset and lazy compaction.
 */
module Stream {
  import opened Frame

  datatype Status = More | Stopped | Invalid

  /** `log` is what the callback has been given so far, `rest` what is kept for the next call. */
  datatype Parsed = Parsed(log: seq<Packet>, rest: seq<byte>, status: Status)

  /**
   A packet callback. Its answer may depend on everything it has been given, the current packet last;
   `false` asks the parser to stop.
   */
  type Handler = seq<Packet> -> bool

  function Parse(s: seq<byte>, log: seq<Packet>, h: Handler): (p: Parsed)
    decreases |s|
  {
    match TotalLength(s)
    case None => if |s| < HEADER_SIZE then Parsed(log, s, More) else Parsed(log, [], Invalid)
    case Some(n) =>
      if |s| < n then Parsed(log, s, More)
      else if h(log + [s[..n]]) then Parse(s[n..], log + [s[..n]], h)
      else Parsed(log + [s[..n]], [], Stopped)
  }

  /** No complete packet and no visible header error: the parser can only wait. */
  predicate Settled(s: seq<byte>) {
    |s| < HEADER_SIZE || (TotalLength(s).Some? && |s| < TotalLength(s).value)
  }

  /** What is left to wait on is always shorter than one maximum packet. */
  lemma SettledIsShort(s: seq<byte>)
    requires Settled(s)
    ensures |s| < MAX_PACKET_SIZE
  {
  }

  lemma {:induction false} ParseSettles(s: seq<byte>, log: seq<Packet>, h: Handler)
    ensures Settled(Parse(s, log, h).rest)
    decreases |s|
  {
    match TotalLength(s)
    case None =>
    case Some(n) =>
      if n <= |s| && h(log + [s[..n]]) {
        ParseSettles(s[n..], log + [s[..n]], h);
      }
  }

  predicate Accepting(log: seq<Packet>, h: Handler) {
    log == [] || h(log)
  }

  /** The parser's return value does not tell a stop from success; the callback itself knows. */
  lemma {:induction false} ParseStopped(s: seq<byte>, log: seq<Packet>, h: Handler)
    requires Accepting(log, h)
    ensures var p := Parse(s, log, h); p.status.Stopped? <==> !Accepting(p.log, h)
    decreases |s|
  {
    match TotalLength(s)
    case None =>
    case Some(n) =>
      if n <= |s| && h(log + [s[..n]]) {
        ParseStopped(s[n..], log + [s[..n]], h);
      }
  }

  /** One packet off the front, with more bytes behind it. */
  lemma ParseStep(s: seq<byte>, t: seq<byte>, log: seq<Packet>, h: Handler)
    requires TotalLength(s).Some? && TotalLength(s).value <= |s|
    ensures var n := TotalLength(s).value;
            Parse(s + t, log, h) == if h(log + [s[..n]]) then Parse(s[n..] + t, log + [s[..n]], h)
                                    else Parsed(log + [s[..n]], [], Stopped)
  {
    var n := TotalLength(s).value;
    TotalLengthPrefix(s, t);
    assert (s + t)[..n] == s[..n] && (s + t)[n..] == s[n..] + t;
  }

  lemma ParseInvalid(s: seq<byte>, t: seq<byte>, log: seq<Packet>, h: Handler)
    requires |s| >= HEADER_SIZE && TotalLength(s).None?
    ensures Parse(s + t, log, h) == Parsed(log, [], Invalid)
  {
    TotalLengthPrefix(s, t);
  }

  lemma ParseSettled(s: seq<byte>, log: seq<Packet>, h: Handler)
    requires Settled(s)
    ensures Parse(s, log, h) == Parsed(log, s, More)
  {
  }

  /** Parsing can be suspended anywhere: parsing `a` first and then what it left together with `b` is
      parsing `a + b`, and an error or a stop inside `a` is final. */
  lemma {:induction false} ParseAppend(a: seq<byte>, b: seq<byte>, log: seq<Packet>, h: Handler)
    ensures var p := Parse(a, log, h);
            Parse(a + b, log, h) == if p.status.More? then Parse(p.rest + b, p.log, h) else p
    decreases |a|
  {
    match TotalLength(a)
    case None =>
      if |a| >= HEADER_SIZE { TotalLengthPrefix(a, b); }
    case Some(n) =>
      if n <= |a| {
        ParseStep(a, b, log, h);
        ParseAppend(a[n..], b, log + [a[..n]], h);
      }
  }

  function Flatten(chunks: seq<seq<byte>>): (s: seq<byte>)
  {
    if chunks == [] then [] else chunks[0] + Flatten(chunks[1..])
  }

  lemma {:induction false} FlattenSnoc(chunks: seq<seq<byte>>, c: seq<byte>)
    ensures Flatten(chunks + [c]) == Flatten(chunks) + c
  {
    if chunks == [] {
      assert Flatten([c]) == c + Flatten([c][1..]);
    } else {
      assert (chunks + [c])[1..] == chunks[1..] + [c];
      FlattenSnoc(chunks[1..], c);
    }
  }

  /** Successive receives into one context, up to the first error or stop. */
  function ParseChunks(rest: seq<byte>, chunks: seq<seq<byte>>, log: seq<Packet>, h: Handler): (p: Parsed)
    decreases |chunks|
  {
    if chunks == [] then Parsed(log, rest, More)
    else
      var p := Parse(rest + chunks[0], log, h);
      if p.status.More? then ParseChunks(p.rest, chunks[1..], p.log, h) else p
  }

  /** However the stream is cut, the outcome is that of parsing it whole. */
  lemma {:induction false} FragmentationIndependent(rest: seq<byte>, chunks: seq<seq<byte>>, log: seq<Packet>, h: Handler)
    requires Settled(rest)
    ensures ParseChunks(rest, chunks, log, h) == Parse(rest + Flatten(chunks), log, h)
    decreases |chunks|
  {
    hide Parse, Settled;
    if chunks == [] {
      assert rest + Flatten(chunks) == rest;
      ParseSettled(rest, log, h);
    } else {
      var p := Parse(rest + chunks[0], log, h);
      ParseSettles(rest + chunks[0], log, h);
      ParseAppend(rest + chunks[0], Flatten(chunks[1..]), log, h);
      assert rest + Flatten(chunks) == rest + chunks[0] + Flatten(chunks[1..]);
      if p.status.More? {
        FragmentationIndependent(p.rest, chunks[1..], p.log, h);
      }
    }
  }

  // ---- Round trip -------------------------------------------------------------------------

  function EncodeAll(ms: seq<Message>): (ps: seq<Packet>)
    requires forall m <- ms :: Fits(m)
  {
    seq(|ms|, i requires 0 <= i < |ms| => Encode(ms[i]))
  }

  /** Hand over packets one by one until the callback asks to stop; `tail` stays unparsed. */
  function Deliver(ps: seq<Packet>, tail: seq<byte>, log: seq<Packet>, h: Handler): (p: Parsed)
  {
    if ps == [] then Parsed(log, tail, More)
    else if h(log + [ps[0]]) then Deliver(ps[1..], tail, log + [ps[0]], h)
    else Parsed(log + [ps[0]], [], Stopped)
  }

  lemma {:induction false} ParseOfEncodeAll(ms: seq<Message>, tail: seq<byte>, log: seq<Packet>, h: Handler)
    requires Settled(tail) && forall m <- ms :: Fits(m)
    ensures Parse(Flatten(EncodeAll(ms)) + tail, log, h) == Deliver(EncodeAll(ms), tail, log, h)
    decreases |ms|
  {
    hide Parse, Settled;
    var ps := EncodeAll(ms);
    if ms == [] {
      assert Flatten(ps) + tail == tail;
      ParseSettled(tail, log, h);
    } else {
      var rest := Flatten(ps[1..]) + tail;
      assert ps[1..] == EncodeAll(ms[1..]);
      assert Flatten(ps) + tail == ps[0] + rest;
      EncodedLength(ms[0], []);
      assert ps[0] + [] == ps[0];
      ParseStep(ps[0], rest, log, h);
      assert ps[0][|ps[0]|..] + rest == rest && ps[0][..|ps[0]|] == ps[0];
      if h(log + [ps[0]]) {
        ParseOfEncodeAll(ms[1..], tail, log + [ps[0]], h);
      }
    }
  }

  lemma {:induction false} DeliverAll(ps: seq<Packet>, tail: seq<byte>, log: seq<Packet>, h: Handler)
    requires forall k | 1 <= k <= |ps| :: h(log + ps[..k])
    ensures Deliver(ps, tail, log, h) == Parsed(log + ps, tail, More)
    decreases |ps|
  {
    if ps == [] {
      assert log + ps == log;
    } else {
      assert log + ps[..1] == log + [ps[0]];
      forall k | 1 <= k <= |ps[1..]| ensures h(log + [ps[0]] + ps[1..][..k]) {
        assert log + [ps[0]] + ps[1..][..k] == log + ps[..k + 1];
      }
      DeliverAll(ps[1..], tail, log + [ps[0]], h);
      assert log + [ps[0]] + ps[1..] == log + ps;
    }
  }

  /** A frame cut short is something to wait on. */
  lemma PieceSettles(m: Message, k: nat)
    requires Fits(m) && k < |Encode(m)|
    ensures Settled(Encode(m)[..k])
  {
    if k >= HEADER_SIZE {
      EncodedLength(m, []);
      assert Encode(m) + [] == Encode(m) == Encode(m)[..k] + Encode(m)[k..];
      TotalLengthPrefix(Encode(m)[..k], Encode(m)[k..]);
    }
  }

  /** End to end: messages put on the wire one after another, perhaps followed by an unfinished frame, and
      received in any pieces come out as those messages, all of them if the callback never stops, and
      nothing but the unfinished frame is left over. */
  lemma EndToEnd(ms: seq<Message>, tail: seq<byte>, chunks: seq<seq<byte>>, h: Handler)
    requires Settled(tail) && forall m <- ms :: Fits(m)
    requires Flatten(chunks) == Flatten(EncodeAll(ms)) + tail
    ensures ParseChunks([], chunks, [], h) == Deliver(EncodeAll(ms), tail, [], h)
    ensures (forall k | 1 <= k <= |ms| :: h(EncodeAll(ms)[..k]))
            ==> ParseChunks([], chunks, [], h) == Parsed(EncodeAll(ms), tail, More)
    ensures forall i | 0 <= i < |ms| :: Decode(EncodeAll(ms)[i]) == Some(ms[i])
  {
    hide Parse, Encode, Decode;
    FragmentationIndependent([], chunks, [], h);
    assert [] + Flatten(chunks) == Flatten(chunks);
    ParseOfEncodeAll(ms, tail, [], h);
    var ps := EncodeAll(ms);
    if forall k | 1 <= k <= |ms| :: h(ps[..k]) {
      assert forall k | 1 <= k <= |ps| :: [] + ps[..k] == ps[..k];
      DeliverAll(ps, tail, [], h);
      assert [] + ps == ps;
    }
    forall i | 0 <= i < |ms| ensures Decode(ps[i]) == Some(ms[i]) {
      DecodeOfEncode(ms[i]);
    }
  }

  // ---- The buffered parser ----------------------------------------------------------------

  lemma SplitSlice(b: seq<byte>, lo: nat, mid: nat, hi: nat)
    requires lo <= mid <= hi <= |b|
    ensures b[lo..mid] == b[lo..hi][..mid - lo] && b[mid..hi] == b[lo..hi][mid - lo..]
  {
  }

  lemma SplitSuffix(a: seq<byte>, b: seq<byte>, i: nat, n: nat)
    requires i + n <= |b|
    ensures a + b[i..] == a + b[i..i + n] + b[i + n..]
  {
  }

  class StreamContext {
    const buffer: array<byte>
    var curLen: nat
    var head: nat
    var totalLen: nat

    ghost predicate Shape()
      reads this, buffer
    {
      buffer.Length == MAX_PACKET_SIZE && head <= curLen <= buffer.Length
    }

    /** The bytes received and not yet parsed. */
    ghost function Pending(): (s: seq<byte>)
      requires Shape()
      reads this, buffer
    {
      buffer[head..curLen]
    }

    ghost predicate Valid()
      reads this, buffer
    {
      Shape() && Settled(Pending())
    }

    constructor ()
      ensures Valid() && fresh(buffer) && Pending() == []
    {
      buffer := new byte[MAX_PACKET_SIZE];
      curLen, head, totalLen := 0, 0, 0;
    }

    method Reset()
      requires buffer.Length == MAX_PACKET_SIZE
      modifies this
      ensures Valid() && Pending() == []
    {
      curLen, head, totalLen := 0, 0, 0;
    }

    /** Moves the unparsed bytes to the start of the buffer. */
    method Compact()
      requires Shape()
      modifies this, buffer
      ensures Shape() && head == 0 && Pending() == old(Pending())
    {
      var remain := curLen - head;
      ghost var before := buffer[..];
      forall i | 0 <= i < remain {
        buffer[i] := buffer[head + i];
      }
      assert buffer[0..remain] == before[head..curLen];
      curLen, head := remain, 0;
    }

    /** Appends `src` behind the bytes already written. */
    method Append(src: seq<byte>)
      requires Shape() && curLen + |src| <= buffer.Length
      modifies this, buffer
      ensures Shape() && head == old(head) && Pending() == old(Pending()) + src
      ensures curLen == old(curLen) + |src|
    {
      ghost var before := buffer[..];
      forall i | 0 <= i < |src| {
        buffer[curLen + i] := src[i];
      }
      assert buffer[head..curLen] == before[head..curLen];
      assert buffer[curLen..curLen + |src|] == src;
      assert buffer[head..curLen + |src|] == buffer[head..curLen] + buffer[curLen..curLen + |src|];
      curLen := curLen + |src|;
    }

    /**
     Takes complete packets off the buffer, calling back for each.
     `todo` is input that has not reached the buffer yet.
     */
    method Extract(log: seq<Packet>, h: Handler, ghost todo: seq<byte>) returns (status: Status, out: seq<Packet>)
      requires Shape()
      modifies this
      ensures Valid()
      ensures status.More? ==> curLen == old(curLen)
                               && Parse(old(Pending()) + todo, log, h) == Parse(Pending() + todo, out, h)
      ensures !status.More? ==> Parse(old(Pending()) + todo, log, h) == Parsed(out, [], status) && Pending() == []
    {
      hide Parse, TotalLength;
      out := log;
      while true
        invariant Shape() && curLen == old(curLen)
        invariant Parse(old(Pending()) + todo, log, h) == Parse(Pending() + todo, out, h)
        decreases curLen - head
      {
        ghost var s := Pending();
        if curLen - head < HEADER_SIZE { return More, out; }
        match TotalLength(buffer[head..curLen])
        case None =>
          ParseInvalid(s, todo, out, h);
          Reset();
          return Invalid, out;
        case Some(n) =>
          if curLen - head < n { return More, out; }
          ParseStep(s, todo, out, h);
          SplitSlice(buffer[..], head, head + n, curLen);
          out := out + [buffer[head..head + n]];
          if !h(out) {
            Reset();
            return Stopped, out;
          }
          head := head + n;
      }
    }

    /**
     Feeds one received chunk. The branch that would report a full buffer without a complete packet is
     dead: between rounds the unparsed bytes are `Settled`, hence shorter than the buffer.
     */
    method Feed(buf: seq<byte>, log: seq<Packet>, h: Handler) returns (ok: bool, out: seq<Packet>)
      requires Valid()
      modifies this, buffer
      ensures Valid()
      ensures var p := Parse(old(Pending()) + buf, log, h);
              out == p.log && Pending() == p.rest && (ok <==> !p.status.Invalid?)
    {
      hide Parse, TotalLength;
      var consumed := 0;
      ghost var all := Pending() + buf;
      out := log;
      assert buf[0..] == buf;
      while consumed < |buf|
        invariant consumed <= |buf| && Valid()
        invariant Parse(all, log, h) == Parse(Pending() + buf[consumed..], out, h)
      {
        SettledIsShort(Pending());
        var spaceLeft := MAX_PACKET_SIZE - curLen;
        if spaceLeft == 0 {
          if head > 0 {
            Compact();
            spaceLeft := MAX_PACKET_SIZE - curLen;
          }
          if spaceLeft == 0 {
            assert false;
          }
        }
        var n := if |buf| - consumed < spaceLeft then |buf| - consumed else spaceLeft;
        SplitSuffix(Pending(), buf, consumed, n);
        Append(buf[consumed..consumed + n]);
        consumed := consumed + n;
        var status;
        status, out := Extract(out, h, buf[consumed..]);
        if !status.More? {
          return !status.Invalid?, out;
        }
      }
      assert Pending() + buf[consumed..] == Pending();
      ParseSettled(Pending(), out, h);
      return true, out;
    }

    /** A whole session: one `Feed` per received chunk, up to the first error or stop. */
    method FeedAll(chunks: seq<seq<byte>>, h: Handler) returns (ok: bool, out: seq<Packet>)
      requires Valid()
      modifies this, buffer
      ensures Valid()
      ensures var p := Parse(old(Pending()) + Flatten(chunks), [], h);
              out == p.log && Pending() == p.rest && (ok <==> !p.status.Invalid?)
    {
      FragmentationIndependent(Pending(), chunks, [], h);
      out := [];
      var i := 0;
      assert chunks[0..] == chunks;
      while i < |chunks|
        invariant i <= |chunks| && Valid() && Accepting(out, h)
        invariant ParseChunks(old(Pending()), chunks, [], h) == ParseChunks(Pending(), chunks[i..], out, h)
      {
        ghost var before := out;
        label next:
        assert chunks[i..][1..] == chunks[i + 1..];
        ok, out := Feed(chunks[i], out, h);
        ParseStopped(old@next(Pending()) + chunks[i], before, h);
        if !ok || !Accepting(out, h) { return; }
        i := i + 1;
      }
      return true, out;
    }
  }
}
