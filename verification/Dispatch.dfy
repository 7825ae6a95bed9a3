/**
 RPC dispatch on the server: exact methods in 32 hash buckets, prefix methods in one queue, one default.
 `Registry` is the flat reference: all surviving registrations in the order they were made.
 */
module Dispatch {
  import opened Frame
  import opened Urls

  const CMD_HASH_SIZE: nat := 32

  datatype Cmd = Cmd(url: Url, handler: nat)

  predicate IsDefault(url: Url) { |url| == 1 }
  predicate IsPrefix(url: Url) { |url| > 1 && url[|url| - 1] == '/' }
  predicate IsExact(url: Url) { |url| > 1 && !IsPrefix(url) }

  /** The path a command is stored under: a prefix loses its trailing slash. */
  function Path(url: Url): Url {
    if IsPrefix(url) then url[..|url| - 1] else url
  }

  /** The sum of every other character, modulo 32. Whether characters are signed makes no difference to it. */
  function Hash(url: Url): (h: nat)
    ensures h < CMD_HASH_SIZE
  {
    SumFrom(url, 0) % CMD_HASH_SIZE
  }

  function SumFrom(url: Url, i: nat): nat
    decreases |url| - i
  {
    if i >= |url| then 0 else url[i] as nat + SumFrom(url, i + 2)
  }

  // ---- The flat reference -----------------------------------------------------------------

  /** The surviving methods in the order they were added, and the default. */
  datatype Registry = Registry(methods: seq<Cmd>, def: Option<Cmd>)

  datatype Op = Add(url: Url, handler: nat) | Remove(url: Url)

  /** Without the first registration of `url`, or without the last. */
  function DropFirst(f: seq<Cmd>, url: Url): (r: seq<Cmd>)
  {
    if f == [] then [] else if f[0].url == url then f[1..] else [f[0]] + DropFirst(f[1..], url)
  }

  function DropLast(f: seq<Cmd>, url: Url): (r: seq<Cmd>)
  {
    if f == [] then []
    else
      var n := |f| - 1;
      if f[n].url == url then f[..n] else DropLast(f[..n], url) + [f[n]]
  }

  /** Removing an exact method takes the newest of that URL, removing a prefix the oldest; the default is single. */
  function Flat(f: Registry, op: Op): (r: Registry)
  {
    if !Rooted(op.url) then f
    else
      match op
      case Add(url, handler) =>
        if IsDefault(url) then f.(def := Some(Cmd(url, handler))) else f.(methods := f.methods + [Cmd(url, handler)])
      case Remove(url) =>
        if IsDefault(url) then f.(def := None)
        else f.(methods := if IsPrefix(url) then DropFirst(f.methods, url) else DropLast(f.methods, url))
  }

  function NewestExact(f: seq<Cmd>, url: Url): (r: Option<Cmd>)
  {
    if f == [] then None
    else
      var n := |f| - 1;
      if IsExact(f[n].url) && f[n].url == url then Some(f[n]) else NewestExact(f[..n], url)
  }

  function OldestPrefix(f: seq<Cmd>, url: Url): (r: Option<Cmd>)
  {
    if f == [] then None
    else
      var n := |f| - 1;
      var r := OldestPrefix(f[..n], url);
      if r.None? && IsPrefix(f[n].url) && PrefixMatches(Path(f[n].url), url) then Some(f[n]) else r
  }

  /** The newest exact method, else the oldest prefix matching at a segment boundary, else the default. */
  function FlatMatch(f: Registry, url: Url): (r: Option<Cmd>)
  {
    if NewestExact(f.methods, url).Some? then NewestExact(f.methods, url)
    else if OldestPrefix(f.methods, url).Some? then OldestPrefix(f.methods, url)
    else f.def
  }

  // ---- The tables -------------------------------------------------------------------------

  /** The contents of the buckets and of the prefix queue. */
  datatype Tables = Tables(cmds: seq<seq<Cmd>>, prefixes: seq<Cmd>, def: Option<Cmd>)

  predicate Shaped(t: Tables) {
    |t.cmds| == CMD_HASH_SIZE
  }

  predicate AddsPrefix(op: Op) {
    op.Add? && Rooted(op.url) && IsPrefix(op.url)
  }

  function Applied(t: Tables, op: Op): (u: Tables)
    requires Shaped(t)
    ensures Shaped(u)
  {
    var h := Hash(op.url);
    if !Rooted(op.url) then t
    else
      match op
      case Add(url, handler) =>
        if IsDefault(url) then t.(def := Some(Cmd(url, handler)))
        else if IsPrefix(url) then t.(prefixes := t.prefixes + [Cmd(url, handler)])
        else t.(cmds := t.cmds[h := [Cmd(url, handler)] + t.cmds[h]])
      case Remove(url) =>
        if IsDefault(url) then t.(def := None)
        else if IsPrefix(url) then t.(prefixes := DropFirst(t.prefixes, url))
        else t.(cmds := t.cmds[h := DropFirst(t.cmds[h], url)])
  }

  /** Removing `url` takes the last command of the queue. */
  predicate HitsLast(q: seq<Cmd>, url: Url) {
    q != [] && q[|q| - 1].url == url && forall c <- q[..|q| - 1] :: c.url != url
  }

  function Empty(): (t: Tables)
    ensures Shaped(t)
  {
    Tables(seq(CMD_HASH_SIZE, h => []), [], None)
  }

  function FirstExact(q: seq<Cmd>, url: Url): (r: Option<Cmd>)
  {
    if q == [] then None else if q[0].url == url then Some(q[0]) else FirstExact(q[1..], url)
  }

  function FirstPrefix(q: seq<Cmd>, url: Url): (r: Option<Cmd>)
  {
    if q == [] then None else if PrefixMatches(Path(q[0].url), url) then Some(q[0]) else FirstPrefix(q[1..], url)
  }

  function Match(t: Tables, url: Url): (r: Option<Cmd>)
    requires Shaped(t)
  {
    var e := FirstExact(t.cmds[Hash(url)], url);
    var p := FirstPrefix(t.prefixes, url);
    if e.Some? then e else if p.Some? then p else t.def
  }

  // ---- Histories --------------------------------------------------------------------------

  function Registered(ops: seq<Op>): (f: Registry)
  {
    if ops == [] then Registry([], None) else Flat(Registered(ops[..|ops| - 1]), ops[|ops| - 1])
  }

  function After(ops: seq<Op>): (t: Tables)
    ensures Shaped(t)
  {
    if ops == [] then Empty() else Applied(After(ops[..|ops| - 1]), ops[|ops| - 1])
  }

  function PrefixesOf(f: seq<Cmd>): (q: seq<Cmd>)
  {
    if f == [] then []
    else
      var c := f[|f| - 1];
      if IsPrefix(c.url) then PrefixesOf(f[..|f| - 1]) + [c] else PrefixesOf(f[..|f| - 1])
  }

  /** The exact methods of one bucket, newest first. */
  function BucketOf(f: seq<Cmd>, h: nat): (q: seq<Cmd>)
  {
    if f == [] then []
    else
      var c := f[|f| - 1];
      if IsExact(c.url) && Hash(c.url) == h then [c] + BucketOf(f[..|f| - 1], h) else BucketOf(f[..|f| - 1], h)
  }

  predicate Represents(t: Tables, f: Registry) {
    && Shaped(t)
    && (forall h | 0 <= h < CMD_HASH_SIZE :: t.cmds[h] == BucketOf(f.methods, h))
    && t.prefixes == PrefixesOf(f.methods)
    && t.def == f.def
  }
}
