/**
 The chained hash table with integer and string keys in one node type. A pointer-sized key is nonzero, a
 value may be NULL (0), and a node with a string key has integer key 0.
 */
module HashTable {
  import opened Common
  import opened Frame
  import opened Chains

  type u64 = x: int | 0 <= x < 0x1_0000_0000_0000_0000

  /** A C string: the terminator is not part of it. */
  type CString = seq<byte>

  datatype Key = IntKey(k: u64) | StrKey(s: CString)

  datatype Node = Node(key: u64, strKey: Option<CString>, value: nat)

  function KeyOf(n: Node): Key {
    if n.strKey.Some? then StrKey(n.strKey.value) else IntKey(n.key)
  }

  predicate Tagged(n: Node) {
    n.key == 0 <==> n.strKey.Some?
  }

  // ---- Hashing ----------------------------------------------------------------------------

  function Mix(x: bv32): bv32 {
    ((x >> 16) ^ x) * 0x45d9f3b
  }

  function HashInt(k: u64): (h: u32)
  {
    var x := Mix(Mix((k % 0x1_0000_0000) as bv32));
    ((x >> 16) ^ x) as int
  }

  /** djb2 over signed characters, in 32-bit arithmetic. */
  function HashStr(s: CString): (h: u32)
  {
    if s == [] then 5381
    else
      var c: int := s[|s| - 1];
      (HashStr(s[..|s| - 1]) * 33 + (if c < 0x80 then c else c - 0x100)) % 0x1_0000_0000
  }

  function Pow33(n: nat): nat {
    if n == 0 then 1 else 33 * Pow33(n - 1)
  }

  /** The characters, signed, as the digits of a number to base 33, the first the most significant. */
  function Digits(s: CString): int {
    if s == [] then 0
    else
      var c: int := s[0];
      (if c < 0x80 then c else c - 0x100) * Pow33(|s| - 1) + Digits(s[1..])
  }

  lemma {:induction false} DigitsSnoc(s: CString)
    requires s != []
    ensures var c: int := s[|s| - 1];
            Digits(s) == 33 * Digits(s[..|s| - 1]) + if c < 0x80 then c else c - 0x100
  {
    if |s| > 1 {
      DigitsSnoc(s[1..]);
      var init := s[..|s| - 1];
      assert s[1..][..|s| - 2] == init[1..];
      var c: int := s[0];
      var d := if c < 0x80 then c else c - 0x100;
      Distribute(d, Pow33(|s| - 2), Digits(init[1..]));
    }
  }

  lemma Distribute(d: int, p: nat, r: int)
    ensures d * (33 * p) + 33 * r == 33 * (d * p + r)
  {
  }

  lemma ReduceOnce(x: int, c: int)
    ensures ((x % 0x1_0000_0000) * 33 + c) % 0x1_0000_0000 == (33 * x + c) % 0x1_0000_0000
  {
    var q := x / 0x1_0000_0000;
    assert 33 * x + c == (x % 0x1_0000_0000) * 33 + c + 0x1_0000_0000 * (33 * q);
  }

  /** Reducing at every step is reducing once: the hash is the number with digit 5381 in front, modulo 2^32. */
  lemma {:induction false} HashIsNumber(s: CString)
    ensures HashStr(s) == (5381 * Pow33(|s|) + Digits(s)) % 0x1_0000_0000
  {
    if s != [] {
      var n := |s| - 1;
      var c: int := s[n];
      HashIsNumber(s[..n]);
      DigitsSnoc(s);
      ReduceOnce(5381 * Pow33(n) + Digits(s[..n]), if c < 0x80 then c else c - 0x100);
    }
  }

  /** The loop that computes it; a NULL string hashes to 0. */
  method HashString(str: Option<CString>) returns (h: u32)
    ensures h == if str.None? then 0 else HashStr(str.value)
    ensures str.Some? ==> h == (5381 * Pow33(|str.value|) + Digits(str.value)) % 0x1_0000_0000
  {
    if str.None? {
      return 0;
    }
    var s := str.value;
    h := 5381;
    for i := 0 to |s|
      invariant h == HashStr(s[..i])
    {
      var c: int := s[i];
      assert s[..i + 1][..i] == s[..i];
      h := (h * 33 + (if c < 0x80 then c else c - 0x100)) % 0x1_0000_0000;
    }
    assert s[..|s|] == s;
    HashIsNumber(s);
  }

  function HashKey(k: Key): (h: u32)
  {
    match k
    case IntKey(n) => HashInt(n)
    case StrKey(s) => HashStr(s)
  }

  function Slot(k: Key, capacity: nat): (i: nat)
    requires capacity > 0
    ensures i < capacity
  {
    HashKey(k) % capacity
  }

  // ---- What the buckets represent ---------------------------------------------------------

  type Buckets = seq<seq<Node>>

  ghost predicate NodeOk(bs: Buckets, m: map<Key, nat>, i: nat, n: Node)
    requires |bs| > 0
  {
    Tagged(n) && Slot(KeyOf(n), |bs|) == i && KeyOf(n) in m && m[KeyOf(n)] == n.value
  }

  ghost predicate HasKey(b: seq<Node>, k: Key) {
    exists j | 0 <= j < |b| :: KeyOf(b[j]) == k
  }

  ghost predicate KeysDistinct(b: seq<Node>) {
    forall i, j | 0 <= i < j < |b| :: KeyOf(b[i]) != KeyOf(b[j])
  }

  /** The nodes are the entries of `m`, each once and in the bucket of its key. */
  ghost predicate Rep(bs: Buckets, m: map<Key, nat>) {
    && |bs| > 0
    && (forall i, j | 0 <= i < |bs| && 0 <= j < |bs[i]| :: NodeOk(bs, m, i, bs[i][j]))
    && (forall k | k in m :: HasKey(bs[Slot(k, |bs|)], k))
    && (forall i | 0 <= i < |bs| :: KeysDistinct(bs[i]))
  }

  lemma RepInsert(bs: Buckets, m: map<Key, nat>, n: Node)
    requires Rep(bs, m) && Tagged(n) && KeyOf(n) !in m
    ensures var i := Slot(KeyOf(n), |bs|); Rep(bs[i := [n] + bs[i]], m[KeyOf(n) := n.value])
  {
    hide Slot;
    var i := Slot(KeyOf(n), |bs|);
    var cs, m' := bs[i := [n] + bs[i]], m[KeyOf(n) := n.value];
    forall k | k in m' ensures HasKey(cs[Slot(k, |cs|)], k) {
      if k == KeyOf(n) {
        assert KeyOf(cs[i][0]) == k;
      } else {
        var h := Slot(k, |bs|);
        var j :| 0 <= j < |bs[h]| && KeyOf(bs[h][j]) == k;
        assert KeyOf(cs[h][if h == i then j + 1 else j]) == k;
      }
    }
    forall h, j | 0 <= h < |cs| && 0 <= j < |cs[h]| ensures NodeOk(cs, m', h, cs[h][j]) {
      if h != i { assert NodeOk(bs, m, h, bs[h][j]); }
      else if j > 0 { assert NodeOk(bs, m, h, bs[h][j - 1]); }
    }
    forall j | 0 <= j < |bs[i]| ensures KeyOf(bs[i][j]) != KeyOf(n) {
      assert NodeOk(bs, m, i, bs[i][j]);
    }
    assert KeysDistinct(bs[i]);
  }

  lemma RepUpdate(bs: Buckets, m: map<Key, nat>, i: nat, j: nat, value: nat)
    requires Rep(bs, m) && i < |bs| && j < |bs[i]|
    ensures Rep(bs[i := bs[i][j := bs[i][j].(value := value)]], m[KeyOf(bs[i][j]) := value])
  {
    hide Slot;
    var key := KeyOf(bs[i][j]);
    var cs, m' := bs[i := bs[i][j := bs[i][j].(value := value)]], m[key := value];
    assert NodeOk(bs, m, i, bs[i][j]);
    assert KeysDistinct(bs[i]);
    forall h, g | 0 <= h < |cs| && 0 <= g < |cs[h]| ensures NodeOk(cs, m', h, cs[h][g]) {
      assert NodeOk(bs, m, h, bs[h][g]);
    }
    forall k | k in m' ensures HasKey(cs[Slot(k, |cs|)], k) {
      var h := Slot(k, |bs|);
      assert HasKey(bs[h], k);
      var g :| 0 <= g < |bs[h]| && KeyOf(bs[h][g]) == k;
      assert KeyOf(cs[h][g]) == k;
    }
  }

  lemma RepRemove(bs: Buckets, m: map<Key, nat>, i: nat, j: nat)
    requires Rep(bs, m) && i < |bs| && j < |bs[i]|
    ensures Rep(bs[i := bs[i][..j] + bs[i][j + 1..]], m - {KeyOf(bs[i][j])})
  {
    hide Slot;
    var key := KeyOf(bs[i][j]);
    var b := bs[i][..j] + bs[i][j + 1..];
    var cs, m' := bs[i := b], m - {key};
    assert NodeOk(bs, m, i, bs[i][j]);
    assert KeysDistinct(bs[i]);
    forall h, g | 0 <= h < |cs| && 0 <= g < |cs[h]| ensures NodeOk(cs, m', h, cs[h][g]) {
      assert NodeOk(bs, m, h, bs[h][if h == i && g >= j then g + 1 else g]);
    }
    forall k | k in m' ensures HasKey(cs[Slot(k, |cs|)], k) {
      var h := Slot(k, |bs|);
      assert HasKey(bs[h], k);
      var g :| 0 <= g < |bs[h]| && KeyOf(bs[h][g]) == k;
      assert KeyOf(cs[h][if h == i && g > j then g - 1 else g]) == k;
    }
  }

  // ---- The table --------------------------------------------------------------------------

  predicate PowerOfTwo(n: nat) {
    n == 1 || (n > 1 && n % 2 == 0 && PowerOfTwo(n / 2))
  }

  /** The least power of two that is at least 16 and at least `capacity`. */
  method DefaultCapacity(capacity: nat) returns (c: nat)
    ensures c >= 16 && c >= capacity && PowerOfTwo(c) && (c == 16 || c / 2 < capacity)
  {
    c := 16;
    assert PowerOfTwo(2) && PowerOfTwo(4) && PowerOfTwo(8);
    while c < capacity
      invariant c >= 16 && PowerOfTwo(c) && (c == 16 || c / 2 < capacity)
      decreases capacity - c
    {
      c := c * 2;
    }
  }

  type Links = seq<Link<Node>>

  ghost predicate Within(qs: seq<Links>, live: set<Link<Node>>) {
    forall h, i | 0 <= h < |qs| && 0 <= i < |qs[h]| :: qs[h][i] in live
  }

  class HashTable {
    /** The heads of the bucket chains; their number is the capacity. */
    var heads: seq<Link?<Node>>
    var size: nat
    ghost var qs: seq<Links>
    ghost var live: set<Link<Node>>
    /** The nodes in the chains, and the map they stand for. */
    ghost var rows: Buckets
    ghost var m: map<Key, nat>

    /** Well-formed chains of allocated nodes: no chain reaches a freed one. */
    ghost predicate Linked()
      reads this`heads, this`qs, this`live, live`next
    {
      Within(qs, live) && AreChains(heads, qs)
    }

    ghost predicate Valid()
      reads this, live
    {
      Linked() && Shows(qs, rows) && Rep(rows, m) && size == |m|
    }

    constructor (capacity: nat)
      ensures Valid() && m == map[] && |heads| >= capacity && PowerOfTwo(|heads|) && live == {}
    {
      var c := DefaultCapacity(capacity);
      heads := seq(c, _ => null);
      size, m, live, qs, rows := 0, map[], {}, seq(c, _ => []), seq(c, _ => []);
    }

    /** Walks the chain of an integer key, keeping the link before. String nodes never match: their integer key is 0. */
    method FindInt(key: u64) returns (i: nat, prev: Link?<Node>, n: Link?<Node>, ghost j: nat)
      requires Valid() && key != 0
      ensures i == Slot(IntKey(key), |heads|) && i < |qs| == |heads|
      ensures n == null <==> IntKey(key) !in m
      ensures n != null ==> Found(i, prev, n, j) && KeyOf(n.item) == IntKey(key) && n.item.value == m[IntKey(key)]
    {
      hide Rep, Slot, KeyOf, Separate, Within;
      WithinAll(qs, live);
      ghost var bs := rows;
      RepSize(bs, m);
      i := Slot(IntKey(key), |heads|);
      ghost var q := qs[i];
      assert IsChain(heads[i], q);
      prev, n, j := null, heads[i], 0;
      while n != null
        invariant j <= |q| && n == At(q, j) && (if j == 0 then prev == null else prev == q[j - 1])
        invariant forall g | 0 <= g < j :: KeyOf(bs[i][g]) != IntKey(key)
        decreases |q| - j
      {
        IntMatches(bs, m, i, j, key);
        if n.item.key == key { return; }
        prev, n := n, n.next;
        j := j + 1;
      }
      Missing(bs, m, IntKey(key));
    }

    /** Walks the chain of a string key, compared by content. */
    method FindStr(key: CString) returns (i: nat, prev: Link?<Node>, n: Link?<Node>, ghost j: nat)
      requires Valid()
      ensures |heads| > 0 && i == Slot(StrKey(key), |heads|) && i < |qs| == |heads|
      ensures n == null <==> StrKey(key) !in m
      ensures n != null ==> Found(i, prev, n, j) && KeyOf(n.item) == StrKey(key) && n.item.value == m[StrKey(key)]
    {
      hide Rep, KeyOf, Separate, Within, HashStr;
      WithinAll(qs, live);
      ghost var bs := rows;
      RepSize(bs, m);
      var h := HashString(Some(key));
      i := h % |heads|;
      ghost var q := qs[i];
      assert IsChain(heads[i], q);
      prev, n, j := null, heads[i], 0;
      while n != null
        invariant j <= |q| && n == At(q, j) && (if j == 0 then prev == null else prev == q[j - 1])
        invariant forall g | 0 <= g < j :: KeyOf(bs[i][g]) != StrKey(key)
        decreases |q| - j
      {
        StrMatches(bs, m, i, j, key);
        if n.item.strKey.Some? && n.item.strKey.value == key { return; }
        prev, n := n, n.next;
        j := j + 1;
      }
      Missing(bs, m, StrKey(key));
    }

    /** `n` is the `j`-th link of chain `i`, and `prev` the one before it. */
    ghost predicate Found(i: nat, prev: Link?<Node>, n: Link<Node>, j: nat)
      reads this
    {
      i < |qs| && j < |qs[i]| && qs[i][j] == n && n in live && if j == 0 then prev == null else prev == qs[i][j - 1]
    }

    /** Doubles the capacity, moving every node to the head of the bucket of its key; the map is unchanged. */
    method Grow()
      requires Valid()
      modifies this`heads, this`qs, this`rows, live`next
      ensures Valid() && |heads| == 2 * |old(heads)|
    {
      hide Rep, Slot, Moved, IsChain, Separate, Within;
      RepSize(rows, m);
      var n := |heads|;
      var all: seq<Link?<Node>> := heads + seq(2 * n, _ => null);
      ghost var fam: seq<Links> := qs + seq(2 * n, _ => []);
      ghost var into: Buckets := seq(2 * n, _ => []);
      FamilyStart(heads, qs, live, n);
      MoveNone(rows, m, into);
      assert fam[n..] == seq(2 * n, _ => []);
      for i := 0 to n
        invariant Within(qs, live) && qs == old(qs) && rows == old(rows) && Shows(qs, rows)
        invariant Family(all, fam, live, n) && Left(qs, fam, n, i, 0) && Shows(fam[n..], into)
        invariant Rep(into, Moved(rows, m, i, 0))
      {
        all, fam, into := MoveChain(all, fam, into, live, n, i, qs, rows, m);
      }
      MoveAll(rows, m);
      FamilyEnd(all, fam, live, n);
      heads, qs, rows := all[n..], fam[n..], into;
    }

    method Update(n: Link<Node>, value: nat, ghost i: nat, ghost j: nat)
      requires Valid() && i < |qs| && j < |qs[i]| && qs[i][j] == n
      modifies n`item, this`m, this`rows
      ensures Valid() && m == old(m)[old(KeyOf(n.item)) := value]
    {
      hide Rep, KeyOf;
      RepUpdate(rows, m, i, j, value);
      KeyHeld(rows, m, i, j);
      UpdateSize(m, KeyOf(n.item), value);
      m := m[KeyOf(n.item) := value];
      n.item := n.item.(value := value);
      rows := rows[i := rows[i][j := n.item]];
    }

    /** The chains with one more link at the head of chain `i`. */
    method PushLink(i: nat, item: Node)
      requires Linked() && Shows(qs, rows) && i < |qs|
      modifies this`heads, this`qs, this`live, this`rows
      ensures Linked() && Shows(qs, rows) && rows == old(rows)[i := [item] + old(rows)[i]]
      ensures fresh(live - old(live)) && old(live) <= live
    {
      hide IsChain, Separate, Within;
      var n := new Link(item);
      NoMember(qs, live, n);
      heads := Push(n, heads, i, qs);
      ShowsPush(qs, rows, i, n);
      WithinPush(qs, live, i, n);
      rows := rows[i := [item] + rows[i]];
      qs := qs[i := [n] + qs[i]];
      live := live + {n};
    }

    method Insert(i: nat, item: Node)
      requires Valid() && |heads| > 0 && Tagged(item) && KeyOf(item) !in m && i == Slot(KeyOf(item), |heads|)
      modifies this
      ensures Valid() && m == old(m)[KeyOf(item) := item.value] && |heads| == |old(heads)|
      ensures fresh(live - old(live)) && old(live) <= live
    {
      hide Rep, KeyOf, Slot, IsChain, Separate, Within;
      RepInsert(rows, m, item);
      PushLink(i, item);
      m := m[KeyOf(item) := item.value];
      size := size + 1;
    }

    /** The chains without the `j`-th link of chain `i`, which is freed. */
    method CutLink(i: nat, prev: Link?<Node>, n: Link<Node>, ghost j: nat)
      requires Linked() && Shows(qs, rows) && Found(i, prev, n, j)
      modifies this`heads, this`qs, this`live, this`rows, live
      ensures Linked() && Shows(qs, rows) && rows == old(rows)[i := old(rows)[i][..j] + old(rows)[i][j + 1..]]
      ensures live == old(live) - {n} && n.item == old(n.item)
    {
      hide IsChain, Separate, Within;
      WithinRow(qs, live, i);
      heads := Cut(prev, n, heads, i, qs, j);
      ShowsCut(qs, rows, i, j);
      WithinCut(qs, live, i, j);
      rows := rows[i := rows[i][..j] + rows[i][j + 1..]];
      qs := qs[i := qs[i][..j] + qs[i][j + 1..]];
      live := live - {n};
    }

    /** Unlinks a node and frees it. */
    method Unchain(i: nat, prev: Link?<Node>, n: Link<Node>, ghost j: nat)
      requires Valid() && Found(i, prev, n, j)
      modifies this, live
      ensures Valid() && m == old(m) - {old(KeyOf(n.item))} && live == old(live) - {n}
    {
      hide Rep, KeyOf, IsChain, Separate, Within;
      RepRemove(rows, m, i, j);
      KeyHeld(rows, m, i, j);
      RemoveOneSize(m, KeyOf(n.item));
      CutLink(i, prev, n, j);
      m := m - {KeyOf(n.item)};
      size := size - 1;
    }

    /** Adds or updates an integer key, growing first when the load exceeds three quarters. NULL keys are refused. */
    method Set(key: u64, value: nat) returns (ok: bool)
      requires Valid()
      modifies this, live
      ensures Valid() && (ok <==> key != 0) && fresh(live - old(live))
      ensures m == if key == 0 then old(m) else old(m)[IntKey(key) := value]
      ensures |heads| ==
              if key != 0 && 4 * old(size) > 3 * |old(heads)| then 2 * |old(heads)| else |old(heads)|
    {
      hide Rep, Slot, Linked, Shows;
      if key == 0 {
        return false;
      }
      if 4 * size > 3 * |heads| {
        Grow();
      }
      ghost var j;
      var i, prev, n;
      i, prev, n, j := FindInt(key);
      if n != null {
        Update(n, value, i, j);
      } else {
        Insert(i, Node(key, None, value));
      }
      ok := true;
    }

    /** Adds or updates a string key. The table never grows here. NULL keys are refused. */
    method SetStr(key: Option<CString>, value: nat) returns (ok: bool)
      requires Valid()
      modifies this, live
      ensures Valid() && |heads| == |old(heads)| && (ok <==> key.Some?) && fresh(live - old(live))
      ensures m == if key.None? then old(m) else old(m)[StrKey(key.value) := value]
    {
      hide Rep, Slot, Linked, Shows;
      if key.None? {
        return false;
      }
      ghost var j;
      var i, prev, n;
      i, prev, n, j := FindStr(key.value);
      if n != null {
        Update(n, value, i, j);
      } else {
        Insert(i, Node(0, key, value));
      }
      ok := true;
    }

    method Get(key: u64) returns (value: nat)
      requires Valid()
      ensures value == if key != 0 && IntKey(key) in m then m[IntKey(key)] else 0
    {
      hide Rep, Slot, KeyOf, Linked, Shows;
      if key == 0 {
        return 0;
      }
      ghost var j;
      var i, prev, n;
      i, prev, n, j := FindInt(key);
      if n == null {
        return 0;
      }
      return n.item.value;
    }

    method GetStr(key: Option<CString>) returns (value: nat)
      requires Valid()
      ensures value == if key.Some? && StrKey(key.value) in m then m[StrKey(key.value)] else 0
    {
      hide Rep, Slot, KeyOf, Linked, Shows;
      if key.None? {
        return 0;
      }
      ghost var j;
      var i, prev, n;
      i, prev, n, j := FindStr(key.value);
      if n == null {
        return 0;
      }
      return n.item.value;
    }

    /** A key mapped to NULL is reported as missing. */
    method ContainsStr(key: Option<CString>) returns (r: bool)
      requires Valid()
      ensures r <==> key.Some? && StrKey(key.value) in m && m[StrKey(key.value)] != 0
    {
      var v := GetStr(key);
      r := v != 0;
    }

    method Remove(key: u64) returns (ok: bool)
      requires Valid()
      modifies this, live
      ensures Valid() && (ok <==> key != 0 && IntKey(key) in old(m)) && live <= old(live)
      ensures m == if ok then old(m) - {IntKey(key)} else old(m)
    {
      hide Rep, Slot, Linked, Shows;
      if key == 0 {
        return false;
      }
      ghost var j;
      var i, prev, n;
      i, prev, n, j := FindInt(key);
      ok := n != null;
      if n != null {
        Unchain(i, prev, n, j);
      }
    }

    method RemoveStr(key: Option<CString>) returns (ok: bool)
      requires Valid()
      modifies this, live
      ensures Valid() && (ok <==> key.Some? && StrKey(key.value) in old(m)) && live <= old(live)
      ensures m == if ok then old(m) - {StrKey(key.value)} else old(m)
    {
      hide Rep, Slot, Linked, Shows;
      if key.None? {
        return false;
      }
      ghost var j;
      var i, prev, n;
      i, prev, n, j := FindStr(key.value);
      ok := n != null;
      if n != null {
        Unchain(i, prev, n, j);
      }
    }
  }

  // ---- Growth -----------------------------------------------------------------------------

  /** The chains of the old table and, after the first `n`, those of the new one. */
  ghost predicate Family(all: seq<Link?<Node>>, fam: seq<Links>, live: set<Link<Node>>, n: nat)
    reads live`next
  {
    n > 0 && |fam| == 3 * n && Within(fam, live) && AreChains(all, fam)
  }

  /** What is left of the old chains: nothing of those before `i`, and chain `i` without its first `j` links. */
  ghost predicate Left(qs: seq<Links>, fam: seq<Links>, n: nat, i: nat, j: nat) {
    && |qs| == n && |fam| >= n && i <= n && (i < n ==> j <= |qs[i]| && fam[i] == qs[i][j..])
    && (forall g | i < g < n :: fam[g] == qs[g])
  }

  /** Relinks the nodes of bucket `i` into the larger table, each at the head of its new bucket. */
  method MoveChain(all0: seq<Link?<Node>>, ghost fam0: seq<Links>, ghost into0: Buckets, ghost live: set<Link<Node>>,
                   n: nat, i: nat, ghost qs: seq<Links>, ghost bs: Buckets, ghost m: map<Key, nat>)
    returns (all: seq<Link?<Node>>, ghost fam: seq<Links>, ghost into: Buckets)
    requires Family(all0, fam0, live, n) && i < n && Left(qs, fam0, n, i, 0) && Shows(fam0[n..], into0)
    requires Within(qs, live) && Shows(qs, bs) && Rep(bs, m) && Rep(into0, Moved(bs, m, i, 0))
    modifies live`next
    ensures Family(all, fam, live, n) && Left(qs, fam, n, i + 1, 0) && Shows(fam[n..], into)
    ensures Rep(into, Moved(bs, m, i + 1, 0))
  {
    hide Rep, Slot, Moved, IsChain, Separate, Within;
    all, fam, into := all0, fam0, into0;
    ghost var j := 0;
    HeadOf(all, fam, live, n, i);
    while all[i] != null
      invariant Family(all, fam, live, n) && Left(qs, fam, n, i, j) && Shows(qs, bs) && Shows(fam[n..], into)
      invariant Rep(into, Moved(bs, m, i, j)) && all[i] == At(fam[i], 0)
      decreases |fam[i]|
    {
      all, fam, into := MoveNode(all, fam, into, live, n, i, j, qs, bs, m);
      j := j + 1;
      HeadOf(all, fam, live, n, i);
    }
    MoveBucket(bs, m, i);
  }

  method MoveNode(all0: seq<Link?<Node>>, ghost fam0: seq<Links>, ghost into0: Buckets, ghost live: set<Link<Node>>,
                  n: nat, i: nat, ghost j: nat, ghost qs: seq<Links>, ghost bs: Buckets, ghost m: map<Key, nat>)
    returns (all: seq<Link?<Node>>, ghost fam: seq<Links>, ghost into: Buckets)
    requires Family(all0, fam0, live, n) && i < n && Left(qs, fam0, n, i, j) && Shows(fam0[n..], into0)
    requires |all0| == 3 * n && all0[i] != null && all0[i] == At(fam0[i], 0)
    requires Shows(qs, bs) && |bs| == n && j <= |bs[i]| && Rep(bs, m) && Rep(into0, Moved(bs, m, i, j))
    modifies live`next
    ensures Family(all, fam, live, n) && Left(qs, fam, n, i, j + 1) && |fam[i]| < |fam0[i]| && Shows(fam[n..], into)
    ensures j + 1 <= |bs[i]| && Rep(into, Moved(bs, m, i, j + 1))
  {
    hide Rep, Slot, Moved, IsChain, Separate, Within;
    var node := all0[i];
    MoveOne(bs, m, i, j);
    RepInsert(into0, Moved(bs, m, i, j), node.item);
    var h := Slot(KeyOf(node.item), 2 * n);
    ShowsPush(fam0[n..], into0, h, node);
    fam := fam0[i := fam0[i][1..]][n + h := [node] + fam0[n + h]];
    into := into0[h := [node.item] + into0[h]];
    WithinMove(fam0, live, i, n + h);
    assert fam[n..] == fam0[n..][h := [node] + fam0[n..][h]];
    all := Move(node, all0, i, n + h, fam0);
    assert Shows(fam[n..], into);
  }

  lemma HeadOf(all: seq<Link?<Node>>, fam: seq<Links>, live: set<Link<Node>>, n: nat, i: nat)
    requires Family(all, fam, live, n) && i < n
    ensures |all| == 3 * n && all[i] == At(fam[i], 0)
  {
    assert IsChain(all[i], fam[i]);
  }

  lemma FamilyStart(heads: seq<Link?<Node>>, qs: seq<Links>, live: set<Link<Node>>, n: nat)
    requires Within(qs, live) && AreChains(heads, qs) && n == |heads| > 0
    ensures Family(heads + seq(2 * n, _ => null), qs + seq(2 * n, _ => []), live, n)
  {
  }

  lemma FamilyEnd(all: seq<Link?<Node>>, fam: seq<Links>, live: set<Link<Node>>, n: nat)
    requires Family(all, fam, live, n)
    ensures Within(fam[n..], live) && AreChains(all[n..], fam[n..]) && |fam[n..]| == 2 * n
  {
  }

  lemma WithinMove(qs: seq<Links>, live: set<Link<Node>>, a: nat, b: nat)
    requires Within(qs, live) && a < |qs| && b < |qs| && a != b && qs[a] != []
    ensures Within(qs[a := qs[a][1..]][b := [qs[a][0]] + qs[b]], live) && qs[a][0] in live
  {
  }

  // ---- What the chain operations do to the contents ---------------------------------------

  lemma KeyHeld(bs: Buckets, m: map<Key, nat>, i: nat, j: nat)
    requires Rep(bs, m) && i < |bs| && j < |bs[i]|
    ensures KeyOf(bs[i][j]) in m
  {
    assert NodeOk(bs, m, i, bs[i][j]);
  }

  lemma WithinAll(qs: seq<Links>, live: set<Link<Node>>)
    requires Within(qs, live)
    ensures forall h, i | 0 <= h < |qs| && 0 <= i < |qs[h]| :: qs[h][i] in live
  {
  }

  lemma NoMember(qs: seq<Links>, live: set<Link<Node>>, n: Link<Node>)
    requires Within(qs, live) && n !in live
    ensures n !in Members(qs)
  {
  }

  lemma WithinRow(qs: seq<Links>, live: set<Link<Node>>, h: nat)
    requires Within(qs, live) && h < |qs|
    ensures forall i | 0 <= i < |qs[h]| :: qs[h][i] in live
  {
  }

  lemma WithinPush(qs: seq<Links>, live: set<Link<Node>>, h: nat, n: Link<Node>)
    requires Within(qs, live) && h < |qs|
    ensures Within(qs[h := [n] + qs[h]], live + {n})
  {
  }

  lemma WithinCut(qs: seq<Links>, live: set<Link<Node>>, h: nat, i: nat)
    requires Within(qs, live) && Separate(qs) && h < |qs| && i < |qs[h]|
    ensures Within(qs[h := qs[h][..i] + qs[h][i + 1..]], live - {qs[h][i]})
  {
  }

  lemma RepSize(bs: Buckets, m: map<Key, nat>)
    requires Rep(bs, m)
    ensures |bs| > 0
  {
  }

  /** A node holds an integer key exactly if its integer field says so: a string node has 0 there. */
  lemma IntMatches(bs: Buckets, m: map<Key, nat>, i: nat, j: nat, key: u64)
    requires Rep(bs, m) && i < |bs| && j < |bs[i]| && key != 0
    ensures KeyOf(bs[i][j]) == IntKey(key) <==> bs[i][j].key == key
    ensures KeyOf(bs[i][j]) in m && m[KeyOf(bs[i][j])] == bs[i][j].value
  {
    assert NodeOk(bs, m, i, bs[i][j]);
  }

  lemma StrMatches(bs: Buckets, m: map<Key, nat>, i: nat, j: nat, key: CString)
    requires Rep(bs, m) && i < |bs| && j < |bs[i]|
    ensures KeyOf(bs[i][j]) == StrKey(key) <==> bs[i][j].strKey == Some(key)
    ensures KeyOf(bs[i][j]) in m && m[KeyOf(bs[i][j])] == bs[i][j].value
  {
    assert NodeOk(bs, m, i, bs[i][j]);
  }

  lemma Missing(bs: Buckets, m: map<Key, nat>, k: Key)
    requires Rep(bs, m) && var b := bs[Slot(k, |bs|)]; forall g | 0 <= g < |b| :: KeyOf(b[g]) != k
    ensures k !in m
  {
    assert k in m ==> HasKey(bs[Slot(k, |bs|)], k);
  }

  lemma UpdateSize(m: map<Key, nat>, k: Key, value: nat)
    requires k in m
    ensures |m[k := value]| == |m|
  {
    assert |m[k := value]| == |m[k := value].Keys| && |m| == |m.Keys|;
    assert m[k := value].Keys == m.Keys;
  }

  lemma RemoveOneSize(m: map<Key, nat>, k: Key)
    requires k in m
    ensures |m - {k}| == |m| - 1
  {
    assert (m - {k})[k := m[k]] == m;
  }

  // ---- Moving nodes -----------------------------------------------------------------------

  /** The part of `m` held by buckets below `i` and the first `j` nodes of bucket `i`. */
  ghost function Moved(bs: Buckets, m: map<Key, nat>, i: nat, j: nat): map<Key, nat>
    requires |bs| > 0 && (i < |bs| ==> j <= |bs[i]|) && (i >= |bs| ==> j == 0)
  {
    map k | k in m && (Slot(k, |bs|) < i || (Slot(k, |bs|) == i && i < |bs| && HasKey(bs[i][..j], k))) :: m[k]
  }

  lemma MoveNone(bs: Buckets, m: map<Key, nat>, empty: Buckets)
    requires Rep(bs, m) && |empty| > 0 && forall i | 0 <= i < |empty| :: empty[i] == []
    ensures Rep(empty, Moved(bs, m, 0, 0))
  {
    hide Slot;
    assert Moved(bs, m, 0, 0) == map[];
  }

  lemma MoveOne(bs: Buckets, m: map<Key, nat>, i: nat, j: nat)
    requires Rep(bs, m) && i < |bs| && j < |bs[i]|
    ensures var n := bs[i][j];
            && Tagged(n) && KeyOf(n) !in Moved(bs, m, i, j)
            && Moved(bs, m, i, j + 1) == Moved(bs, m, i, j)[KeyOf(n) := n.value]
  {
    hide Slot;
    var b, n := bs[i], bs[i][j];
    assert NodeOk(bs, m, i, bs[i][j]);
    assert KeysDistinct(b);
    assert !HasKey(b[..j], KeyOf(n));
    forall k ensures HasKey(b[..j + 1], k) <==> HasKey(b[..j], k) || k == KeyOf(n) {
      if HasKey(b[..j], k) {
        var g :| 0 <= g < j && KeyOf(b[..j][g]) == k;
        assert KeyOf(b[..j + 1][g]) == k;
      }
      if HasKey(b[..j + 1], k) && k != KeyOf(n) {
        var g :| 0 <= g < j + 1 && KeyOf(b[..j + 1][g]) == k;
        assert KeyOf(b[..j][g]) == k;
      }
      assert KeyOf(b[..j + 1][j]) == KeyOf(n);
    }
  }

  lemma MoveBucket(bs: Buckets, m: map<Key, nat>, i: nat)
    requires Rep(bs, m) && i < |bs|
    ensures Moved(bs, m, i, |bs[i]|) == Moved(bs, m, i + 1, 0)
  {
    hide Slot;
    assert bs[i][..|bs[i]|] == bs[i];
    assert forall k | k in m && Slot(k, |bs|) == i :: HasKey(bs[i], k);
  }

  lemma MoveAll(bs: Buckets, m: map<Key, nat>)
    requires |bs| > 0
    ensures Moved(bs, m, |bs|, 0) == m
  {
  }
}
