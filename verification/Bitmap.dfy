/** The occupancy bitmap of the pending pool: 1024 bits in 32-bit words. */
module Bitmap {

  const WORD_BITS: nat := 32
  const WORDS: nat := 32
  const SLOTS: nat := WORDS * WORD_BITS

  function Mask(b: nat): (m: bv32)
  {
    if b == 0 then 1 else Mask(b - 1) << 1
  }

  function And(w: bv32, m: bv32): bv32 { w & m }
  function Raise(w: bv32, m: bv32): bv32 { w | m }
  function Lower(w: bv32, m: bv32): bv32 { w & !m }

  predicate Bit(w: bv32, b: nat) {
    And(w, Mask(b)) != 0
  }

  lemma MaskStep(b: nat)
    ensures Mask(b + 1) == Mask(b) << 1
  {
  }

  lemma MaskOne()
    ensures Mask(0) == 1
  {
  }

  lemma TopMask()
    ensures Mask(31) == 0x8000_0000
  {
    assert Mask(7) == 0x80;
    assert Mask(15) == 0x8000;
    assert Mask(23) == 0x80_0000;
  }

  lemma {:induction false} MaskNonzero(b: nat)
    requires b < WORD_BITS
    ensures Mask(b) != 0
    decreases WORD_BITS - b
  {
    if b == WORD_BITS - 1 {
      TopMask();
    } else {
      MaskNonzero(b + 1);
    }
  }

  lemma ShiftedOdd(m: bv32)
    ensures And(1, m << 1) == 0
  {
  }

  lemma ShiftedDisjoint(m: bv32, n: bv32)
    requires And(m, n) == 0
    ensures And(m << 1, n << 1) == 0
  {
  }

  lemma {:induction false} MaskDisjoint(b: nat, c: nat)
    requires b < c
    ensures And(Mask(b), Mask(c)) == 0
  {
    if b == 0 {
      ShiftedOdd(Mask(c - 1));
      assert And(Mask(0), Mask(c)) == 0;
    } else {
      MaskDisjoint(b - 1, c - 1);
      ShiftedDisjoint(Mask(b - 1), Mask(c - 1));
    }
  }

  lemma RaiseOther(w: bv32, m: bv32, n: bv32)
    requires And(m, n) == 0
    ensures And(Raise(w, m), n) == And(w, n)
  {
  }

  lemma LowerOther(w: bv32, m: bv32, n: bv32)
    requires And(m, n) == 0
    ensures And(Lower(w, m), n) == And(w, n)
  {
  }

  lemma RaiseSame(w: bv32, m: bv32)
    ensures And(Raise(w, m), m) == m
  {
  }

  lemma LowerSame(w: bv32, m: bv32)
    ensures And(Lower(w, m), m) == 0
  {
  }

  lemma AndCommutes(m: bv32, n: bv32)
    ensures And(m, n) == And(n, m)
  {
  }

  lemma AndAllOnes(m: bv32)
    ensures And(0xFFFF_FFFF, m) == m
  {
  }

  /** Setting or clearing one bit changes that bit only. */
  lemma BitUpdate(w: bv32, b: nat, c: nat)
    requires b < WORD_BITS && c < WORD_BITS
    ensures Bit(Raise(w, Mask(b)), c) <==> b == c || Bit(w, c)
    ensures Bit(Lower(w, Mask(b)), c) <==> b != c && Bit(w, c)
  {
    hide Mask, And, Raise, Lower;
    var m, n := Mask(b), Mask(c);
    if b == c {
      MaskNonzero(b);
      RaiseSame(w, m);
      LowerSame(w, m);
    } else {
      if b < c {
        MaskDisjoint(b, c);
      } else {
        MaskDisjoint(c, b);
        AndCommutes(n, m);
      }
      RaiseOther(w, m, n);
      LowerOther(w, m, n);
    }
  }

  lemma FullWord(b: nat)
    requires b < WORD_BITS
    ensures Bit(0xFFFF_FFFF, b)
  {
    hide Mask, And, Raise, Lower;
    MaskNonzero(b);
    AndAllOnes(Mask(b));
  }

  ghost predicate IsSet(words: seq<bv32>, i: nat)
    requires |words| == WORDS && i < SLOTS
  {
    Bit(words[i / WORD_BITS], i % WORD_BITS)
  }

  /** The abstract bitmap: one boolean per slot. */
  ghost function Bits(words: seq<bv32>): (s: seq<bool>)
    requires |words| == WORDS
    ensures |s| == SLOTS && forall i | 0 <= i < SLOTS :: s[i] == IsSet(words, i)
  {
    seq(SLOTS, i requires 0 <= i < SLOTS => IsSet(words, i))
  }

  lemma BitsUpdate(words: seq<bv32>, i: nat)
    requires |words| == WORDS && i < SLOTS
    ensures var w, b := i / WORD_BITS, i % WORD_BITS;
            && Bits(words[w := Raise(words[w], Mask(b))]) == Bits(words)[i := true]
            && Bits(words[w := Lower(words[w], Mask(b))]) == Bits(words)[i := false]
  {
    hide Mask, And, Raise, Lower;
    var w, b := i / WORD_BITS, i % WORD_BITS;
    var t, f := words[w := Raise(words[w], Mask(b))], words[w := Lower(words[w], Mask(b))];
    forall k | 0 <= k < SLOTS
      ensures Bits(t)[k] == (k == i || Bits(words)[k]) && Bits(f)[k] == (k != i && Bits(words)[k])
    {
      BitUpdate(words[w], b, k % WORD_BITS);
    }
  }

  /** The least slot whose bit is clear, or 1024 when there is none. */
  ghost predicate IsLeastFree(bits: seq<bool>, k: nat) {
    k <= |bits| && (forall i | 0 <= i < k :: bits[i]) && (k < |bits| ==> !bits[k])
  }

  method Test(words: array<bv32>, i: nat) returns (r: bool)
    requires words.Length == WORDS && i < SLOTS
    ensures r == Bits(words[..])[i]
  {
    hide Mask, And;
    var m := MaskOf(i % WORD_BITS);
    r := And(words[i / WORD_BITS], m) != 0;
  }

  method MaskOf(b: nat) returns (m: bv32)
    ensures m == Mask(b)
  {
    m := 1;
    for k := 0 to b
      invariant m == Mask(k)
    {
      MaskStep(k);
      m := m << 1;
    }
  }

  /** Claims the least free slot; fails exactly when all 1024 bits are set. */
  method Alloc(words: array<bv32>) returns (r: int)
    requires words.Length == WORDS
    modifies words
    ensures r == -1 || 0 <= r < SLOTS
    ensures IsLeastFree(old(Bits(words[..])), if r < 0 then SLOTS else r)
    ensures Bits(words[..]) == if r < 0 then old(Bits(words[..])) else old(Bits(words[..]))[r := true]
  {
    hide Mask, And, Raise, Lower;
    ghost var bits := Bits(words[..]);
    MaskOne();
    for w := 0 to WORDS
      invariant words[..] == old(words[..])
      invariant forall i | 0 <= i < w * WORD_BITS :: bits[i]
    {
      var word := words[w];
      if word != 0xFFFF_FFFF {
        var mask: bv32 := 1;
        for b := 0 to WORD_BITS
          invariant mask == Mask(b) && words[..] == old(words[..])
          invariant forall i | 0 <= i < w * WORD_BITS + b :: bits[i]
        {
          assert (w * WORD_BITS + b) / WORD_BITS == w && (w * WORD_BITS + b) % WORD_BITS == b;
          assert bits[w * WORD_BITS + b] == Bit(word, b);
          if And(word, mask) == 0 {
            BitsUpdate(words[..], w * WORD_BITS + b);
            words[w] := Raise(word, mask);
            assert words[..] == old(words[..])[w := Raise(word, mask)];
            return w * WORD_BITS + b;
          }
          MaskStep(b);
          mask := mask << 1;
        }
      } else {
        forall i | w * WORD_BITS <= i < (w + 1) * WORD_BITS ensures bits[i] {
          FullWord(i % WORD_BITS);
        }
      }
    }
    return -1;
  }

  method Clear(words: array<bv32>, i: nat)
    requires words.Length == WORDS && i < SLOTS
    modifies words
    ensures Bits(words[..]) == old(Bits(words[..]))[i := false]
  {
    hide Mask, And, Raise, Lower;
    var w, b := i / WORD_BITS, i % WORD_BITS;
    var m := MaskOf(b);
    BitsUpdate(words[..], i);
    words[w] := Lower(words[w], m);
    assert words[..] == old(words[..])[w := Lower(old(words[w]), m)];
  }
}
