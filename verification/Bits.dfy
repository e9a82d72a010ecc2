/** Bits of natural numbers, least significant first, and the integer operators that move them. */
module Bits {

  type Byte = b: int | 0 <= b < 256

  function Pow2(n: nat): (p: nat)
    ensures p > 0
  {
    if n == 0 then 1 else 2 * Pow2(n - 1)
  }

  function BitsOf(v: nat, width: nat): (s: seq<bool>)
    ensures |s| == width
  {
    if width == 0 then [] else [v % 2 == 1] + BitsOf(v / 2, width - 1)
  }

  function ValueOf(s: seq<bool>): nat {
    if s == [] then 0 else (if s[0] then 1 else 0) + 2 * ValueOf(s[1..])
  }

  /** `|` on naturals. */
  function Or(a: nat, b: nat): nat
    decreases a + b
  {
    if a == 0 && b == 0 then 0
    else (if a % 2 == 1 || b % 2 == 1 then 1 else 0) + 2 * Or(a / 2, b / 2)
  }

  /** `&` on naturals. */
  function And(a: nat, b: nat): nat
    decreases a
  {
    if a == 0 then 0 else (if a % 2 == 1 && b % 2 == 1 then 1 else 0) + 2 * And(a / 2, b / 2)
  }

  function Shl(a: nat, n: nat): nat { a * Pow2(n) }

  /** `v >> n`. */
  function Shr(v: nat, n: nat): nat {
    if n == 0 then v else Shr(v / 2, n - 1)
  }

  lemma {:induction false} BitOfShift(v: nat, width: nat, i: nat)
    requires i < width
    ensures BitsOf(v, width)[i] == (Shr(v, i) % 2 == 1)
  {
    if i > 0 {
      BitOfShift(v / 2, width - 1, i - 1);
    }
  }

  lemma {:induction false} ValueOfSnoc(s: seq<bool>, b: bool)
    ensures ValueOf(s + [b]) == ValueOf(s) + (if b then Pow2(|s|) else 0)
    ensures ValueOf(s) < Pow2(|s|)
  {
    if s == [] {
      assert s + [b] == [b];
    } else {
      ValueOfSnoc(s[1..], b);
      assert (s + [b])[1..] == s[1..] + [b];
    }
  }

  lemma {:induction false} ValueOfBits(v: nat, width: nat)
    requires v < Pow2(width)
    ensures ValueOf(BitsOf(v, width)) == v
  {
    if width > 0 {
      ValueOfBits(v / 2, width - 1);
      assert BitsOf(v, width)[1..] == BitsOf(v / 2, width - 1);
    }
  }

  lemma {:induction false} OrZero(b: nat)
    ensures Or(0, b) == b
    decreases b
  {
    if b > 0 {
      OrZero(b / 2);
    }
  }

  /** `acc | v << n` adds when `acc` has no bit at `n` or above. */
  lemma {:induction false} OrDisjoint(acc: nat, v: nat, n: nat)
    requires acc < Pow2(n)
    ensures Or(acc, Shl(v, n)) == acc + Shl(v, n)
  {
    if n == 0 {
      OrZero(v);
    } else {
      OrDisjoint(acc / 2, v, n - 1);
      var s := Shl(v, n - 1);
      assert Shl(v, n) == 2 * s by { assert v * (2 * Pow2(n - 1)) == 2 * (v * Pow2(n - 1)); }
      assert (2 * s) / 2 == s && (2 * s) % 2 == 0;
      if acc == 0 && s == 0 {
      } else {
        assert Or(acc, 2 * s) == (if acc % 2 == 1 then 1 else 0) + 2 * Or(acc / 2, s);
      }
    }
  }

  /** `v & (2^k - 1)` keeps the low `k` bits. */
  lemma {:induction false} AndMask(low: nat, high: nat, k: nat)
    requires low < Pow2(k)
    ensures And(low + Shl(high, k), Pow2(k) - 1) == low
  {
    if k == 0 {
      AndZero(high);
    } else {
      var p, s := Pow2(k - 1), Shl(high, k - 1);
      assert Shl(high, k) == 2 * s by { assert high * (2 * p) == 2 * (high * p); }
      AndMask(low / 2, high, k - 1);
      var v := low + 2 * s;
      assert v / 2 == low / 2 + s && v % 2 == low % 2;
      assert (2 * p - 1) / 2 == p - 1 && (2 * p - 1) % 2 == 1;
    }
  }

  lemma AndByte(v: nat)
    ensures And(v, 0xFF) == v % 256 && And(v, 0x7F) == v % 128
  {
    hide And, Pow2, Shl;
    Pow2Values();
    AndMask(v % 256, v / 256, 8);
    AndMask(v % 128, v / 128, 7);
    ShlIs(v / 256, 8);
    ShlIs(v / 128, 7);
  }

  lemma ShlIs(a: nat, n: nat)
    ensures Shl(a, n) == a * Pow2(n)
  {
  }

  lemma {:induction false} AndZero(v: nat)
    ensures And(v, 0) == 0
  {
    if v > 0 {
      AndZero(v / 2);
    }
  }

  lemma {:induction false} Pow2Add(a: nat, b: nat)
    ensures Pow2(a + b) == Pow2(a) * Pow2(b)
  {
    if a > 0 {
      Pow2Add(a - 1, b);
    }
  }

  lemma Pow2Values()
    ensures Pow2(7) == 128 && Pow2(8) == 256 && Pow2(14) == 16384 && Pow2(18) == 262144 && Pow2(19) == 524288
    ensures Pow2(21) == 2097152 && Pow2(28) == 268435456 && Pow2(32) == 4294967296
  {
    assert Pow2(7) == 128;
    Pow2Add(7, 7);
    Pow2Add(7, 14);
    Pow2Add(14, 14);
    assert Pow2(4) == 16;
    Pow2Add(14, 4);
    Pow2Add(28, 4);
  }

  /** The bits of `acc + (v << n)` are the bits of `acc`, then those of `v`. */
  lemma {:induction false} BitsConcat(acc: nat, n: nat, v: nat, width: nat)
    requires acc < Pow2(n)
    ensures BitsOf(acc + Shl(v, n), n + width) == BitsOf(acc, n) + BitsOf(v, width)
  {
    if n > 0 {
      var s := Shl(v, n - 1);
      assert Shl(v, n) == 2 * s by { assert v * (2 * Pow2(n - 1)) == 2 * (v * Pow2(n - 1)); }
      assert (acc + 2 * s) / 2 == acc / 2 + s && (acc + 2 * s) % 2 == acc % 2;
      BitsConcat(acc / 2, n - 1, v, width);
    }
  }

  /** The low byte and the rest. */
  lemma ByteSplit(v: nat, width: nat)
    requires 8 <= width
    ensures BitsOf(v, width) == BitsOf(v % 256, 8) + BitsOf(v / 256, width - 8)
  {
    hide Pow2, Shl, BitsOf;
    Pow2Values();
    ShlIs(v / 256, 8);
    BitsConcat(v % 256, 8, v / 256, width - 8);
  }

  lemma {:induction false} Pow2Monotone(a: nat, b: nat)
    requires a <= b
    ensures Pow2(a) <= Pow2(b)
  {
    if a < b {
      Pow2Monotone(a, b - 1);
    }
  }
}
