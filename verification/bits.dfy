/** Arithmetic on Python's unbounded integers seen as two's-complement
    bit strings: shifts, single-bit tests, bit-range extraction and the
    value of a little bit list. Dafny's `/` and `%` with a positive divisor
    are floor division and a non-negative remainder, which is exactly what
    Python's `>>` and `&` on negative integers agree with. */
module Bits {

  function Pow2(n: nat): (r: nat)
    ensures r >= 1
  {
    if n == 0 then 1 else 2 * Pow2(n - 1)
  }

  /** Python's `v >> k`. */
  function Shr(v: int, k: nat): int {
    v / Pow2(k)
  }

  /** Python's `v & (1 << k) != 0`. */
  predicate Bit(v: int, k: nat) {
    Shr(v, k) % 2 == 1
  }

  lemma Pow2Add(a: nat, b: nat)
    ensures Pow2(a + b) == Pow2(a) * Pow2(b)
  {
    if a > 0 {
      Pow2Add(a - 1, b);
    }
  }

  lemma DivModUnique(a: int, d: int, q: int, r: int)
    requires d > 0 && 0 <= r < d && a == d * q + r
    ensures a / d == q && a % d == r
  {
    var q0, r0 := a / d, a % d;
    assert a == d * q0 + r0;
    var x := q - q0;
    assert d * x == r0 - r by {
      assert d * q + r == d * q0 + r0;
      assert d * q - d * q0 == d * x;
    }
    if x >= 1 {
      MulMono(d, 1, x);
      assert false;
    } else if x <= -1 {
      MulMono(d, x, -1);
      assert false;
    }
  }

  lemma DivNonneg(a: nat, d: int)
    requires d > 0
    ensures a / d >= 0
  {
    var q := a / d;
    assert a == d * q + a % d;
    if q < 0 {
      MulMono(d, q, -1);
    }
  }

  lemma MulMono(d: int, x: int, y: int)
    requires d > 0 && x <= y
    ensures d * x <= d * y
  {
    assert d * y - d * x == d * (y - x);
  }

  /** Dividing by `d` then by `m` is dividing by `d * m`; the remainders
      nest the same way. */
  lemma DivModNest(v: int, d: int, m: int)
    requires d > 0 && m > 0
    ensures v / (d * m) == (v / d) / m
    ensures v % (d * m) == v % d + d * ((v / d) % m)
  {
    var q, r := v / d, v % d;
    var q2, r2 := q / m, q % m;
    assert v == d * q + r;
    assert q == m * q2 + r2;
    assert d * q == d * (m * q2) + d * r2;
    assert d * (m * q2) == (d * m) * q2;
    assert d * r2 <= d * (m - 1);
    DivModUnique(v, d * m, q2, d * r2 + r);
  }

  lemma ShrShr(v: int, a: nat, b: nat)
    ensures Shr(Shr(v, a), b) == Shr(v, a + b)
  {
    Pow2Add(a, b);
    DivModNest(v, Pow2(a), Pow2(b));
  }

  /** The sum the decoder builds bit by bit for a bit range:
      the terms `v & (1 << b)` for `lo <= b <= hi`. */
  function MaskedSum(v: int, lo: nat, hi: int): nat
    decreases hi - lo + 1
  {
    if hi < lo then 0
    else MaskedSum(v, lo, hi - 1) + (if Bit(v, hi) then Pow2(hi) else 0)
  }

  /** Bits `lo..hi` of `v`, moved down to bit 0, as the decoder computes
      them: the masked sum shifted right by `lo`. */
  function ExtractBits(v: int, lo: nat, hi: int): nat {
    DivNonneg(MaskedSum(v, lo, hi), Pow2(lo));
    Shr(MaskedSum(v, lo, hi), lo)
  }

  lemma {:induction false} MaskedSumIsField(v: int, lo: nat, hi: int)
    requires lo <= hi + 1
    ensures MaskedSum(v, lo, hi) == Pow2(lo) * (Shr(v, lo) % Pow2(hi + 1 - lo))
  {
    if hi >= lo {
      var n: nat := hi + 1 - lo;
      var w := Shr(v, lo);
      var b := if Bit(v, hi) then 1 else 0;
      MaskedSumIsField(v, lo, hi - 1);
      assert MaskedSum(v, lo, hi) == Pow2(lo) * (w % Pow2(n - 1)) + b * Pow2(hi);
      TopBit(v, lo, hi);
      assert w % Pow2(n) == w % Pow2(n - 1) + Pow2(n - 1) * b;
      Pow2Add(lo, n - 1);
      assert Pow2(hi) == Pow2(lo) * Pow2(n - 1);
      Distribute(Pow2(lo), w % Pow2(n - 1), Pow2(n - 1), b);
    }
  }

  /** Splitting the field `lo..hi` of `v` into its low part and its top bit. */
  lemma TopBit(v: int, lo: nat, hi: nat)
    requires lo <= hi
    ensures Shr(v, lo) % Pow2(hi + 1 - lo)
      == Shr(v, lo) % Pow2(hi - lo) + Pow2(hi - lo) * (if Bit(v, hi) then 1 else 0)
  {
    var w := Shr(v, lo);
    DivModNest(w, Pow2(hi - lo), 2);
    assert Pow2(hi - lo) * 2 == Pow2(hi + 1 - lo);
    ShrShr(v, lo, hi - lo);
  }

  lemma Distribute(p: int, x: int, q: int, b: int)
    ensures p * (x + q * b) == p * x + b * (p * q)
  {
  }

  /** A bit-range read yields bits `lo..hi` of the word: the word shifted
      right by `lo`, reduced modulo 2^(hi-lo+1); an empty range yields 0. */
  lemma ExtractBitsIsField(v: int, lo: nat, hi: int)
    ensures lo <= hi ==> ExtractBits(v, lo, hi) == Shr(v, lo) % Pow2(hi + 1 - lo)
    ensures lo <= hi ==> ExtractBits(v, lo, hi) < Pow2(hi + 1 - lo)
    ensures hi < lo ==> ExtractBits(v, lo, hi) == 0
  {
    if lo <= hi {
      MaskedSumIsField(v, lo, hi);
      var f := Shr(v, lo) % Pow2(hi + 1 - lo);
      DivModUnique(Pow2(lo) * f, Pow2(lo), f, 0);
    }
  }

  /** The integer whose bit `k` is `flags[k]` (bit 0 first). */
  function FromBits(flags: seq<bool>): (r: nat)
    ensures r < Pow2(|flags|)
  {
    if |flags| == 0 then 0
    else (if flags[0] then 1 else 0) + 2 * FromBits(flags[1..])
  }

  lemma {:induction false} BitOfFromBits(flags: seq<bool>, k: nat)
    ensures Bit(FromBits(flags), k) <==> k < |flags| && flags[k]
  {
    var v := FromBits(flags);
    if |flags| == 0 {
      assert v == 0;
      assert Shr(0, k) == 0;
    } else {
      var b := if flags[0] then 1 else 0;
      var rest := FromBits(flags[1..]);
      assert v == 2 * rest + b;
      DivModUnique(v, 2, rest, b);
      if k == 0 {
        assert Shr(v, 0) == v;
      } else {
        ShrShr(v, 1, k - 1);
        assert Shr(v, 1) == rest;
        BitOfFromBits(flags[1..], k - 1);
        if k < |flags| {
          assert flags[1..][k - 1] == flags[k];
        }
      }
    }
  }

  /** Python's `v |= flag << k` on a bit list: sets (never clears) position
      `k`, growing the list with clear bits when `k` is past its end. */
  function OrFlag(flags: seq<bool>, k: nat, b: bool): (r: seq<bool>)
    ensures |r| == if k < |flags| then |flags| else k + 1
    ensures forall j :: 0 <= j < |r| ==>
      r[j] == ((j < |flags| && flags[j]) || (j == k && b))
  {
    if k < |flags| then flags[k := flags[k] || b]
    else flags + seq(k - |flags|, _ => false) + [b]
  }
}
