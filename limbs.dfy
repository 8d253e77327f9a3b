/** The storage model of `BigInt<Bits>`: a little-endian sequence of 64-bit limbs
    (GMP's `mpn` convention) and the number such a sequence stands for. */
module Limbs {
  import opened Arithmetic

  /** Bits per limb (`limb_bit_count`, GMP_NUMB_BITS on a 64-bit build). */
  const LIMB_BITS: nat := 64

  /** 2^64, one more than the largest limb. */
  const LIMB_BASE: nat := 0x1_0000_0000_0000_0000

  /** One machine word (`mp_limb_t`); also the range of `uint64_t`. */
  type Limb = x: int | 0 <= x < LIMB_BASE

  function Max(a: nat, b: nat): nat { if a > b then a else b }

  /** `NumLimbs = (Bits + limb_bit_count - 1) / limb_bit_count`: the fewest limbs
      that hold `bits` bits. */
  function NumLimbs(bits: nat): (n: nat)
    ensures n * LIMB_BITS >= bits
    ensures n > 0 ==> (n - 1) * LIMB_BITS < bits
  {
    (bits + LIMB_BITS - 1) / LIMB_BITS
  }

  /** Value(limbs) = sum of limbs[i] * 2^(64 i), least significant limb first. */
  function LimbsValue(s: seq<Limb>): nat
  {
    if s == [] then 0 else s[0] + LIMB_BASE * LimbsValue(s[1..])
  }

  /** The `n` low limbs of `v`, least significant first. */
  function FromNat(v: nat, n: nat): (r: seq<Limb>)
    ensures |r| == n
  {
    if n == 0 then [] else [v % LIMB_BASE] + FromNat(v / LIMB_BASE, n - 1)
  }

  /** Index of the most significant non-zero limb plus one (0 for an all-zero sequence):
      the count `to_string` keeps after trimming high zero limbs. */
  function SignificantLimbs(s: seq<Limb>): (k: nat)
    ensures k <= |s|
  {
    if s == [] then 0
    else if s[|s| - 1] == 0 then SignificantLimbs(s[..|s| - 1])
    else |s|
  }

  /** Appending a limb at the top adds it at weight 2^(64 |s|). */
  lemma {:induction false} ValueAppend(s: seq<Limb>, x: Limb)
    ensures LimbsValue(s + [x]) == LimbsValue(s) + x * Pow(LIMB_BASE, |s|)
  {
    if s != [] {
      assert (s + [x])[1..] == s[1..] + [x];
      ValueAppend(s[1..], x);
      ShiftWeight(s[0], LimbsValue(s[1..]), Pow(LIMB_BASE, |s| - 1), x);
    }
  }

  /** The value of `n` limbs is below 2^(64 n). */
  lemma {:induction false} ValueBound(s: seq<Limb>)
    ensures LimbsValue(s) < Pow(LIMB_BASE, |s|)
  {
    if s != [] {
      ValueBound(s[1..]);
    }
  }

  /** Cutting the limbs at `k` splits the value into a low part and a high part
      weighted by 2^(64 k). */
  lemma {:induction false} ValueSplit(s: seq<Limb>, k: nat)
    requires k <= |s|
    ensures LimbsValue(s) == LimbsValue(s[..k]) + Pow(LIMB_BASE, k) * LimbsValue(s[k..])
  {
    if k > 0 {
      assert s[1..][..k - 1] == s[1..k];
      assert s[1..][k - 1..] == s[k..];
      ValueSplit(s[1..], k - 1);
      assert s[..k][1..] == s[1..k];
      ShiftWeight(s[0], LimbsValue(s[1..k]), Pow(LIMB_BASE, k - 1), LimbsValue(s[k..]));
    }
  }

  /** s0 + B (x + p y) == (s0 + B x) + (B p) y, stated on plain numbers. */
  lemma ShiftWeight(s0: nat, x: nat, p: nat, y: nat)
    ensures s0 + LIMB_BASE * (x + p * y) == (s0 + LIMB_BASE * x) + (LIMB_BASE * p) * y
  {
  }

  /** The value is zero exactly when every limb is zero. */
  lemma {:induction false} ValueZero(s: seq<Limb>)
    ensures LimbsValue(s) == 0 <==> forall i | 0 <= i < |s| :: s[i] == 0
  {
    if s != [] {
      ValueZero(s[1..]);
      if LimbsValue(s) == 0 {
        assert s[0] == 0 && LimbsValue(s[1..]) == 0;
        forall i | 0 <= i < |s| ensures s[i] == 0 {
          if i > 0 { assert s[i] == s[1..][i - 1]; }
        }
      } else if forall i | 0 <= i < |s| :: s[i] == 0 {
        forall i | 0 <= i < |s| - 1 ensures s[1..][i] == 0 {
          assert s[1..][i] == s[i + 1];
        }
        assert false;
      }
    }
  }

  /** High zero limbs do not contribute to the value. */
  lemma TrailingZeros(s: seq<Limb>, k: nat)
    requires k <= |s|
    requires forall i | k <= i < |s| :: s[i] == 0
    ensures LimbsValue(s) == LimbsValue(s[..k])
  {
    ValueSplit(s, k);
    ValueZero(s[k..]);
  }

  /** The top limb is non-zero exactly when the value reaches 2^(64 (n - 1)); this is
      what the flag derived from `mpn_mul`'s return value reports. */
  lemma TopLimb(s: seq<Limb>)
    requires |s| > 0
    ensures s[|s| - 1] != 0 <==> LimbsValue(s) >= Pow(LIMB_BASE, |s| - 1)
  {
    var n := |s| - 1;
    ValueSplit(s, n);
    ValueBound(s[..n]);
    assert s[n..] == [s[n]];
    assert s[n..][1..] == [];
    HighPartNonZero(Pow(LIMB_BASE, n), s[n], LimbsValue(s[..n]), LimbsValue(s));
  }

  lemma HighPartNonZero(p: nat, top: nat, low: nat, v: nat)
    requires low < p && v == low + p * top
    ensures top != 0 <==> v >= p
  {
    if top != 0 {
      assert p * top == p + p * (top - 1);
    } else {
      assert p * top == 0;
    }
  }

  /** `FromNat` keeps the value of every number that fits in `n` limbs. */
  lemma {:induction false} FromNatValue(v: nat, n: nat)
    requires v < Pow(LIMB_BASE, n)
    ensures LimbsValue(FromNat(v, n)) == v
  {
    if n > 0 {
      FromNatValue(v / LIMB_BASE, n - 1);
      assert FromNat(v, n)[1..] == FromNat(v / LIMB_BASE, n - 1);
    }
  }

  /** The trimmed count is characterised by the stopping condition of the trimming
      loop in `to_string`: every limb from `k` up is zero, and limb `k - 1` is not. */
  lemma {:induction false} SignificantLimbsExact(s: seq<Limb>, k: nat)
    requires k <= |s|
    requires forall i | k <= i < |s| :: s[i] == 0
    requires k > 0 ==> s[k - 1] != 0
    ensures SignificantLimbs(s) == k
  {
    if |s| > k {
      SignificantLimbsExact(s[..|s| - 1], k);
    }
  }

  /** Conversely, the limbs above the trimmed count are zero and the top kept limb
      is not. */
  lemma {:induction false} SignificantLimbsBounds(s: seq<Limb>)
    ensures forall i | SignificantLimbs(s) <= i < |s| :: s[i] == 0
    ensures SignificantLimbs(s) > 0 ==> s[SignificantLimbs(s) - 1] != 0
  {
    if s != [] && s[|s| - 1] == 0 {
      var init := s[..|s| - 1];
      SignificantLimbsBounds(init);
      forall i | SignificantLimbs(s) <= i < |s| ensures s[i] == 0 {
        if i < |s| - 1 { assert s[i] == init[i]; }
      }
      if SignificantLimbs(s) > 0 {
        assert s[SignificantLimbs(s) - 1] == init[SignificantLimbs(init) - 1];
      }
    }
  }

  /** 2^64 is the limb base. */
  lemma LimbBaseIsPow()
    ensures Pow(2, LIMB_BITS) == LIMB_BASE
  {
    PowPow(2, 8, 8);
    assert Pow(2, 8) == 256;
    assert Pow(256, 8) == LIMB_BASE;
  }

  /** Dropping the high zero limbs keeps the value; nothing is left exactly for
      zero, and otherwise the top kept limb is non-zero, as `mpn_get_str` requires. */
  lemma TrimmedValue(s: seq<Limb>, k: nat)
    requires k == SignificantLimbs(s)
    ensures LimbsValue(s) == LimbsValue(s[..k])
    ensures k == 0 <==> LimbsValue(s) == 0
    ensures k > 0 ==> s[k - 1] != 0
  {
    SignificantLimbsBounds(s);
    TrailingZeros(s, k);
    ValueZero(s[..k]);
    if k > 0 {
      assert s[..k][k - 1] == s[k - 1];
    }
  }

  /** The value is below 2^(64 k) for k significant limbs. */
  lemma ValueBelowPow2(s: seq<Limb>)
    ensures LimbsValue(s) < Pow(2, SignificantLimbs(s) * LIMB_BITS)
  {
    var k := SignificantLimbs(s);
    TrimmedValue(s, k);
    ValueBound(s[..k]);
    LimbBaseIsPow();
    PowPow(2, LIMB_BITS, k);
  }
}
