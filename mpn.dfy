/** The five GNU MP low-level routines `BigInt` delegates to, modelled by their
    documented contracts (GNU MP manual, "Low-level Functions"): `mpn_add`, `mpn_sub`
    and `mpn_mul` as schoolbook loops writing the destination limb by limb, and
    `mpn_set_str` and `mpn_get_str` as positional-value functions. GMP's own
    algorithms are not modelled. */
module Mpn {
  import opened Arithmetic
  import opened Limbs
  import opened Digits

  /** mpn_add: {rp, s1n} receives the s1n low limbs of {s1p, s1n} + {s2p, s2n}; the
      carry out of the top limb, 0 or 1, is returned. Requires s1n >= s2n. */
  method Add(rp: array<Limb>, s1p: array<Limb>, s1n: nat, s2p: array<Limb>, s2n: nat)
    returns (carry: Limb)
    requires s2n <= s1n <= s1p.Length && s2n <= s2p.Length && s1n <= rp.Length
    requires rp != s1p && rp != s2p
    modifies rp
    ensures carry <= 1
    ensures LimbsValue(rp[..s1n]) + carry * Pow(LIMB_BASE, s1n)
            == LimbsValue(s1p[..s1n]) + LimbsValue(s2p[..s2n])
    ensures rp[s1n..] == old(rp[s1n..])
  {
    hide LimbsValue;
    ValueZero(rp[..0]);
    ValueZero(s1p[..0]);
    ValueZero(s2p[..0]);
    carry := 0;
    var i := 0;
    while i < s1n
      invariant i <= s1n && carry <= 1
      invariant LimbsValue(rp[..i]) + carry * Pow(LIMB_BASE, i)
                == LimbsValue(s1p[..i]) + LimbsValue(s2p[..if i < s2n then i else s2n])
      invariant rp[s1n..] == old(rp[s1n..])
    {
      var y := if i < s2n then s2p[i] else 0;
      var t := s1p[i] + y + carry;
      var lo, hi := if t < LIMB_BASE then t else t - LIMB_BASE, if t < LIMB_BASE then 0 else 1;
      ghost var done := rp[..i];
      rp[i] := lo;
      assert rp[..i + 1] == done + [lo];
      assert s1p[..i + 1] == s1p[..i] + [s1p[i]];
      PrefixOrPad(s2p, s2n, i);
      AddStep(done, rp[..i + 1], s1p[..i], s1p[..i + 1], s2p[..if i < s2n then i else s2n],
              s2p[..if i + 1 < s2n then i + 1 else s2n], i, carry, s1p[i], y, lo, hi);
      carry := hi;
      i := i + 1;
    }
  }

  /** mpn_sub: {rp, s1n} receives {s1p, s1n} - {s2p, s2n} modulo 2^(64 s1n); the
      borrow, 1 exactly when the subtrahend is larger, is returned. Requires s1n >= s2n. */
  method Sub(rp: array<Limb>, s1p: array<Limb>, s1n: nat, s2p: array<Limb>, s2n: nat)
    returns (borrow: Limb)
    requires s2n <= s1n <= s1p.Length && s2n <= s2p.Length && s1n <= rp.Length
    requires rp != s1p && rp != s2p
    modifies rp
    ensures LimbsValue(rp[..s1n])
            == (LimbsValue(s1p[..s1n]) - LimbsValue(s2p[..s2n])) % Pow(LIMB_BASE, s1n)
    ensures borrow == 1 <==> LimbsValue(s1p[..s1n]) < LimbsValue(s2p[..s2n])
    ensures borrow <= 1
    ensures rp[s1n..] == old(rp[s1n..])
  {
    hide LimbsValue;
    ValueZero(rp[..0]);
    ValueZero(s1p[..0]);
    ValueZero(s2p[..0]);
    borrow := 0;
    var i := 0;
    while i < s1n
      invariant i <= s1n && borrow <= 1
      invariant LimbsValue(rp[..i]) - borrow * Pow(LIMB_BASE, i)
                == LimbsValue(s1p[..i]) - LimbsValue(s2p[..if i < s2n then i else s2n])
      invariant rp[s1n..] == old(rp[s1n..])
    {
      var y := if i < s2n then s2p[i] else 0;
      var t := s1p[i] - y - borrow;
      var lo, hi := if t < 0 then t + LIMB_BASE else t, if t < 0 then 1 else 0;
      ghost var done := rp[..i];
      rp[i] := lo;
      assert rp[..i + 1] == done + [lo];
      assert s1p[..i + 1] == s1p[..i] + [s1p[i]];
      PrefixOrPad(s2p, s2n, i);
      SubStep(done, rp[..i + 1], s1p[..i], s1p[..i + 1], s2p[..if i < s2n then i else s2n],
              s2p[..if i + 1 < s2n then i + 1 else s2n], i, borrow, s1p[i], y, lo, hi);
      borrow := hi;
      i := i + 1;
    }
    SubResult(rp[..s1n], s1p[..s1n], s2p[..s2n], borrow);
  }

  /** One row of schoolbook multiplication: {rp + j, n} += {s1p, n} * d; the limb
      carried out of the row is returned. Limbs outside the row are untouched. */
  method AddMulRow(rp: array<Limb>, j: nat, s1p: array<Limb>, n: nat, d: Limb)
    returns (c: Limb)
    requires j + n <= rp.Length && n <= s1p.Length && rp != s1p
    modifies rp
    ensures LimbsValue(rp[j..j + n]) + c * Pow(LIMB_BASE, n)
            == LimbsValue(old(rp[j..j + n])) + LimbsValue(s1p[..n]) * d
    ensures rp[..j] == old(rp[..j]) && rp[j + n..] == old(rp[j + n..])
  {
    hide LimbsValue;
    ValueZero(rp[j..j + 0]);
    ValueZero(s1p[..0]);
    c := 0;
    var i := 0;
    while i < n
      invariant i <= n
      invariant LimbsValue(rp[j..j + i]) + c * Pow(LIMB_BASE, i)
                == LimbsValue(old(rp[j..j + i])) + LimbsValue(s1p[..i]) * d
      invariant rp[..j] == old(rp[..j]) && rp[j + i..] == old(rp[j + i..])
    {
      var r, a := rp[j + i], s1p[i];
      assert r == old(rp[j + i..])[0];
      MulAddLimbs(r, a, d, c);
      var t := r + a * d + c;
      var lo: Limb, hi: Limb := t % LIMB_BASE, t / LIMB_BASE;
      ghost var done := rp[j..j + i];
      rp[j + i] := lo;
      assert rp[j..j + i + 1] == done + [lo];
      assert old(rp[j..j + i + 1]) == old(rp[j..j + i]) + [r];
      assert s1p[..i + 1] == s1p[..i] + [a];
      AddMulStep(done, rp[j..j + i + 1], old(rp[j..j + i]), old(rp[j..j + i + 1]),
                 s1p[..i], s1p[..i + 1], i, c, r, a, d, lo, hi);
      c := hi;
      i := i + 1;
    }
  }

  /** mpn_mul: {rp, s1n + s2n} receives the full product {s1p, s1n} * {s2p, s2n}, and
      its most significant limb is returned. Requires s1n >= s2n >= 1 and a
      destination of s1n + s2n limbs that overlaps neither source. */
  method Mul(rp: array<Limb>, s1p: array<Limb>, s1n: nat, s2p: array<Limb>, s2n: nat)
    returns (top: Limb)
    requires 1 <= s2n <= s1n <= s1p.Length && s2n <= s2p.Length && s1n + s2n <= rp.Length
    requires rp != s1p && rp != s2p
    modifies rp
    ensures LimbsValue(rp[..s1n + s2n]) == LimbsValue(s1p[..s1n]) * LimbsValue(s2p[..s2n])
    ensures top == rp[s1n + s2n - 1]
    ensures rp[s1n + s2n..] == old(rp[s1n + s2n..])
  {
    hide LimbsValue;
    ghost var a := LimbsValue(s1p[..s1n]);
    for k := 0 to s1n
      invariant forall m | 0 <= m < k :: rp[m] == 0
      invariant rp[s1n + s2n..] == old(rp[s1n + s2n..])
    {
      rp[k] := 0;
    }
    ValueZero(rp[..s1n]);
    ValueZero(s2p[..0]);
    for j := 0 to s2n
      invariant LimbsValue(rp[..j + s1n]) == a * LimbsValue(s2p[..j])
      invariant rp[s1n + s2n..] == old(rp[s1n + s2n..])
    {
      ghost var before := rp[..j + s1n];
      label row:
      var c := AddMulRow(rp, j, s1p, s1n, s2p[j]);
      assert before[..j] == old@row(rp[..j]) && before[j..] == old@row(rp[j..j + s1n]);
      ghost var rowDone := rp[j..j + s1n];
      rp[j + s1n] := c;
      assert rp[..j + 1 + s1n] == before[..j] + rowDone + [c];
      RowValue(before, rowDone, rp[..j + 1 + s1n], j, s1n, c, a * s2p[j]);
      assert s2p[..j + 1] == s2p[..j] + [s2p[j]];
      ProductStep(s2p[..j], s2p[..j + 1], s2p[j], a, j);
    }
    top := rp[s1n + s2n - 1];
  }

  /** The shorter operand of mpn_add and mpn_sub, read as if padded with zero limbs. */
  lemma PrefixOrPad(s: array<Limb>, n: nat, i: nat)
    requires n <= s.Length
    ensures LimbsValue(s[..if i + 1 < n then i + 1 else n])
            == LimbsValue(s[..if i < n then i else n]) + (if i < n then s[i] else 0) * Pow(LIMB_BASE, i)
  {
    if i < n {
      assert s[..i + 1] == s[..i] + [s[i]];
      ValueAppend(s[..i], s[i]);
    }
  }

  /** One limb of mpn_add: the carry equation extends from i limbs to i + 1. */
  lemma AddStep(done: seq<Limb>, done': seq<Limb>, xs: seq<Limb>, xs': seq<Limb>,
                ys: seq<Limb>, ys': seq<Limb>, i: nat, c: Limb, x: Limb, y: Limb, lo: Limb, hi: Limb)
    requires |done| == |xs| == i && done' == done + [lo] && xs' == xs + [x]
    requires LimbsValue(done) + c * Pow(LIMB_BASE, i) == LimbsValue(xs) + LimbsValue(ys)
    requires LimbsValue(ys') == LimbsValue(ys) + y * Pow(LIMB_BASE, i)
    requires x + y + c == lo + hi * LIMB_BASE
    ensures LimbsValue(done') + hi * Pow(LIMB_BASE, i + 1) == LimbsValue(xs') + LimbsValue(ys')
  {
    hide LimbsValue;
    ValueAppend(done, lo);
    ValueAppend(xs, x);
    CarryArith(LimbsValue(done), LimbsValue(done + [lo]), LimbsValue(xs), LimbsValue(xs + [x]),
               LimbsValue(ys), LimbsValue(ys'), Pow(LIMB_BASE, i), Pow(LIMB_BASE, |done|),
               Pow(LIMB_BASE, |xs|), Pow(LIMB_BASE, i + 1), c, x, y, lo, hi);
  }

  /** One limb of mpn_sub: the borrow equation extends from i limbs to i + 1. */
  lemma SubStep(done: seq<Limb>, done': seq<Limb>, xs: seq<Limb>, xs': seq<Limb>,
                ys: seq<Limb>, ys': seq<Limb>, i: nat, b: Limb, x: Limb, y: Limb, lo: Limb, hi: Limb)
    requires |done| == |xs| == i && done' == done + [lo] && xs' == xs + [x]
    requires LimbsValue(done) - b * Pow(LIMB_BASE, i) == LimbsValue(xs) - LimbsValue(ys)
    requires LimbsValue(ys') == LimbsValue(ys) + y * Pow(LIMB_BASE, i)
    requires x - y - b == lo - hi * LIMB_BASE
    ensures LimbsValue(done') - hi * Pow(LIMB_BASE, i + 1) == LimbsValue(xs') - LimbsValue(ys')
  {
    hide LimbsValue;
    ValueAppend(done, lo);
    ValueAppend(xs, x);
    BorrowArith(LimbsValue(done), LimbsValue(done + [lo]), LimbsValue(xs), LimbsValue(xs + [x]),
                LimbsValue(ys), LimbsValue(ys'), Pow(LIMB_BASE, i), Pow(LIMB_BASE, |done|),
                Pow(LIMB_BASE, |xs|), Pow(LIMB_BASE, i + 1), b, x, y, lo, hi);
  }

  /** After the last limb, the borrow equation pins down the difference modulo
      2^(64 n) and says when the borrow is set. */
  lemma SubResult(r: seq<Limb>, xs: seq<Limb>, ys: seq<Limb>, b: Limb)
    requires |ys| <= |xs| == |r| && b <= 1
    requires LimbsValue(r) - b * Pow(LIMB_BASE, |r|) == LimbsValue(xs) - LimbsValue(ys)
    ensures LimbsValue(r) == (LimbsValue(xs) - LimbsValue(ys)) % Pow(LIMB_BASE, |xs|)
    ensures b == 1 <==> LimbsValue(xs) < LimbsValue(ys)
  {
    hide *;
    ValueBound(r);
    ValueBound(xs);
    ValueBound(ys);
    PowMonotonic(LIMB_BASE, |ys|, |xs|);
    BorrowSplit(LimbsValue(r), b, LimbsValue(xs), LimbsValue(ys), Pow(LIMB_BASE, |xs|));
  }

  /** One limb of a multiplication row: the row equation extends from i limbs to i + 1. */
  lemma AddMulStep(done: seq<Limb>, done': seq<Limb>, olds: seq<Limb>, olds': seq<Limb>,
                   xs: seq<Limb>, xs': seq<Limb>, i: nat, c: Limb, r: Limb, a: Limb, d: Limb,
                   lo: Limb, hi: Limb)
    requires |done| == |olds| == |xs| == i
    requires done' == done + [lo] && olds' == olds + [r] && xs' == xs + [a]
    requires LimbsValue(done) + c * Pow(LIMB_BASE, i) == LimbsValue(olds) + LimbsValue(xs) * d
    requires r + a * d + c == lo + hi * LIMB_BASE
    ensures LimbsValue(done') + hi * Pow(LIMB_BASE, i + 1) == LimbsValue(olds') + LimbsValue(xs') * d
  {
    hide LimbsValue;
    ValueAppend(done, lo);
    ValueAppend(olds, r);
    ValueAppend(xs, a);
    MulArith(LimbsValue(done), LimbsValue(done + [lo]), LimbsValue(olds), LimbsValue(olds + [r]),
             LimbsValue(xs), LimbsValue(xs + [a]), Pow(LIMB_BASE, i), Pow(LIMB_BASE, |done|),
             Pow(LIMB_BASE, |olds|), Pow(LIMB_BASE, |xs|), Pow(LIMB_BASE, i + 1), c, r, a, d, lo, hi);
  }

  /** Adding a row at limb j and storing its carry at limb j + n adds the row's value
      times 2^(64 j) to the first j + n + 1 limbs. */
  lemma RowValue(before: seq<Limb>, row: seq<Limb>, after: seq<Limb>, j: nat, n: nat, c: Limb, ad: int)
    requires |before| == j + n && |row| == n && after == before[..j] + row + [c]
    requires LimbsValue(row) + c * Pow(LIMB_BASE, n) == LimbsValue(before[j..]) + ad
    ensures LimbsValue(after) == LimbsValue(before) + ad * Pow(LIMB_BASE, j)
  {
    hide *;
    assert after[..j] == before[..j] && after[j..] == row + [c];
    ValueAppend(row, c);
    ValueSplit(before, j);
    ValueSplit(after, j);
    RowArith(LimbsValue(before), LimbsValue(after), LimbsValue(before[..j]), LimbsValue(after[..j]),
             LimbsValue(before[j..]), LimbsValue(after[j..]), LimbsValue(row), c * Pow(LIMB_BASE, |row|),
             c * Pow(LIMB_BASE, n), Pow(LIMB_BASE, j), ad);
  }

  /** Extending the multiplier by its next limb adds one row to the product. */
  lemma ProductStep(bs: seq<Limb>, bs': seq<Limb>, d: Limb, a: nat, j: nat)
    requires |bs| == j && bs' == bs + [d]
    ensures a * LimbsValue(bs') == a * LimbsValue(bs) + (a * d) * Pow(LIMB_BASE, j)
  {
    hide LimbsValue;
    ValueAppend(bs, d);
    ScaleArith(a, LimbsValue(bs + [d]), LimbsValue(bs), d, Pow(LIMB_BASE, |bs|), Pow(LIMB_BASE, j));
  }

  /** r + a * d + c fits two limbs, and its quotient and remainder by 2^64 are limbs. */
  lemma MulAddLimbs(r: Limb, a: Limb, d: Limb, c: Limb)
    ensures 0 <= (r + a * d + c) / LIMB_BASE < LIMB_BASE
    ensures r + a * d + c == (r + a * d + c) % LIMB_BASE + (r + a * d + c) / LIMB_BASE * LIMB_BASE
  {
    MulMonotonic(0, 0, a, d);
    MulMonotonic(a, d, LIMB_BASE - 1, LIMB_BASE - 1);
    TwoLimbs(r + a * d + c);
  }

  // Arithmetic steps of the loops above, on plain numbers.

  lemma TwoLimbs(t: int)
    requires 0 <= t < LIMB_BASE * LIMB_BASE
    ensures 0 <= t / LIMB_BASE < LIMB_BASE
    ensures t == t % LIMB_BASE + t / LIMB_BASE * LIMB_BASE
  {
    if t / LIMB_BASE >= LIMB_BASE {
      assert false;
    }
  }

  lemma CarryArith(lw: nat, lwl: nat, lx: nat, lxx: nat, ly: nat, ly': nat,
                   p: nat, pw: nat, px: nat, p1: nat, c: nat, x: nat, y: nat, lo: nat, hi: nat)
    requires pw == p && px == p && p1 == LIMB_BASE * p
    requires lw + c * p == lx + ly
    requires ly' == ly + y * p
    requires lwl == lw + lo * pw && lxx == lx + x * px
    requires x + y + c == lo + hi * LIMB_BASE
    ensures lwl + hi * p1 == lxx + ly'
  {
    assert hi * (LIMB_BASE * p) == (hi * LIMB_BASE) * p;
    assert (x + y + c) * p == x * p + y * p + c * p;
  }

  lemma BorrowArith(lw: nat, lwl: nat, lx: nat, lxx: nat, ly: nat, ly': nat,
                    p: nat, pw: nat, px: nat, p1: nat, b: nat, x: nat, y: nat, lo: nat, hi: nat)
    requires pw == p && px == p && p1 == LIMB_BASE * p
    requires lw - b * p == lx - ly
    requires ly' == ly + y * p
    requires lwl == lw + lo * pw && lxx == lx + x * px
    requires x - y - b == lo - hi * LIMB_BASE
    ensures lwl - hi * p1 == lxx - ly'
  {
    assert hi * (LIMB_BASE * p) == (hi * LIMB_BASE) * p;
    assert (x - y - b) * p == x * p - y * p - b * p;
    assert (lo - hi * LIMB_BASE) * p == lo * p - (hi * LIMB_BASE) * p;
  }

  lemma BorrowSplit(v: nat, c: nat, x: nat, y: nat, m: nat)
    requires v < m && x < m && y < m && c <= 1
    requires v - c * m == x - y
    ensures v == (x - y) % m && (c == 1 <==> x < y)
  {
    DivModUniqueInt(x - y, -(c as int), v, m);
  }

  lemma MulArith(lw: nat, lwl: nat, lo': nat, lor: nat, lx: nat, lxa: nat,
                 p: nat, pw: nat, po: nat, px: nat, p1: nat, c: nat, r: nat, a: nat, d: nat, lo: nat, hi: nat)
    requires pw == p && po == p && px == p && p1 == LIMB_BASE * p
    requires lw + c * p == lo' + lx * d
    requires lwl == lw + lo * pw && lor == lo' + r * po && lxa == lx + a * px
    requires r + a * d + c == lo + hi * LIMB_BASE
    ensures lwl + hi * p1 == lor + lxa * d
  {
    assert hi * (LIMB_BASE * p) == (hi * LIMB_BASE) * p;
    assert (r + a * d + c) * p == r * p + (a * d) * p + c * p;
    assert (lx + a * p) * d == lx * d + (a * d) * p;
  }

  lemma RowArith(lb: int, la: int, lowb: int, lowa: int, hb: int, ha: int, lr: int, cp: int, cp': int,
                 p: int, ad: int)
    requires lowa == lowb && cp == cp'
    requires lb == lowb + p * hb && la == lowa + p * ha
    requires ha == lr + cp && lr + cp' == hb + ad
    ensures la == lb + ad * p
  {
    assert p * ha == p * hb + p * ad;
  }

  lemma ScaleArith(a: nat, v': nat, v: nat, d: nat, p: nat, p': nat)
    requires v' == v + d * p && p == p'
    ensures a * v' == a * v + (a * d) * p'
  {
    assert a * (d * p) == (a * d) * p;
  }

  /** mpn_set_str: the limbs of the number whose base-`base` digits, most significant
      first, are `ds`. GMP requires at least one digit, every digit below the base,
      and room for the result. */
  function SetStr(ds: seq<Byte>, base: nat, n: nat): (r: seq<Limb>)
    requires 2 <= base <= 256 && |ds| > 0 && AllBelow(ds, base)
    requires DigitsValue(ds, base) < Pow(LIMB_BASE, n)
    ensures |r| == n && LimbsValue(r) == DigitsValue(ds, base)
  {
    FromNatValue(DigitsValue(ds, base), n);
    FromNat(DigitsValue(ds, base), n)
  }

  /** The room mpn_get_str asks of its destination for an n-limb input: the digits
      of the largest n-limb number, plus one extra character. */
  function GetStrRoom(n: nat, base: nat): nat
    requires n > 0 && 2 <= base <= 256
  {
    PowMonotonic(LIMB_BASE, 1, n);
    |ToDigits(Pow(LIMB_BASE, n) - 1, base)| + 1
  }

  /** That room holds the digits of every n-limb number, with a character to spare. */
  lemma GetStrRoomBound(n: nat, base: nat, v: nat)
    requires n > 0 && 2 <= base <= 256 && 0 < v < Pow(LIMB_BASE, n)
    ensures |ToDigits(v, base)| < GetStrRoom(n, base)
  {
    ToDigitsLengthMonotonic(v, Pow(LIMB_BASE, n) - 1, base);
  }

  /** mpn_get_str: the base-`base` digits of {limbs, |limbs|}, most significant first,
      as raw digit values (not characters). GMP requires a non-zero top limb. */
  function GetStr(limbs: seq<Limb>, base: nat): (ds: seq<Byte>)
    requires 2 <= base <= 256 && |limbs| > 0 && limbs[|limbs| - 1] != 0
    ensures |ds| > 0 && ds[0] != 0 && AllBelow(ds, base)
    ensures DigitsValue(ds, base) == LimbsValue(limbs)
  {
    TopLimb(limbs);
    ToDigits(LimbsValue(limbs), base)
  }
}
