/** `BigInt<Bits>`: a fixed-width unsigned integer stored as `NumLimbs(Bits)` limbs,
    least significant first, with construction from a machine word or a digit string,
    clearing, printing in a base from 2 to 256, and addition, subtraction and
    multiplication of operands of possibly different widths through the `mpn` routines. */
module BigInteger {
  import opened Wrappers
  import opened Arithmetic
  import opened Limbs
  import opened Digits
  import Mpn

  /** The two `std::invalid_argument` exceptions the class throws. */
  datatype Error = InvalidBase | InvalidCharacter

  predicate ValidBase(base: int)
  {
    2 <= base <= 256
  }

  /** What `mpn_set_str` needs from the string constructor's call once the base and
      the characters have been accepted: at least one digit, every digit below the
      base, and a value that fits the destination's limbs. */
  predicate SetStrDefined(bits: nat, str: string, base: int)
  {
    ValidBase(base) && ParseDigits(str).Some? ==>
      |str| > 0 && AllBelow(ParseDigits(str).value, base)
      && DigitsValue(ParseDigits(str).value, base) < Pow(LIMB_BASE, NumLimbs(bits))
  }

  /** The string constructor's character loop: each character is mapped into the
      digit buffer in turn, and the first character outside the alphabet stops it. */
  method MapDigits(str: string) returns (r: Option<seq<Byte>>)
    ensures r == ParseDigits(str)
  {
    var bytes := new Byte[|str|];
    for i := 0 to |str|
      invariant forall k | 0 <= k < i :: CharToDigit(str[k]).Some? && bytes[k] == CharToDigit(str[k]).value
    {
      var d := CharToDigit(str[i]);
      if d.None? {
        return None;
      }
      bytes[i] := d.value;
    }
    assert bytes[..] == seq(|str|, i requires 0 <= i < |str| => CharToDigit(str[i]).value);
    return Some(bytes[..]);
  }

  /** `NumLimbs` grows with the width. */
  lemma NumLimbsMonotonic(a: nat, b: nat)
    requires a <= b
    ensures NumLimbs(a) <= NumLimbs(b)
  {
  }

  /** The result of `add` and `sub` has as many limbs as the wider operand. */
  lemma NumLimbsMax(a: nat, b: nat)
    ensures NumLimbs(Max(a, b)) == Max(NumLimbs(a), NumLimbs(b))
  {
    if a <= b {
      NumLimbsMonotonic(a, b);
    } else {
      NumLimbsMonotonic(b, a);
    }
  }

  /** The room `mul` has: the result's `NumLimbs(a + b)` limbs never exceed the
      n1 + n2 limbs `mpn_mul` writes, they match when either width is a whole number
      of limbs, and they fall short for two 32-bit operands. */
  lemma MulResultRoom(a: nat, b: nat)
    ensures NumLimbs(a + b) <= NumLimbs(a) + NumLimbs(b)
    ensures a % LIMB_BITS == 0 || b % LIMB_BITS == 0 ==> NumLimbs(a + b) == NumLimbs(a) + NumLimbs(b)
    ensures NumLimbs(32 + 32) < NumLimbs(32) + NumLimbs(32)
  {
  }

  /** A value below m with a carry out of 0 or 1 is the remainder of the full sum, and
      the carry is set exactly when the sum reaches m. */
  lemma CarrySplit(v: nat, c: nat, x: nat, m: nat)
    requires v < m && c <= 1 && v + c * m == x
    ensures v == x % m && (c == 1 <==> x >= m)
  {
    DivModUnique(c, v, m);
  }

  /** `to_string`'s character loop: each raw digit is mapped to its character in turn. */
  method RenderDigits(raw: array<Byte>, count: nat) returns (s: string)
    requires count <= raw.Length
    ensures s == Render(raw[..count])
  {
    s := "";
    for i := 0 to count
      invariant s == Render(raw[..i])
    {
      assert raw[..i + 1] == raw[..i] + [raw[i]];
      s := s + [DigitToChar(raw[i])];
    }
  }

  /** From base 8 up the scratch buffer always has the room `mpn_get_str` asks for: the
      largest k-limb number is below 2^(64 k), and n digits without a leading zero in a
      base of at least 8 are worth at least 2^(3 (n - 1)), so n <= 64 k / 3 + 1. */
  lemma ScratchSuffices(k: nat, base: nat)
    requires 8 <= base <= 256 && k > 0
    ensures Mpn.GetStrRoom(k, base) <= k * LIMB_BITS / 3 + 10
  {
    PowMonotonic(LIMB_BASE, 1, k);
    var w := Pow(LIMB_BASE, k) - 1;
    var ds := ToDigits(w, base);
    LimbBaseIsPow();
    PowPow(2, LIMB_BITS, k);
    DigitsAtLeastPow2(ds, base);
    PowExponentBelow(3 * (|ds| - 1), k * LIMB_BITS);
    ThirdPlusTen(|ds|, k * LIMB_BITS);
  }

  lemma ThirdPlusTen(n: nat, m: nat)
    requires n > 0 && 3 * (n - 1) < m
    ensures n + 1 <= m / 3 + 10
  {
  }

  /** In base 2 the room `mpn_get_str` asks for, 64 k + 1 characters, always exceeds
      the buffer of 64 k / 3 + 10. */
  lemma ScratchShortOfRoomInBase2(k: nat)
    requires k > 0
    ensures Mpn.GetStrRoom(k, 2) > k * LIMB_BITS / 3 + 10
  {
    PowMonotonic(LIMB_BASE, 1, k);
    var w := Pow(LIMB_BASE, k) - 1;
    var ds := ToDigits(w, 2);
    LimbBaseIsPow();
    PowPow(2, LIMB_BITS, k);
    DigitsUpperBound(ds, 2);
    if |ds| < k * LIMB_BITS {
      PowMonotonic(2, |ds|, k * LIMB_BITS - 1);
      assert Pow(2, k * LIMB_BITS) == 2 * Pow(2, k * LIMB_BITS - 1);
    }
  }

  /** Below base 8 it can be too small: every single-limb value from 2^32 up has more
      than 32 binary digits, while the buffer for one limb has 64 / 3 + 10 = 31 places. */
  lemma ScratchTooSmallInBase2(v: Limb)
    requires v >= 0x1_0000_0000
    ensures |ToDigits(LimbsValue([v]), 2)| > SignificantLimbs([v]) * LIMB_BITS / 3 + 10
  {
    assert LimbsValue([v]) == v by {
      assert [v][1..] == [];
    }
    SignificantLimbsExact([v], 1);
    PowPow(2, 8, 4);
    assert Pow(2, 8) == 256 && Pow(256, 4) == 0x1_0000_0000;
    hide ToDigits, LimbsValue, SignificantLimbs, Pow;
    var ds := ToDigits(v, 2);
    DigitsUpperBound(ds, 2);
    PowExponentBelow(32, |ds|);
  }

  /** The values the unit tests expect: 255 prints as "FF" in base 16, zero prints as
      "0" in bases 10 and 16, and "1ABCDEF" read in base 16 prints back unchanged. */
  lemma TestVectors()
    ensures Format(255, 16) == "FF"
    ensures Format(0, 10) == "0" && Format(0, 16) == "0"
    ensures ParseDigits("1ABCDEF").Some?
    ensures Format(DigitsValue(ParseDigits("1ABCDEF").value, 16), 16) == "1ABCDEF"
  {
    assert ToDigits(255, 16) == [15, 15] by {
      assert ToDigits(15, 16) == [15];
    }
    assert Render([15, 15]) == "FF";
    assert Render([0]) == "0";
    var ds: seq<Byte> := [1, 10, 11, 12, 13, 14, 15];
    assert Render(ds) == "1ABCDEF";
    RenderParse(ds);
    ParseFormatRoundTrip("1ABCDEF", 16);
  }

  /** The value 123456789, stored from a machine word, prints in base 10 as
      "123456789". */
  lemma WordTestVector()
    ensures Format(123456789, 10) == "123456789"
  {
    var ds: seq<Byte> := [1, 2, 3, 4, 5, 6, 7, 8, 9];
    NineDigits();
    hide DigitsValue, ToDigits;
    ToDigitsUnique(ds, 10);
    assert Render(ds) == "123456789";
  }

  lemma NineDigits()
    ensures DigitsValue([1, 2, 3, 4, 5, 6, 7, 8, 9], 10) == 123456789
  {
    DigitsValueAppend([], 1, 10);
    assert [] + [1] == [1];
    DigitsValueAppend([1], 2, 10);
    assert [1] + [2] == [1, 2];
    DigitsValueAppend([1, 2], 3, 10);
    assert [1, 2] + [3] == [1, 2, 3];
    DigitsValueAppend([1, 2, 3], 4, 10);
    assert [1, 2, 3] + [4] == [1, 2, 3, 4];
    DigitsValueAppend([1, 2, 3, 4], 5, 10);
    assert [1, 2, 3, 4] + [5] == [1, 2, 3, 4, 5];
    DigitsValueAppend([1, 2, 3, 4, 5], 6, 10);
    assert [1, 2, 3, 4, 5] + [6] == [1, 2, 3, 4, 5, 6];
    DigitsValueAppend([1, 2, 3, 4, 5, 6], 7, 10);
    assert [1, 2, 3, 4, 5, 6] + [7] == [1, 2, 3, 4, 5, 6, 7];
    DigitsValueAppend([1, 2, 3, 4, 5, 6, 7], 8, 10);
    assert [1, 2, 3, 4, 5, 6, 7] + [8] == [1, 2, 3, 4, 5, 6, 7, 8];
    DigitsValueAppend([1, 2, 3, 4, 5, 6, 7, 8], 9, 10);
    assert [1, 2, 3, 4, 5, 6, 7, 8] + [9] == [1, 2, 3, 4, 5, 6, 7, 8, 9];
  }

  /** The decimal test vector: "123456789" read in base 10 prints back unchanged. */
  lemma DecimalTestVector()
    ensures ParseDigits("123456789").Some?
    ensures Format(DigitsValue(ParseDigits("123456789").value, 10), 10) == "123456789"
  {
    var ds: seq<Byte> := [1, 2, 3, 4, 5, 6, 7, 8, 9];
    assert Render(ds) == "123456789";
    RenderParse(ds);
    ParseFormatRoundTrip("123456789", 10);
  }

  class BigInt {
    /** The template parameter `Bits`. */
    const bits: nat
    /** `limbs`, a `std::array` of `NumLimbs` limbs, least significant first. */
    const limbs: array<Limb>

    ghost predicate Valid()
      reads this
    {
      limbs.Length == NumLimbs(bits)
    }

    /** The number the limbs stand for. */
    function Value(): nat
      reads this, limbs
    {
      LimbsValue(limbs[..])
    }

    /** `BigInt()`: every limb is zero. */
    constructor (bits: nat)
      ensures this.bits == bits && Valid() && fresh(limbs)
      ensures forall i | 0 <= i < limbs.Length :: limbs[i] == 0
      ensures Value() == 0
    {
      this.bits := bits;
      limbs := new Limb[NumLimbs(bits)];
      new;
      Clear();
    }

    /** `BigInt(uint64_t value)`: the low limb holds `value`, the others are zero. The
        value is not reduced to `bits` bits. */
    constructor FromU64(bits: nat, value: Limb)
      requires NumLimbs(bits) > 0
      ensures this.bits == bits && Valid() && fresh(limbs)
      ensures limbs[0] == value && forall i | 1 <= i < limbs.Length :: limbs[i] == 0
      ensures Value() == value
    {
      this.bits := bits;
      limbs := new Limb[NumLimbs(bits)];
      new;
      Clear();
      limbs[0] := value;
      ValueZero(limbs[..][1..]);
    }

    /** `BigInt(str, base)`: rejects the base first, then any character outside the
        alphabet; otherwise the limbs hold the value of the mapped digits in `base`. */
    static method FromString(bits: nat, str: string, base: int) returns (r: Result<BigInt, Error>)
      requires SetStrDefined(bits, str, base)
      ensures !ValidBase(base) ==> r == Err(InvalidBase)
      ensures ValidBase(base) && ParseDigits(str).None? ==> r == Err(InvalidCharacter)
      ensures ValidBase(base) && ParseDigits(str).Some? ==>
                r.Ok? && fresh(r.value) && fresh(r.value.limbs) && r.value.bits == bits && r.value.Valid()
                && r.value.Value() == DigitsValue(ParseDigits(str).value, base)
    {
      if base < 2 || base > 256 {
        return Err(InvalidBase);
      }
      var digits := MapDigits(str);
      if digits.None? {
        return Err(InvalidCharacter);
      }
      var big := new BigInt(bits);
      var written := Mpn.SetStr(digits.value, base, NumLimbs(bits));
      forall i | 0 <= i < big.limbs.Length {
        big.limbs[i] := written[i];
      }
      assert big.limbs[..] == written;
      return Ok(big);
    }

    /** `clear()`: every limb becomes zero. */
    method Clear()
      modifies limbs
      ensures forall i | 0 <= i < limbs.Length :: limbs[i] == 0
      ensures Value() == 0
    {
      for i := 0 to limbs.Length
        invariant forall k | 0 <= k < i :: limbs[k] == 0
      {
        limbs[i] := 0;
      }
      ValueZero(limbs[..]);
    }

    /** `to_string`'s scratch buffer of `actual_limbs * 64 / 3 + 10` digits has the room
        `mpn_get_str` asks for when it is called, that is when some limb is non-zero. */
    ghost predicate ScratchFits(base: int)
      reads this, limbs
    {
      ValidBase(base) && SignificantLimbs(limbs[..]) > 0 ==>
        Mpn.GetStrRoom(SignificantLimbs(limbs[..]), base)
        <= SignificantLimbs(limbs[..]) * LIMB_BITS / 3 + 10
    }

    /** `to_string(base)`: rejects the base, prints "0" when every limb is zero, and
        otherwise the digits of the value without leading zeros, mapped to characters.
        The object's limbs are left as they are: `mpn_get_str` works on a copy. */
    method ToString(base: int) returns (r: Result<string, Error>)
      requires ScratchFits(base)
      ensures !ValidBase(base) ==> r == Err(InvalidBase)
      ensures ValidBase(base) ==> r == Ok(Format(Value(), base))
      ensures 2 <= base <= 243 ==> (r == Ok("0") <==> Value() == 0)
    {
      if base < 2 || base > 256 {
        return Err(InvalidBase);
      }
      hide LimbsValue, ToDigits;
      ghost var s, v := limbs[..], Value();
      var actual := SignificantCount();
      TrimmedValue(s, actual);
      if actual == 0 {
        assert Render([0]) == "0";
        return Ok("0");
      }
      var temp := new Limb[actual];
      forall i | 0 <= i < actual {
        temp[i] := limbs[i];
      }
      assert temp[..] == s[..actual];
      var raw := new Byte[actual * LIMB_BITS / 3 + 10];
      var ds := Mpn.GetStr(temp[..], base);
      assert DigitsValue(ds, base) == v;
      ToDigitsUnique(ds, base);
      ValueBound(s[..actual]);
      Mpn.GetStrRoomBound(actual, base, v);
      forall i | 0 <= i < |ds| {
        raw[i] := ds[i];
      }
      assert raw[..|ds|] == ds;
      var digits := RenderDigits(raw, |ds|);
      assert limbs[..] == s;
      r := Ok(digits);
      if base <= 243 {
        FormatZero(v, base);
      }
    }

    /** `to_string`'s trimming loop: the number of limbs left once the high zero limbs
        are dropped. */
    method SignificantCount() returns (actual: nat)
      ensures actual == SignificantLimbs(limbs[..])
    {
      actual := limbs.Length;
      while actual > 0 && limbs[actual - 1] == 0
        invariant actual <= limbs.Length
        invariant forall i | actual <= i < limbs.Length :: limbs[i] == 0
      {
        actual := actual - 1;
      }
      SignificantLimbsExact(limbs[..], actual);
    }

    /** `add(other, carry)`: the result has the wider operand's limbs and holds the sum
        modulo 2^(64 R); the carry says the sum did not fit. The wider operand is always
        passed first to `mpn_add`. */
    method Add(other: BigInt) returns (result: BigInt, carry: bool)
      requires Valid() && other.Valid()
      ensures fresh(result) && fresh(result.limbs) && result.Valid()
      ensures result.bits == Max(bits, other.bits)
      ensures result.limbs.Length == Max(limbs.Length, other.limbs.Length)
      ensures result.Value() + (if carry then 1 else 0) * Pow(LIMB_BASE, result.limbs.Length)
              == Value() + other.Value()
      ensures result.Value() == (Value() + other.Value()) % Pow(LIMB_BASE, result.limbs.Length)
      ensures carry <==> Value() + other.Value() >= Pow(LIMB_BASE, result.limbs.Length)
    {
      hide LimbsValue;
      result := new BigInt(Max(bits, other.bits));
      result.Clear();
      NumLimbsMax(bits, other.bits);
      var c: Limb;
      if limbs.Length >= other.limbs.Length {
        c := Mpn.Add(result.limbs, limbs, limbs.Length, other.limbs, other.limbs.Length);
      } else {
        c := Mpn.Add(result.limbs, other.limbs, other.limbs.Length, limbs, limbs.Length);
      }
      assert limbs[..limbs.Length] == limbs[..] && other.limbs[..other.limbs.Length] == other.limbs[..];
      assert result.limbs[..result.limbs.Length] == result.limbs[..];
      carry := c != 0;
      ValueBound(result.limbs[..]);
      CarrySplit(result.Value(), c, Value() + other.Value(), Pow(LIMB_BASE, result.limbs.Length));
    }

    /** `sub(other, carry)`: when this operand has at least as many limbs, the result
        holds this - other modulo 2^(64 R) and the carry is the borrow, set exactly when
        other is larger. Otherwise the operands are swapped and it is other - this. */
    method Sub(other: BigInt) returns (result: BigInt, carry: bool)
      requires Valid() && other.Valid()
      ensures fresh(result) && fresh(result.limbs) && result.Valid()
      ensures result.bits == Max(bits, other.bits)
      ensures result.limbs.Length == Max(limbs.Length, other.limbs.Length)
      ensures limbs.Length >= other.limbs.Length ==>
                result.Value() == (Value() - other.Value()) % Pow(LIMB_BASE, result.limbs.Length)
                && (carry <==> Value() < other.Value())
      ensures limbs.Length < other.limbs.Length ==>
                result.Value() == (other.Value() - Value()) % Pow(LIMB_BASE, result.limbs.Length)
                && (carry <==> other.Value() < Value())
    {
      hide LimbsValue;
      result := new BigInt(Max(bits, other.bits));
      result.Clear();
      NumLimbsMax(bits, other.bits);
      var b: Limb;
      if limbs.Length >= other.limbs.Length {
        b := Mpn.Sub(result.limbs, limbs, limbs.Length, other.limbs, other.limbs.Length);
      } else {
        b := Mpn.Sub(result.limbs, other.limbs, other.limbs.Length, limbs, limbs.Length);
      }
      assert limbs[..limbs.Length] == limbs[..] && other.limbs[..other.limbs.Length] == other.limbs[..];
      assert result.limbs[..result.limbs.Length] == result.limbs[..];
      carry := b != 0;
    }

    /** `mul(other, carry)`: the result, `bits + other.bits` wide, holds the exact
        product in its first n1 + n2 limbs; the carry is `mpn_mul`'s return value, the
        top product limb, non-zero exactly when the product reaches 2^(64 (n1 + n2 - 1)).
        `mpn_mul` needs both operands to have a limb and writes n1 + n2 limbs, which the
        result must have room for. */
    method Mul(other: BigInt) returns (result: BigInt, carry: bool)
      requires Valid() && other.Valid()
      requires limbs.Length >= 1 && other.limbs.Length >= 1
      requires NumLimbs(bits + other.bits) >= limbs.Length + other.limbs.Length
      ensures fresh(result) && fresh(result.limbs) && result.Valid()
      ensures result.bits == bits + other.bits
      ensures result.Value() == Value() * other.Value()
      ensures carry <==> result.limbs[limbs.Length + other.limbs.Length - 1] != 0
      ensures carry <==> Value() * other.Value() >= Pow(LIMB_BASE, limbs.Length + other.limbs.Length - 1)
    {
      hide LimbsValue;
      result := new BigInt(bits + other.bits);
      result.Clear();
      var n := limbs.Length + other.limbs.Length;
      var top: Limb;
      if limbs.Length >= other.limbs.Length {
        top := Mpn.Mul(result.limbs, limbs, limbs.Length, other.limbs, other.limbs.Length);
      } else {
        top := Mpn.Mul(result.limbs, other.limbs, other.limbs.Length, limbs, limbs.Length);
      }
      assert limbs[..limbs.Length] == limbs[..] && other.limbs[..other.limbs.Length] == other.limbs[..];
      assert result.limbs[..][..n] == result.limbs[..n];
      TrailingZeros(result.limbs[..], n);
      TopLimb(result.limbs[..n]);
      carry := top != 0;
    }

    /** `operator+` of the earlier copy of the class: a stub that ignores both operands
        and returns the zero of this width. */
    method Plus(other: BigInt) returns (result: BigInt)
      requires other.bits == bits
      ensures fresh(result) && result.bits == bits && result.Valid()
      ensures Value() + other.Value() > 0 ==> result.Value() != Value() + other.Value()
      ensures result.Value() == 0
    {
      result := new BigInt(bits);
    }
  }
}
