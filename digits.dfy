/** Digits and characters: the alphabet `BigInt` uses to read and write numbers, and
    the positional value of a digit string in a base between 2 and 256. */
module Digits {
  import opened Wrappers
  import opened Arithmetic

  /** `unsigned char`: the type of the digit buffers handed to `mpn_set_str` and
      filled by `mpn_get_str`. */
  type Byte = x: int | 0 <= x < 256

  /** The string constructor's character map: '0'..'9' -> 0..9, 'A'..'Z' -> 10..35,
      'a'..'z' -> 36..61, anything else rejected (ASCII classification). */
  function CharToDigit(c: char): (r: Option<Byte>)
    ensures r.Some? ==> r.value < 62
  {
    if '0' <= c <= '9' then Some(c as int - '0' as int)
    else if 'A' <= c <= 'Z' then Some(10 + (c as int - 'A' as int))
    else if 'a' <= c <= 'z' then Some(36 + (c as int - 'a' as int))
    else None
  }

  /** `to_string`'s digit map: '0' + d below 10, 'A' + d - 10 below 36, and 'a' + d - 36
      otherwise, narrowed to an 8-bit `char` (so digits from 195 up wrap around). */
  function DigitToChar(d: Byte): (c: char)
    ensures c as int < 256
  {
    if d < 10 then ('0' as int + d) as char
    else if d < 36 then ('A' as int + d - 10) as char
    else (('a' as int + d - 36) % 256) as char
  }

  predicate AllBelow(ds: seq<Byte>, bound: nat)
  {
    forall i | 0 <= i < |ds| :: ds[i] < bound
  }

  /** The digits of a string, or None when some character is outside the alphabet. */
  function ParseDigits(s: string): Option<seq<Byte>>
  {
    if forall i | 0 <= i < |s| :: CharToDigit(s[i]).Some?
    then Some(seq(|s|, i requires 0 <= i < |s| => CharToDigit(s[i]).value))
    else None
  }

  /** The characters `to_string` emits for a digit sequence. */
  function Render(ds: seq<Byte>): (s: string)
    ensures |s| == |ds|
  {
    seq(|ds|, i requires 0 <= i < |ds| => DigitToChar(ds[i]))
  }

  /** Positional value of `ds` in `base`, most significant digit first
      (sum of ds[i] * base^(|ds| - 1 - i)). */
  function DigitsValue(ds: seq<Byte>, base: nat): nat
  {
    if ds == [] then 0 else DigitsValue(ds[..|ds| - 1], base) * base + ds[|ds| - 1]
  }

  /** The base-`base` digits of a positive number by repeated division, most
      significant first, without leading zeros. */
  function ToDigits(v: nat, base: nat): (ds: seq<Byte>)
    requires 2 <= base <= 256 && v > 0
    ensures |ds| > 0 && ds[0] != 0 && AllBelow(ds, base)
    ensures DigitsValue(ds, base) == v
    decreases v
  {
    if v < base then
      assert [v][..0] == [];
      [v]
    else
      DivStep(v, base);
      var high := ToDigits(v / base, base);
      var low: Byte := v % base;
      DigitsValueAppend(high, low, base);
      assert (high + [low])[0] == high[0];
      assert AllBelow(high + [low], base) by {
        forall i | 0 <= i < |high| + 1 ensures (high + [low])[i] < base {
          if i < |high| { assert (high + [low])[i] == high[i]; }
        }
      }
      high + [low]
  }

  /** One step of repeated division: a number of at least `base` has a positive
      quotient, and quotient and remainder give the number back. */
  lemma DivStep(v: nat, base: nat)
    requires 2 <= base <= v
    ensures 1 <= v / base < v && v % base < base
    ensures (v / base) * base + v % base == v
  {
    var q := v / base;
    assert q * base + v % base == v;
    MulAtLeast(base, q);
    assert base * q == q + (base - 1) * q;
    MulAtLeast(base - 1, q);
  }

  /** Appending a digit at the low end multiplies the value by the base and adds it. */
  lemma DigitsValueAppend(ds: seq<Byte>, d: Byte, base: nat)
    ensures DigitsValue(ds + [d], base) == DigitsValue(ds, base) * base + d
  {
    assert (ds + [d])[..|ds|] == ds;
  }

  /** The digits `to_string` prints: a single 0 for zero, otherwise `ToDigits`. */
  function Canonical(v: nat, base: nat): (ds: seq<Byte>)
    requires 2 <= base <= 256
  {
    if v == 0 then [0] else ToDigits(v, base)
  }

  /** The string `to_string` returns for the value `v` in `base`. */
  function Format(v: nat, base: nat): string
    requires 2 <= base <= 256
  {
    Render(Canonical(v, base))
  }

  /** Both character maps invert each other on the 62-character alphabet. */
  lemma DigitCharRoundTrip(d: Byte, c: char)
    ensures d < 62 ==> CharToDigit(DigitToChar(d)) == Some(d)
    ensures CharToDigit(c).Some? ==> DigitToChar(CharToDigit(c).value) == c
  {
  }

  /** Printing digits below 62 and reading them back gives the same digits. */
  lemma RenderParse(ds: seq<Byte>)
    requires AllBelow(ds, 62)
    ensures ParseDigits(Render(ds)) == Some(ds)
  {
    var s := Render(ds);
    forall i | 0 <= i < |s| ensures CharToDigit(s[i]) == Some(ds[i]) {
      DigitCharRoundTrip(ds[i], s[i]);
    }
    var parsed := seq(|s|, i requires 0 <= i < |s| => CharToDigit(s[i]).value);
    assert parsed == ds;
  }

  /** Reading a string and printing its digits gives the same string. */
  lemma ParseRender(s: string)
    requires ParseDigits(s).Some?
    ensures Render(ParseDigits(s).value) == s
  {
    var ds := ParseDigits(s).value;
    forall i | 0 <= i < |s| ensures Render(ds)[i] == s[i] {
      DigitCharRoundTrip(ds[i], s[i]);
    }
  }

  /** A digit string without a leading zero has a positive value. */
  lemma {:induction false} LeadingDigitPositive(ds: seq<Byte>, base: nat)
    requires base >= 1 && |ds| > 0 && ds[0] != 0
    ensures DigitsValue(ds, base) > 0
  {
    if |ds| > 1 {
      var init := ds[..|ds| - 1];
      LeadingDigitPositive(init, base);
      var w := DigitsValue(init, base);
      assert w * base == w + w * (base - 1);
    }
  }

  /** Digits below `base` without a leading zero are the only such digits of their
      value: `ToDigits` gives them back. */
  lemma {:induction false} ToDigitsUnique(ds: seq<Byte>, base: nat)
    requires 2 <= base <= 256 && |ds| > 0 && ds[0] != 0 && AllBelow(ds, base)
    ensures DigitsValue(ds, base) > 0 && ToDigits(DigitsValue(ds, base), base) == ds
  {
    LeadingDigitPositive(ds, base);
    if |ds| == 1 {
      assert ds[..0] == [];
    } else {
      var init, last := ds[..|ds| - 1], ds[|ds| - 1];
      var w := DigitsValue(init, base);
      assert DigitsValue(ds, base) == w * base + last;
      ToDigitsUnique(init, base);
      DivModUnique(w, last, base);
      MulAtLeast(w, base);
      assert ds == init + [last];
    }
  }

  /** Round trip of `to_string` through the string constructor: for bases up to 62 the
      printed string reads back as digits whose value is `v`. */
  lemma FormatRoundTrip(v: nat, base: nat)
    requires 2 <= base <= 62
    ensures ParseDigits(Format(v, base)).Some?
    ensures DigitsValue(ParseDigits(Format(v, base)).value, base) == v
  {
    var ds := Canonical(v, base);
    assert AllBelow(ds, 62);
    RenderParse(ds);
  }

  /** Round trip the other way: a string of alphabet characters, each below `base`, with
      no leading '0', is printed back unchanged from its value. */
  lemma ParseFormatRoundTrip(s: string, base: nat)
    requires 2 <= base <= 256
    requires ParseDigits(s).Some? && AllBelow(ParseDigits(s).value, base)
    requires |s| > 0 && s[0] != '0'
    ensures Format(DigitsValue(ParseDigits(s).value, base), base) == s
  {
    var ds := ParseDigits(s).value;
    assert ds[0] != 0;
    LeadingDigitPositive(ds, base);
    ToDigitsUnique(ds, base);
    ParseRender(s);
  }

  /** For bases up to 243, `to_string` prints "0" exactly for the value zero. */
  lemma FormatZero(v: nat, base: nat)
    requires 2 <= base <= 243
    ensures Format(v, base) == "0" <==> v == 0
  {
    if v > 0 {
      var ds := ToDigits(v, base);
      assert Format(v, base)[0] == DigitToChar(ds[0]);
    }
  }

  /** From base 244 up the 8-bit narrowing of the digit map makes digit 243 print as
      '0', so the non-zero value 243 prints exactly like zero. */
  lemma WrappedDigitPrintsAsZero()
    ensures DigitToChar(243) == '0'
    ensures Format(243, 244) == "0" && Format(0, 244) == "0"
  {
    assert ToDigits(243, 244) == [243];
  }

  /** From base 63 up the round trip breaks: digit 62 prints as '{', which the string
      constructor rejects. */
  lemma RoundTripFailsAbove62()
    ensures DigitToChar(62) == '{'
    ensures ParseDigits(Format(62, 63)).None?
  {
    assert ToDigits(62, 63) == [62];
    assert Format(62, 63)[0] == '{';
  }

  /** A digit string without a leading zero is worth at least base^(n - 1). */
  lemma {:induction false} DigitsLowerBound(ds: seq<Byte>, base: nat)
    requires base >= 1 && |ds| > 0 && ds[0] != 0
    ensures DigitsValue(ds, base) >= Pow(base, |ds| - 1)
  {
    if |ds| == 1 {
      assert ds[..0] == [];
    } else {
      var init := ds[..|ds| - 1];
      assert init[0] == ds[0];
      DigitsLowerBound(init, base);
      MulMonotonic(Pow(base, |init| - 1), base, DigitsValue(init, base), base);
    }
  }

  /** n digits below the base are worth less than base^n. */
  lemma {:induction false} DigitsUpperBound(ds: seq<Byte>, base: nat)
    requires AllBelow(ds, base)
    ensures DigitsValue(ds, base) < Pow(base, |ds|)
  {
    if ds != [] {
      var init := ds[..|ds| - 1];
      assert AllBelow(init, base) by {
        forall i | 0 <= i < |init| ensures init[i] < base {
          assert init[i] == ds[i];
        }
      }
      DigitsUpperBound(init, base);
      assert Pow(base, |ds|) == base * Pow(base, |init|);
      NextDigitBelow(DigitsValue(init, base), base, ds[|ds| - 1], Pow(base, |init|));
    }
  }

  lemma NextDigitBelow(v: nat, base: nat, d: nat, p: nat)
    requires v < p && d < base
    ensures v * base + d < base * p
  {
    MulMonotonic(v + 1, base, p, base);
  }

  /** A larger number never has fewer digits. */
  lemma ToDigitsLengthMonotonic(v: nat, w: nat, base: nat)
    requires 2 <= base <= 256 && 0 < v <= w
    ensures |ToDigits(v, base)| <= |ToDigits(w, base)|
  {
    var n, m := |ToDigits(v, base)|, |ToDigits(w, base)|;
    DigitsLowerBound(ToDigits(v, base), base);
    DigitsUpperBound(ToDigits(w, base), base);
    if n - 1 >= m {
      PowMonotonic(base, m, n - 1);
    }
  }

  /** From base 8 up, n digits without a leading zero are worth at least 2^(3 (n - 1)). */
  lemma DigitsAtLeastPow2(ds: seq<Byte>, base: nat)
    requires 8 <= base && |ds| > 0 && ds[0] != 0
    ensures DigitsValue(ds, base) >= Pow(2, 3 * (|ds| - 1))
  {
    DigitsLowerBound(ds, base);
    PowBaseMonotonic(8, base, |ds| - 1);
    PowPow(2, 3, |ds| - 1);
    assert Pow(2, 3) == 8;
  }
}
