/**
 * Decoding of a measurement reply: a 16-bit magnitude in bytes 7-8, a
 * signed exponent in byte 9, scaled by the power-of-ten table of tentothe
 * (fronius.c:721-729, 740-741, 799-817). Values are reals: the model does
 * not follow IEEE single-precision rounding.
 */
module Decoding {
  import opened Wire

  /** First and last measurement index polled by GetVals (fronius.c:91-92). */
  const VARSTART: int := 0x10
  const VAREND: int := 0x18

  /** Number of polled measurements per inverter. */
  const NUMVALS: nat := 9

  /** The slots of responseVal: index VARSTART + k is slot k. */
  predicate IsPolledIndex(index: int)
  {
    VARSTART <= index <= VAREND
  }

  /** Powers of ten, 10^n for n in [-3, 10] at position n + 3 (fronius.c:722-723), as written. */
  const Powers: seq<real> := [0.001, 0.01, 0.1, 1.0, 10.0, 100.0, 1000.0, 10000.0, 100000.0,
                              1000000.0, 10000000.0, 100000000.0, 1000000000.0, 10000000.0]

  /** Baseline exponent of each slot, substituted for the sentinel exponent 11 (fronius.c:111). */
  const BaselineExponent: seq<int> := [0, 3, 3, 3, -2, 0, -2, -2, 0]

  /** The exponent byte value meaning "use the baseline exponent of this slot". */
  const SENTINEL: int := 11

  /** Ten to an integer power, as a reference for the table. */
  function Pow10(n: int): real
    decreases if n < 0 then -n else n
  {
    if n == 0 then 1.0
    else if n > 0 then 10.0 * Pow10(n - 1)
    else Pow10(n + 1) / 10.0
  }

  /** tentothe: the table entry for n in [-3, 10], zero outside it. */
  function TenToThe(n: int): (r: real)
    ensures (n < -3 || n > 10) ==> r == 0.0
    ensures r >= 0.0
  {
    if n > 10 || n < -3 then 0.0 else Powers[n + 3]
  }

  /** The table is 10^n for every exponent from -3 to 9. */
  lemma TenToTheIsPow10(n: int)
    requires -3 <= n <= 9
    ensures TenToThe(n) == Pow10(n)
  {
    assert Pow10(0) == 1.0;
    assert Pow10(-1) == 0.1;
    assert Pow10(-2) == 0.01;
    assert Pow10(-3) == 0.001;
    if n > 0 {
      assert Pow10(1) == 10.0;
      assert Pow10(2) == 100.0;
      assert Pow10(3) == 1000.0;
      assert Pow10(4) == 10000.0;
      assert Pow10(5) == 100000.0;
      assert Pow10(6) == 1000000.0;
      assert Pow10(7) == 10000000.0;
      assert Pow10(8) == 100000000.0;
      assert Pow10(9) == 1000000000.0;
    }
  }

  /** The last table entry, for exponent 10, holds 10^7 and not 10^10. */
  lemma TenToTheTenIsTenToTheSeven()
    ensures TenToThe(10) == Pow10(7) && TenToThe(10) != Pow10(10)
  {
    TenToTheIsPow10(7);
    assert Pow10(8) == 100000000.0;
    assert Pow10(10) == 10000000000.0;
  }

  /** Magnitude of a reply: msg[8] + msg[7] * 256 (fronius.c:740). */
  function Magnitude(hi: byte, lo: byte): (m: nat)
    ensures m <= 65535
    ensures m / 256 == hi && m % 256 == lo
  {
    lo + hi * 256
  }

  /** The exponent byte read as a signed char (fronius.c:741). */
  function SignedByte(b: byte): (e: int)
    ensures -128 <= e <= 127
    ensures LowByte(e) == b
  {
    if b < 128 then b else b - 256
  }

  /**
   * The exponent used: the signed exponent byte, except that for a polled
   * index the sentinel 11 is replaced by the slot's baseline (fronius.c:800).
   */
  function EffectiveExponent(expByte: byte, index: int): (e: int)
    ensures IsPolledIndex(index) && SignedByte(expByte) == SENTINEL ==> e == BaselineExponent[index - VARSTART]
    ensures !(IsPolledIndex(index) && SignedByte(expByte) == SENTINEL) ==> e == SignedByte(expByte)
    ensures -128 <= e <= 127
  {
    var e := SignedByte(expByte);
    if IsPolledIndex(index) && e == SENTINEL then BaselineExponent[index - VARSTART] else e
  }

  /**
   * value = magnitude * tentothe(exp), forced to 0.0 on exponent underflow
   * (exp < -3) and on overflow (exp > 10) with a positive value
   * (fronius.c:804-817).
   */
  function DecodeValue(magnitude: nat, exp: int): (v: real)
    ensures v >= 0.0
    ensures exp < -3 || exp > 10 ==> v == 0.0
  {
    var value := magnitude as real * TenToThe(exp);
    if exp < -3 then 0.0
    else if exp > 10 && value > 0.0 then 0.0
    else value
  }

  /** Inside the table's range the decoded value is magnitude * 10^exp. */
  lemma DecodeValueScales(magnitude: nat, exp: int)
    requires -3 <= exp <= 9
    ensures DecodeValue(magnitude, exp) == magnitude as real * Pow10(exp)
  {
    TenToTheIsPow10(exp);
  }

  /**
   * The overflow test of fronius.c:812 never changes the result: above
   * exponent 10 tentothe is already 0, so the product is never positive.
   */
  lemma OverflowGuardIsRedundant(magnitude: nat, exp: int)
    requires exp > 10
    ensures magnitude as real * TenToThe(exp) == 0.0
  {
  }

  /** The value decoded from a measurement reply. */
  function ReplyValue(hi: byte, lo: byte, expByte: byte, index: int): (v: real)
    ensures v >= 0.0
  {
    DecodeValue(Magnitude(hi, lo), EffectiveExponent(expByte, index))
  }

  /**
   * The sentinel is transparent: for a polled index the exponent byte 11
   * decodes exactly as the slot's baseline exponent would.
   */
  lemma SentinelIsBaseline(hi: byte, lo: byte, index: int)
    requires IsPolledIndex(index)
    ensures ReplyValue(hi, lo, SENTINEL, index) == ReplyValue(hi, lo, LowByte(BaselineExponent[index - VARSTART]), index)
  {
    var base := BaselineExponent[index - VARSTART];
    assert -2 <= base <= 3;
    assert SignedByte(LowByte(base)) == base;
  }
}
