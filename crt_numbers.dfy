// The number conversions of the portable C runtime layer: FXSYS_StrToInt
// (behind FXSYS_atoi, FXSYS_atoui, FXSYS_wtoi, FXSYS_atoi64, FXSYS_wtoi64) and
// FXSYS_IntToStr (behind FXSYS_itoa and FXSYS_i64toa).
//
// A C string is the sequence of its code units before the terminating NUL; a
// narrow unit is a byte and a wide unit a 16-bit value.  A string that may be
// a null pointer is an Option.  An output buffer is an array, written in place.

module CrtNumbers {
  import opened Common

  const Int32Max: nat := 0x7FFF_FFFF
  const UInt32Max: nat := 0xFFFF_FFFF
  const Int64Max: nat := 0x7FFF_FFFF_FFFF_FFFF
  const Int32Min: int := -0x8000_0000
  const Int64Min: int := -0x8000_0000_0000_0000

  /** `-` and `0`, as code units. */
  const Minus: nat := 0x2D
  const Zero: nat := 0x30

  predicate IsDigit(c: int) {
    Zero <= c <= Zero + 9
  }

  predicate AllDigits(ds: seq<int>) {
    forall i :: 0 <= i < |ds| ==> IsDigit(ds[i])
  }

  /** The decimal value of a digit string, read left to right. */
  function DecVal(ds: seq<int>): (v: nat)
    requires AllDigits(ds)
  {
    if ds == [] then 0 else DecVal(ds[..|ds| - 1]) * 10 + (ds[|ds| - 1] - Zero)
  }

  /** The leading run of decimal digits. */
  function DigitRun(s: seq<int>): (r: seq<int>)
    ensures |r| <= |s| && r == s[..|r|] && AllDigits(r)
    ensures |r| == |s| || !IsDigit(s[|r|])
  {
    if s == [] || !IsDigit(s[0]) then []
    else
      var rest := DigitRun(s[1..]);
      assert [s[0]] + rest == s[..|rest| + 1];
      [s[0]] + rest
  }

  /** The value of the longest prefix of `run` that does not exceed `max`. */
  function Saturated(run: seq<int>, max: nat): (v: nat)
    requires AllDigits(run)
    ensures v <= max
  {
    if DecVal(run) <= max then DecVal(run) else Saturated(run[..|run| - 1], max)
  }

  /**
   * What FXSYS_StrToInt returns: 0 for a null string; otherwise an optional
   * `-` (for a signed type only), then the leading digits, read for as long
   * as the value stays within `max`, negated after a `-`.
   */
  function StrToIntSpec(str: Option<seq<int>>, signed: bool, max: nat): (r: int)
    ensures -(max as int) <= r <= max
    ensures !signed ==> 0 <= r
  {
    if str.None? then 0
    else
      var s := str.value;
      var neg := signed && |s| > 0 && s[0] == Minus;
      var v := Saturated(DigitRun(if neg then s[1..] else s), max);
      if neg then -(v as int) else v
  }

  lemma DecValSnoc(ds: seq<int>, i: nat)
    requires AllDigits(ds) && i < |ds|
    ensures DecVal(ds[..i + 1]) == DecVal(ds[..i]) * 10 + (ds[i] - Zero)
  {
    assert ds[..i + 1][..i] == ds[..i];
  }

  /** A longer digit prefix never has a smaller value. */
  lemma {:induction false} DecValMonotone(ds: seq<int>, i: nat, j: nat)
    requires AllDigits(ds) && i <= j <= |ds|
    ensures DecVal(ds[..i]) <= DecVal(ds[..j])
    decreases j - i
  {
    if i < j {
      DecValMonotone(ds, i, j - 1);
      DecValSnoc(ds, j - 1);
    }
  }

  /** Where the digits stop fitting, the saturated value is the prefix before that digit. */
  lemma {:induction false} SaturatedAt(run: seq<int>, j: nat, max: nat)
    requires AllDigits(run) && j < |run|
    requires DecVal(run[..j]) <= max < DecVal(run[..j + 1])
    ensures Saturated(run, max) == DecVal(run[..j])
    decreases |run|
  {
    DecValMonotone(run, j + 1, |run|);
    assert run[..|run|] == run;
    var init := run[..|run| - 1];
    if j + 1 < |run| {
      assert init[..j] == run[..j] && init[..j + 1] == run[..j + 1];
      SaturatedAt(init, j, max);
    } else {
      assert init == run[..j];
    }
  }

  /** The source's test before a digit: it fails exactly when the digit would pass `max`. */
  lemma OverflowTest(num: nat, val: nat, max: nat)
    requires val < 10
    ensures num > (max - val) / 10 <==> num * 10 + val > max
  {
  }

  /** FXSYS_StrToInt: the loop of the source, with its overflow test before each digit. */
  method StrToInt(str: Option<seq<int>>, signed: bool, max: nat) returns (r: int)
    ensures r == StrToIntSpec(str, signed, max)
  {
    if str.None? {
      return 0;
    }
    var s := str.value;
    var neg := signed && |s| > 0 && s[0] == Minus;
    var start := if neg then 1 else 0;
    ghost var body := s[start..];
    ghost var run := DigitRun(body);
    var i := start;
    var num := 0;
    while i < |s| && IsDigit(s[i])
      invariant start <= i <= |s| && i - start <= |run|
      invariant num == DecVal(run[..i - start]) <= max
      decreases |s| - i
    {
      assert s[i] == body[i - start];
      assert i - start < |run| && s[i] == run[i - start];
      var val := s[i] - Zero;
      DecValSnoc(run, i - start);
      OverflowTest(num, val, max);
      if num > (max - val) / 10 {
        SaturatedAt(run, i - start, max);
        break;
      }
      num := num * 10 + val;
      i := i + 1;
    }
    if i - start == |run| {
      assert run[..|run|] == run;
    }
    assert body == if neg then s[1..] else s;
    return if neg then -num else num;
  }

  /** FXSYS_atoi: a signed 32-bit value from a narrow string. */
  method Atoi(str: Option<seq<Byte>>) returns (r: int)
    ensures r == StrToIntSpec(str, true, Int32Max)
  {
    r := StrToInt(str, true, Int32Max);
  }

  /** FXSYS_atoui: an unsigned 32-bit value; a `-` is not a digit and gives 0. */
  method Atoui(str: Option<seq<Byte>>) returns (r: int)
    ensures r == StrToIntSpec(str, false, UInt32Max)
  {
    r := StrToInt(str, false, UInt32Max);
  }

  /** FXSYS_wtoi: a signed 32-bit value from a wide string. */
  method Wtoi(str: Option<seq<U16>>) returns (r: int)
    ensures r == StrToIntSpec(str, true, Int32Max)
  {
    r := StrToInt(str, true, Int32Max);
  }

  /** FXSYS_atoi64: a signed 64-bit value from a narrow string. */
  method Atoi64(str: Option<seq<Byte>>) returns (r: int)
    ensures r == StrToIntSpec(str, true, Int64Max)
  {
    r := StrToInt(str, true, Int64Max);
  }

  /** FXSYS_wtoi64: a signed 64-bit value from a wide string. */
  method Wtoi64(str: Option<seq<U16>>) returns (r: int)
    ensures r == StrToIntSpec(str, true, Int64Max)
  {
    r := StrToInt(str, true, Int64Max);
  }

  // ---------------------------------------------------------------------------
  // FXSYS_IntToStr

  /** The digit character of `d`, from "0123456789abcdef". */
  function DigitChar(d: nat): (c: Byte)
    requires d < 16
    ensures d < 10 ==> IsDigit(c) && c - Zero == d
  {
    if d < 10 then Zero + d else 0x61 + (d - 10)
  }

  lemma MulNonneg(a: int, b: int)
    requires 0 <= a && 0 <= b
    ensures 0 <= a * b
  {
  }

  /** `n` with its last digit in base `radix` dropped. */
  function Quot(n: nat, radix: nat): (q: nat)
    requires radix >= 2
    ensures n > 0 ==> q < n
  {
    var q := n / radix;
    assert n == q * radix + n % radix && 0 <= n % radix;
    MulNonneg(q, radix - 2);
    assert q * radix == q * (radix - 2) + 2 * q;
    q
  }

  /** The digits of `n` in base `radix`, most significant first; none for 0. */
  function DigitsOf(n: nat, radix: nat): (ds: seq<Byte>)
    requires 2 <= radix <= 16
    ensures n > 0 ==> |ds| > 0
  {
    if n == 0 then [] else DigitsOf(Quot(n, radix), radix) + [DigitChar(n % radix)]
  }

  /**
   * The text FXSYS_IntToStr writes before the NUL: nothing for a radix
   * outside 2..16, "0" for zero, otherwise an optional `-` and the digits of
   * the magnitude.
   */
  function Render(value: int, radix: int): (s: seq<Byte>)
  {
    if radix < 2 || radix > 16 then []
    else if value == 0 then [Zero]
    else (if value < 0 then [Minus] else []) + DigitsOf(if value < 0 then -value else value, radix)
  }

  /** FXSYS_IntToStr: write the text of `value` and a NUL at the start of `str`. */
  method IntToStr(value: int, str: array<Byte>, radix: int)
    requires str.Length >= |Render(value, radix)| + 1
    modifies str
    ensures str[..|Render(value, radix)| + 1] == Render(value, radix) + [0]
    ensures str[|Render(value, radix)| + 1..] == old(str[|Render(value, radix)| + 1..])
  {
    if radix < 2 || radix > 16 {
      str[0] := 0;
      return;
    }
    if value == 0 {
      str[0] := Zero;
      str[1] := 0;
      return;
    }
    var i := 0;
    var uvalue: nat;
    if value < 0 {
      str[i] := Minus;
      i := i + 1;
      uvalue := -(value + 1) + 1;
    } else {
      uvalue := value;
    }
    ghost var text := DigitsOf(uvalue, radix);
    ghost var sign := str[..i];
    assert Render(value, radix) == sign + text;
    var digits := CountDigits(uvalue, radix);
    WriteDigits(str, i, uvalue, radix, digits);
    assert str[..i + digits + 1] == str[..i] + str[i..i + digits + 1];
  }

  /** The first loop of FXSYS_IntToStr: how many digits `uvalue` has. */
  method CountDigits(uvalue: nat, radix: nat) returns (digits: nat)
    requires 2 <= radix <= 16 && uvalue > 0
    ensures digits == |DigitsOf(uvalue, radix)|
  {
    digits := 1;
    var order := Quot(uvalue, radix);
    while order > 0
      invariant digits + |DigitsOf(order, radix)| == |DigitsOf(uvalue, radix)|
      decreases order
    {
      digits := digits + 1;
      order := Quot(order, radix);
    }
  }

  /**
   * The second loop of FXSYS_IntToStr: the digits of `uvalue` from the last
   * one back, at `i`, then the NUL.
   */
  method WriteDigits(str: array<Byte>, i: nat, uvalue: nat, radix: nat, digits: nat)
    requires 2 <= radix <= 16 && digits == |DigitsOf(uvalue, radix)|
    requires i + digits < str.Length
    modifies str
    ensures str[..i] == old(str[..i])
    ensures str[i..i + digits + 1] == DigitsOf(uvalue, radix) + [0]
    ensures str[i + digits + 1..] == old(str[i + digits + 1..])
  {
    ghost var text := DigitsOf(uvalue, radix);
    var u: nat := uvalue;
    var d := digits - 1;
    while d > -1
      invariant -1 <= d < digits && DigitsOf(u, radix) == text[..d + 1]
      invariant str[..i] == old(str[..i]) && str[i + d + 1..i + digits] == text[d + 1..]
      invariant str[i + digits..] == old(str[i + digits..])
      decreases d
    {
      ghost var rest := DigitsOf(Quot(u, radix), radix);
      assert u != 0 && DigitsOf(u, radix) == rest + [DigitChar(u % radix)];
      str[d + i] := DigitChar(u % radix);
      assert text[..d + 1] == text[..d] + [text[d]];
      u := Quot(u, radix);
      d := d - 1;
    }
    str[digits + i] := 0;
    assert str[i..i + digits + 1] == text + [0];
  }

  /** FXSYS_itoa: FXSYS_IntToStr on a 32-bit value. */
  method Itoa(value: int, str: array<Byte>, radix: int)
    requires Int32Min <= value <= Int32Max
    requires str.Length >= |Render(value, radix)| + 1
    modifies str
    ensures str[..|Render(value, radix)| + 1] == Render(value, radix) + [0]
    ensures str[|Render(value, radix)| + 1..] == old(str[|Render(value, radix)| + 1..])
  {
    IntToStr(value, str, radix);
  }

  /** FXSYS_i64toa: FXSYS_IntToStr on a 64-bit value. */
  method I64toa(value: int, str: array<Byte>, radix: int)
    requires Int64Min <= value <= Int64Max
    requires str.Length >= |Render(value, radix)| + 1
    modifies str
    ensures str[..|Render(value, radix)| + 1] == Render(value, radix) + [0]
    ensures str[|Render(value, radix)| + 1..] == old(str[|Render(value, radix)| + 1..])
  {
    IntToStr(value, str, radix);
  }

  // ---------------------------------------------------------------------------
  // Reading back what was written

  /** The decimal digits of `n` read back as a number give `n`. */
  lemma {:induction false} DecValDigitsOf(n: nat)
    ensures AllDigits(DigitsOf(n, 10)) && DecVal(DigitsOf(n, 10)) == n
  {
    if n > 0 {
      var q := Quot(n, 10);
      DecValDigitsOf(q);
      var ds := DigitsOf(n, 10);
      assert ds == DigitsOf(q, 10) + [DigitChar(n % 10)];
      assert ds[..|ds| - 1] == DigitsOf(q, 10);
    }
  }

  /** A string of digits only is its own leading run. */
  lemma {:induction false} DigitRunAll(ds: seq<int>)
    requires AllDigits(ds)
    ensures DigitRun(ds) == ds
  {
    if ds != [] {
      DigitRunAll(ds[1..]);
    }
  }

  /** The magnitude of `v`. */
  function Magnitude(v: int): (m: nat)
    ensures m == v || m == -v
  {
    if v < 0 then -v else v
  }

  /** The base-10 text of a non-zero value: its sign, then a digit run worth its magnitude. */
  lemma ReadDecimal(v: int)
    requires v != 0
    ensures var run := DigitsOf(Magnitude(v), 10);
      AllDigits(run) && DecVal(run) == Magnitude(v)
      && Render(v, 10) == (if v < 0 then [Minus] else []) + run
      && DigitRun(run) == run
  {
    DecValDigitsOf(Magnitude(v));
    DigitRunAll(DigitsOf(Magnitude(v), 10));
  }

  /**
   * FXSYS_atoi and the other readers take back what FXSYS_IntToStr wrote in
   * base 10, for every value whose magnitude fits the type's maximum.
   */
  lemma {:induction false} ReadBackWritten(v: int, signed: bool, max: nat)
    requires -(max as int) <= v <= max
    requires signed || 0 <= v
    ensures StrToIntSpec(Some(Render(v, 10)), signed, max) == v
  {
    if v == 0 {
      assert Render(v, 10) == [Zero];
      assert DigitRun([Zero]) == [Zero];
      assert DecVal([Zero]) == 0;
    } else {
      ReadDecimal(v);
      var s := Render(v, 10);
      if v < 0 {
        assert s[0] == Minus && s[1..] == DigitsOf(-v, 10);
      } else {
        assert s == DigitsOf(v, 10) && IsDigit(s[0]);
      }
    }
  }

  /**
   * The most negative value is not read back: its magnitude is one more than
   * the maximum, so the reader stops before the last digit (for a 32-bit int,
   * "-2147483648" reads as -214748364).
   */
  lemma MostNegativeTruncated(max: nat)
    requires max >= 9
    ensures StrToIntSpec(Some(Render(-(max as int) - 1, 10)), true, max) == -((max + 1) / 10)
  {
    var v := -(max as int) - 1;
    ReadDecimal(v);
    var run := DigitsOf(max + 1, 10);
    var q := Quot(max + 1, 10);
    DecValDigitsOf(q);
    assert run == DigitsOf(q, 10) + [DigitChar((max + 1) % 10)];
    assert run[..|run| - 1] == DigitsOf(q, 10);
    assert run[..|run|] == run;
    SaturatedAt(run, |run| - 1, max);
    var s := Render(v, 10);
    assert s[0] == Minus && s[1..] == run;
  }

  /** The 32-bit instance: FXSYS_atoi of the text of INT_MIN. */
  lemma Int32MinTruncated()
    ensures StrToIntSpec(Some(Render(Int32Min, 10)), true, Int32Max) == -214748364
  {
    MostNegativeTruncated(Int32Max);
  }

  /**
   * The reader as evidently intended: a negative number may reach one past
   * the maximum, as the type's minimum does.
   */
  function StrToIntIntended(str: Option<seq<int>>, signed: bool, max: nat): (r: int)
    ensures -(max as int) - (if signed then 1 else 0) <= r <= max
  {
    if str.None? then 0
    else
      var s := str.value;
      var neg := signed && |s| > 0 && s[0] == Minus;
      var run := DigitRun(if neg then s[1..] else s);
      if neg then -(Saturated(run, max + 1) as int) else Saturated(run, max)
  }

  /** The intended reader takes back every value of the type, the minimum included. */
  lemma {:induction false} IntendedReadsBackAll(v: int, signed: bool, max: nat)
    requires (if signed then -(max as int) - 1 else 0) <= v <= max
    ensures StrToIntIntended(Some(Render(v, 10)), signed, max) == v
  {
    if v == 0 {
      assert Render(v, 10) == [Zero];
      assert DigitRun([Zero]) == [Zero];
      assert DecVal([Zero]) == 0;
    } else {
      ReadDecimal(v);
      var s := Render(v, 10);
      if v < 0 {
        assert s[0] == Minus && s[1..] == DigitsOf(-v, 10);
      } else {
        assert s == DigitsOf(v, 10) && IsDigit(s[0]);
      }
    }
  }
}
