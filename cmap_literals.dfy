// The literal decoders of a ToUnicode CMap stream (the static helpers of
// CPDF_ToUnicodeMap): a code token to a 32-bit code, a hex token to a string
// of 16-bit units, and the base-2^16 increment used to step `bfrange`
// destinations.  Each is given as a specification function and as the loop
// the source runs, proved equal to it.

module CMapLiterals {
  import opened Common

  // ---------------------------------------------------------------------------
  // Digits

  predicate IsHexDigit(c: char) {
    '0' <= c <= '9' || 'a' <= c <= 'f' || 'A' <= c <= 'F'
  }

  predicate IsDecDigit(c: char) {
    '0' <= c <= '9'
  }

  /**
   * The value of a hex digit (FXSYS_toHexDigit); among hex digits the decimal
   * ones are exactly those below ten.  Other characters are never read as
   * digits and are given 0.
   */
  function DigitValue(c: char): (v: nat)
    ensures v < 16
    ensures IsHexDigit(c) ==> (IsDecDigit(c) <==> v < 10)
  {
    if '0' <= c <= '9' then c as int - '0' as int
    else if 'a' <= c <= 'f' then c as int - 'a' as int + 10
    else if 'A' <= c <= 'F' then c as int - 'A' as int + 10
    else 0
  }

  /** The upper-case hex digit of a value below sixteen. */
  function HexChar(d: nat): (c: char)
    requires d < 16
    ensures IsHexDigit(c) && DigitValue(c) == d
  {
    "0123456789ABCDEF"[d]
  }

  function Pow16(n: nat): nat {
    if n == 0 then 1 else 16 * Pow16(n - 1)
  }

  predicate AllHex(ds: string) {
    forall i :: 0 <= i < |ds| ==> IsHexDigit(ds[i])
  }

  predicate AllDec(ds: string) {
    forall i :: 0 <= i < |ds| ==> IsDecDigit(ds[i])
  }

  /** The longest prefix of `s` made of hex digits. */
  function HexRun(s: string): (r: string)
    ensures |r| <= |s| && r == s[..|r|]
    ensures AllHex(r)
    ensures |r| == |s| || !IsHexDigit(s[|r|])
  {
    if s == [] || !IsHexDigit(s[0]) then []
    else
      var rest := HexRun(s[1..]);
      assert [s[0]] + rest == s[..|rest| + 1];
      [s[0]] + rest
  }

  /** The longest prefix of `s` made of decimal digits. */
  function DecRun(s: string): (r: string)
    ensures |r| <= |s| && r == s[..|r|]
    ensures AllDec(r)
    ensures |r| == |s| || !IsDecDigit(s[|r|])
  {
    if s == [] || !IsDecDigit(s[0]) then []
    else
      var rest := DecRun(s[1..]);
      assert [s[0]] + rest == s[..|rest| + 1];
      [s[0]] + rest
  }

  /** The big-endian value of a digit string in the given radix, unbounded. */
  function Value(ds: string, radix: nat): nat {
    if ds == [] then 0
    else Value(ds[..|ds| - 1], radix) * radix + DigitValue(ds[|ds| - 1])
  }

  /** `n` hex digits spell a number below 16^n. */
  lemma {:induction false} ValueBound(ds: string)
    ensures Value(ds, 16) < Pow16(|ds|)
  {
    if ds != [] {
      ValueBound(ds[..|ds| - 1]);
    }
  }

  /** `k` hex digits spelling `n` (most significant first, leading zeros kept). */
  function HexOf(n: nat, k: nat): (ds: string)
    ensures |ds| == k && AllHex(ds)
  {
    if k == 0 then [] else HexOf(n / 16, k - 1) + [HexChar(n % 16)]
  }

  lemma {:induction false} HexOfValue(n: nat, k: nat)
    requires n < Pow16(k)
    ensures Value(HexOf(n, k), 16) == n
  {
    if k > 0 {
      HexOfValue(n / 16, k - 1);
      var ds := HexOf(n, k);
      assert ds[..k - 1] == HexOf(n / 16, k - 1);
    }
  }

  lemma {:induction false} HexRunStops(ds: string, rest: string)
    requires AllHex(ds)
    ensures HexRun(ds + ['>'] + rest) == ds
  {
    if ds != [] {
      assert (ds + ['>'] + rest)[1..] == ds[1..] + ['>'] + rest;
      HexRunStops(ds[1..], rest);
    }
  }

  // ---------------------------------------------------------------------------
  // StringToCode

  /**
   * The code of a token: 0 for the empty token; for a token starting with `<`
   * the hex digits after it up to the first non-hex character; otherwise its
   * leading decimal digits.  The source accumulates in a signed `int` with no
   * overflow check; the model takes that as wrap-around modulo 2^32.
   */
  function CodeOf(tok: string): U32 {
    if |tok| == 0 then 0
    else if tok[0] == '<' then Value(HexRun(tok[1..]), 16) % 0x1_0000_0000
    else Value(DecRun(tok), 10) % 0x1_0000_0000
  }

  lemma ModStep(v: nat, radix: nat, d: nat)
    ensures ((v % 0x1_0000_0000) * radix + d) % 0x1_0000_0000 == (v * radix + d) % 0x1_0000_0000
  {
    var q := v / TwoTo32;
    assert v == q * TwoTo32 + v % 0x1_0000_0000;
    assert v * radix + d == ((v % 0x1_0000_0000) * radix + d) + (q * radix) * TwoTo32;
  }

  /** The value after one more digit of a run. */
  lemma ValueSnoc(run: string, i: nat, radix: nat)
    requires i < |run|
    ensures Value(run[..i + 1], radix) == Value(run[..i], radix) * radix + DigitValue(run[i])
  {
    assert run[..i + 1][..i] == run[..i];
  }

  /** Where the run of hex digits after `<` ends. */
  lemma RunAt(str: string, run: string, i: nat)
    requires 1 <= i <= |str| && run == HexRun(str[1..]) && i - 1 <= |run|
    ensures i - 1 < |run| <==> i < |str| && IsHexDigit(str[i])
    ensures i - 1 < |run| ==> str[i] == run[i - 1]
  {
  }

  /**
   * The loop state of StringToCode: the characters str[from..i] read so far
   * are the first digits of `run`, and `result` holds their value modulo 2^32.
   */
  ghost predicate CodeInv(str: string, from: nat, run: string, i: nat, radix: nat, result: nat) {
    from <= i <= |str| && i - from <= |run|
    && str[from..i] == run[..i - from]
    && result == Value(run[..i - from], radix) % 0x1_0000_0000
  }

  /** One more digit of the run read by StringToCode's loop. */
  lemma CodeStep(str: string, from: nat, run: string, i: nat, radix: nat, result: nat)
    requires CodeInv(str, from, run, i, radix, result)
    requires i < |str| && i - from < |run| && str[i] == run[i - from]
    ensures CodeInv(str, from, run, i + 1, radix, (result * radix + DigitValue(str[i])) % 0x1_0000_0000)
  {
    assert str[from..i + 1] == str[from..i] + [str[i]];
    assert run[..i + 1 - from] == run[..i - from] + [run[i - from]];
    ValueSnoc(run, i - from, radix);
    ModStep(Value(run[..i - from], radix), radix, DigitValue(str[i]));
  }

  method StringToCode(str: string) returns (code: U32)
    ensures code == CodeOf(str)
  {
    if |str| == 0 {
      return 0;
    }
    var result: U32 := 0;
    if str[0] == '<' {
      ghost var run := HexRun(str[1..]);
      var i := 1;
      while i < |str| && IsHexDigit(str[i])
        invariant CodeInv(str, 1, run, i, 16, result)
      {
        RunAt(str, run, i);
        CodeStep(str, 1, run, i, 16, result);
        result := (result * 16 + DigitValue(str[i])) % 0x1_0000_0000;
        i := i + 1;
      }
      RunAt(str, run, i);
      assert run[..i - 1] == run;
      return result;
    }
    ghost var run := DecRun(str);
    var i := 0;
    while i < |str| && IsDecDigit(str[i])
      invariant CodeInv(str, 0, run, i, 10, result)
    {
      CodeStep(str, 0, run, i, 10, result);
      result := (result * 10 + DigitValue(str[i])) % 0x1_0000_0000;
      i := i + 1;
    }
    assert run[..i] == run;
    return result;
  }

  /** The powers of sixteen that bound 16- and 32-bit words. */
  lemma Pow16Words()
    ensures Pow16(4) == TwoTo16 && Pow16(8) == TwoTo32 && Pow16(9) == 16 * TwoTo32
  {
    assert Pow16(4) == TwoTo16;
    assert Pow16(8) == Pow16(4) * Pow16(4) by {
      assert Pow16(8) == 16 * 16 * 16 * 16 * Pow16(4);
    }
  }

  lemma {:induction false} Pow16Monotone(m: nat, n: nat)
    requires m <= n
    ensures Pow16(m) <= Pow16(n)
  {
    if m < n {
      Pow16Monotone(m, n - 1);
    }
  }

  /** A `<`-token decodes to the number its hex digits spell, modulo 2^32. */
  lemma HexCodeOf(n: nat, k: nat)
    requires n < Pow16(k)
    ensures CodeOf(['<'] + HexOf(n, k) + ['>']) == n % TwoTo32
  {
    var ds := HexOf(n, k);
    var tok := ['<'] + ds + ['>'];
    assert tok[1..] == ds + ['>'] + [];
    HexRunStops(ds, []);
    HexOfValue(n, k);
  }

  /** A token of up to eight hex digits decodes to exactly the number they spell. */
  lemma HexCodeRoundTrip(n: nat, k: nat)
    requires 1 <= k <= 8 && n < Pow16(k)
    ensures CodeOf(['<'] + HexOf(n, k) + ['>']) == n
  {
    Pow16Monotone(k, 8);
    Pow16Words();
    assert n % TwoTo32 == n;
    HexCodeOf(n, k);
  }

  // ---------------------------------------------------------------------------
  // StringToWideString

  /**
   * The unit spelled by a group of hex digits, accumulated in a 16-bit
   * FX_WCHAR; four digits always fit (UnitOfFour).
   */
  function Unit(ds: string): U16 {
    Value(ds, 16) % 0x1_0000
  }

  lemma UnitOfFour(ds: string)
    requires |ds| == 4
    ensures Unit(ds) == Value(ds, 16)
  {
    ValueBound(ds);
    assert Pow16(4) == TwoTo16;
  }

  /** Every complete group of four hex digits as one unit; a shorter tail is dropped. */
  function Group(ds: string): (us: seq<U16>)
    ensures |us| == |ds| / 4
  {
    if |ds| < 4 then [] else [Unit(ds[..4])] + Group(ds[4..])
  }

  /** The units of a token: only `<`-tokens are decoded. */
  function WideOf(tok: string): seq<U16> {
    if |tok| == 0 || tok[0] != '<' then [] else Group(HexRun(tok[1..]))
  }

  /** Unit `k` of a group string is the value of digits 4k .. 4k+3, in order. */
  lemma {:induction false} GroupAt(ds: string, k: nat)
    requires k < |ds| / 4
    ensures Group(ds)[k] == Value(ds[4 * k..4 * k + 4], 16)
  {
    if k > 0 {
      GroupAt(ds[4..], k - 1);
      var j := 4 * (k - 1);
      assert 4 * k == j + 4;
      assert ds[4..][j..j + 4] == ds[j + 4..j + 8];
    } else {
      UnitOfFour(ds[..4]);
      assert ds[..4] == ds[0..4];
    }
  }

  /** `ch` holds the value of the digits run[start..end] of the current group. */
  ghost predicate PartialUnit(run: string, start: nat, end: nat, ch: nat) {
    start <= end <= |run| && ch == Value(run[start..end], 16)
  }

  /** One more digit of the run read by StringToWideString's loop. */
  lemma WideStep(run: string, start: nat, end: nat, ch: nat)
    requires start < end <= |run| && end - start <= 4 && PartialUnit(run, start, end - 1, ch)
    ensures ch * 16 + DigitValue(run[end - 1]) < 0x1_0000
    ensures PartialUnit(run, start, end, ch * 16 + DigitValue(run[end - 1]))
  {
    assert run[start..end][..end - 1 - start] == run[start..end - 1];
    ValueBound(run[start..end]);
    Pow16Monotone(end - start, 4);
    assert Pow16(4) == TwoTo16;
  }

  /** Grouping a prefix that is four digits longer adds one unit at the end. */
  lemma {:induction false} GroupSnoc(run: string, start: nat)
    requires start % 4 == 0 && start + 4 <= |run|
    ensures Group(run[..start + 4]) == Group(run[..start]) + [Value(run[start..start + 4], 16)]
  {
    if start > 0 {
      GroupSnoc(run[4..], start - 4);
      assert run[..start + 4][4..] == run[4..][..start];
      assert run[..start][4..] == run[4..][..start - 4];
      assert run[..start + 4][..4] == run[..start][..4];
      assert run[4..][start - 4..start] == run[start..start + 4];
    } else {
      UnitOfFour(run[..4]);
      assert run[..4] == run[0..4] && run[..4][..4] == run[..4] && run[..4][4..] == [];
    }
  }

  /** A tail of fewer than four digits adds no unit. */
  lemma {:induction false} GroupTail(run: string, start: nat)
    requires start % 4 == 0 && start <= |run| < start + 4
    ensures Group(run) == Group(run[..start])
  {
    if start > 0 {
      GroupTail(run[4..], start - 4);
      assert run[..start][4..] == run[4..][..start - 4];
      assert run[..start][..4] == run[..4];
    }
  }

  /**
   * The loop state of StringToWideString at index `i` of a `<`-token whose hex
   * run is `run`: the units of the complete groups read so far, and `bytePos`
   * digits of the current group accumulated in `ch`.
   */
  ghost predicate WideInv(run: string, i: nat, start: nat, bytePos: nat, ch: nat, units: seq<U16>) {
    1 <= i <= |run| + 1 && bytePos < 4 && start + bytePos + 1 == i
    && start % 4 == 0 && units == Group(run[..start])
    && PartialUnit(run, start, i - 1, ch)
  }

  /** One iteration of StringToWideString's loop keeps WideInv. */
  lemma WideLoopStep(str: string, run: string, i: nat, start: nat, bytePos: nat, ch: nat, units: seq<U16>)
    requires 1 <= |str| && run == HexRun(str[1..]) && WideInv(run, i, start, bytePos, ch, units)
    requires i < |str| && IsHexDigit(str[i])
    ensures bytePos + 1 < 4 ==>
      WideInv(run, i + 1, start, bytePos + 1, (ch * 16 + DigitValue(str[i])) % 0x1_0000, units)
    ensures bytePos + 1 == 4 ==>
      WideInv(run, i + 1, i, 0, 0, units + [(ch * 16 + DigitValue(str[i])) % 0x1_0000])
  {
    RunAt(str, run, i);
    WideStep(run, start, i, ch);
    var c := ch * 16 + DigitValue(str[i]);
    assert c % 0x1_0000 == c;
    assert PartialUnit(run, start, i, c);
    if bytePos + 1 == 4 {
      assert run[i..i] == [];
      assert Group(run[..i]) == units + [c] by {
        GroupSnoc(run, start);
      }
    }
  }

  /** When StringToWideString's loop stops, the complete groups are all read. */
  lemma WideLoopExit(str: string, run: string, i: nat, start: nat, bytePos: nat, ch: nat, units: seq<U16>)
    requires 1 <= |str| && run == HexRun(str[1..]) && WideInv(run, i, start, bytePos, ch, units)
    requires i <= |str| && !(i < |str| && IsHexDigit(str[i]))
    ensures units == Group(run)
  {
    RunAt(str, run, i);
    GroupTail(run, start);
  }

  method StringToWideString(str: string) returns (units: seq<U16>)
    ensures units == WideOf(str)
  {
    units := [];
    if |str| == 0 {
      return;
    }
    if str[0] == '<' {
      ghost var run := HexRun(str[1..]);
      var bytePos := 0;
      var ch: U16 := 0;
      var i := 1;
      ghost var start := 0;
      while i < |str| && IsHexDigit(str[i])
        invariant i <= |str| && WideInv(run, i, start, bytePos, ch, units)
      {
        WideLoopStep(str, run, i, start, bytePos, ch, units);
        ch := (ch * 16 + DigitValue(str[i])) % 0x1_0000;
        bytePos := bytePos + 1;
        if bytePos == 4 {
          units := units + [ch];
          bytePos := 0;
          ch := 0;
          start := i;
        }
        i := i + 1;
      }
      WideLoopExit(str, run, i, start, bytePos, ch, units);
    }
  }

  /** Four-digit hex groups of a unit string, as a `bfchar` destination spells them. */
  function HexUnits(us: seq<U16>): (ds: string)
    ensures |ds| == 4 * |us| && AllHex(ds)
  {
    if us == [] then [] else HexOf(us[0], 4) + HexUnits(us[1..])
  }

  lemma {:induction false} GroupHexUnits(us: seq<U16>)
    ensures Group(HexUnits(us)) == us
  {
    if us != [] {
      var ds := HexUnits(us);
      assert ds[..4] == HexOf(us[0], 4);
      assert ds[4..] == HexUnits(us[1..]);
      assert Unit(HexOf(us[0], 4)) == us[0] by {
        Pow16Words();
        HexOfValue(us[0], 4);
      }
      GroupHexUnits(us[1..]);
    }
  }

  /** Decoding the hex spelling of a unit string gives the units back. */
  lemma WideRoundTrip(us: seq<U16>)
    ensures WideOf(['<'] + HexUnits(us) + ['>']) == us
  {
    var ds := HexUnits(us);
    assert (['<'] + ds + ['>'])[1..] == ds + ['>'] + [];
    HexRunStops(ds, []);
    GroupHexUnits(us);
  }

  // ---------------------------------------------------------------------------
  // StringDataAdd

  /**
   * Base-2^16 increment with carry, most significant unit first: the last
   * unit goes up by one, a 0xFFFF unit becomes 0 and carries, and a carry off
   * the front prepends a 1.
   */
  function Increment(s: seq<U16>): seq<U16> {
    if |s| == 0 then [1]
    else if s[|s| - 1] == 0xFFFF then Increment(s[..|s| - 1]) + [0]
    else s[..|s| - 1] + [s[|s| - 1] + 1]
  }

  /** The number a unit string stands for, in radix 2^16. */
  function BigValue(s: seq<U16>): nat {
    if |s| == 0 then 0 else BigValue(s[..|s| - 1]) * TwoTo16 + s[|s| - 1]
  }

  predicate AllMax(s: seq<U16>) {
    forall i :: 0 <= i < |s| ==> s[i] == 0xFFFF
  }

  /** Increment adds exactly one to the number. */
  lemma {:induction false} IncrementAddsOne(s: seq<U16>)
    ensures BigValue(Increment(s)) == BigValue(s) + 1
  {
    if |s| > 0 {
      var p := s[..|s| - 1];
      if s[|s| - 1] == 0xFFFF {
        IncrementAddsOne(p);
        var r := Increment(p) + [0];
        assert r[..|r| - 1] == Increment(p);
      } else {
        var r := p + [s[|s| - 1] + 1];
        assert r[..|r| - 1] == p;
      }
    }
  }

  /**
   * Increment keeps the length unless every unit is 0xFFFF; then it returns
   * a one followed by as many zeros as there were units.
   */
  lemma {:induction false} IncrementLength(s: seq<U16>)
    ensures |Increment(s)| == if AllMax(s) then |s| + 1 else |s|
    ensures AllMax(s) ==> Increment(s) == [1] + seq(|s|, _ => 0)
  {
    if |s| > 0 {
      var p := s[..|s| - 1];
      assert AllMax(s) ==> AllMax(p);
      if s[|s| - 1] == 0xFFFF {
        IncrementLength(p);
        assert AllMax(p) ==> AllMax(s);
        if AllMax(s) {
          assert [1] + seq(|p|, _ => 0) + [0] == [1] + seq(|s|, _ => 0);
        }
      }
    }
  }

  method StringDataAdd(str: seq<U16>) returns (ret: seq<U16>)
    ensures ret == Increment(str)
  {
    ret := [];
    var value: U16 := 1;
    var i := |str| - 1;
    assert str[..i + 1] == str;
    while i >= 0
      invariant -1 <= i < |str|
      invariant value == 0 || value == 1
      invariant value == 1 ==> Increment(str) == Increment(str[..i + 1]) + ret
      invariant value == 0 ==> Increment(str) == str[..i + 1] + ret
    {
      var ch: U16 := (str[i] + value) % 0x1_0000;
      assert str[..i + 1][..i] == str[..i];
      if ch < str[i] {
        ret := [0] + ret;
      } else {
        ret := [ch] + ret;
        value := 0;
      }
      i := i - 1;
    }
    if value != 0 {
      ret := [value] + ret;
    }
  }
}
