// The string helpers of the portable C runtime layer: in-place case mapping
// (FXSYS_strlwr, FXSYS_strupr, FXSYS_wcslwr, FXSYS_wcsupr), case-insensitive
// comparison (FXSYS_stricmp, FXSYS_wcsicmp), the Latin-1 conversions
// (FXSYS_WideCharToMultiByte, FXSYS_MultiByteToWideChar) and
// FXSYS_GetFullPathName.
//
// A buffer the source changes in place is an array holding its NUL; a string
// the source only reads is the sequence of its code units before the NUL,
// read as 0 past its end.  A pointer that may be null is an Option.  Case
// mapping is the ASCII one.

module CrtStrings {
  import opened Common

  /** 'A' and 'Z', and the distance from an upper-case letter to its lower case. */
  const UpperA: int := 0x41
  const UpperZ: int := 0x5A
  const LowerA: int := 0x61
  const LowerZ: int := 0x7A
  const CaseGap: int := 0x20

  function ToLower(c: int): (r: int)
    ensures UpperA <= c <= UpperZ ==> r == c + CaseGap
    ensures !(UpperA <= c <= UpperZ) ==> r == c
  {
    if UpperA <= c <= UpperZ then c + CaseGap else c
  }

  function ToUpper(c: int): (r: int)
    ensures LowerA <= c <= LowerZ ==> r == c - CaseGap
    ensures !(LowerA <= c <= LowerZ) ==> r == c
  {
    if LowerA <= c <= LowerZ then c - CaseGap else c
  }

  /** One unit under the mapping `upper` selects. */
  function CaseMap(c: int, upper: bool): int {
    if upper then ToUpper(c) else ToLower(c)
  }

  /** Where the C string in `s` ends: its first NUL, or the end of `s` when it has none. */
  function NulIndex(s: seq<int>): (n: nat)
    ensures n <= |s| && (n < |s| ==> s[n] == 0)
    ensures forall k :: 0 <= k < n ==> s[k] != 0
  {
    if s == [] || s[0] == 0 then 0 else 1 + NulIndex(s[1..])
  }

  /** A buffer after case mapping: the units before the first NUL mapped, the rest as they were. */
  function CaseMapped(s: seq<int>, upper: bool): (r: seq<int>)
    ensures |r| == |s|
  {
    seq(|s|, k requires 0 <= k < |s| => if k < NulIndex(s) then CaseMap(s[k], upper) else s[k])
  }

  /** The buffer holds a C string: a NUL somewhere in it. */
  predicate Terminated(s: seq<int>) {
    exists k :: 0 <= k < |s| && s[k] == 0
  }

  /** The loop of FXSYS_strlwr and FXSYS_strupr over a narrow buffer. */
  method MapBytes(str: array<Byte>, upper: bool)
    requires Terminated(str[..])
    modifies str
    ensures str[..] == CaseMapped(old(str[..]), upper)
  {
    ghost var s := str[..];
    ghost var n := NulIndex(s);
    var i := 0;
    while str[i] != 0
      invariant i <= n < |s|
      invariant forall k :: 0 <= k < i ==> str[k] == CaseMap(s[k], upper)
      invariant forall k :: i <= k < str.Length ==> str[k] == s[k]
      decreases n - i
    {
      str[i] := CaseMap(str[i], upper);
      i := i + 1;
    }
    assert str[..] == CaseMapped(s, upper);
  }

  /** The loop of FXSYS_wcslwr and FXSYS_wcsupr over a wide buffer. */
  method MapWide(str: array<U16>, upper: bool)
    requires Terminated(str[..])
    modifies str
    ensures str[..] == CaseMapped(old(str[..]), upper)
  {
    ghost var s := str[..];
    ghost var n := NulIndex(s);
    var i := 0;
    while str[i] != 0
      invariant i <= n < |s|
      invariant forall k :: 0 <= k < i ==> str[k] == CaseMap(s[k], upper)
      invariant forall k :: i <= k < str.Length ==> str[k] == s[k]
      decreases n - i
    {
      str[i] := CaseMap(str[i], upper);
      i := i + 1;
    }
    assert str[..] == CaseMapped(s, upper);
  }

  /** The objects a call may change: the buffer, when there is one. */
  function Target<T>(str: Option<array<T>>): set<object> {
    if str.Some? then {str.value} else {}
  }

  /** FXSYS_strlwr: lower-case a narrow string in place; a null string is returned as it is. */
  method StrLwr(str: Option<array<Byte>>) returns (r: Option<array<Byte>>)
    requires str.Some? ==> Terminated(str.value[..])
    modifies Target(str)
    ensures r == str
    ensures str.Some? ==> str.value[..] == CaseMapped(old(str.value[..]), false)
  {
    if str.Some? {
      MapBytes(str.value, false);
    }
    return str;
  }

  /** FXSYS_strupr: upper-case a narrow string in place. */
  method StrUpr(str: Option<array<Byte>>) returns (r: Option<array<Byte>>)
    requires str.Some? ==> Terminated(str.value[..])
    modifies Target(str)
    ensures r == str
    ensures str.Some? ==> str.value[..] == CaseMapped(old(str.value[..]), true)
  {
    if str.Some? {
      MapBytes(str.value, true);
    }
    return str;
  }

  /** FXSYS_wcslwr: lower-case a wide string in place. */
  method WcsLwr(str: Option<array<U16>>) returns (r: Option<array<U16>>)
    requires str.Some? ==> Terminated(str.value[..])
    modifies Target(str)
    ensures r == str
    ensures str.Some? ==> str.value[..] == CaseMapped(old(str.value[..]), false)
  {
    if str.Some? {
      MapWide(str.value, false);
    }
    return str;
  }

  /** FXSYS_wcsupr: upper-case a wide string in place. */
  method WcsUpr(str: Option<array<U16>>) returns (r: Option<array<U16>>)
    requires str.Some? ==> Terminated(str.value[..])
    modifies Target(str)
    ensures r == str
    ensures str.Some? ==> str.value[..] == CaseMapped(old(str.value[..]), true)
  {
    if str.Some? {
      MapWide(str.value, true);
    }
    return str;
  }

  /** The first NUL of `s` is at `n`. */
  lemma NulIndexIs(s: seq<int>, n: nat)
    requires n <= |s| && (n < |s| ==> s[n] == 0)
    requires forall k :: 0 <= k < n ==> s[k] != 0
    ensures NulIndex(s) == n
  {
  }

  /** Case mapping neither makes nor removes a NUL, so the string keeps its length. */
  lemma CaseMappedKeepsNul(s: seq<int>, upper: bool)
    ensures NulIndex(CaseMapped(s, upper)) == NulIndex(s)
  {
    var n := NulIndex(s);
    var m := CaseMapped(s, upper);
    forall k | 0 <= k < n
      ensures m[k] != 0
    {
      assert m[k] == CaseMap(s[k], upper);
    }
    NulIndexIs(m, n);
  }

  /** Mapping a buffer twice the same way maps it once. */
  lemma CaseMappedIdempotent(s: seq<int>, upper: bool)
    ensures CaseMapped(CaseMapped(s, upper), upper) == CaseMapped(s, upper)
  {
    CaseMappedKeepsNul(s, upper);
  }

  // ---------------------------------------------------------------------------
  // Case-insensitive comparison

  /** The unit of a read-only string at `i`: its terminator past the end. */
  function UnitAt(s: seq<int>, i: nat): int {
    if i < |s| then s[i] else 0
  }

  /**
   * What FXSYS_stricmp returns from position `i` on: the difference of the
   * lower-cased units at the first position where they differ or the first
   * string ends.
   */
  function ICompareFrom(a: seq<int>, b: seq<int>, i: nat): int
    decreases |a| - i
  {
    var f := ToLower(UnitAt(a, i));
    var l := ToLower(UnitAt(b, i));
    if f != 0 && f == l then ICompareFrom(a, b, i + 1) else f - l
  }

  /** The do-while loop shared by FXSYS_stricmp and FXSYS_wcsicmp. */
  method ICompare(dst: seq<int>, src: seq<int>) returns (r: int)
    ensures r == ICompareFrom(dst, src, 0)
  {
    var i := 0;
    var f, l;
    while true
      invariant ICompareFrom(dst, src, i) == ICompareFrom(dst, src, 0)
      decreases |dst| - i
    {
      f := ToLower(UnitAt(dst, i));
      l := ToLower(UnitAt(src, i));
      if !(f != 0 && f == l) {
        break;
      }
      i := i + 1;
    }
    return f - l;
  }

  /** FXSYS_stricmp on narrow strings. */
  method Stricmp(dst: seq<Byte>, src: seq<Byte>) returns (r: int)
    ensures r == ICompareFrom(dst, src, 0)
  {
    r := ICompare(dst, src);
  }

  /** FXSYS_wcsicmp on wide strings. */
  method Wcsicmp(dst: seq<U16>, src: seq<U16>) returns (r: int)
    ensures r == ICompareFrom(dst, src, 0)
  {
    r := ICompare(dst, src);
  }

  /** `s` without its first `i` units. */
  function Drop(s: seq<int>, i: nat): (r: seq<int>)
    ensures |r| == if i < |s| then |s| - i else 0
  {
    if i < |s| then s[i..] else []
  }

  /** A text without NUL, lower-cased, is each unit lower-cased. */
  lemma LowerText(t: seq<int>, k: nat)
    requires 0 !in t && k < |t|
    ensures CaseMapped(t, false)[k] == ToLower(t[k])
  {
    NulIndexIs(t, |t|);
  }

  /** The lower-cased rest from `i`: the unit at `i` lower-cased, then the lower-cased rest after it. */
  lemma LowerDrop(s: seq<int>, i: nat)
    requires 0 !in s
    ensures i < |s| ==> CaseMapped(Drop(s, i), false) == [ToLower(s[i])] + CaseMapped(Drop(s, i + 1), false)
    ensures i >= |s| ==> CaseMapped(Drop(s, i), false) == [] && UnitAt(s, i) == 0
    ensures i < |s| ==> ToLower(UnitAt(s, i)) != 0
  {
    if i < |s| {
      var d, e := Drop(s, i), Drop(s, i + 1);
      assert s[i] != 0 && 0 !in d && 0 !in e;
      var l, m := CaseMapped(d, false), CaseMapped(e, false);
      forall k | 0 <= k < |l|
        ensures l[k] == ([ToLower(s[i])] + m)[k]
      {
        LowerText(d, k);
        if k > 0 {
          LowerText(e, k - 1);
        }
      }
    }
  }

  /** The comparison from `i` on is zero exactly when the texts agree, ignoring case, from `i` on. */
  lemma {:induction false} ICompareZeroFrom(a: seq<int>, b: seq<int>, i: nat)
    requires 0 !in a && 0 !in b
    ensures ICompareFrom(a, b, i) == 0 <==> CaseMapped(Drop(a, i), false) == CaseMapped(Drop(b, i), false)
    decreases |a| - i
  {
    var f := ToLower(UnitAt(a, i));
    var l := ToLower(UnitAt(b, i));
    LowerDrop(a, i);
    LowerDrop(b, i);
    var fa, fb := CaseMapped(Drop(a, i), false), CaseMapped(Drop(b, i), false);
    if f != 0 && f == l {
      ICompareZeroFrom(a, b, i + 1);
      if fa == fb {
        assert fa[1..] == fb[1..];
      }
    } else if f != l && fa != [] && fb != [] {
      assert fa[0] != fb[0];
    }
  }

  /** FXSYS_stricmp gives 0 exactly when the two strings are equal ignoring case. */
  lemma ICompareZero(a: seq<int>, b: seq<int>)
    requires 0 !in a && 0 !in b
    ensures ICompareFrom(a, b, 0) == 0 <==> CaseMapped(a, false) == CaseMapped(b, false)
  {
    ICompareZeroFrom(a, b, 0);
    assert Drop(a, 0) == a && Drop(b, 0) == b;
  }

  /** Swapping the strings negates the result. */
  lemma {:induction false} ICompareAntisymmetric(a: seq<int>, b: seq<int>, i: nat)
    ensures ICompareFrom(b, a, i) == -ICompareFrom(a, b, i)
    decreases |a| - i
  {
    var f := ToLower(UnitAt(a, i));
    var l := ToLower(UnitAt(b, i));
    if f != 0 && f == l {
      ICompareAntisymmetric(a, b, i + 1);
    }
  }

  /** A string compares equal to its lower-cased copy. */
  lemma ICompareLowerCopy(t: seq<int>)
    requires 0 !in t
    ensures 0 !in CaseMapped(t, false) && ICompareFrom(t, CaseMapped(t, false), 0) == 0
  {
    CaseMappedKeepsNul(t, false);
    NulIndexIs(t, |t|);
    CaseMappedIdempotent(t, false);
    ICompareZero(t, CaseMapped(t, false));
  }

  // ---------------------------------------------------------------------------
  // Latin-1 conversions

  /** The units below 0x100, in order: what FXSYS_WideCharToMultiByte keeps. */
  function Narrowed(ws: seq<int>): (bs: seq<int>)
    ensures |bs| <= |ws|
  {
    if ws == [] then []
    else
      var last := ws[|ws| - 1];
      Narrowed(ws[..|ws| - 1]) + (if last < 0x100 then [last] else [])
  }

  /** The first `n` units, or all of them when `n` is negative or too large. */
  function Clip(n: int, limit: nat): (m: nat)
    ensures m <= limit && (0 <= n <= limit ==> m == n)
  {
    if n < 0 then 0 else if n > limit then limit else n
  }

  /**
   * FXSYS_WideCharToMultiByte: the Latin-1 units of the first `wlen` wide
   * units, as many as `buflen` allows written to `buf`; the result counts them
   * all.  The code page, flags and default string are ignored, as in the source.
   */
  method WideCharToMultiByte(wstr: seq<U16>, wlen: int, buf: Option<array<Byte>>, buflen: int)
    returns (len: int)
    requires wlen <= |wstr|
    requires buf.Some? ==> buflen <= buf.value.Length
    modifies Target(buf)
    ensures len == |Narrowed(wstr[..Clip(wlen, |wstr|)])|
    ensures buf.Some? ==>
      var n := Clip(buflen, len);
      buf.value[..n] == Narrowed(wstr[..Clip(wlen, |wstr|)])[..n] && buf.value[n..] == old(buf.value[n..])
  {
    ghost var before := if buf.Some? then buf.value[..] else [];
    ghost var out: seq<int> := [];
    len := 0;
    var i := 0;
    while i < wlen
      invariant 0 <= i <= Clip(wlen, |wstr|) && out == Narrowed(wstr[..i]) && len == |out|
      invariant buf.Some? ==> |before| == buf.value.Length
      invariant buf.Some? ==> forall k :: 0 <= k < Clip(buflen, len) ==> buf.value[k] == out[k]
      invariant buf.Some? ==> forall k :: Clip(buflen, len) <= k < buf.value.Length ==> buf.value[k] == before[k]
      decreases wlen - i
    {
      assert wstr[..i + 1][..i] == wstr[..i];
      if wstr[i] < 0x100 {
        if buf.Some? && len < buflen {
          buf.value[len] := wstr[i];
        }
        out := out + [wstr[i]];
        len := len + 1;
      }
      i := i + 1;
    }
    if buf.Some? {
      var n := Clip(buflen, len);
      assert buf.value[..n] == out[..n];
      assert buf.value[n..] == before[n..];
    }
  }

  /**
   * FXSYS_MultiByteToWideChar: each of the first `blen` bytes becomes one
   * wide unit, as many as `buflen` allows written to `buf`; the result counts
   * them all.
   */
  method MultiByteToWideChar(bstr: seq<Byte>, blen: int, buf: Option<array<U16>>, buflen: int)
    returns (wlen: int)
    requires blen <= |bstr|
    requires buf.Some? ==> buflen <= buf.value.Length
    modifies Target(buf)
    ensures wlen == Clip(blen, |bstr|)
    ensures buf.Some? ==>
      var n := Clip(buflen, wlen);
      buf.value[..n] == bstr[..n] && buf.value[n..] == old(buf.value[n..])
  {
    ghost var before := if buf.Some? then buf.value[..] else [];
    wlen := 0;
    var i := 0;
    while i < blen
      invariant 0 <= i <= Clip(blen, |bstr|) && wlen == i
      invariant buf.Some? ==>
        var n := Clip(buflen, wlen);
        buf.value[..n] == bstr[..n] && buf.value[n..] == before[n..]
      decreases blen - i
    {
      if buf.Some? && wlen < buflen {
        buf.value[wlen] := bstr[i];
      }
      wlen := wlen + 1;
      i := i + 1;
    }
  }

  /** Bytes widened and narrowed again come back unchanged. */
  lemma {:induction false} NarrowedBytes(bs: seq<Byte>)
    ensures Narrowed(bs) == bs
  {
    if bs != [] {
      NarrowedBytes(bs[..|bs| - 1]);
      assert bs == bs[..|bs| - 1] + [bs[|bs| - 1]];
    }
  }

  /** Narrowing keeps every unit exactly when all of them are below 0x100. */
  lemma {:induction false} NarrowedKeepsAll(ws: seq<U16>)
    ensures Narrowed(ws) == ws <==> forall k :: 0 <= k < |ws| ==> ws[k] < 0x100
  {
    if ws != [] {
      var init := ws[..|ws| - 1];
      NarrowedKeepsAll(init);
      assert ws == init + [ws[|ws| - 1]];
      if ws[|ws| - 1] >= 0x100 {
        assert |Narrowed(ws)| < |ws| by {
          assert |Narrowed(init)| <= |init|;
        }
      } else if Narrowed(ws) == ws {
        assert Narrowed(init) == ws[..|ws| - 1];
      }
    }
  }

  // ---------------------------------------------------------------------------
  // FXSYS_GetFullPathName

  /** The 32-bit `buflen` as the `int` the source compares it as. */
  function AsInt32(n: U32): (r: int)
    ensures -0x8000_0000 <= r < 0x8000_0000
    ensures n < 0x8000_0000 ==> r == n
  {
    if n < 0x8000_0000 then n else n - 0x1_0000_0000
  }

  /**
   * What FXSYS_GetFullPathName returns for a name of `srclen` units: the
   * size needed, NUL included, when there is no buffer or it is too small;
   * otherwise the length copied.
   */
  function FullPathResult(srclen: nat, hasBuf: bool, buflen: U32): (r: nat)
    ensures r == srclen || r == srclen + 1
    ensures r == srclen <==> hasBuf && srclen + 1 <= AsInt32(buflen)
  {
    if !hasBuf || AsInt32(buflen) < srclen + 1 then srclen + 1 else srclen
  }

  /**
   * FXSYS_GetFullPathName: the name is copied, with its NUL, when the buffer
   * holds it; the path is not resolved, as in the source.
   */
  method GetFullPathName(filename: seq<Byte>, buflen: U32, buf: Option<array<Byte>>) returns (r: nat)
    requires 0 !in filename && |filename| < 0x7FFF_FFFF
    requires buf.Some? ==> buflen <= buf.value.Length
    modifies Target(buf)
    ensures r == FullPathResult(|filename|, buf.Some?, buflen)
    ensures buf.Some? && r == |filename| ==>
      buf.value[..|filename| + 1] == filename + [0] && buf.value[|filename| + 1..] == old(buf.value[|filename| + 1..])
    ensures buf.Some? && r != |filename| ==> buf.value[..] == old(buf.value[..])
  {
    var srclen := |filename|;
    if buf.None? || AsInt32(buflen) < srclen + 1 {
      return srclen + 1;
    }
    var b := buf.value;
    var i := 0;
    while i < srclen
      invariant i <= srclen && b[..i] == filename[..i] && b[srclen + 1..] == old(b[srclen + 1..])
      decreases srclen - i
    {
      b[i] := filename[i];
      i := i + 1;
    }
    b[srclen] := 0;
    assert b[..srclen + 1] == filename + [0];
    return srclen;
  }

  /** Asking for the size first and then passing a buffer of that size gets the name. */
  lemma SizeQueryThenCopy(srclen: nat)
    requires srclen < 0x7FFF_FFFF
    ensures FullPathResult(srclen, false, 0) == srclen + 1
    ensures FullPathResult(srclen, true, srclen + 1) == srclen
  {
  }
}
