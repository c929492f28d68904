// Whole blocks and whole streams of a ToUnicode CMap: what a code looks up to
// after a `bfchar` block, a `bfrange` block and the outer loop (a later pair,
// range or block overwrites an earlier one), that the blocks and the outer loop
// keep every pool reference inside the pool, which collection the outer loop
// selects when the stream also holds blocks, and two streams read end to end.

module CMapStream {
  import opened Common
  import opened CMapLiterals
  import opened CMapSpec
  import opened CMapLookup

  // ---------------------------------------------------------------------------
  // beginbfchar ... endbfchar

  /**
   * The destination a `bfchar` block from `pos` on leaves for code `c`: the
   * last non-empty destination given for it (later pairs overwrite earlier
   * ones; an empty destination stores nothing), or None if no pair does.
   */
  function BfcharLast(toks: seq<string>, pos: nat, c: U32): (r: Option<seq<U16>>)
    requires pos <= |toks|
    ensures r.Some? ==> r.value != []
    decreases |toks| - pos
  {
    var (w, p1) := GetWord(toks, pos);
    if w == "" || w == "endbfchar" then None
    else
      var (d, p2) := GetWord(toks, p1);
      var later := BfcharLast(toks, p2, c);
      if later.Some? then later
      else if CodeOf(w) == c && WideOf(d) != [] then Some(WideOf(d))
      else None
  }

  /** No destination of the `bfchar` block from `pos` on is the single unit 0xFFFF. */
  predicate BfcharClear(toks: seq<string>, pos: nat)
    requires pos <= |toks|
    decreases |toks| - pos
  {
    var (w, p1) := GetWord(toks, pos);
    if w == "" || w == "endbfchar" then true
    else
      var (d, p2) := GetWord(toks, p1);
      WideOf(d) != [0xFFFF] && BfcharClear(toks, p2)
  }

  /**
   * A `bfchar` block of any number of pairs, while the pool stays within
   * 65536 units and no destination is the single unit 0xFFFF: every pool
   * reference stays inside the pool, a code given a non-empty destination
   * looks up to the last one given, and every other code looks up as before.
   */
  lemma {:induction false} BfcharLookup(toks: seq<string>, pos: nat, t: Tables,
                                        base: CidSet, resolve: (CidSet, U16) -> seq<U16>, c: U32)
    requires pos <= |toks| && Resolves(t) && BfcharClear(toks, pos)
    requires |Bfchar(toks, pos, t).1.pool| <= 0x1_0000
    ensures Resolves(Bfchar(toks, pos, t).1)
    ensures LookupIn(Bfchar(toks, pos, t).1, base, resolve, c)
         == match BfcharLast(toks, pos, c) case Some(d) => d case None => LookupIn(t, base, resolve, c)
    decreases |toks| - pos
  {
    var (w, p1) := GetWord(toks, pos);
    if w != "" && w != "endbfchar" {
      var (d, p2) := GetWord(toks, p1);
      var t1 := StoreDest(t, CodeOf(w), WideOf(d));
      assert Bfchar(toks, pos, t) == Bfchar(toks, p2, t1);
      assert |t1.pool| <= |Bfchar(toks, p2, t1).1.pool|;
      assert Storable(t, WideOf(d));
      StoreDestResolves(t, CodeOf(w), WideOf(d));
      StoreDestLookup(t, CodeOf(w), WideOf(d), base, resolve, c);
      BfcharLookup(toks, p2, t1, base, resolve, c);
    }
  }

  /** Where a `bfchar` block ends does not depend on the tables. */
  lemma {:induction false} BfcharEnd(toks: seq<string>, pos: nat, t: Tables)
    requires pos <= |toks|
    ensures Bfchar(toks, pos, t).0 == Bfchar(toks, pos, Empty).0
    decreases |toks| - pos
  {
    var (w, p1) := GetWord(toks, pos);
    if w != "" && w != "endbfchar" {
      var (d, p2) := GetWord(toks, p1);
      BfcharEnd(toks, p2, StoreDest(t, CodeOf(w), WideOf(d)));
      BfcharEnd(toks, p2, StoreDest(Empty, CodeOf(w), WideOf(d)));
    }
  }

  // ---------------------------------------------------------------------------
  // beginbfrange ... endbfrange

  /**
   * Every range of the `bfrange` block from `pos` on stays clear of the
   * 0xFFFF marker: no word of an array form decodes to the single unit
   * 0xFFFF, and the units of a single-unit form stay below 0xFFFF.
   */
  predicate BfrangeClear(toks: seq<string>, pos: nat)
    requires pos <= |toks|
    decreases |toks| - pos
  {
    var (low, p1) := GetWord(toks, pos);
    if low == "" || low == "endbfrange" then true
    else
      var (high, p2) := GetWord(toks, p1);
      var lowcode := CodeOf(low);
      var highcode := RangeHigh(lowcode, CodeOf(high));
      if highcode == 0xFFFF_FFFF then true
      else
        var (start, p3) := GetWord(toks, p2);
        if start == "[" then
          var p4 := ArrayRange(toks, p3, lowcode, highcode, Empty).0;
          (lowcode <= highcode ==> NoSingleMax(Dests(toks, p3, highcode + 1 - lowcode)))
          && BfrangeClear(toks, GetWord(toks, p4).1)
        else
          (lowcode <= highcode && |WideOf(start)| == 1 ==> CodeOf(start) % 0x1_0000 + (highcode - lowcode) < 0xFFFF)
          && BfrangeClear(toks, p3)
  }

  /** Where an array form ends does not depend on the tables. */
  lemma ArrayEnd(toks: seq<string>, pos: nat, code: nat, hi: nat, t: Tables)
    requires pos <= |toks| && hi < 0xFFFF_FFFF
    ensures ArrayRange(toks, pos, code, hi, t).0 == ArrayRange(toks, pos, code, hi, Empty).0
  {
  }

  /**
   * A `bfrange` block keeps every pool reference inside the pool, while the
   * pool stays within 65536 units and every range stays clear of the marker.
   */
  lemma {:induction false} BfrangeResolves(toks: seq<string>, pos: nat, t: Tables)
    requires pos <= |toks| && Resolves(t) && BfrangeClear(toks, pos)
    requires |Bfrange(toks, pos, t).1.pool| <= 0x1_0000
    ensures Resolves(Bfrange(toks, pos, t).1)
    decreases |toks| - pos
  {
    var (low, p1) := GetWord(toks, pos);
    if low != "" && low != "endbfrange" {
      var (high, p2) := GetWord(toks, p1);
      var lowcode := CodeOf(low);
      var highcode := RangeHigh(lowcode, CodeOf(high));
      if highcode != 0xFFFF_FFFF {
        var (start, p3) := GetWord(toks, p2);
        if start == "[" {
          var (p4, t1) := ArrayRange(toks, p3, lowcode, highcode, t);
          var p5 := GetWord(toks, p4).1;
          ArrayEnd(toks, p3, lowcode, highcode, t);
          assert Bfrange(toks, pos, t) == Bfrange(toks, p5, t1);
          assert |t1.pool| <= |Bfrange(toks, p5, t1).1.pool|;
          if lowcode <= highcode {
            ArrayRangeResolves(toks, p3, lowcode, highcode, t);
          }
          BfrangeResolves(toks, p5, t1);
        } else {
          var dest := WideOf(start);
          var t1 := if |dest| == 1 then UnitRange(t, lowcode, highcode, CodeOf(start))
                    else StringRange(t, lowcode, lowcode, highcode, dest);
          assert Bfrange(toks, pos, t) == Bfrange(toks, p3, t1);
          assert |t1.pool| <= |Bfrange(toks, p3, t1).1.pool|;
          if |dest| == 1 {
            if lowcode <= highcode {
              UnitRangeResolves(t, lowcode, highcode, CodeOf(start));
            }
          } else {
            StringRangeResolves(t, lowcode, lowcode, highcode, dest);
          }
          BfrangeResolves(toks, p3, t1);
        }
      }
    }
  }

  /** Where a `bfrange` block ends does not depend on the tables. */
  lemma {:induction false} BfrangeEnd(toks: seq<string>, pos: nat, t: Tables)
    requires pos <= |toks|
    ensures Bfrange(toks, pos, t).0 == Bfrange(toks, pos, Empty).0
    decreases |toks| - pos
  {
    var (low, p1) := GetWord(toks, pos);
    if low != "" && low != "endbfrange" {
      var (high, p2) := GetWord(toks, p1);
      var lowcode := CodeOf(low);
      var highcode := RangeHigh(lowcode, CodeOf(high));
      if highcode != 0xFFFF_FFFF {
        var (start, p3) := GetWord(toks, p2);
        if start == "[" {
          ArrayEnd(toks, p3, lowcode, highcode, t);
          var p5 := GetWord(toks, ArrayRange(toks, p3, lowcode, highcode, Empty).0).1;
          BfrangeEnd(toks, p5, ArrayRange(toks, p3, lowcode, highcode, t).1);
          BfrangeEnd(toks, p5, ArrayRange(toks, p3, lowcode, highcode, Empty).1);
        } else {
          var dest := WideOf(start);
          var t1 := if |dest| == 1 then UnitRange(t, lowcode, highcode, CodeOf(start))
                    else StringRange(t, lowcode, lowcode, highcode, dest);
          var e1 := if |dest| == 1 then UnitRange(Empty, lowcode, highcode, CodeOf(start))
                    else StringRange(Empty, lowcode, lowcode, highcode, dest);
          BfrangeEnd(toks, p3, t1);
          BfrangeEnd(toks, p3, e1);
        }
      }
    }
  }

  /**
   * What one range `low high start` gives code `c`, if `c` lies in it: the
   * array form the decoded word for `c` after `[` (nothing when that decodes
   * to nothing; `DestsAt` says which word that is), the single-unit form the low sixteen bits of the start unit
   * plus the offset, and the string form the start string incremented once
   * per code of offset.
   */
  function RangeGives(toks: seq<string>, p3: nat, lowcode: U32, highcode: U32, start: string, c: U32): Option<seq<U16>>
    requires p3 <= |toks|
  {
    if !(lowcode <= c <= highcode) then None
    else if start == "[" then
      var d := Dests(toks, p3, highcode + 1 - lowcode)[c - lowcode];
      if d == [] then None else Some(d)
    else if |WideOf(start)| == 1 then Some([(CodeOf(start) + (c - lowcode)) % 0x1_0000])
    else Some(Successor(WideOf(start), c - lowcode))
  }

  /**
   * The destination a `bfrange` block from `pos` on leaves for code `c`: that
   * of the last range covering it (later ranges overwrite earlier ones), or
   * None if no range does.  A range whose last code is 0xFFFFFFFF ends the
   * block, so no range after it counts.
   */
  function BfrangeLast(toks: seq<string>, pos: nat, c: U32): (r: Option<seq<U16>>)
    requires pos <= |toks|
    decreases |toks| - pos
  {
    var (low, p1) := GetWord(toks, pos);
    if low == "" || low == "endbfrange" then None
    else
      var (high, p2) := GetWord(toks, p1);
      var lowcode := CodeOf(low);
      var highcode := RangeHigh(lowcode, CodeOf(high));
      if highcode == 0xFFFF_FFFF then None
      else
        var (start, p3) := GetWord(toks, p2);
        var next := if start == "[" then GetWord(toks, ArrayRange(toks, p3, lowcode, highcode, Empty).0).1 else p3;
        var later := BfrangeLast(toks, next, c);
        if later.Some? then later else RangeGives(toks, p3, lowcode, highcode, start, c)
  }

  /** A range whose last code is 0xFFFFFFFF ends the block there and stores nothing. */
  lemma BfrangeMaxEnds(toks: seq<string>, pos: nat, t: Tables)
    requires pos + 2 <= |toks| && toks[pos] != "" && toks[pos] != "endbfrange"
    requires RangeHigh(CodeOf(toks[pos]), CodeOf(toks[pos + 1])) == 0xFFFF_FFFF
    ensures Bfrange(toks, pos, t) == (pos + 2, t)
  {
  }

  /** One array-form range, under the block's conditions: what `RangeGives` says, or as before. */
  lemma ArrayGives(toks: seq<string>, p3: nat, lowcode: U32, highcode: U32, t: Tables,
                   base: CidSet, resolve: (CidSet, U16) -> seq<U16>, c: U32)
    requires p3 <= |toks| && highcode < 0xFFFF_FFFF && Resolves(t)
    requires lowcode <= highcode ==> NoSingleMax(Dests(toks, p3, highcode + 1 - lowcode))
    requires |ArrayRange(toks, p3, lowcode, highcode, t).1.pool| <= 0x1_0000
    ensures Resolves(ArrayRange(toks, p3, lowcode, highcode, t).1)
    ensures LookupIn(ArrayRange(toks, p3, lowcode, highcode, t).1, base, resolve, c)
         == match RangeGives(toks, p3, lowcode, highcode, "[", c) case Some(d) => d case None => LookupIn(t, base, resolve, c)
  {
    var here := RangeGives(toks, p3, lowcode, highcode, "[", c);
    if lowcode <= highcode {
      ArrayRangeResolves(toks, p3, lowcode, highcode, t);
      ArrayRangeLookup(toks, p3, lowcode, highcode, t, base, resolve, c);
    } else {
      assert here == None;
    }
  }

  /** One single-unit range, while its units stay below 0xFFFF: what `RangeGives` says, or as before. */
  lemma UnitGives(toks: seq<string>, p3: nat, lowcode: U32, highcode: U32, start: string, t: Tables,
                  base: CidSet, resolve: (CidSet, U16) -> seq<U16>, c: U32)
    requires p3 <= |toks| && highcode < 0xFFFF_FFFF && Resolves(t) && start != "[" && |WideOf(start)| == 1
    requires lowcode <= highcode ==> CodeOf(start) % 0x1_0000 + (highcode - lowcode) < 0xFFFF
    ensures Resolves(UnitRange(t, lowcode, highcode, CodeOf(start)))
    ensures LookupIn(UnitRange(t, lowcode, highcode, CodeOf(start)), base, resolve, c)
         == match RangeGives(toks, p3, lowcode, highcode, start, c) case Some(d) => d case None => LookupIn(t, base, resolve, c)
  {
    if lowcode <= highcode {
      UnitRangeResolves(t, lowcode, highcode, CodeOf(start));
      UnitRangeLookup(t, lowcode, highcode, CodeOf(start), base, resolve, c);
      if lowcode <= c <= highcode {
        assert CodeOf(start) % 0x1_0000 + (c - lowcode) == (CodeOf(start) + (c - lowcode)) % 0x1_0000;
      }
    }
  }

  /** One string-form range, while the pool stays within 65536 units: what `RangeGives` says, or as before. */
  lemma StringGives(toks: seq<string>, p3: nat, lowcode: U32, highcode: U32, start: string, t: Tables,
                    base: CidSet, resolve: (CidSet, U16) -> seq<U16>, c: U32)
    requires p3 <= |toks| && highcode < 0xFFFF_FFFF && Resolves(t) && start != "[" && |WideOf(start)| != 1
    requires |StringRange(t, lowcode, lowcode, highcode, WideOf(start)).pool| <= 0x1_0000
    ensures Resolves(StringRange(t, lowcode, lowcode, highcode, WideOf(start)))
    ensures LookupIn(StringRange(t, lowcode, lowcode, highcode, WideOf(start)), base, resolve, c)
         == match RangeGives(toks, p3, lowcode, highcode, start, c) case Some(d) => d case None => LookupIn(t, base, resolve, c)
  {
    StringRangeResolves(t, lowcode, lowcode, highcode, WideOf(start));
    StringRangeLookup(t, lowcode, lowcode, highcode, WideOf(start), base, resolve, c);
  }

  /**
   * A `bfrange` block of any number of ranges, of all three forms, while the
   * pool stays within 65536 units and every range stays clear of the marker:
   * a code covered by some range looks up to what the last such range gives
   * it, and every other code looks up as before.
   */
  lemma {:induction false} BfrangeLookup(toks: seq<string>, pos: nat, t: Tables,
                                         base: CidSet, resolve: (CidSet, U16) -> seq<U16>, c: U32)
    requires pos <= |toks| && Resolves(t) && BfrangeClear(toks, pos)
    requires |Bfrange(toks, pos, t).1.pool| <= 0x1_0000
    ensures LookupIn(Bfrange(toks, pos, t).1, base, resolve, c)
         == match BfrangeLast(toks, pos, c) case Some(d) => d case None => LookupIn(t, base, resolve, c)
    decreases |toks| - pos
  {
    var (low, p1) := GetWord(toks, pos);
    if low != "" && low != "endbfrange" {
      var (high, p2) := GetWord(toks, p1);
      var lowcode := CodeOf(low);
      var highcode := RangeHigh(lowcode, CodeOf(high));
      if highcode != 0xFFFF_FFFF {
        var (start, p3) := GetWord(toks, p2);
        if start == "[" {
          var (p4, t1) := ArrayRange(toks, p3, lowcode, highcode, t);
          var p5 := GetWord(toks, p4).1;
          ArrayEnd(toks, p3, lowcode, highcode, t);
          assert Bfrange(toks, pos, t) == Bfrange(toks, p5, t1);
          assert |t1.pool| <= |Bfrange(toks, p5, t1).1.pool|;
          ArrayGives(toks, p3, lowcode, highcode, t, base, resolve, c);
          BfrangeLookup(toks, p5, t1, base, resolve, c);
        } else if |WideOf(start)| == 1 {
          var t1 := UnitRange(t, lowcode, highcode, CodeOf(start));
          assert Bfrange(toks, pos, t) == Bfrange(toks, p3, t1);
          assert |t1.pool| <= |Bfrange(toks, p3, t1).1.pool|;
          UnitGives(toks, p3, lowcode, highcode, start, t, base, resolve, c);
          BfrangeLookup(toks, p3, t1, base, resolve, c);
        } else {
          var t1 := StringRange(t, lowcode, lowcode, highcode, WideOf(start));
          assert Bfrange(toks, pos, t) == Bfrange(toks, p3, t1);
          assert |t1.pool| <= |Bfrange(toks, p3, t1).1.pool|;
          StringGives(toks, p3, lowcode, highcode, start, t, base, resolve, c);
          BfrangeLookup(toks, p3, t1, base, resolve, c);
        }
      }
    }
  }

  // ---------------------------------------------------------------------------
  // The outer loop

  /** Every block of the stream from `pos` on stays clear of the marker. */
  predicate TopClear(toks: seq<string>, pos: nat)
    requires pos <= |toks|
    decreases |toks| - pos
  {
    var (w, p1) := GetWord(toks, pos);
    if w == "" then true
    else if w == "beginbfchar" then BfcharClear(toks, p1) && TopClear(toks, Bfchar(toks, p1, Empty).0)
    else if w == "beginbfrange" then BfrangeClear(toks, p1) && TopClear(toks, Bfrange(toks, p1, Empty).0)
    else TopClear(toks, p1)
  }

  /**
   * The outer loop keeps every pool reference inside the pool, while the pool
   * stays within 65536 units and every block stays clear of the marker.
   */
  lemma {:induction false} TopResolves(toks: seq<string>, pos: nat, t: Tables, cid: CidSet)
    requires pos <= |toks| && Resolves(t) && TopClear(toks, pos)
    requires |Top(toks, pos, t, cid).0.pool| <= 0x1_0000
    ensures Resolves(Top(toks, pos, t, cid).0)
    decreases |toks| - pos
  {
    var (w, p1) := GetWord(toks, pos);
    if w == "beginbfchar" {
      var (p2, t1) := Bfchar(toks, p1, t);
      BfcharEnd(toks, p1, t);
      assert |t1.pool| <= |Top(toks, p2, t1, cid).0.pool|;
      BfcharLookup(toks, p1, t, Unknown, (_, _) => [], 0);
      TopResolves(toks, p2, t1, cid);
    } else if w == "beginbfrange" {
      var (p2, t1) := Bfrange(toks, p1, t);
      BfrangeEnd(toks, p1, t);
      assert |t1.pool| <= |Top(toks, p2, t1, cid).0.pool|;
      BfrangeResolves(toks, p1, t);
      TopResolves(toks, p2, t1, cid);
    } else if w != "" {
      TopResolves(toks, p1, t, NextCid(w, cid));
    }
  }

  /** Load keeps every pool reference inside the pool, under the same conditions. */
  lemma LoadResolves(toks: seq<string>, t: Tables)
    requires Resolves(t) && TopClear(toks, 0) && |Load(toks, t).0.pool| <= 0x1_0000
    ensures Resolves(Load(toks, t).0)
  {
    TopResolves(toks, 0, t, Unknown);
  }

  /** The words the outer loop reads itself: every word outside the blocks, and the words that open them. */
  function OuterWords(toks: seq<string>, pos: nat): (ws: seq<string>)
    requires pos <= |toks|
    ensures |ws| <= |toks| - pos
    decreases |toks| - pos
  {
    var (w, p1) := GetWord(toks, pos);
    if w == "" then []
    else if w == "beginbfchar" then [w] + OuterWords(toks, Bfchar(toks, p1, Empty).0)
    else if w == "beginbfrange" then [w] + OuterWords(toks, Bfrange(toks, p1, Empty).0)
    else [w] + OuterWords(toks, p1)
  }

  /**
   * The collection the outer loop selects is that of the last marker word it
   * reads itself, whatever blocks stand between; a marker word inside a block
   * is a code or a destination there and selects nothing.
   */
  lemma {:induction false} TopCollection(toks: seq<string>, pos: nat, t: Tables, cid: CidSet)
    requires pos <= |toks|
    ensures Top(toks, pos, t, cid).1 == LastMarker(OuterWords(toks, pos), cid)
    decreases |toks| - pos
  {
    var (w, p1) := GetWord(toks, pos);
    if w != "" {
      var p2 := if w == "beginbfchar" then Bfchar(toks, p1, Empty).0
                else if w == "beginbfrange" then Bfrange(toks, p1, Empty).0
                else p1;
      var rest := OuterWords(toks, p2);
      assert OuterWords(toks, pos) == [w] + rest;
      LastMarkerFront([w] + rest, cid);
      assert ([w] + rest)[1..] == rest;
      if w == "beginbfchar" {
        BfcharEnd(toks, p1, t);
        TopCollection(toks, p2, Bfchar(toks, p1, t).1, cid);
      } else if w == "beginbfrange" {
        BfrangeEnd(toks, p1, t);
        TopCollection(toks, p2, Bfrange(toks, p1, t).1, cid);
      } else {
        TopCollection(toks, p2, t, NextCid(w, cid));
      }
    }
  }

  /** Load selects the collection of the last marker word outside the blocks, or none. */
  lemma LoadCollection(toks: seq<string>, t: Tables)
    ensures Load(toks, t).1 == LastMarker(OuterWords(toks, 0), Unknown)
  {
    TopCollection(toks, 0, t, Unknown);
  }

  /**
   * The destination the blocks of the stream from `pos` on leave for code
   * `c`: that of the last block that gives it one (later blocks overwrite
   * earlier ones), or None if no block does.
   */
  function TopLast(toks: seq<string>, pos: nat, c: U32): Option<seq<U16>>
    requires pos <= |toks|
    decreases |toks| - pos
  {
    var (w, p1) := GetWord(toks, pos);
    if w == "" then None
    else if w == "beginbfchar" then
      var later := TopLast(toks, Bfchar(toks, p1, Empty).0, c);
      if later.Some? then later else BfcharLast(toks, p1, c)
    else if w == "beginbfrange" then
      var later := TopLast(toks, Bfrange(toks, p1, Empty).0, c);
      if later.Some? then later else BfrangeLast(toks, p1, c)
    else TopLast(toks, p1, c)
  }

  /**
   * The outer loop, while the pool stays within 65536 units and every block
   * stays clear of the marker: a code some block maps looks up to what the
   * last such block leaves it, and every other code looks up as before.
   */
  lemma {:induction false} TopLookup(toks: seq<string>, pos: nat, t: Tables, cid: CidSet,
                                     base: CidSet, resolve: (CidSet, U16) -> seq<U16>, c: U32)
    requires pos <= |toks| && Resolves(t) && TopClear(toks, pos)
    requires |Top(toks, pos, t, cid).0.pool| <= 0x1_0000
    ensures LookupIn(Top(toks, pos, t, cid).0, base, resolve, c)
         == match TopLast(toks, pos, c) case Some(d) => d case None => LookupIn(t, base, resolve, c)
    decreases |toks| - pos
  {
    var (w, p1) := GetWord(toks, pos);
    if w == "beginbfchar" {
      var (p2, t1) := Bfchar(toks, p1, t);
      BfcharEnd(toks, p1, t);
      assert |t1.pool| <= |Top(toks, p2, t1, cid).0.pool|;
      BfcharLookup(toks, p1, t, base, resolve, c);
      TopLookup(toks, p2, t1, cid, base, resolve, c);
    } else if w == "beginbfrange" {
      var (p2, t1) := Bfrange(toks, p1, t);
      BfrangeEnd(toks, p1, t);
      assert |t1.pool| <= |Top(toks, p2, t1, cid).0.pool|;
      BfrangeResolves(toks, p1, t);
      BfrangeLookup(toks, p1, t, base, resolve, c);
      TopLookup(toks, p2, t1, cid, base, resolve, c);
    } else if w != "" {
      TopLookup(toks, p1, t, NextCid(w, cid), base, resolve, c);
    }
  }

  /**
   * Lookup after Load, under the same conditions: a code some block maps
   * gives what the last such block leaves it; any other code goes to the old
   * tables, with the collection of the last marker word outside the blocks.
   */
  lemma LoadLookup(toks: seq<string>, t: Tables, resolve: (CidSet, U16) -> seq<U16>, c: U32)
    requires Resolves(t) && TopClear(toks, 0) && |Load(toks, t).0.pool| <= 0x1_0000
    ensures LookupIn(Load(toks, t).0, Load(toks, t).1, resolve, c)
         == match TopLast(toks, 0, c)
            case Some(d) => d
            case None => LookupIn(t, LastMarker(OuterWords(toks, 0), Unknown), resolve, c)
  {
    LoadCollection(toks, t);
    TopLookup(toks, 0, t, Unknown, Load(toks, t).1, resolve, c);
  }

  // ---------------------------------------------------------------------------
  // Streams read end to end

  /** The four hex digits of a value below 0x100: two zeros, then its two digits. */
  lemma HexByte(n: nat)
    requires n < 0x100
    ensures HexOf(n, 4) == ['0', '0', HexChar(n / 16), HexChar(n % 16)]
  {
    var a := n / 16;
    assert a < 16 && a / 16 == 0 && a % 16 == a;
    assert HexOf(0, 2) == ['0', '0'];
    assert HexOf(a, 3) == HexOf(0, 2) + [HexChar(a)];
  }

  /** The token `<00hh>` of a value below 0x100. */
  function ByteToken(n: nat): string
    requires n < 0x100
  {
    ['<', '0', '0', HexChar(n / 16), HexChar(n % 16), '>']
  }

  /** `<00hh>` read as a code and as a destination string. */
  lemma ByteTokenReads(n: nat)
    requires n < 0x100
    ensures CodeOf(ByteToken(n)) == n
    ensures WideOf(ByteToken(n)) == [n]
  {
    HexByte(n);
    assert ByteToken(n) == ['<'] + HexOf(n, 4) + ['>'];
    HexCodeRoundTrip(n, 4);
    assert HexUnits([n]) == HexOf(n, 4);
    WideRoundTrip([n]);
  }

  /** The stream `beginbfrange <0000> <0003> [<0041> <0042> <0043> <0044>] endbfrange`. */
  const ArrayStream: seq<string> :=
    ["beginbfrange", "<0000>", "<0003>", "[", "<0041>", "<0042>", "<0043>", "<0044>", "]", "endbfrange"]

  /** Its hex words, each `<00hh>`. */
  lemma ArrayStreamTokens()
    ensures ArrayStream[1] == ByteToken(0) && ArrayStream[2] == ByteToken(3)
    ensures ArrayStream[4] == ByteToken(0x41) && ArrayStream[5] == ByteToken(0x42)
    ensures ArrayStream[6] == ByteToken(0x43) && ArrayStream[7] == ByteToken(0x44)
  {
  }

  /** Four words that decode to the single units 0x41 to 0x44 give the destinations "A" to "D". */
  lemma FourLetters(toks: seq<string>, pos: nat)
    requires pos + 4 <= |toks|
    requires WideOf(toks[pos]) == [0x41] && WideOf(toks[pos + 1]) == [0x42]
    requires WideOf(toks[pos + 2]) == [0x43] && WideOf(toks[pos + 3]) == [0x44]
    ensures Dests(toks, pos, 4) == [[0x41], [0x42], [0x43], [0x44]]
  {
    DestsAt(toks, pos, 4, 0);
    DestsAt(toks, pos, 4, 1);
    DestsAt(toks, pos, 4, 2);
    DestsAt(toks, pos, 4, 3);
  }

  /** The words of the array-form stream decode to codes 0 and 3 and to "A" to "D". */
  lemma ArrayStreamWords()
    ensures CodeOf(ArrayStream[1]) == 0 && CodeOf(ArrayStream[2]) == 3
    ensures Dests(ArrayStream, 4, 4) == [[0x41], [0x42], [0x43], [0x44]]
  {
    ArrayStreamTokens();
    ByteTokenReads(0);
    ByteTokenReads(3);
    ByteTokenReads(0x41);
    ByteTokenReads(0x42);
    ByteTokenReads(0x43);
    ByteTokenReads(0x44);
    FourLetters(ArrayStream, 4);
  }

  /** `endbfrange` ends the range block. */
  lemma BfrangeEndWord(toks: seq<string>, pos: nat, t: Tables)
    requires pos < |toks| && toks[pos] == "endbfrange"
    ensures Bfrange(toks, pos, t) == (pos + 1, t)
  {
  }

  /** One range of the array form, `lo hi [ ... ]`, then the rest of the block. */
  lemma BfrangeArrayStep(toks: seq<string>, pos: nat, t: Tables)
    requires pos + 3 <= |toks| && toks[pos] != "" && toks[pos] != "endbfrange" && toks[pos + 2] == "["
    requires RangeHigh(CodeOf(toks[pos]), CodeOf(toks[pos + 1])) != 0xFFFF_FFFF
    ensures var r := ArrayRange(toks, pos + 3, CodeOf(toks[pos]), RangeHigh(CodeOf(toks[pos]), CodeOf(toks[pos + 1])), t);
            Bfrange(toks, pos, t) == Bfrange(toks, GetWord(toks, r.0).1, r.1)
  {
  }

  /** A block holding one array-form range and then `endbfrange`. */
  lemma BfrangeOneArray(toks: seq<string>, pos: nat, t: Tables, lo: U32, hi: U32)
    requires pos + 3 <= |toks| && toks[pos] != "" && toks[pos] != "endbfrange" && toks[pos + 2] == "["
    requires CodeOf(toks[pos]) == lo && RangeHigh(lo, CodeOf(toks[pos + 1])) == hi && hi < 0xFFFF_FFFF
    requires ArrayRange(toks, pos + 3, lo, hi, t).0 + 1 < |toks|
    requires toks[ArrayRange(toks, pos + 3, lo, hi, t).0 + 1] == "endbfrange"
    ensures Bfrange(toks, pos, t) == (ArrayRange(toks, pos + 3, lo, hi, t).0 + 2, ArrayRange(toks, pos + 3, lo, hi, t).1)
  {
    var r := ArrayRange(toks, pos + 3, lo, hi, t);
    BfrangeArrayStep(toks, pos, t);
    BfrangeEndWord(toks, r.0 + 1, r.1);
  }

  /** The one range of a stream of the array form's shape, from its low word to its `]`. */
  lemma ArrayShapeRange(toks: seq<string>)
    requires |toks| == 10 && toks[3] == "[" && toks[9] == "endbfrange"
    requires toks[1] != "" && toks[1] != "endbfrange" && CodeOf(toks[1]) == 0 && CodeOf(toks[2]) == 3
    ensures Bfrange(toks, 1, Empty) == (10, ArrayRange(toks, 4, 0, 3, Empty).1)
  {
    assert RangeHigh(0, 3) == 3;
    assert ArrayRange(toks, 4, 0, 3, Empty).0 == 8;
    BfrangeOneArray(toks, 1, Empty, 0, 3);
  }

  /**
   * A stream of the array form's shape, `beginbfrange lo hi [ d0 d1 d2 d3 ] endbfrange`
   * with codes 0 and 3, loads to the tables the array form fills, with no collection.
   */
  lemma ArrayShapeTables(toks: seq<string>)
    requires |toks| == 10 && toks[0] == "beginbfrange" && toks[3] == "[" && toks[8] == "]" && toks[9] == "endbfrange"
    requires toks[1] != "" && toks[1] != "endbfrange" && CodeOf(toks[1]) == 0 && CodeOf(toks[2]) == 3
    ensures Load(toks, Empty) == (ArrayRange(toks, 4, 0, 3, Empty).1, Unknown)
  {
    var t1 := ArrayRange(toks, 4, 0, 3, Empty).1;
    ArrayShapeRange(toks);
    assert Top(toks, 0, Empty, Unknown) == Top(toks, 10, t1, Unknown);
  }

  /** Storing "A" to "D" for codes 0 to 3 into empty tables maps code `c` to 0x41 + c. */
  lemma LettersLookup(resolve: (CidSet, U16) -> seq<U16>, c: U32)
    ensures LookupIn(StoreAll(Empty, 0, [[0x41], [0x42], [0x43], [0x44]]), Unknown, resolve, c)
         == if c <= 3 then [0x41 + c] else []
  {
    var ds: seq<seq<U16>> := [[0x41], [0x42], [0x43], [0x44]];
    assert StoreAll(Empty, 0, ds).pool == [];
    assert NoSingleMax(ds);
    StoreAllLookup(Empty, 0, ds, Unknown, resolve, c);
    if c <= 3 {
      assert ds[c] == [0x41 + c];
    }
  }

  /** The array form from code 0 with the destinations "A" to "D" maps code `c` to 0x41 + c. */
  lemma ArrayOfLetters(toks: seq<string>, pos: nat, resolve: (CidSet, U16) -> seq<U16>, c: U32)
    requires pos <= |toks| && Dests(toks, pos, 4) == [[0x41], [0x42], [0x43], [0x44]]
    ensures LookupIn(ArrayRange(toks, pos, 0, 3, Empty).1, Unknown, resolve, c) == if c <= 3 then [0x41 + c] else []
  {
    var ds := Dests(toks, pos, 4);
    ArrayRangeStores(toks, pos, 0, 3, Empty);
    assert ArrayRange(toks, pos, 0, 3, Empty).1 == StoreAll(Empty, 0, ds);
    LettersLookup(resolve, c);
  }

  /**
   * Loading `beginbfrange <0000> <0003> [<0041> <0042> <0043> <0044>] endbfrange`
   * maps codes 0 to 3 to "A" to "D" (code 2 to [0x43]) and nothing else.
   */
  lemma ArrayStreamLookup(resolve: (CidSet, U16) -> seq<U16>, c: U32)
    ensures Load(ArrayStream, Empty).1 == Unknown
    ensures LookupIn(Load(ArrayStream, Empty).0, Unknown, resolve, c) == if c <= 3 then [0x41 + c] else []
  {
    ArrayStreamWords();
    ArrayShapeTables(ArrayStream);
    ArrayOfLetters(ArrayStream, 4, resolve, c);
  }

  /** The stream `beginbfchar <0041> <0061> endbfchar` maps code 0x41 to "a" and nothing else. */
  lemma BfcharStreamLookup(resolve: (CidSet, U16) -> seq<U16>, c: U32)
    ensures var r := Load(["beginbfchar", "<0041>", "<0061>", "endbfchar"], Empty);
      r.1 == Unknown && LookupIn(r.0, r.1, resolve, c) == if c == 0x41 then [0x61] else []
  {
    var toks := ["beginbfchar", "<0041>", "<0061>", "endbfchar"];
    assert toks[1] == ByteToken(0x41) && toks[2] == ByteToken(0x61);
    ByteTokenReads(0x41);
    ByteTokenReads(0x61);
    OnePairLoad(toks[1], toks[2]);
    assert toks == ["beginbfchar", toks[1], toks[2], "endbfchar"];
    StoreDestLookup(Empty, 0x41, [0x61], Unknown, resolve, c);
  }
}
