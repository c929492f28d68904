// CPDF_ToUnicodeMap::Lookup on the tables the loader builds, and what the
// loader's steps do to it: where a stored destination can be read back, where
// the packed-word encoding loses it (a single 0xFFFF unit, a pool past 2^16
// units), and what each form of `bfrange` maps.

module CMapLookup {
  import opened Common
  import opened CMapLiterals
  import opened CMapSpec

  /** The record at offset `i` lies inside the pool: its length unit and all its units. */
  predicate RecordFits(pool: seq<U16>, i: nat) {
    i < |pool| && i + pool[i] < |pool|
  }

  /** The units of the record at offset `i`. */
  function Record(pool: seq<U16>, i: nat): seq<U16>
    requires RecordFits(pool, i)
  {
    pool[i + 1..i + 1 + pool[i]]
  }

  /**
   * Lookup: a mapped code whose word is not marked gives that unit; a marked
   * word gives its pool record when the record lies inside the pool and the
   * empty string otherwise; an unmapped code goes to the base map of the
   * collection, if there is one, with its low sixteen bits.
   */
  function LookupIn(t: Tables, base: CidSet, resolve: (CidSet, U16) -> seq<U16>, code: U32): (r: seq<U16>)
    ensures code !in t.charMap ==> r == (if base == Unknown then [] else resolve(base, code % 0x1_0000))
    ensures code in t.charMap && t.charMap[code] % 0x1_0000 != 0xFFFF ==> r == [t.charMap[code] % 0x1_0000]
    ensures code in t.charMap && t.charMap[code] % 0x1_0000 == 0xFFFF ==>
      r == if RecordFits(t.pool, t.charMap[code] / 0x1_0000) then Record(t.pool, t.charMap[code] / 0x1_0000) else []
  {
    if code in t.charMap then
      var value := t.charMap[code];
      var unicode := value % 0x1_0000;
      if unicode != 0xFFFF then [unicode]
      else if |t.pool| == 0 then []
      else
        var index := value / 0x1_0000;
        if index >= |t.pool| then []
        else
          var len := t.pool[index];
          if (index + len) % 0x1_0000_0000 < index || index + len >= |t.pool| then []
          else t.pool[index + 1..index + 1 + len]
    else if base != Unknown then resolve(base, code % 0x1_0000)
    else []
  }

  /** Every marked word of the map points at a record that lies inside the pool. */
  ghost predicate Resolves(t: Tables) {
    forall c :: c in t.charMap && t.charMap[c] % 0x1_0000 == 0xFFFF ==> RecordFits(t.pool, t.charMap[c] / 0x1_0000)
  }

  /** A destination that the packed encoding can store and give back. */
  predicate Storable(t: Tables, d: seq<U16>) {
    (|d| == 1 ==> d[0] != 0xFFFF) && (|d| >= 2 ==> |t.pool| + 1 + |d| <= 0x1_0000)
  }

  /** Appending to the pool leaves every record that fitted where it was. */
  lemma RecordKept(t: Tables, t2: Tables, i: nat)
    requires Extends(t, t2) && RecordFits(t.pool, i)
    ensures RecordFits(t2.pool, i) && Record(t2.pool, i) == Record(t.pool, i)
  {
    var n := |t.pool|;
    assert forall k :: 0 <= k < n ==> t2.pool[k] == t2.pool[..n][k] == t.pool[k];
    assert t2.pool[i + 1..i + 1 + t.pool[i]] == t.pool[i + 1..i + 1 + t.pool[i]];
  }

  /** `t2` maps `c` as `t` does. */
  predicate SameEntry(t: Tables, t2: Tables, c: U32) {
    (c in t2.charMap <==> c in t.charMap) && (c in t.charMap ==> t2.charMap[c] == t.charMap[c])
  }

  /** A code mapped as before, over a pool that only grew, looks up as before. */
  lemma LookupKept(t: Tables, t2: Tables, base: CidSet, resolve: (CidSet, U16) -> seq<U16>, c: U32)
    requires Resolves(t) && Extends(t, t2) && SameEntry(t, t2, c)
    ensures LookupIn(t2, base, resolve, c) == LookupIn(t, base, resolve, c)
  {
    if c in t.charMap && t.charMap[c] % 0x1_0000 == 0xFFFF {
      RecordKept(t, t2, t.charMap[c] / 0x1_0000);
    }
  }

  /** Growing the pool and changing only the entry of `code` keeps every other record inside the pool. */
  lemma ResolvesKept(t: Tables, t2: Tables, code: U32)
    requires Resolves(t) && Extends(t, t2)
    requires forall c :: c != code ==> SameEntry(t, t2, c)
    requires code in t2.charMap && t2.charMap[code] % 0x1_0000 == 0xFFFF ==>
      RecordFits(t2.pool, t2.charMap[code] / 0x1_0000)
    ensures Resolves(t2)
  {
    forall c | c in t2.charMap && t2.charMap[c] % 0x1_0000 == 0xFFFF
      ensures RecordFits(t2.pool, t2.charMap[c] / 0x1_0000)
    {
      if c != code {
        assert SameEntry(t, t2, c);
        RecordKept(t, t2, t.charMap[c] / 0x1_0000);
      }
    }
  }

  /** A record appended to a pool of fewer than 65536 units lies inside the new pool. */
  lemma AppendedFits(t: Tables, code: U32, d: seq<U16>)
    requires |t.pool| + 1 + |d| <= 0x1_0000
    ensures Extends(t, AppendRecord(t, code, d))
    ensures AppendRecord(t, code, d).charMap[code] / 0x1_0000 == |t.pool|
    ensures RecordFits(AppendRecord(t, code, d).pool, |t.pool|)
    ensures Record(AppendRecord(t, code, d).pool, |t.pool|) == d
  {
    var t2 := AppendRecord(t, code, d);
    assert t2.pool[..|t.pool|] == t.pool;
    assert t2.pool[|t.pool|] == |d|;
  }

  /** An appended record keeps every record inside the pool. */
  lemma AppendResolves(t: Tables, code: U32, d: seq<U16>)
    requires Resolves(t) && |t.pool| + 1 + |d| <= 0x1_0000
    ensures Resolves(AppendRecord(t, code, d))
  {
    AppendedFits(t, code, d);
    ResolvesKept(t, AppendRecord(t, code, d), code);
  }

  /** An appended record is what its code looks up to; every other code looks up as before. */
  lemma AppendLookup(t: Tables, code: U32, d: seq<U16>, base: CidSet, resolve: (CidSet, U16) -> seq<U16>, c: U32)
    requires Resolves(t) && |t.pool| + 1 + |d| <= 0x1_0000
    ensures LookupIn(AppendRecord(t, code, d), base, resolve, c) == if c == code then d else LookupIn(t, base, resolve, c)
  {
    AppendedFits(t, code, d);
    if c != code {
      assert SameEntry(t, AppendRecord(t, code, d), c);
      LookupKept(t, AppendRecord(t, code, d), base, resolve, c);
    }
  }

  /**
   * Storing a destination that the encoding can hold keeps every record
   * inside the pool.
   */
  lemma StoreDestResolves(t: Tables, code: U32, d: seq<U16>)
    requires Resolves(t) && Storable(t, d)
    ensures Resolves(StoreDest(t, code, d))
  {
    StoreDestExtends(t, code, d);
    if |d| >= 2 {
      AppendedFits(t, code, d);
    }
    ResolvesKept(t, StoreDest(t, code, d), code);
  }

  /**
   * Storing a destination that the encoding can hold: afterwards the code
   * looks up to exactly that destination (or is left alone when it is empty),
   * and every other code looks up as before.
   */
  lemma StoreDestLookup(t: Tables, code: U32, d: seq<U16>, base: CidSet, resolve: (CidSet, U16) -> seq<U16>, c: U32)
    requires Resolves(t) && Storable(t, d)
    ensures LookupIn(StoreDest(t, code, d), base, resolve, c)
         == if c == code && |d| > 0 then d else LookupIn(t, base, resolve, c)
  {
    var t2 := StoreDest(t, code, d);
    StoreDestExtends(t, code, d);
    if c == code && |d| >= 2 {
      AppendedFits(t, code, d);
    } else if c != code || |d| == 0 {
      assert SameEntry(t, t2, c);
      LookupKept(t, t2, base, resolve, c);
    }
  }

  /**
   * The marker collides with a unit: a destination of the single unit 0xFFFF
   * is stored as the word 0xFFFF, which reads as a record at offset 0, so with
   * an empty pool the code looks up to the empty string, not to U+FFFF.
   */
  lemma SingleMaxCollides(t: Tables, code: U32, base: CidSet, resolve: (CidSet, U16) -> seq<U16>)
    requires t.pool == []
    ensures LookupIn(StoreDest(t, code, [0xFFFF]), base, resolve, code) == []
  {
  }

  /**
   * Offsets wrap: with 65536 units already in the pool, a new record's word
   * points at offset 0, so the code reads the pool's first record instead of
   * its own destination.
   */
  lemma AppendWraps(t: Tables, code: U32, d: seq<U16>, base: CidSet, resolve: (CidSet, U16) -> seq<U16>)
    requires |t.pool| == 0x1_0000 && RecordFits(t.pool, 0)
    ensures LookupIn(AppendRecord(t, code, d), base, resolve, code) == Record(t.pool, 0)
  {
    var t2 := AppendRecord(t, code, d);
    assert Extends(t, t2) by {
      assert t2.pool[..|t.pool|] == t.pool;
    }
    RecordKept(t, t2, 0);
  }

  // ---------------------------------------------------------------------------
  // bfrange

  /** The last code of 0xFFFFFFFF that ends a `bfrange` block: both directions. */
  lemma RangeHighMax(lo: U32, high: U32)
    ensures RangeHigh(lo, high) == 0xFFFF_FFFF <==> lo >= 0xFFFF_FF00 && high % 0x100 == 0xFF
  {
  }

  /** A range covers at most 256 codes, all sharing the top 24 bits of the low code. */
  lemma RangeAtMost256(lo: U32, high: U32)
    ensures RangeHigh(lo, high) < lo + 0x100
    ensures forall c :: lo <= c <= RangeHigh(lo, high) ==> c / 0x100 == lo / 0x100
  {
  }

  /** Dropping whole multiples of 2^32 keeps the low sixteen bits. */
  lemma Low16OfWord(v: nat)
    ensures v % 0x1_0000_0000 % 0x1_0000 == v % 0x1_0000
  {
    var q := v / 0x1_0000_0000;
    assert v == v % 0x1_0000_0000 + (q * 0x1_0000) * 0x1_0000;
  }

  /**
   * The single-unit form stores the word `value + i` (modulo 2^32) for code
   * `code + i` and leaves every code outside the range as it was.
   */
  lemma {:induction false} UnitRangeEntry(t: Tables, code: nat, hi: nat, value: U32, c: U32)
    requires hi < 0xFFFF_FFFF
    ensures code <= c <= hi ==>
      c in UnitRange(t, code, hi, value).charMap
      && UnitRange(t, code, hi, value).charMap[c] == (value + (c - code)) % 0x1_0000_0000
    ensures !(code <= c <= hi) ==> SameEntry(t, UnitRange(t, code, hi, value), c)
    decreases hi + 1 - code
  {
    if code <= hi {
      var t1 := t.(charMap := t.charMap[code := value]);
      var next := (value + 1) % 0x1_0000_0000;
      UnitRangeEntry(t1, code + 1, hi, next, c);
      if code < c {
        assert (next + (c - (code + 1))) % 0x1_0000_0000 == (value + (c - code)) % 0x1_0000_0000;
      }
    }
  }

  /** The low sixteen bits of the word stored for code `c`, while they stay below 0xFFFF. */
  lemma UnitRangeLow(code: nat, hi: nat, value: U32, c: U32)
    requires value % 0x1_0000 + (hi - code) < 0xFFFF
    ensures code <= c <= hi ==>
      (value + (c - code)) % 0x1_0000_0000 % 0x1_0000 == value % 0x1_0000 + (c - code)
  {
    if code <= c <= hi {
      var v := value + (c - code);
      Low16OfWord(v);
      assert v == value / 0x1_0000 * 0x1_0000 + (value % 0x1_0000 + (c - code));
    }
  }

  /**
   * The single-unit form: code `lowcode + i` looks up to the unit `start + i`,
   * as long as those units stay below the 0xFFFF marker; other codes are
   * untouched.
   */
  lemma UnitRangeLookup(t: Tables, code: nat, hi: nat, value: U32, base: CidSet, resolve: (CidSet, U16) -> seq<U16>,
                        c: U32)
    requires hi < 0xFFFF_FFFF && value % 0x1_0000 + (hi - code) < 0xFFFF
    ensures LookupIn(UnitRange(t, code, hi, value), base, resolve, c)
         == if code <= c <= hi then [value % 0x1_0000 + (c - code)] else LookupIn(t, base, resolve, c)
  {
    var r := UnitRange(t, code, hi, value);
    UnitRangeEntry(t, code, hi, value, c);
    UnitRangeLow(code, hi, value, c);
    if code <= c <= hi {
    } else if c in t.charMap && t.charMap[c] % 0x1_0000 == 0xFFFF {
      assert r.charMap[c] == t.charMap[c];
    }
  }

  /** The single-unit form keeps every record inside the pool while its units stay below 0xFFFF. */
  lemma UnitRangeResolves(t: Tables, code: nat, hi: nat, value: U32)
    requires hi < 0xFFFF_FFFF && value % 0x1_0000 + (hi - code) < 0xFFFF && Resolves(t)
    ensures Resolves(UnitRange(t, code, hi, value))
  {
    var r := UnitRange(t, code, hi, value);
    forall c | c in r.charMap && r.charMap[c] % 0x1_0000 == 0xFFFF
      ensures RecordFits(r.pool, r.charMap[c] / 0x1_0000)
    {
      UnitRangeEntry(t, code, hi, value, c);
      UnitRangeLow(code, hi, value, c);
    }
  }

  /** `Increment` applied `n` times: the destination a later code of the string form gets. */
  function Successor(s: seq<U16>, n: nat): seq<U16>
    decreases n
  {
    if n == 0 then s else Successor(Increment(s), n - 1)
  }

  /** The record the string form stores for code `c`. */
  function StringAt(lowcode: nat, code: nat, prev: seq<U16>, c: nat): seq<U16>
    requires lowcode <= code <= c
  {
    Successor(prev, c - code + (if code == lowcode then 0 else 1))
  }

  /** One step of the string form. */
  lemma StringRangeUnfold(t: Tables, lowcode: U32, code: nat, hi: nat, prev: seq<U16>)
    requires hi < 0xFFFF_FFFF && code <= hi
    ensures var ret := if code == lowcode then prev else Increment(prev);
      StringRange(t, lowcode, code, hi, prev) == StringRange(AppendRecord(t, code, ret), lowcode, code + 1, hi, ret)
      && |t.pool| + 1 + |ret| == |AppendRecord(t, code, ret).pool|
      <= |StringRange(t, lowcode, code, hi, prev).pool|
  {
  }

  /** Where the record of code `c` comes from, one step into the string form. */
  lemma StringAtStep(lowcode: nat, code: nat, prev: seq<U16>, c: nat)
    requires lowcode <= code <= c
    ensures var ret := if code == lowcode then prev else Increment(prev);
      (c == code ==> StringAt(lowcode, code, prev, c) == ret)
      && (code < c ==> StringAt(lowcode, code, prev, c) == StringAt(lowcode, code + 1, ret, c))
  {
    if code != lowcode {
      assert Successor(prev, c - code + 1) == Successor(Increment(prev), c - code);
    }
    assert Successor(prev, 1) == Successor(Increment(prev), 0);
  }

  /** The string form keeps every record inside the pool while the pool stays within 65536 units. */
  lemma {:induction false} StringRangeResolves(t: Tables, lowcode: U32, code: nat, hi: nat, prev: seq<U16>)
    requires hi < 0xFFFF_FFFF && Resolves(t)
    requires |StringRange(t, lowcode, code, hi, prev).pool| <= 0x1_0000
    ensures Resolves(StringRange(t, lowcode, code, hi, prev))
    decreases hi + 1 - code
  {
    if code <= hi {
      var ret := if code == lowcode then prev else Increment(prev);
      StringRangeUnfold(t, lowcode, code, hi, prev);
      AppendResolves(t, code, ret);
      StringRangeResolves(AppendRecord(t, code, ret), lowcode, code + 1, hi, ret);
    }
  }

  /**
   * The string form: each code `lowcode + i` looks up to the destination
   * incremented `i` times, provided the pool stays within 65536 units; other
   * codes are untouched.
   */
  lemma {:induction false} StringRangeLookup(t: Tables, lowcode: U32, code: nat, hi: nat, prev: seq<U16>,
                                             base: CidSet, resolve: (CidSet, U16) -> seq<U16>, c: U32)
    requires hi < 0xFFFF_FFFF && lowcode <= code && Resolves(t)
    requires |StringRange(t, lowcode, code, hi, prev).pool| <= 0x1_0000
    ensures LookupIn(StringRange(t, lowcode, code, hi, prev), base, resolve, c)
         == if code <= c <= hi then StringAt(lowcode, code, prev, c) else LookupIn(t, base, resolve, c)
    decreases hi + 1 - code
  {
    if code <= hi {
      var ret := if code == lowcode then prev else Increment(prev);
      StringRangeUnfold(t, lowcode, code, hi, prev);
      AppendResolves(t, code, ret);
      AppendLookup(t, code, ret, base, resolve, c);
      StringRangeLookup(AppendRecord(t, code, ret), lowcode, code + 1, hi, ret, base, resolve, c);
      if code <= c {
        StringAtStep(lowcode, code, prev, c);
      }
    }
  }

  /** Store `ds[i]` for code `code + i`, in order: the array form once its words are decoded. */
  function StoreAll(t: Tables, code: nat, ds: seq<seq<U16>>): (r: Tables)
    requires code + |ds| <= 0x1_0000_0000
    ensures Extends(t, r)
    decreases |ds|
  {
    if ds == [] then t
    else
      var t1 := StoreDest(t, code, ds[0]);
      StoreDestExtends(t, code, ds[0]);
      var r := StoreAll(t1, code + 1, ds[1..]);
      ExtendsTrans(t, t1, r);
      r
  }

  /** The `n` words the reader returns from the cursor on. */
  function Words(toks: seq<string>, pos: nat, n: nat): (ws: seq<string>)
    requires pos <= |toks|
    ensures |ws| == n
    decreases n
  {
    if n == 0 then [] else [WordAt(toks, pos)] + Words(toks, GetWord(toks, pos).1, n - 1)
  }

  /** Word `i` is the one the reader returns `i` places after the cursor. */
  lemma {:induction false} WordsAt(toks: seq<string>, pos: nat, n: nat, i: nat)
    requires pos <= |toks| && i < n
    ensures Words(toks, pos, n)[i] == WordAt(toks, pos + i)
    decreases n
  {
    if i > 0 {
      WordsAt(toks, GetWord(toks, pos).1, n - 1, i - 1);
    }
  }

  /** Each word decoded as a destination string. */
  function Decoded(ws: seq<string>): (ds: seq<seq<U16>>)
    ensures |ds| == |ws|
  {
    if ws == [] then [] else [WideOf(ws[0])] + Decoded(ws[1..])
  }

  lemma {:induction false} DecodedAt(ws: seq<string>, i: nat)
    requires i < |ws|
    ensures Decoded(ws)[i] == WideOf(ws[i])
  {
    if i > 0 {
      DecodedAt(ws[1..], i - 1);
    }
  }

  /** The destinations the array form decodes for `n` codes, from the words at the cursor on. */
  function Dests(toks: seq<string>, pos: nat, n: nat): (ds: seq<seq<U16>>)
    requires pos <= |toks|
    ensures |ds| == n
  {
    Decoded(Words(toks, pos, n))
  }

  /** Destination `i` is the decoded word `i` places after the cursor. */
  lemma DestsAt(toks: seq<string>, pos: nat, n: nat, i: nat)
    requires pos <= |toks| && i < n
    ensures Dests(toks, pos, n)[i] == WideOf(WordAt(toks, pos + i))
  {
    WordsAt(toks, pos, n, i);
    DecodedAt(Words(toks, pos, n), i);
  }

  lemma DestsStep(toks: seq<string>, pos: nat, n: nat)
    requires pos <= |toks| && 0 < n
    ensures Dests(toks, pos, n)[1..] == Dests(toks, GetWord(toks, pos).1, n - 1)
  {
    var ws := Words(toks, pos, n);
    assert ws[1..] == Words(toks, GetWord(toks, pos).1, n - 1);
  }

  lemma ArrayRangeStep(toks: seq<string>, pos: nat, code: nat, hi: nat, t: Tables)
    requires pos <= |toks| && hi < 0xFFFF_FFFF && code <= hi
    ensures ArrayRange(toks, pos, code, hi, t).1
         == ArrayRange(toks, GetWord(toks, pos).1, code + 1, hi, StoreDest(t, code, WideOf(WordAt(toks, pos)))).1
  {
  }

  /** The array form stores the decoded words of the codes in turn. */
  lemma {:induction false} ArrayRangeStores(toks: seq<string>, pos: nat, code: nat, hi: nat, t: Tables)
    requires pos <= |toks| && hi < 0xFFFF_FFFF && code <= hi + 1
    ensures ArrayRange(toks, pos, code, hi, t).1 == StoreAll(t, code, Dests(toks, pos, hi + 1 - code))
    decreases hi + 1 - code
  {
    if code <= hi {
      var d, p1 := WideOf(WordAt(toks, pos)), GetWord(toks, pos).1;
      ArrayRangeStep(toks, pos, code, hi, t);
      ArrayRangeStores(toks, p1, code + 1, hi, StoreDest(t, code, d));
      DestsAt(toks, pos, hi + 1 - code, 0);
      DestsStep(toks, pos, hi + 1 - code);
    }
  }

  /** Storing a run of storable destinations keeps every record inside the pool. */
  lemma {:induction false} StoreAllResolves(t: Tables, code: nat, ds: seq<seq<U16>>)
    requires code + |ds| <= 0x1_0000_0000 && Resolves(t)
    requires NoSingleMax(ds)
    requires |StoreAll(t, code, ds).pool| <= 0x1_0000
    ensures Resolves(StoreAll(t, code, ds))
    decreases |ds|
  {
    if ds != [] {
      var t1 := StoreDest(t, code, ds[0]);
      assert |t1.pool| <= |StoreAll(t, code, ds).pool|;
      StoreDestResolves(t, code, ds[0]);
      StoreAllResolves(t1, code + 1, ds[1..]);
    }
  }

  /**
   * Storing a run of storable destinations: code `code + i` looks up to
   * `ds[i]` unless that is empty; every other code looks up as before.
   */
  lemma {:induction false} StoreAllLookup(t: Tables, code: nat, ds: seq<seq<U16>>,
                                          base: CidSet, resolve: (CidSet, U16) -> seq<U16>, c: U32)
    requires code + |ds| <= 0x1_0000_0000 && Resolves(t)
    requires NoSingleMax(ds)
    requires |StoreAll(t, code, ds).pool| <= 0x1_0000
    ensures LookupIn(StoreAll(t, code, ds), base, resolve, c)
         == if code <= c < code + |ds| && ds[c - code] != [] then ds[c - code] else LookupIn(t, base, resolve, c)
    decreases |ds|
  {
    if ds != [] {
      var t1 := StoreDest(t, code, ds[0]);
      assert |t1.pool| <= |StoreAll(t, code, ds).pool|;
      StoreDestResolves(t, code, ds[0]);
      StoreDestLookup(t, code, ds[0], base, resolve, c);
      StoreAllLookup(t1, code + 1, ds[1..], base, resolve, c);
      if code < c < code + |ds| {
        assert ds[1..][c - (code + 1)] == ds[c - code];
      }
    }
  }

  /** No destination is the single unit 0xFFFF, which would read back as a record marker. */
  predicate NoSingleMax(ds: seq<seq<U16>>) {
    forall i :: 0 <= i < |ds| ==> ds[i] != [0xFFFF]
  }

  /**
   * The array form keeps every record inside the pool, provided no word
   * decodes to the single unit 0xFFFF and the pool stays within 65536 units.
   */
  lemma ArrayRangeResolves(toks: seq<string>, pos: nat, code: nat, hi: nat, t: Tables)
    requires pos <= |toks| && hi < 0xFFFF_FFFF && code <= hi + 1 && Resolves(t)
    requires NoSingleMax(Dests(toks, pos, hi + 1 - code))
    requires |ArrayRange(toks, pos, code, hi, t).1.pool| <= 0x1_0000
    ensures Resolves(ArrayRange(toks, pos, code, hi, t).1)
  {
    ArrayRangeStores(toks, pos, code, hi, t);
    StoreAllResolves(t, code, Dests(toks, pos, hi + 1 - code));
  }

  /**
   * The array form, under the same conditions: code `code + i` looks up to
   * the i-th decoded word after `[` (the word itself is given by DestsAt),
   * or is left alone when that word decodes to nothing; other codes are
   * untouched.
   */
  lemma ArrayRangeLookup(toks: seq<string>, pos: nat, code: nat, hi: nat, t: Tables,
                         base: CidSet, resolve: (CidSet, U16) -> seq<U16>, c: U32)
    requires pos <= |toks| && hi < 0xFFFF_FFFF && code <= hi + 1 && Resolves(t)
    requires NoSingleMax(Dests(toks, pos, hi + 1 - code))
    requires |ArrayRange(toks, pos, code, hi, t).1.pool| <= 0x1_0000
    ensures LookupIn(ArrayRange(toks, pos, code, hi, t).1, base, resolve, c)
         == (var ds := Dests(toks, pos, hi + 1 - code);
             if code <= c <= hi && ds[c - code] != [] then ds[c - code] else LookupIn(t, base, resolve, c))
  {
    ArrayRangeStores(toks, pos, code, hi, t);
    StoreAllLookup(t, code, Dests(toks, pos, hi + 1 - code), base, resolve, c);
  }

  // ---------------------------------------------------------------------------
  // The whole stream

  /** The empty tables of a new map. */
  const Empty := Tables(map[], [])

  /** Load of a single `beginbfchar` block of one pair stores that pair and nothing else. */
  lemma OnePairLoad(src: string, dst: string)
    requires src != "" && src != "endbfchar"
    ensures Load(["beginbfchar", src, dst, "endbfchar"], Empty) == (StoreDest(Empty, CodeOf(src), WideOf(dst)), Unknown)
  {
    var toks := ["beginbfchar", src, dst, "endbfchar"];
    var t1 := StoreDest(Empty, CodeOf(src), WideOf(dst));
    assert Bfchar(toks, 3, t1) == (4, t1);
    assert Bfchar(toks, 1, Empty) == (4, t1);
    assert Top(toks, 4, t1, Unknown) == (t1, Unknown);
  }

  /**
   * A `beginbfchar` block of one pair read back: the hex source code `n`
   * (one to eight digits) looks up to the destination units `us`, and every
   * other code to nothing, as long as the encoding can hold `us`.
   */
  lemma BfcharRoundTrip(n: nat, k: nat, us: seq<U16>, resolve: (CidSet, U16) -> seq<U16>, c: U32)
    requires 1 <= k <= 8 && n < Pow16(k)
    requires 0 < |us| < 0xFFFF && (|us| == 1 ==> us[0] != 0xFFFF)
    ensures var r := Load(["beginbfchar", ['<'] + HexOf(n, k) + ['>'], ['<'] + HexUnits(us) + ['>'], "endbfchar"], Empty);
            r.1 == Unknown && LookupIn(r.0, r.1, resolve, c) == if c == n then us else []
  {
    var src := ['<'] + HexOf(n, k) + ['>'];
    assert src[0] == '<';
    OnePairLoad(src, ['<'] + HexUnits(us) + ['>']);
    HexCodeRoundTrip(n, k);
    WideRoundTrip(us);
    StoreDestLookup(Empty, n, us, Unknown, resolve, c);
  }

  /** The collection named by the last marker among `ws`, or `cid` if there is none. */
  function LastMarker(ws: seq<string>, cid: CidSet): (r: CidSet)
    ensures r == cid || exists i :: 0 <= i < |ws| && Marker(ws[i]) == Some(r)
  {
    if ws == [] then cid
    else if Marker(ws[|ws| - 1]).Some? then Marker(ws[|ws| - 1]).value
    else LastMarker(ws[..|ws| - 1], cid)
  }

  /** The collection after one word, read from the front. */
  function NextCid(w: string, cid: CidSet): CidSet {
    if Marker(w).Some? then Marker(w).value else cid
  }

  lemma {:induction false} LastMarkerFront(ws: seq<string>, cid: CidSet)
    requires ws != []
    ensures LastMarker(ws, cid) == LastMarker(ws[1..], NextCid(ws[0], cid))
  {
    if |ws| > 1 && Marker(ws[|ws| - 1]).None? {
      var init := ws[..|ws| - 1];
      LastMarkerFront(init, cid);
      assert init[1..] == ws[1..][..|ws[1..]| - 1];
    }
  }

  /**
   * A stream without blocks leaves the tables alone, and its base map is the
   * collection of the last marker word (the reader ends at the first empty
   * word, so none is allowed).
   */
  lemma {:induction false} MarkersOnly(toks: seq<string>, pos: nat, t: Tables, cid: CidSet)
    requires pos <= |toks|
    requires forall j :: pos <= j < |toks| ==> toks[j] != "" && toks[j] != "beginbfchar" && toks[j] != "beginbfrange"
    ensures Top(toks, pos, t, cid) == (t, LastMarker(toks[pos..], cid))
    decreases |toks| - pos
  {
    if pos < |toks| {
      MarkersOnly(toks, pos + 1, t, NextCid(toks[pos], cid));
      LastMarkerFront(toks[pos..], cid);
      assert toks[pos..][1..] == toks[pos + 1..];
    }
  }

  /** Load of a stream without blocks: the tables as they were and the last marker's collection. */
  lemma LoadMarkersOnly(toks: seq<string>, t: Tables)
    requires forall j :: 0 <= j < |toks| ==> toks[j] != "" && toks[j] != "beginbfchar" && toks[j] != "beginbfrange"
    ensures Load(toks, t) == (t, LastMarker(toks, Unknown))
  {
    MarkersOnly(toks, 0, t, Unknown);
    assert toks[0..] == toks;
  }

  /**
   * ReverseLookup's answer read forwards: a code mapped straight to the unit
   * `u` looks up to `u` again, unless `u` is the 0xFFFF marker.
   */
  lemma ReverseLookupInverts(t: Tables, base: CidSet, resolve: (CidSet, U16) -> seq<U16>, code: U32, u: U16)
    requires code in t.charMap && t.charMap[code] == u && u != 0xFFFF
    ensures LookupIn(t, base, resolve, code) == [u]
  {
  }
}
