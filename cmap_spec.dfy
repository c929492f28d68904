// The ToUnicode CMap loader of CPDF_ToUnicodeMap, as functions on values.
//
// A CMap stream is given as the sequence of words its tokenizer returns, and a
// cursor into it; reading past the end gives the empty word, which ends every
// loop.  The loader fills two tables: `charMap` (m_Map, character code to a
// packed 32-bit word) and `pool` (m_MultiCharBuf, an append-only buffer of
// length-prefixed records).  A word whose low sixteen bits are not 0xFFFF is a
// single UTF-16 unit; otherwise its high sixteen bits are the offset of a
// record in the pool.  Each nested `while (1)` loop of the source is one
// tail-recursive function here; the class in tounicode_map.dfy runs the same
// loops imperatively and is proved to compute these functions.

module CMapSpec {
  import opened Common
  import opened CMapLiterals

  /** The character collection named by the last `/Adobe-*-UCS2` word (CIDSet). */
  datatype CidSet = Unknown | GB1 | CNS1 | Japan1 | Korea1

  /** m_Map and m_MultiCharBuf. */
  datatype Tables = Tables(charMap: map<U32, U32>, pool: seq<U16>)

  // ---------------------------------------------------------------------------
  // Storing destinations

  lemma PackOffsetParts(n: nat)
    ensures (n * 0x1_0000 + 0xFFFF) % 0x1_0000_0000 == (n % 0x1_0000) * 0x1_0000 + 0xFFFF
  {
    var q, r := n / 0x1_0000, n % 0x1_0000;
    assert n * 0x1_0000 + 0xFFFF == q * 0x1_0000_0000 + (r * 0x1_0000 + 0xFFFF);
  }

  /**
   * The word stored for a record at offset `n` of the pool:
   * `n * 0x10000 + 0xffff` in 32-bit arithmetic.  Its low half is the 0xFFFF
   * marker and its high half keeps only the offset modulo 2^16.
   */
  function PackOffset(n: nat): (w: U32)
    ensures w % 0x1_0000 == 0xFFFF
    ensures w / 0x1_0000 == n % 0x1_0000
  {
    PackOffsetParts(n);
    (n * 0x1_0000 + 0xFFFF) % 0x1_0000_0000
  }

  /** Map `code` to a new record holding `d`: its length unit, then its units. */
  function AppendRecord(t: Tables, code: U32, d: seq<U16>): Tables {
    Tables(t.charMap[code := PackOffset(|t.pool|)], t.pool + [|d| % 0x1_0000] + d)
  }

  /**
   * Store one destination string: nothing for an empty one, the unit itself
   * for a single unit, a pool record otherwise.
   */
  function StoreDest(t: Tables, code: U32, d: seq<U16>): Tables {
    if |d| == 0 then t
    else if |d| == 1 then t.(charMap := t.charMap[code := d[0]])
    else AppendRecord(t, code, d)
  }

  /** `t2` keeps everything already in the pool of `t`. */
  predicate Extends(t: Tables, t2: Tables) {
    |t.pool| <= |t2.pool| && t2.pool[..|t.pool|] == t.pool
  }

  lemma ExtendsTrans(t1: Tables, t2: Tables, t3: Tables)
    requires Extends(t1, t2) && Extends(t2, t3)
    ensures Extends(t1, t3)
  {
    assert t3.pool[..|t1.pool|] == t3.pool[..|t2.pool|][..|t1.pool|];
  }

  lemma StoreDestExtends(t: Tables, code: U32, d: seq<U16>)
    ensures Extends(t, StoreDest(t, code, d))
  {
    if |d| >= 2 {
      var p := t.pool + [|d| % 0x1_0000] + d;
      assert p[..|t.pool|] == t.pool;
    }
  }

  // ---------------------------------------------------------------------------
  // The word reader

  /** The next word and the cursor after it; the empty word at the end. */
  function GetWord(toks: seq<string>, pos: nat): (string, nat) {
    if pos < |toks| then (toks[pos], pos + 1) else ("", pos)
  }

  /** The word the reader returns at position `j`. */
  function WordAt(toks: seq<string>, j: nat): string {
    if j < |toks| then toks[j] else ""
  }

  // ---------------------------------------------------------------------------
  // beginbfchar ... endbfchar

  /** Pairs `src dst` until `endbfchar` or the end of the words. */
  function Bfchar(toks: seq<string>, pos: nat, t: Tables): (r: (nat, Tables))
    requires pos <= |toks|
    ensures pos <= r.0 <= |toks| && Extends(t, r.1)
    decreases |toks| - pos
  {
    var (w, p1) := GetWord(toks, pos);
    if w == "" || w == "endbfchar" then (p1, t)
    else
      var (d, p2) := GetWord(toks, p1);
      var t1 := StoreDest(t, CodeOf(w), WideOf(d));
      StoreDestExtends(t, CodeOf(w), WideOf(d));
      var r := Bfchar(toks, p2, t1);
      ExtendsTrans(t, t1, r.1);
      r
  }

  // ---------------------------------------------------------------------------
  // beginbfrange ... endbfrange

  /**
   * The last code of a range: the top 24 bits of the low code with the low 8
   * bits of the high code, `(lowcode & 0xffffff00) | (high & 0xff)`.
   */
  function RangeHigh(lo: U32, high: U32): (hi: U32)
    ensures hi / 0x100 == lo / 0x100 && hi % 0x100 == high % 0x100
  {
    lo / 0x100 * 0x100 + high % 0x100
  }

  /** The array form: one destination word per code from `code` to `hi`. */
  function ArrayRange(toks: seq<string>, pos: nat, code: nat, hi: nat, t: Tables): (r: (nat, Tables))
    requires pos <= |toks| && hi < 0xFFFF_FFFF
    ensures pos <= r.0 <= |toks| && Extends(t, r.1)
    ensures code <= hi && pos + (hi + 1 - code) <= |toks| ==> r.0 == pos + (hi + 1 - code)
    ensures code <= hi && pos + (hi + 1 - code) > |toks| ==> r.0 == |toks|
    ensures code > hi ==> r == (pos, t)
    decreases hi + 1 - code
  {
    if code > hi then (pos, t)
    else
      var (d, p1) := GetWord(toks, pos);
      var t1 := StoreDest(t, code, WideOf(d));
      StoreDestExtends(t, code, WideOf(d));
      var r := ArrayRange(toks, p1, code + 1, hi, t1);
      ExtendsTrans(t, t1, r.1);
      r
  }

  /**
   * The single-unit form: every code from `code` to `hi` gets the word
   * `value`, which goes up by one (modulo 2^32) from code to code.
   */
  function UnitRange(t: Tables, code: nat, hi: nat, value: U32): (r: Tables)
    requires hi < 0xFFFF_FFFF
    ensures r.pool == t.pool
    decreases hi + 1 - code
  {
    if code > hi then t
    else UnitRange(t.(charMap := t.charMap[code := value]), code + 1, hi, (value + 1) % 0x1_0000_0000)
  }

  /**
   * The string form: the low code gets the destination itself, every later
   * code the increment of the string stored for the code before it; each is a
   * pool record, whatever its length.
   */
  function StringRange(t: Tables, lowcode: U32, code: nat, hi: nat, prev: seq<U16>): (r: Tables)
    requires hi < 0xFFFF_FFFF
    ensures Extends(t, r)
    decreases hi + 1 - code
  {
    if code > hi then t
    else
      var ret := if code == lowcode then prev else Increment(prev);
      var t1 := AppendRecord(t, code, ret);
      StoreDestExtends(t, code, [0, 0] + ret);
      assert t1.pool[..|t.pool|] == t.pool;
      var r := StringRange(t1, lowcode, code + 1, hi, ret);
      ExtendsTrans(t, t1, r);
      r
  }

  /** Ranges `low high dst` until `endbfrange`, the end of the words, or a last code of 0xFFFFFFFF. */
  function Bfrange(toks: seq<string>, pos: nat, t: Tables): (r: (nat, Tables))
    requires pos <= |toks|
    ensures pos <= r.0 <= |toks| && Extends(t, r.1)
    decreases |toks| - pos
  {
    var (low, p1) := GetWord(toks, pos);
    if low == "" || low == "endbfrange" then (p1, t)
    else
      var (high, p2) := GetWord(toks, p1);
      var lowcode := CodeOf(low);
      var highcode := RangeHigh(lowcode, CodeOf(high));
      if highcode == 0xFFFF_FFFF then (p2, t)
      else
        var (start, p3) := GetWord(toks, p2);
        if start == "[" then
          var (p4, t1) := ArrayRange(toks, p3, lowcode, highcode, t);
          var (_, p5) := GetWord(toks, p4);
          var r := Bfrange(toks, p5, t1);
          ExtendsTrans(t, t1, r.1);
          r
        else
          var dest := WideOf(start);
          var t1 := if |dest| == 1 then UnitRange(t, lowcode, highcode, CodeOf(start))
                    else StringRange(t, lowcode, lowcode, highcode, dest);
          assert Extends(t, t1);
          var r := Bfrange(toks, p3, t1);
          ExtendsTrans(t, t1, r.1);
          r
  }

  // ---------------------------------------------------------------------------
  // The whole stream

  /** The collection a `/Adobe-*-UCS2` word names, if any. */
  function Marker(w: string): Option<CidSet> {
    if w == "/Adobe-Korea1-UCS2" then Some(Korea1)
    else if w == "/Adobe-Japan1-UCS2" then Some(Japan1)
    else if w == "/Adobe-CNS1-UCS2" then Some(CNS1)
    else if w == "/Adobe-GB1-UCS2" then Some(GB1)
    else None
  }

  /** The outer loop of Load: blocks, collection markers, and other words skipped. */
  function Top(toks: seq<string>, pos: nat, t: Tables, cid: CidSet): (r: (Tables, CidSet))
    requires pos <= |toks|
    ensures Extends(t, r.0)
    decreases |toks| - pos
  {
    var (w, p1) := GetWord(toks, pos);
    if w == "" then (t, cid)
    else if w == "beginbfchar" then
      var (p2, t1) := Bfchar(toks, p1, t);
      var r := Top(toks, p2, t1, cid);
      ExtendsTrans(t, t1, r.0);
      r
    else if w == "beginbfrange" then
      var (p2, t1) := Bfrange(toks, p1, t);
      var r := Top(toks, p2, t1, cid);
      ExtendsTrans(t, t1, r.0);
      r
    else if Marker(w).Some? then Top(toks, p1, t, Marker(w).value)
    else Top(toks, p1, t, cid)
  }

  /** Load: the tables after reading all words, and the collection of the base map. */
  function Load(toks: seq<string>, t: Tables): (r: (Tables, CidSet))
    ensures Extends(t, r.0)
  {
    Top(toks, 0, t, Unknown)
  }
}
