// CPDF_ToUnicodeMap as an object: Load runs the loops of the source over the
// reader's words and updates m_Map and m_MultiCharBuf in place; each loop is
// proved to compute the matching function of CMapSpec, so what CMapLookup
// proves about those functions holds of the object.  The nested loops of the
// source's Load are split into one method per block kind; the cursor of the
// word reader is a local variable.

module ToUnicode {
  import opened Common
  import opened CMapLiterals
  import opened CMapSpec
  import opened CMapLookup

  class ToUnicodeMap {
    /** m_Map: character code to a unit, or to a marked pool offset. */
    var charMap: map<U32, U32>
    /** m_MultiCharBuf: the length-prefixed destination records. */
    var multiCharBuf: seq<U16>
    /** The collection of m_pBaseMap; Unknown stands for no base map. */
    var baseMap: CidSet

    /** The two tables as one value. */
    function State(): Tables
      reads this
    {
      Tables(charMap, multiCharBuf)
    }

    constructor()
      ensures charMap == map[] && multiCharBuf == [] && baseMap == Unknown
    {
      charMap := map[];
      multiCharBuf := [];
      baseMap := Unknown;
    }

    /** Store one destination for `code`, as both block kinds of Load do. */
    method Store(code: U32, dest: seq<U16>)
      modifies this
      ensures State() == StoreDest(old(State()), code, dest) && baseMap == old(baseMap)
    {
      var len := |dest|;
      if len == 0 {
        return;
      }
      if len == 1 {
        charMap := charMap[code := dest[0]];
      } else {
        Append(code, dest);
      }
    }

    /** A new pool record for `code`: its word, then the length unit and the units. */
    method Append(code: U32, dest: seq<U16>)
      modifies this
      ensures State() == AppendRecord(old(State()), code, dest) && baseMap == old(baseMap)
    {
      charMap := charMap[code := (|multiCharBuf| * 0x1_0000 + 0xFFFF) % 0x1_0000_0000];
      multiCharBuf := multiCharBuf + [|dest| % 0x1_0000];
      multiCharBuf := multiCharBuf + dest;
    }

    /** The pairs of a `beginbfchar` block; returns the cursor after it. */
    method LoadBfchar(toks: seq<string>, pos: nat) returns (p: nat)
      requires pos <= |toks|
      modifies this
      ensures (p, State()) == Bfchar(toks, pos, old(State())) && baseMap == old(baseMap)
    {
      p := pos;
      while true
        invariant p <= |toks| && baseMap == old(baseMap)
        invariant Bfchar(toks, p, State()) == Bfchar(toks, pos, old(State()))
        decreases |toks| - p
      {
        var (word, p1) := GetWord(toks, p);
        if word == "" || word == "endbfchar" {
          p := p1;
          break;
        }
        var srccode := StringToCode(word);
        var (dest, p2) := GetWord(toks, p1);
        var destcode := StringToWideString(dest);
        Store(srccode, destcode);
        p := p2;
      }
    }

    /** The array form of a range: one destination word per code. */
    method LoadArray(toks: seq<string>, pos: nat, lowcode: U32, highcode: U32) returns (p: nat)
      requires pos <= |toks| && highcode < 0xFFFF_FFFF
      modifies this
      ensures (p, State()) == ArrayRange(toks, pos, lowcode, highcode, old(State())) && baseMap == old(baseMap)
    {
      p := pos;
      var code: nat := lowcode;
      while code <= highcode
        invariant p <= |toks| && baseMap == old(baseMap)
        invariant ArrayRange(toks, p, code, highcode, State()) == ArrayRange(toks, pos, lowcode, highcode, old(State()))
        decreases highcode + 1 - code
      {
        var (dest, p1) := GetWord(toks, p);
        var destcode := StringToWideString(dest);
        Store(code, destcode);
        p := p1;
        code := code + 1;
      }
    }

    /** The single-unit form of a range: consecutive words from `value` on. */
    method LoadUnits(lowcode: U32, highcode: U32, value: U32)
      requires highcode < 0xFFFF_FFFF
      modifies this
      ensures State() == UnitRange(old(State()), lowcode, highcode, value) && baseMap == old(baseMap)
    {
      var code: nat := lowcode;
      var v: int := value;
      while code <= highcode
        invariant 0 <= v < 0x1_0000_0000 && baseMap == old(baseMap)
        invariant UnitRange(State(), code, highcode, v) == UnitRange(old(State()), lowcode, highcode, value)
        decreases highcode + 1 - code
      {
        charMap := charMap[code := v];
        v := (v + 1) % 0x1_0000_0000;
        code := code + 1;
      }
    }

    /** The string form of a range: each code gets the increment of the string before it. */
    method LoadStrings(lowcode: U32, highcode: U32, destcode: seq<U16>)
      requires highcode < 0xFFFF_FFFF
      modifies this
      ensures State() == StringRange(old(State()), lowcode, lowcode, highcode, destcode) && baseMap == old(baseMap)
    {
      var code: nat := lowcode;
      var prev := destcode;
      while code <= highcode
        invariant lowcode <= code && baseMap == old(baseMap)
        invariant StringRange(State(), lowcode, code, highcode, prev)
               == StringRange(old(State()), lowcode, lowcode, highcode, destcode)
        decreases highcode + 1 - code
      {
        var retcode;
        if code == lowcode {
          retcode := prev;
        } else {
          retcode := StringDataAdd(prev);
        }
        StringRangeUnfold(State(), lowcode, code, highcode, prev);
        Append(code, retcode);
        prev := retcode;
        code := code + 1;
      }
    }

    /** The ranges of a `beginbfrange` block; returns the cursor after it. */
    method LoadBfrange(toks: seq<string>, pos: nat) returns (p: nat)
      requires pos <= |toks|
      modifies this
      ensures (p, State()) == Bfrange(toks, pos, old(State())) && baseMap == old(baseMap)
    {
      p := pos;
      while true
        invariant p <= |toks| && baseMap == old(baseMap)
        invariant Bfrange(toks, p, State()) == Bfrange(toks, pos, old(State()))
        decreases |toks| - p
      {
        var (low, p1) := GetWord(toks, p);
        if low == "" || low == "endbfrange" {
          p := p1;
          break;
        }
        var (high, p2) := GetWord(toks, p1);
        var lowcode := StringToCode(low);
        var highword := StringToCode(high);
        var highcode := RangeHigh(lowcode, highword);
        if highcode == 0xFFFF_FFFF {
          p := p2;
          break;
        }
        var (start, p3) := GetWord(toks, p2);
        if start == "[" {
          var p4 := LoadArray(toks, p3, lowcode, highcode);
          var (_, p5) := GetWord(toks, p4);
          p := p5;
        } else {
          var destcode := StringToWideString(start);
          if |destcode| == 1 {
            var value := StringToCode(start);
            LoadUnits(lowcode, highcode, value);
          } else {
            LoadStrings(lowcode, highcode, destcode);
          }
          p := p3;
        }
      }
    }

    /**
     * Load: read every word; blocks fill the tables, a collection marker
     * selects the base map, and other words are skipped.
     */
    method Load(toks: seq<string>)
      modifies this
      ensures (State(), baseMap) == CMapSpec.Load(toks, old(State()))
    {
      var cid := Unknown;
      var p := 0;
      while true
        invariant p <= |toks|
        invariant Top(toks, p, State(), cid) == CMapSpec.Load(toks, old(State()))
        decreases |toks| - p
      {
        var (word, p1) := GetWord(toks, p);
        if word == "" {
          break;
        }
        if word == "beginbfchar" {
          p := LoadBfchar(toks, p1);
        } else if word == "beginbfrange" {
          p := LoadBfrange(toks, p1);
        } else {
          if word == "/Adobe-Korea1-UCS2" {
            cid := Korea1;
          } else if word == "/Adobe-Japan1-UCS2" {
            cid := Japan1;
          } else if word == "/Adobe-CNS1-UCS2" {
            cid := CNS1;
          } else if word == "/Adobe-GB1-UCS2" {
            cid := GB1;
          }
          p := p1;
        }
      }
      baseMap := cid;
    }

    /** Lookup on the object: the value-level LookupIn of its tables and base map. */
    function Lookup(resolve: (CidSet, U16) -> seq<U16>, charcode: U32): seq<U16>
      reads this
    {
      LookupIn(State(), baseMap, resolve, charcode)
    }

    /**
     * ReverseLookup: the first code, in ascending order, whose stored word is
     * exactly `unicode`; 0 when there is none.  A marked word compares as a
     * whole, so only a record at offset 0 can answer 0xFFFF.
     */
    method ReverseLookup(unicode: U16) returns (code: U32)
      ensures (exists k :: k in charMap && charMap[k] == unicode) ==>
        code in charMap && charMap[code] == unicode
        && forall k :: k in charMap && charMap[k] == unicode ==> code <= k
      ensures (forall k :: k in charMap ==> charMap[k] != unicode) ==> code == 0
    {
      var rest, low := charMap.Keys, 0;
      while rest != {}
        invariant forall k :: k in rest <==> k in charMap && low <= k
        invariant forall k :: k in charMap && k < low ==> charMap[k] != unicode
        decreases |rest|
      {
        LeastExists(rest);
        var k :| IsLeast(k, rest);
        if charMap[k] == unicode {
          return k;
        }
        rest, low := rest - {k}, k + 1;
      }
      return 0;
    }
  }

  /** `k` is the least element of `s`. */
  predicate IsLeast(k: U32, s: set<U32>) {
    k in s && forall j :: j in s ==> k <= j
  }

  /** Every non-empty set of codes has a least element. */
  lemma {:induction false} LeastExists(s: set<U32>)
    requires s != {}
    ensures exists k :: IsLeast(k, s)
    decreases |s|
  {
    var x :| x in s;
    var least := x;
    if s != {x} {
      var others := s - {x};
      LeastExists(others);
      var m :| IsLeast(m, others);
      least := if x < m then x else m;
      forall j | j in s
        ensures least <= j
      {
        if j != x {
          assert j in others;
        }
      }
    }
    assert IsLeast(least, s);
  }
}
