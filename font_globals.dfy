// The per-document cache of the standard fonts (CFX_StockFontArray and the
// stock-font part of CPDF_FontGlobals), and TT2PDF, which scales a TrueType
// metric to the 1000-unit text space of PDF.  Fonts and documents are only
// compared by identity, so each is a number here.

module FontGlobals {
  import opened Common

  /** A CPDF_Font*, by identity. */
  type Font = nat
  /** A CPDF_Document*, by identity. */
  type Doc = nat

  /** The number of standard fonts, the size of m_StockFonts. */
  const StockFontCount: nat := 14

  /** The slot `index`, or no font when `index` is outside the slots. */
  function Slot(s: seq<Option<Font>>, index: int): (f: Option<Font>)
    ensures !(0 <= index < |s|) ==> f == None
  {
    if 0 <= index < |s| then s[index] else None
  }

  /** The slots with `index` set to `font`; unchanged when `index` is outside them. */
  function SetSlot(s: seq<Option<Font>>, index: int, font: Option<Font>): (r: seq<Option<Font>>)
    ensures |r| == |s|
    ensures forall j :: 0 <= j < |s| && j != index ==> r[j] == s[j]
  {
    if 0 <= index < |s| then s[index := font] else s
  }

  /** A slot reads back what was last set in it; other slots are untouched. */
  lemma SlotAfterSet(s: seq<Option<Font>>, i: int, font: Option<Font>, j: int)
    ensures Slot(SetSlot(s, i, font), j) == if i == j && 0 <= i < |s| then font else Slot(s, j)
  {
  }

  class StockFontArray {
    /** m_StockFonts. */
    const fonts: array<Option<Font>>

    ghost predicate Valid() {
      fonts.Length == StockFontCount
    }

    constructor()
      ensures Valid() && fresh(fonts) && fonts[..] == seq(StockFontCount, _ => None)
    {
      fonts := new Option<Font>[StockFontCount](_ => None);
    }

    /** GetFont: the font in slot `index`, none for an index outside the slots. */
    method GetFont(index: int) returns (f: Option<Font>)
      requires Valid()
      ensures f == Slot(fonts[..], index)
    {
      if index < 0 || index >= fonts.Length {
        return None;
      }
      return fonts[index];
    }

    /** SetFont: put `font` in slot `index`; an index outside the slots is ignored. */
    method SetFont(index: int, font: Option<Font>)
      requires Valid()
      modifies fonts
      ensures fonts[..] == SetSlot(old(fonts[..]), index, font)
    {
      if index < 0 || index >= fonts.Length {
        return;
      }
      fonts[index] := font;
    }
  }

  /** The slots of a new StockFontArray. */
  function NoFonts(): (s: seq<Option<Font>>)
    ensures |s| == StockFontCount && forall j :: 0 <= j < |s| ==> s[j] == None
  {
    seq(StockFontCount, _ => None)
  }

  /** Find on the cache's contents: the document's slot, none for an unknown document. */
  function FindIn(m: map<Doc, seq<Option<Font>>>, doc: Doc, index: int): (f: Option<Font>)
    ensures doc !in m ==> f == None
  {
    if doc in m then Slot(m[doc], index) else None
  }

  /** Set on the cache's contents: the document gets slots (new ones if it had none) with `index` set. */
  function SetIn(m: map<Doc, seq<Option<Font>>>, doc: Doc, index: int, font: Option<Font>): (r: map<Doc, seq<Option<Font>>>)
    ensures r.Keys == m.Keys + {doc}
  {
    m[doc := SetSlot(if doc in m then m[doc] else NoFonts(), index, font)]
  }

  /**
   * Set then Find: the slot just set gives the font back (for an index among
   * the slots), every other slot of every document is as before, and a new
   * document's other slots are empty.
   */
  lemma FindAfterSet(m: map<Doc, seq<Option<Font>>>, doc: Doc, index: int, font: Option<Font>, doc2: Doc, index2: int)
    requires forall d :: d in m ==> |m[d]| == StockFontCount
    ensures FindIn(SetIn(m, doc, index, font), doc2, index2)
         == if doc2 == doc && index2 == index && 0 <= index < StockFontCount then font
            else if doc2 == doc && doc !in m then None
            else FindIn(m, doc2, index2)
  {
    if doc2 == doc {
      var old_ := if doc in m then m[doc] else NoFonts();
      SlotAfterSet(old_, index, font, index2);
    }
  }

  class FontGlobals {
    /** m_StockMap: each document's stock fonts, owned by the cache. */
    var stockMap: map<Doc, StockFontArray>
    ghost var Repr: set<object>

    /** Every document has its own array of StockFontCount slots. */
    ghost predicate Valid()
      reads this, Repr
    {
      this in Repr
      && (forall d :: d in stockMap ==> stockMap[d].fonts in Repr && stockMap[d].Valid())
      && (forall d, e :: d in stockMap && e in stockMap && d != e ==> stockMap[d].fonts != stockMap[e].fonts)
    }

    /** The slots of every cached document. */
    ghost function Contents(): map<Doc, seq<Option<Font>>>
      requires Valid()
      reads this, Repr
    {
      map d | d in stockMap :: stockMap[d].fonts[..]
    }

    constructor()
      ensures Valid() && fresh(Repr) && Contents() == map[]
    {
      stockMap := map[];
      Repr := {this};
    }

    /** Find: the document's font in slot `index`; none for a document not cached. */
    method Find(doc: Doc, index: int) returns (f: Option<Font>)
      requires Valid()
      ensures f == FindIn(Contents(), doc, index)
    {
      if doc !in stockMap {
        return None;
      }
      f := stockMap[doc].GetFont(index);
    }

    /** A new, empty array of slots for a document not yet cached. */
    method AddDocument(doc: Doc)
      requires Valid() && doc !in stockMap
      modifies this
      ensures Valid() && fresh(Repr - old(Repr)) && doc in stockMap
      ensures Contents() == old(Contents())[doc := NoFonts()]
    {
      var a := new StockFontArray();
      stockMap := stockMap[doc := a];
      Repr := Repr + {a.fonts};
      assert a.fonts[..] == NoFonts();
    }

    /** Set: cache `font` in the document's slot `index`, creating its array on first use. */
    method Set(doc: Doc, index: int, font: Option<Font>)
      requires Valid()
      modifies Repr
      ensures Valid() && fresh(Repr - old(Repr))
      ensures Contents() == SetIn(old(Contents()), doc, index, font)
    {
      if doc !in stockMap {
        AddDocument(doc);
      }
      ghost var before := Contents();
      ghost var expected := before[doc := SetSlot(before[doc], index, font)];
      assert expected == SetIn(old(Contents()), doc, index, font);
      var a := stockMap[doc];
      a.SetFont(index, font);
      forall d | d in stockMap
        ensures stockMap[d].fonts[..] == expected[d]
      {
        if d != doc {
          assert stockMap[d].fonts != a.fonts;
        }
      }
      assert Contents() == expected;
    }

    /** Clear: forget the document's fonts. */
    method Clear(doc: Doc)
      requires Valid()
      modifies this
      ensures Valid() && Repr == old(Repr)
      ensures Contents() == old(Contents()) - {doc}
    {
      stockMap := stockMap - {doc};
    }
  }

  // ---------------------------------------------------------------------------
  // TT2PDF

  /** A C `int`: a two's-complement 32-bit value. */
  type I32 = x: int | -0x8000_0000 <= x < 0x8000_0000

  /** A C `short`. */
  type I16 = x: int | -0x8000 <= x < 0x8000

  /** `x` wrapped to 32 bits, as two's-complement arithmetic does. */
  function Wrap32(x: int): (r: I32)
    ensures (r - x) % 0x1_0000_0000 == 0
    ensures -0x8000_0000 <= x < 0x8000_0000 ==> r == x
  {
    (x + 0x8000_0000) % 0x1_0000_0000 - 0x8000_0000
  }

  /** `x` converted to `short`, keeping the low sixteen bits. */
  function Wrap16(x: int): (r: I16)
    ensures (r - x) % 0x1_0000 == 0
    ensures -0x8000 <= x < 0x8000 ==> r == x
  {
    (x + 0x8000) % 0x1_0000 - 0x8000
  }

  /** C's `/` on `int`: the quotient rounded toward zero. */
  function CDiv(a: int, b: int): (q: int)
    requires b > 0
    ensures a >= 0 ==> q * b <= a < q * b + b
    ensures a < 0 ==> q * b - b < a <= q * b
  {
    if a >= 0 then a / b else -((-a) / b)
  }

  /**
   * TT2PDF as written: `m` font units to 1000ths of an em, adding half a unit
   * of `upm` before dividing; with no units per em, `m` itself as a `short`.
   */
  function TT2PDF(m: I32, upm: U16): (r: I16)
    ensures upm == 0 ==> (r - m) % 0x1_0000 == 0
  {
    if upm == 0 then Wrap16(m)
    else Wrap16(CDiv(Wrap32(Wrap32(m * 1000) + upm / 2), upm))
  }

  /** A quotient below `bound` when the dividend is below `bound` times the divisor. */
  lemma QuotientBelow(a: nat, b: nat, bound: nat)
    requires 0 < b && a < bound * b
    ensures a / b < bound
  {
    var q := a / b;
    assert q * b <= a;
    assert (bound - q) * b == bound * b - q * b;
  }

  /** Adding half the divisor before dividing gives a nearest quotient. */
  lemma NearestQuotient(x: nat, b: nat)
    requires 0 < b
    ensures -(b / 2) <= x - (x + b / 2) / b * b <= b / 2
  {
    var a := x + b / 2;
    var q := a / b;
    assert q * b <= a < q * b + b;
  }

  /** Without overflow, TT2PDF of a non-negative metric is the rounded quotient itself. */
  lemma TT2PDFExact(m: I32, upm: U16)
    requires 0 <= m && 0 < upm && m * 1000 + upm / 2 < 0x8000 * upm
    ensures TT2PDF(m, upm) == (m * 1000 + upm / 2) / upm
  {
    var a := m * 1000 + upm / 2;
    assert a < 0x8000 * 0x1_0000;
    assert Wrap32(m * 1000) == m * 1000;
    assert Wrap32(a) == a;
    QuotientBelow(a, upm, 0x8000);
  }

  /**
   * For a non-negative metric whose scaled value fits a `short`, TT2PDF is
   * a nearest whole number of 1000ths: within half a unit of `upm` of
   * `m * 1000`.
   */
  lemma TT2PDFRounds(m: I32, upm: U16)
    requires 0 <= m && 0 < upm && m * 1000 + upm / 2 < 0x8000 * upm
    ensures -(upm / 2) <= m * 1000 - TT2PDF(m, upm) * upm <= upm / 2
  {
    TT2PDFExact(m, upm);
    NearestQuotient(m * 1000, upm);
  }

  /** TT2PDF as written rounds a negative metric toward zero: -2 units of 1000 per em give -1, not -2. */
  lemma TT2PDFNegative()
    ensures TT2PDF(-2, 1000) == -1
    ensures -2 * 1000 - TT2PDF(-2, 1000) * 1000 < -(1000 / 2)
  {
    assert CDiv(-2000 + 500, 1000) == -1;
  }

  /**
   * The scaling rounded to the nearest for either sign, halves away from
   * zero (what TT2PDF evidently intends), in the same machine arithmetic.
   */
  function ScaleToPdf(m: I32, upm: U16): (r: I16)
    ensures upm == 0 ==> (r - m) % 0x1_0000 == 0
    ensures 0 <= m ==> r == TT2PDF(m, upm)
  {
    if upm == 0 then Wrap16(m)
    else if m >= 0 then Wrap16(CDiv(Wrap32(Wrap32(m * 1000) + upm / 2), upm))
    else
      var n := Wrap32(-(m as int));
      Wrap16(-CDiv(Wrap32(Wrap32(n * 1000) + upm / 2), upm))
  }

  /** Without overflow, ScaleToPdf of a negative metric is the rounded quotient of its magnitude, negated. */
  lemma ScaleNegative(m: I32, upm: U16)
    requires m < 0 && 0 < upm && -0x8000 * upm < m * 1000 - upm / 2
    ensures ScaleToPdf(m, upm) == -((-(m as int) * 1000 + upm / 2) / upm)
  {
    var n := -(m as int);
    var a := n * 1000 + upm / 2;
    assert a < 0x8000 * 0x1_0000;
    assert Wrap32(n) == n;
    assert Wrap32(n * 1000) == n * 1000;
    assert Wrap32(a) == a;
    QuotientBelow(a, upm, 0x8000);
  }

  /** ScaleToPdf of a negative metric is within half a unit of `upm` of `m * 1000`. */
  lemma ScaleNegativeRounds(m: I32, upm: U16)
    requires m < 0 && 0 < upm && -0x8000 * upm < m * 1000 - upm / 2
    ensures -(upm / 2) <= m * 1000 - ScaleToPdf(m, upm) * upm <= upm / 2
  {
    var n := -(m as int);
    var q := (n * 1000 + upm / 2) / upm;
    ScaleNegative(m, upm);
    NearestQuotient(n * 1000, upm);
    assert ScaleToPdf(m, upm) * upm == -(q * upm);
  }

  /**
   * ScaleToPdf is a nearest whole number of 1000ths for either sign, whenever
   * the scaled value fits a `short`.
   */
  lemma ScaleToPdfRounds(m: I32, upm: U16)
    requires 0 < upm && -0x8000 * upm < m * 1000 - upm / 2 && m * 1000 + upm / 2 < 0x8000 * upm
    ensures -(upm / 2) <= m * 1000 - ScaleToPdf(m, upm) * upm <= upm / 2
  {
    if m >= 0 {
      TT2PDFRounds(m, upm);
    } else {
      ScaleNegativeRounds(m, upm);
    }
  }
}
