# ToUnicode CMaps, stock fonts and the portable C runtime of PDFium's font layer

This project models two parts of PDFium in Dafny and proves properties of them.

The first is the ToUnicode CMap of a PDF font, `CPDF_ToUnicodeMap`.
- `Load` reads the words of a CMap stream. It fills `m_Map`, which maps a character code to a packed 32-bit word, and `m_MultiCharBuf`, a pool of length-prefixed records. The pool holds the destinations of more than one unit, and every destination of the string form of `bfrange`, whatever its length.
- A `/Adobe-*-UCS2` word selects a base collection that answers codes missing from the map.
- `Lookup` gives the Unicode string of a character code. `ReverseLookup` gives the least code whose stored word equals the unit, or 0.
- The static helpers `StringToCode`, `StringToWideString` and `StringDataAdd` decode CMap literals.

The same file also holds:
- the per-document cache of the fourteen standard fonts (`CFX_StockFontArray`, and `Find`/`Set`/`Clear` of `CPDF_FontGlobals`);
- `TT2PDF`, which scales a TrueType metric to PDF's 1000-unit text space.

The second part is the portable C runtime layer `fx_basic_gcc.cpp`:
- decimal parsing and integer printing (`FXSYS_StrToInt`, `FXSYS_IntToStr` and their wrappers);
- in-place ASCII case mapping;
- case-insensitive comparison;
- the Latin-1 conversions between narrow and wide strings;
- `FXSYS_GetFullPathName`.

Layout, one module per file:
- `common.dfy` (`Common`): machine integer types and `Option`, which stands for a pointer that may be null.
- `cmap_literals.dfy` (`CMapLiterals`): the three literal decoders.
  - Each has a specification function and the loop of the source, proved equal to it.
  - Round trips: hex code → code, units → hex word → units.
  - The increment adds exactly one in base 2^16.
- `cmap_spec.dfy` (`CMapSpec`): the loader as tail-recursive functions on values.
  - There is one function per nested loop, over a sequence of words and a cursor.
- `cmap_lookup.dfy` (`CMapLookup`): `Lookup` on the tables, and what each loader step does to it.
  - It shows where a stored destination reads back, and where the packed encoding loses it.
- `cmap_stream.dfy` (`CMapStream`): whole blocks and whole streams.
  - What a code looks up to after a `bfchar` block, a `bfrange` block of any number of ranges, and a whole stream, where a later block overwrites an earlier one.
  - Every block and the outer loop keep each pool reference inside the pool.
  - The collection selected when the stream also holds blocks.
  - Two streams read end to end, one per block kind.
- `tounicode_map.dfy` (`ToUnicode`): the class `ToUnicodeMap`. Its fields are updated in place by loops.
  - Each loop is proved to compute the matching `CMapSpec` function.
  - `ReverseLookup` is proved to return the least matching code.
- `font_globals.dfy` (`FontGlobals`):
  - the stock-font array, as a class over an array;
  - the document map, as a class over a map of such objects;
  - `TT2PDF` with explicit 32- and 16-bit wrap-around and C's truncating division.
- `crt_numbers.dfy` (`CrtNumbers`): `FXSYS_StrToInt` and `FXSYS_IntToStr` as loops proved against specification functions. Reading back the base-10 text gives the value.
- `crt_strings.dfy` (`CrtStrings`):
  - case mapping, comparison, the Latin-1 conversions and `FXSYS_GetFullPathName` as loops over arrays and sequences;
  - lemmas: a comparison is zero exactly when the strings are equal ignoring case; swapping the arguments negates it; bytes survive widening and narrowing.

Conventions:
- A C string the source only reads is the sequence of its code units before the NUL, and it reads as 0 past its end. A buffer the source writes is an `array`.
- `FX_WCHAR` is a 16-bit unsigned unit, and a narrow `char` is read as an unsigned byte.

## Model

| member | source | states |
|---|---|---|
| CMapLiterals.StringToCode | core/fpdfapi/fpdf_font/fpdf_font.cpp:132-149 | the result is `CodeOf(str)`. An empty word gives 0. A word starting with `<` gives the value of its leading hex digits, and any other word the value of its leading decimal digits, both modulo 2^32 |
| CMapLiterals.HexCodeRoundTrip | core/fpdfapi/fpdf_font/fpdf_font.cpp:139-142 | a code of at most 8 hex digits between angle brackets decodes to itself |
| CMapLiterals.HexCodeOf | core/fpdfapi/fpdf_font/fpdf_font.cpp:139-142 | a hex code with any number of digits decodes to its value modulo 2^32 (the 32-bit accumulator wraps) |
| CMapLiterals.HexRunStops | core/fpdfapi/fpdf_font/fpdf_font.cpp:140 | the digit loop stops at the closing `>` |
| CMapLiterals.StringToWideString | core/fpdfapi/fpdf_font/fpdf_font.cpp:171-194 | the result is `WideOf(str)`. A word without a leading `<` gives no units. Otherwise each complete group of four hex digits gives one unit, and a partial last group is dropped |
| CMapLiterals.GroupAt | core/fpdfapi/fpdf_font/fpdf_font.cpp:182-190 | unit k is the value of hex digits 4k to 4k+3 |
| CMapLiterals.WideRoundTrip | core/fpdfapi/fpdf_font/fpdf_font.cpp:171-194 | any unit string, written as four hex digits per unit between angle brackets, decodes back to itself |
| CMapLiterals.StringDataAdd | core/fpdfapi/fpdf_font/fpdf_font.cpp:151-168 | the result is `Increment(str)`: the carry runs from the last unit, 0xFFFF becomes 0, and a carry out prepends 1 |
| CMapLiterals.IncrementAddsOne | core/fpdfapi/fpdf_font/fpdf_font.cpp:151-168 | read as a number in base 2^16, the result is exactly one more than the input |
| CMapLiterals.IncrementLength | core/fpdfapi/fpdf_font/fpdf_font.cpp:164-166 | the string grows by one unit exactly when every unit is 0xFFFF; it then becomes 1 followed by zeros |
| CMapSpec.PackOffset | core/fpdfapi/fpdf_font/fpdf_font.cpp:222 | the word stored for a pool record has low half 0xFFFF and high half equal to the pool length modulo 2^16 |
| CMapSpec.StoreDestExtends | core/fpdfapi/fpdf_font/fpdf_font.cpp:215-225 | storing a destination only appends to the pool |
| CMapSpec.Bfchar | core/fpdfapi/fpdf_font/fpdf_font.cpp:207-226 | the `bfchar` loop moves the cursor forward within the words, and the pool only grows |
| CMapSpec.RangeHigh | core/fpdfapi/fpdf_font/fpdf_font.cpp:236-237 | the high code keeps all but the low byte of the low code and takes the low byte of the high word |
| CMapSpec.ArrayRange | core/fpdfapi/fpdf_font/fpdf_font.cpp:243-257 | the array form reads exactly one word per code of the range, or stops at the end of the words. An empty range reads nothing and changes nothing |
| CMapSpec.UnitRange | core/fpdfapi/fpdf_font/fpdf_font.cpp:263-267 | the single-unit form never touches the pool |
| CMapSpec.StringRange | core/fpdfapi/fpdf_font/fpdf_font.cpp:268-281 | the string form only appends to the pool |
| CMapSpec.Bfrange | core/fpdfapi/fpdf_font/fpdf_font.cpp:228-283 | the `bfrange` loop moves the cursor forward within the words, and the pool only grows |
| CMapSpec.Top | core/fpdfapi/fpdf_font/fpdf_font.cpp:201-293 | the outer loop of `Load` only appends to the pool |
| CMapSpec.Load | core/fpdfapi/fpdf_font/fpdf_font.cpp:196-302 | loading only appends to the pool |
| CMapLookup.LookupIn | core/fpdfapi/fpdf_font/fpdf_font.cpp:94-121 | A code not in the map is answered by the base collection, or is empty without one. A word whose low half is not 0xFFFF gives that one unit. A marked word gives the pool record at its high half when the record lies inside the pool, and nothing otherwise |
| CMapLookup.LookupKept | core/fpdfapi/fpdf_font/fpdf_font.cpp:102-115 | a code whose word is unchanged looks up the same after the pool grows |
| CMapLookup.AppendedFits | core/fpdfapi/fpdf_font/fpdf_font.cpp:222-224 | while the pool stays within 2^16 units, a new record lies inside it at the offset its word names, and holds exactly the destination |
| CMapLookup.AppendLookup | core/fpdfapi/fpdf_font/fpdf_font.cpp:222-224 | after a record is appended for a code, that code looks up as the destination and every other code as before |
| CMapLookup.AppendResolves | core/fpdfapi/fpdf_font/fpdf_font.cpp:222-224 | appending keeps every marked word pointing inside the pool |
| CMapLookup.StoreDestLookup | core/fpdfapi/fpdf_font/fpdf_font.cpp:215-225 | after a destination is stored for a code, that code looks up as the destination (an empty one changes nothing), and every other code as before |
| CMapLookup.StoreDestResolves | core/fpdfapi/fpdf_font/fpdf_font.cpp:215-225 | storing a storable destination keeps every marked word pointing inside the pool |
| CMapLookup.SingleMaxCollides | core/fpdfapi/fpdf_font/fpdf_font.cpp:219-220 | a destination that is the single unit 0xFFFF is stored as a bare word. Lookup takes that word for a pool marker, and with an empty pool it returns nothing |
| CMapLookup.AppendWraps | core/fpdfapi/fpdf_font/fpdf_font.cpp:222 | once the pool holds 2^16 units, the offset wraps to 0. The new code then looks up the record at offset 0 |
| CMapLookup.RangeHighMax | core/fpdfapi/fpdf_font/fpdf_font.cpp:236-240 | the range loop's stop value 0xFFFFFFFF arises exactly when the low code is at least 0xFFFFFF00 and the high word ends in 0xFF |
| CMapLookup.RangeAtMost256 | core/fpdfapi/fpdf_font/fpdf_font.cpp:236-237 | a range covers at most 256 codes, all in the low code's block of 256 |
| CMapLookup.UnitRangeEntry | core/fpdfapi/fpdf_font/fpdf_font.cpp:265-267 | code c of a single-unit range maps to `value + (c - low)` modulo 2^32, and codes outside the range keep their entries |
| CMapLookup.UnitRangeLookup | core/fpdfapi/fpdf_font/fpdf_font.cpp:263-267 | code c of a single-unit range looks up as the one unit `value + (c - low)`, and codes outside it look up as before |
| CMapLookup.UnitRangeResolves | core/fpdfapi/fpdf_font/fpdf_font.cpp:263-267 | the single-unit form keeps every marked word pointing inside the pool |
| CMapLookup.StringRangeLookup | core/fpdfapi/fpdf_font/fpdf_font.cpp:268-281 | the low code of a string range looks up as the destination, each later code as the increment of the previous code's string, and other codes as before |
| CMapLookup.StringRangeResolves | core/fpdfapi/fpdf_font/fpdf_font.cpp:268-281 | the string form keeps every marked word pointing inside the pool |
| CMapLookup.ArrayRangeStores | core/fpdfapi/fpdf_font/fpdf_font.cpp:243-257 | the array form stores the decoding of the i-th word after `[` for code `low + i` |
| CMapLookup.ArrayRangeLookup | core/fpdfapi/fpdf_font/fpdf_font.cpp:243-257 | code `low + i` looks up as the decoding of the i-th word when that is not empty; every other code looks up as before |
| CMapLookup.ArrayRangeResolves | core/fpdfapi/fpdf_font/fpdf_font.cpp:243-257 | the array form keeps every marked word pointing inside the pool |
| CMapLookup.OnePairLoad | core/fpdfapi/fpdf_font/fpdf_font.cpp:196-226 | loading a single `bfchar` pair into empty tables stores that one destination, with no base collection |
| CMapLookup.BfcharRoundTrip | core/fpdfapi/fpdf_font/fpdf_font.cpp:196-226 | after loading a one-pair CMap that maps a hex code to hex units, that code looks up as those units and every other code as empty |
| CMapLookup.LastMarker | core/fpdfapi/fpdf_font/fpdf_font.cpp:284-292 | the selected collection is the starting one or one that a marker word in the sequence names |
| CMapLookup.LoadMarkersOnly | core/fpdfapi/fpdf_font/fpdf_font.cpp:284-301 | a stream without blocks leaves the tables as they were and selects the collection of its last marker word |
| CMapLookup.ReverseLookupInverts | core/fpdfapi/fpdf_font/fpdf_font.cpp:94-101 | a code whose word is a single unit other than 0xFFFF looks up as that unit |
| CMapStream.BfcharLast | core/fpdfapi/fpdf_font/fpdf_font.cpp:207-226 | the destination a `bfchar` block leaves for a code, if any, is never empty: an empty destination stores nothing, and a later pair for the same code wins |
| CMapStream.BfcharLookup | core/fpdfapi/fpdf_font/fpdf_font.cpp:207-226 | after a `bfchar` block of any number of pairs, a code looks up as the last non-empty destination given for it, and every other code as before; every pool reference stays inside the pool (pool within 2^16 units, no destination the single unit 0xFFFF) |
| CMapStream.BfcharEnd | core/fpdfapi/fpdf_font/fpdf_font.cpp:207-226 | where a `bfchar` block ends does not depend on the tables |
| CMapStream.BfrangeResolves | core/fpdfapi/fpdf_font/fpdf_font.cpp:228-283 | a `bfrange` block of any number of ranges, of all three forms, keeps every pool reference inside the pool while the pool stays within 2^16 units and no range reaches the 0xFFFF marker |
| CMapStream.BfrangeEnd | core/fpdfapi/fpdf_font/fpdf_font.cpp:228-283 | where a `bfrange` block ends does not depend on the tables |
| CMapStream.BfrangeMaxEnds | core/fpdfapi/fpdf_font/fpdf_font.cpp:236-240 | a range whose last code is 0xFFFFFFFF ends the `bfrange` block after its two words and stores nothing |
| CMapStream.ArrayGives | core/fpdfapi/fpdf_font/fpdf_font.cpp:243-257 | after one array-form range, a code in it looks up as its decoded word unless that is empty, and every other code as before; pool references stay inside the pool (pool within 2^16 units, no word of the array decoding to the single unit 0xFFFF) |
| CMapStream.UnitGives | core/fpdfapi/fpdf_font/fpdf_font.cpp:263-267 | after one single-unit range, code c in it looks up as the low 16 bits of the start unit plus c - low, and every other code as before (the range's units stay below 0xFFFF) |
| CMapStream.StringGives | core/fpdfapi/fpdf_font/fpdf_font.cpp:268-281 | after one string-form range, code c in it looks up as the start string incremented c - low times, and every other code as before (pool within 2^16 units) |
| CMapStream.BfrangeLookup | core/fpdfapi/fpdf_font/fpdf_font.cpp:228-283 | after a `bfrange` block of any number of ranges, a code looks up as what the last range covering it gives (`BfrangeLast`, which stops at a 0xFFFFFFFF range), and every other code as before (pool within 2^16 units, ranges clear of the marker) |
| CMapStream.TopResolves | core/fpdfapi/fpdf_font/fpdf_font.cpp:201-293 | the outer loop keeps every pool reference inside the pool, under the same conditions for every block it runs |
| CMapStream.LoadResolves | core/fpdfapi/fpdf_font/fpdf_font.cpp:196-302 | loading keeps every pool reference inside the pool, under the same conditions |
| CMapStream.TopCollection | core/fpdfapi/fpdf_font/fpdf_font.cpp:201-293 | the collection the outer loop selects is that of the last marker word it reads outside the blocks, whatever blocks stand between; a marker inside a block selects nothing |
| CMapStream.LoadCollection | core/fpdfapi/fpdf_font/fpdf_font.cpp:284-301 | loading selects the collection of the last marker word outside the blocks, or none |
| CMapStream.TopLookup | core/fpdfapi/fpdf_font/fpdf_font.cpp:201-293 | after the outer loop, a code looks up as what the last block mapping it leaves it (`TopLast`: a later block overwrites an earlier one), and every other code as before (pool within 2^16 units, every block clear of the marker: `TopClear`) |
| CMapStream.LoadLookup | core/fpdfapi/fpdf_font/fpdf_font.cpp:196-302 | after loading, a code some block maps looks up as the last block leaves it; any other code goes to the old tables and the collection of the last marker word outside the blocks (pool within 2^16 units, every block clear of the marker: `TopClear`) |
| CMapStream.ByteTokenReads | core/fpdfapi/fpdf_font/fpdf_font.cpp:132-194 | the word `<00hh>` reads as the code hh and as the one unit hh |
| CMapStream.ArrayShapeTables | core/fpdfapi/fpdf_font/fpdf_font.cpp:196-283 | a stream `beginbfrange lo hi [ four words ] endbfrange` with codes 0 and 3 loads to the tables the array form fills, and selects no collection |
| CMapStream.ArrayOfLetters | core/fpdfapi/fpdf_font/fpdf_font.cpp:243-257 | an array form from code 0 whose four words decode to "A" to "D" maps code c to 0x41 + c for c up to 3, and leaves every other code empty |
| CMapStream.ArrayStreamLookup | core/fpdfapi/fpdf_font/fpdf_font.cpp:196-302 | loading `beginbfrange <0000> <0003> [<0041> <0042> <0043> <0044>] endbfrange` maps codes 0 to 3 to the units 0x41 to 0x44 (so code 2 to [0x43]) and every other code to nothing |
| CMapStream.BfcharStreamLookup | core/fpdfapi/fpdf_font/fpdf_font.cpp:196-226 | loading `beginbfchar <0041> <0061> endbfchar` maps code 0x41 to [0x61] and every other code to nothing |
| ToUnicode.ToUnicodeMap.Store | core/fpdfapi/fpdf_font/fpdf_font.cpp:215-225 | after the call, the map and the pool are what `StoreDest` gives for the old ones, and the base map is unchanged |
| ToUnicode.ToUnicodeMap.Append | core/fpdfapi/fpdf_font/fpdf_font.cpp:222-224 | after the call, the map and the pool are what `AppendRecord` gives for the old ones |
| ToUnicode.ToUnicodeMap.LoadBfchar | core/fpdfapi/fpdf_font/fpdf_font.cpp:207-226 | the loop's final cursor and tables are those of `Bfchar` |
| ToUnicode.ToUnicodeMap.LoadArray | core/fpdfapi/fpdf_font/fpdf_font.cpp:243-257 | the loop's final cursor and tables are those of `ArrayRange` |
| ToUnicode.ToUnicodeMap.LoadUnits | core/fpdfapi/fpdf_font/fpdf_font.cpp:263-267 | the loop's final tables are those of `UnitRange` |
| ToUnicode.ToUnicodeMap.LoadStrings | core/fpdfapi/fpdf_font/fpdf_font.cpp:268-281 | the loop's final tables are those of `StringRange` |
| ToUnicode.ToUnicodeMap.LoadBfrange | core/fpdfapi/fpdf_font/fpdf_font.cpp:228-283 | the loop's final cursor and tables are those of `Bfrange` |
| ToUnicode.ToUnicodeMap.Load | core/fpdfapi/fpdf_font/fpdf_font.cpp:196-302 | the final tables and base collection are those of `CMapSpec.Load` on the old tables |
| ToUnicode.ToUnicodeMap.ReverseLookup | core/fpdfapi/fpdf_font/fpdf_font.cpp:123-129 | the result is the least code whose word equals the unit, or 0 when no word does |
| FontGlobals.Slot | core/fpdfapi/fpdf_font/fpdf_font.cpp:48-52 | an index outside the array gives no font |
| FontGlobals.SetSlot | core/fpdfapi/fpdf_font/fpdf_font.cpp:54-58 | setting a slot keeps the length and every other slot |
| FontGlobals.SlotAfterSet | core/fpdfapi/fpdf_font/fpdf_font.cpp:48-58 | getting a slot after setting it gives the font set when the index is in range; otherwise it gives what was there before |
| FontGlobals.StockFontArray.GetFont | core/fpdfapi/fpdf_font/fpdf_font.cpp:48-52 | the result is the slot at the index, or no font outside 0..13 |
| FontGlobals.StockFontArray.SetFont | core/fpdfapi/fpdf_font/fpdf_font.cpp:54-58 | the array becomes `SetSlot` of the old array; an index outside 0..13 changes nothing |
| FontGlobals.FindIn | core/fpdfapi/fpdf_font/fpdf_font.cpp:67-72 | a document without an entry has no font |
| FontGlobals.SetIn | core/fpdfapi/fpdf_font/fpdf_font.cpp:74-78 | setting a font gives the document an entry and adds no other |
| FontGlobals.FindAfterSet | core/fpdfapi/fpdf_font/fpdf_font.cpp:67-78 | finding after setting gives the font set (index in range), no font for a new document's other slots, and otherwise what was found before |
| FontGlobals.FontGlobals.Find | core/fpdfapi/fpdf_font/fpdf_font.cpp:67-72 | the result is `FindIn` of the cache contents |
| FontGlobals.FontGlobals.AddDocument | core/fpdfapi/fpdf_font/fpdf_font.cpp:75-76 | a new document gets an array of fourteen empty slots |
| FontGlobals.FontGlobals.Set | core/fpdfapi/fpdf_font/fpdf_font.cpp:74-78 | the cache contents become `SetIn` of the old ones, the invariant holds, and only new arrays enter the footprint |
| FontGlobals.FontGlobals.Clear | core/fpdfapi/fpdf_font/fpdf_font.cpp:80-82 | the document's entry is removed and every other entry is kept |
| FontGlobals.Wrap32 | core/fpdfapi/fpdf_font/fpdf_font.cpp:90 | wrap-around to `int`: congruent modulo 2^32, and the identity in range |
| FontGlobals.Wrap16 | core/fpdfapi/fpdf_font/fpdf_font.cpp:89-90 | conversion to `short`: congruent modulo 2^16, and the identity in range |
| FontGlobals.CDiv | core/fpdfapi/fpdf_font/fpdf_font.cpp:90 | C division truncates toward zero, for both signs of the dividend |
| FontGlobals.TT2PDF | core/fpdfapi/fpdf_font/fpdf_font.cpp:86-91 | with zero units per em, the metric is returned as a `short` |
| FontGlobals.TT2PDFExact | core/fpdfapi/fpdf_font/fpdf_font.cpp:90 | for a non-negative metric whose result fits a `short`, nothing wraps, and the result is the plain quotient |
| FontGlobals.TT2PDFRounds | core/fpdfapi/fpdf_font/fpdf_font.cpp:86-91 | for a non-negative metric, the result is the nearest whole number of 1/1000 em: the error is at most half a unit |
| FontGlobals.TT2PDFNegative | core/fpdfapi/fpdf_font/fpdf_font.cpp:90 | as written, metric -2 at 1000 units per em scales to -1, which is off by more than half a unit |
| FontGlobals.ScaleToPdf | core/fpdfapi/fpdf_font/fpdf_font.cpp:86-91 | the corrected scaling agrees with the source for every non-negative metric and for zero units per em |
| FontGlobals.ScaleNegative | core/fpdfapi/fpdf_font/fpdf_font.cpp:90 | for a negative metric, the corrected scaling negates the rounded scaling of the magnitude |
| FontGlobals.ScaleToPdfRounds | core/fpdfapi/fpdf_font/fpdf_font.cpp:86-91 | the corrected scaling rounds to the nearest unit for metrics of either sign |
| CrtNumbers.StrToInt | core/fxcrt/fx_basic_gcc.cpp:14-33 | the result is `StrToIntSpec`. A null string gives 0. A signed type takes an optional `-`. Leading digits are read for as long as the value stays within the type's maximum, then negated after a `-` |
| CrtNumbers.StrToIntSpec | core/fxcrt/fx_basic_gcc.cpp:14-33 | the result lies within the maximum and its negation, and is never negative for an unsigned type |
| CrtNumbers.Saturated | core/fxcrt/fx_basic_gcc.cpp:24-31 | the value read never exceeds the maximum |
| CrtNumbers.OverflowTest | core/fxcrt/fx_basic_gcc.cpp:26-27 | the test before each digit fails exactly when appending the digit would pass the maximum |
| CrtNumbers.SaturatedAt | core/fxcrt/fx_basic_gcc.cpp:24-31 | where the next digit first passes the maximum, the value read is that of the digits before it |
| CrtNumbers.DecValMonotone | core/fxcrt/fx_basic_gcc.cpp:24-31 | a longer digit prefix never has a smaller value |
| CrtNumbers.Atoi | core/fxcrt/fx_basic_gcc.cpp:72-74 | `FXSYS_atoi` reads a signed value of at most 2^31-1 from a narrow string |
| CrtNumbers.Atoui | core/fxcrt/fx_basic_gcc.cpp:75-77 | `FXSYS_atoui` reads an unsigned value of at most 2^32-1; a `-` stops it at 0 |
| CrtNumbers.Wtoi | core/fxcrt/fx_basic_gcc.cpp:78-80 | `FXSYS_wtoi` reads a signed 32-bit value from a wide string |
| CrtNumbers.Atoi64 | core/fxcrt/fx_basic_gcc.cpp:81-83 | `FXSYS_atoi64` reads a signed value of at most 2^63-1 from a narrow string |
| CrtNumbers.Wtoi64 | core/fxcrt/fx_basic_gcc.cpp:84-86 | `FXSYS_wtoi64` reads a signed 64-bit value from a wide string |
| CrtNumbers.DigitChar | core/fxcrt/fx_basic_gcc.cpp:62 | a digit below ten is written as the decimal digit of that value |
| CrtNumbers.DigitsOf | core/fxcrt/fx_basic_gcc.cpp:55-64 | a positive number has at least one digit |
| CrtNumbers.IntToStr | core/fxcrt/fx_basic_gcc.cpp:35-67 | the buffer starts with `Render(value, radix)` and a NUL, and nothing after them changes. That is empty for a radix outside 2..16, "0" for zero, and otherwise a `-` for negatives followed by the lower-case digits of the magnitude |
| CrtNumbers.CountDigits | core/fxcrt/fx_basic_gcc.cpp:55-60 | the first loop counts exactly the digits of the magnitude |
| CrtNumbers.WriteDigits | core/fxcrt/fx_basic_gcc.cpp:61-65 | the second loop writes the digits of the magnitude and a NUL after the sign, and changes nothing else |
| CrtNumbers.Itoa | core/fxcrt/fx_basic_gcc.cpp:194-196 | `FXSYS_itoa` writes the text of a 32-bit value |
| CrtNumbers.I64toa | core/fxcrt/fx_basic_gcc.cpp:87-89 | `FXSYS_i64toa` writes the text of a 64-bit value |
| CrtNumbers.DecValDigitsOf | core/fxcrt/fx_basic_gcc.cpp:61-64 | the base-10 digits of n, read back as a decimal number, give n |
| CrtNumbers.DigitRunAll | core/fxcrt/fx_basic_gcc.cpp:24 | a string of digits only is read to its end |
| CrtNumbers.ReadDecimal | core/fxcrt/fx_basic_gcc.cpp:46-64 | the base-10 text of a non-zero value is its sign followed by a digit run worth its magnitude |
| CrtNumbers.ReadBackWritten | core/fxcrt/fx_basic_gcc.cpp:14-67 | reading back the base-10 text of a value gives the value, when its magnitude is within the type's maximum (for unsigned types, when the value is non-negative) |
| CrtNumbers.MostNegativeTruncated | core/fxcrt/fx_basic_gcc.cpp:19-32 | as written, the text of the type's minimum reads back with its last digit dropped |
| CrtNumbers.Int32MinTruncated | core/fxcrt/fx_basic_gcc.cpp:72-74 | as written, `FXSYS_atoi` of "-2147483648" gives -214748364 |
| CrtNumbers.StrToIntIntended | core/fxcrt/fx_basic_gcc.cpp:14-33 | the corrected reader lets a negative value reach one past the maximum |
| CrtNumbers.IntendedReadsBackAll | core/fxcrt/fx_basic_gcc.cpp:14-67 | the corrected reader reads back the base-10 text of every value of the type, the minimum included |
| CrtStrings.ToLower | core/fxcrt/fx_basic_gcc.cpp:132 | `A`-`Z` move up by 0x20; every other unit stays |
| CrtStrings.ToUpper | core/fxcrt/fx_basic_gcc.cpp:143 | `a`-`z` move down by 0x20; every other unit stays |
| CrtStrings.NulIndex | core/fxcrt/fx_basic_gcc.cpp:131 | the result is the first NUL, or the end of a buffer without one |
| CrtStrings.MapBytes | core/fxcrt/fx_basic_gcc.cpp:131-134 | the buffer becomes `CaseMapped` of the old one: each unit before the first NUL is mapped, and the rest are unchanged |
| CrtStrings.MapWide | core/fxcrt/fx_basic_gcc.cpp:153-156 | the same, for a wide buffer |
| CrtStrings.StrLwr | core/fxcrt/fx_basic_gcc.cpp:126-136 | a null string is returned as it is; otherwise the buffer is lower-cased in place up to its NUL |
| CrtStrings.StrUpr | core/fxcrt/fx_basic_gcc.cpp:137-147 | a null string is returned as it is; otherwise the buffer is upper-cased in place up to its NUL |
| CrtStrings.WcsLwr | core/fxcrt/fx_basic_gcc.cpp:148-158 | the same as `StrLwr`, for a wide buffer |
| CrtStrings.WcsUpr | core/fxcrt/fx_basic_gcc.cpp:159-169 | the same as `StrUpr`, for a wide buffer |
| CrtStrings.NulIndexIs | core/fxcrt/fx_basic_gcc.cpp:131 | the first NUL is the one with no NUL before it |
| CrtStrings.CaseMappedKeepsNul | core/fxcrt/fx_basic_gcc.cpp:131-134 | case mapping neither makes nor removes a NUL, so the string keeps its length |
| CrtStrings.CaseMappedIdempotent | core/fxcrt/fx_basic_gcc.cpp:126-169 | mapping a string twice the same way gives the same as mapping it once |
| CrtStrings.ICompare | core/fxcrt/fx_basic_gcc.cpp:170-193 | the result is `ICompareFrom(dst, src, 0)`: the difference of the lower-cased units where they first differ, or where the first string ends |
| CrtStrings.Stricmp | core/fxcrt/fx_basic_gcc.cpp:170-181 | `FXSYS_stricmp` is that comparison on narrow strings |
| CrtStrings.Wcsicmp | core/fxcrt/fx_basic_gcc.cpp:182-193 | `FXSYS_wcsicmp` is that comparison on wide strings |
| CrtStrings.LowerDrop | core/fxcrt/fx_basic_gcc.cpp:172-179 | the lower-cased rest of a string is its next unit lower-cased, followed by the lower-cased rest after that |
| CrtStrings.ICompareZeroFrom | core/fxcrt/fx_basic_gcc.cpp:172-180 | from any position on, the comparison is zero exactly when the remaining texts are equal ignoring case |
| CrtStrings.ICompareZero | core/fxcrt/fx_basic_gcc.cpp:170-181 | the comparison is zero exactly when the two strings are equal ignoring case |
| CrtStrings.ICompareAntisymmetric | core/fxcrt/fx_basic_gcc.cpp:170-181 | swapping the two strings negates the result |
| CrtStrings.ICompareLowerCopy | core/fxcrt/fx_basic_gcc.cpp:126-181 | a string compares equal to its lower-cased copy |
| CrtStrings.Narrowed | core/fxcrt/fx_basic_gcc.cpp:214-221 | the units kept are never more than the units read |
| CrtStrings.Clip | core/fxcrt/fx_basic_gcc.cpp:214-216 | a count is clipped to 0..limit, and unchanged when already in range |
| CrtStrings.WideCharToMultiByte | core/fxcrt/fx_basic_gcc.cpp:205-223 | the result counts the units below 0x100 among the first `wlen` units. As many of them as `buflen` allows are written, in order, and the rest of the buffer is unchanged |
| CrtStrings.MultiByteToWideChar | core/fxcrt/fx_basic_gcc.cpp:224-238 | the result is the byte count (0 when negative). As many bytes as `buflen` allows are written as units, and the rest of the buffer is unchanged |
| CrtStrings.NarrowedBytes | core/fxcrt/fx_basic_gcc.cpp:205-238 | bytes widened and then narrowed come back unchanged |
| CrtStrings.NarrowedKeepsAll | core/fxcrt/fx_basic_gcc.cpp:214-221 | narrowing keeps a wide string whole exactly when all its units are below 0x100 |
| CrtStrings.AsInt32 | core/fxcrt/fx_basic_gcc.cpp:105 | the `(int)` cast of the 32-bit length: the identity below 2^31, negative above |
| CrtStrings.FullPathResult | core/fxcrt/fx_basic_gcc.cpp:104-109 | the result is the name's length exactly when a buffer is given and holds the name with its NUL; otherwise it is one more |
| CrtStrings.GetFullPathName | core/fxcrt/fx_basic_gcc.cpp:100-110 | a buffer that fits receives the name and its NUL, with nothing after them changed. Otherwise nothing is written and the size needed is returned |
| CrtStrings.SizeQueryThenCopy | core/fxcrt/fx_basic_gcc.cpp:100-110 | a call without a buffer returns the size that makes the next call copy |

## Left out

- Stream loading and the tokenizer of `Load` (`CPDF_StreamAcc`, `CPDF_SimpleParser`) are not modelled. The stream is the sequence of words `GetWord` would return, and an exhausted reader gives the empty word.
- The word sequence is taken to hold no empty word. The reader returns the empty word only once the stream is exhausted, and an empty word in the sequence ends every loop just as that does.
- The CMap manager and `UnicodeFromCID` are not modelled. The base collection is a function parameter `resolve`, and `m_pBaseMap` is the selected `CidSet` (`Unknown` for none).
- `FT_UseTTCharmap` is not part of this model: it calls into FreeType.
- The stock-font destructor, which releases the font dictionaries, is not modelled; neither is `unique_ptr` ownership and deletion. A font or a document is a number compared by identity.
- The `CPDF_FontGlobals` constructor's clearing of the embedded charset tables is not modelled: those tables are outside this model.
- `FXSYS_wfopen`, `FXSYS_GetACP` and `FXSYS_GetModuleFileName` are not modelled: they are file-system and platform calls.
- Case mapping is ASCII only. The locale behaviour of `tolower`/`toupper`, and their effect on wide units, is not modelled.
- A narrow `char` is taken as an unsigned byte. The sign extension of `bstr[i]` in `FXSYS_MultiByteToWideChar` is not modelled, and neither is a negative `char` in `FXSYS_StrToInt`.
- `FX_WCHAR` is taken as a 16-bit unsigned unit. A negative `wchar_t`, which would pass the `< 0x100` test of `FXSYS_WideCharToMultiByte`, is not modelled.
- The code page, flags, default string and `pUseDefault` of the two conversions, and `filepart` of `FXSYS_GetFullPathName`, are not modelled; the source ignores them too.
- Signed `int` overflow, which C leaves undefined, is taken as 32-bit wrap-around. This covers the accumulator of `StringToCode`, the pool offset word, and `m * 1000` in `TT2PDF`.
- `m_Map` is taken as an ordered map, so `ReverseLookup` scans codes in ascending order. The header that declares it is not part of this model.
- The stock-font array holds fourteen slots, the number of standard fonts. The header that sizes it is not part of this model.
- `Load`'s nested loops are split into one method per block kind, and the word reader's cursor is a local variable. `ToUnicodeMap.Lookup` reads the object's fields and delegates to `CMapLookup.LookupIn`, which carries the contract.
- `FXSYS_IntToStr`'s two loops are the methods `CountDigits` and `WriteDigits`.
- CMapSpec.Bfchar: its own contract states only the cursor and the growth of the pool. What each code looks up to after the block is stated by `CMapStream.BfcharLookup`.
- CMapSpec.Bfrange: its own contract states only the cursor and the growth of the pool. The lookup after the block is stated by `CMapStream.BfrangeLookup`, and the 0xFFFFFFFF stop by `CMapStream.BfrangeMaxEnds`.
- CMapSpec.Top: its own contract states only that the pool grows. The lookup is stated by `CMapStream.TopLookup`, which holds only while the pool stays within 2^16 units and every block stays clear of the marker (`TopClear`). The collection is stated by `CMapStream.TopCollection`.
- CMapSpec.Load: its own contract states only that the pool grows. The lookup is stated by `CMapStream.LoadLookup`, under the same two conditions. The collection is stated by `CMapStream.LoadCollection`.
- CMapLookup.UnitRangeLookup: requires the range's units not to run past 0xFFFF. Past that point the stored words wrap, and from 0xFFFF on they read as pool markers. The exact stored word for every code is still given by `UnitRangeEntry`.
- CMapLookup.StringRangeLookup: requires the pool to stay within 2^16 units. `AppendWraps` shows what happens past that.
- CMapLookup.ArrayRangeLookup: requires the pool to stay within 2^16 units, and no word of the array to decode to the single unit 0xFFFF. `SingleMaxCollides` shows that case.
- CMapLookup.StoreDestLookup: requires the destination to be storable, for the same two reasons.
- CMapStream.ArrayGives: requires the pool to stay within 2^16 units, and no word of the array to decode to the single unit 0xFFFF, as `ArrayRangeLookup` does.
- CMapStream.UnitGives: requires the range's units to stay below 0xFFFF, as `UnitRangeLookup` does.
- CMapStream.StringGives: requires the pool to stay within 2^16 units, as `StringRangeLookup` does.
- CMapStream.BfcharLookup, CMapStream.BfrangeLookup: require the pool to stay within 2^16 units, and every pair or range to stay clear of the marker.
- CMapStream.TopLookup, CMapStream.LoadLookup: require the pool to stay within 2^16 units, and every block to stay clear of the marker (`TopClear`). `SingleMaxCollides` and `AppendWraps` show what goes wrong otherwise.
- CMapLookup.AppendLookup: requires the pool to stay within 2^16 units.
- FontGlobals.TT2PDFRounds: is stated for non-negative metrics whose result fits a `short`. For negative metrics the source does not round to nearest, which is the finding below.
- CrtNumbers.ReadBackWritten: excludes the type's minimum, which does not read back. That is the finding below.
- CrtStrings.GetFullPathName: requires a name shorter than 2^31-1 units, so that `strlen` fits the source's `int`.

## Findings

| source | as written | input that shows it | evidently intended | confidence | as-written member | corrected member |
|---|---|---|---|---|---|---|
| core/fpdfapi/fpdf_font/fpdf_font.cpp:90 | `(m * 1000 + upm / 2) / upm` adds half a unit and then truncates toward zero. This rounds to nearest only for non-negative metrics | `m = -2`, units per em 1000: (-2000 + 500) / 1000 truncates to -1. The exact value is -2 | round to the nearest unit for negative metrics too, by negating the rounded magnitude | medium, not executed | FontGlobals.TT2PDFNegative | FontGlobals.ScaleToPdfRounds |
| core/fxcrt/fx_basic_gcc.cpp:26 | the overflow test compares the magnitude with the type's maximum even after a `-`, so a negative value can never reach the minimum | `FXSYS_atoi("-2147483648")` stops before the last digit and returns -214748364 | a negative value may reach the type's minimum, one past the maximum, as `FXSYS_itoa` writes it | medium, not executed | CrtNumbers.Int32MinTruncated | CrtNumbers.IntendedReadsBackAll |
