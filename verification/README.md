# rct, modelled and proved

rct is a C++ utility library: event loop, sockets, framed messages, processes, threads, containers and
a JSON codec. This project models its hardest parts in Dafny and proves what they promise, over all
inputs, all runs and all interleavings.

* **JSON** (`Unsigned`, `Utf8`, `JsonString`, `JsonStringCode`, `JsonText`, `JsonGrammar`, `JsonReading`,
  `JsonLanguage`, `JsonParser`, `JsonPrinter`, `JsonRoundTrip`, `JsonMinify`, `JsonCompact`, `JsonLayout`,
  `ValueJson`, `JsonValues`, `JsonFormat`). The parser, the printer with its two layouts, and the in-place
  minifier of cJSON are methods over texts and buffers, proved against functions on trees and texts.
  `JsonGrammar` defines the language of RFC 8259 without reference to them, as trees of concrete syntax with a
  spelling and a meaning, and a wider grammar with control characters, odd numerals and escapes, and unclosed
  strings; the parser reads exactly the texts of the wider grammar, each as what it means. Minifying any JSON
  text takes out its blanks and nothing else. Further: parsing undoes printing, minifying a tabbed print gives
  the compact print and laying the compact print out again gives the tabbed one, the sizes measured before
  writing are enough, `\u` escapes become the UTF-8 of RFC 3629 through the very masks and shifts of the
  code, and a `Value` survives `toJSON` and `fromJSON` exactly when it has no undefined value, no date, no
  Integer of more than 32 bits and no NUL in a string. `JsonFormat` adds the library's second writer: what it
  writes is JSON, agrees with the first on plain values, and comes back exactly under a condition of its own.
* **Framed messages** (`Wire`, `WireFormat`, `WireCode`, `Frames`, `FrameFormat`, `Buffers`, `Receiver`,
  `Sender`, `Channel`). The binary codec of `Value` is self-delimiting and undone by its decoder exactly on
  values without Date, Custom and Integers of more than 32 bits. A write queue that survives short writes and
  a reassembler fed arbitrary chunks are joined in `Channel.Transfer`: the messages dispatched are those sent,
  in order and once, and all of them unless a write fails, a buffer is full or the kernel's last answer was to
  come again.
* **Matching** (`Ascii`, `Glob`, `Words`, `Boundary`, `Ranking`). The glob matcher that backtracks only to the
  last star decides the declarative glob relation; the word-boundary matcher finds the greatest decomposition
  of the query; the comparator is a strict weak ordering on the results of one query, and not in general.
* **Schedulers and locks** (`ThreadPool`, `ThreadPoolRuns`, `RwLock`, `Reaper`, `Timers`) and the **intrusive
  list** (`EmbeddedList`). The concurrent ones are state machines whose steps are the mutex-protected regions,
  with sleepers, notifications and wakeups without cause explicit; invariants are proved over every
  interleaving. Timers and list are classes over shared objects.

Conventions. A byte is a character below 256; a C string is a sequence without NUL behind which reading
yields NUL. Integer widths, truncation and two's complement are written out where they matter; byte order is
little-endian. `Common` and `Ascii` hold what several modules use. A method named after a function of
the source follows that function's statements; the functions its contract refers to say what it means. What
these in turn mean is stated without them, by tables of characters, by bytes written out, and by laws over runs.

Where the code and what one expects of it differ, the code is followed, the exact condition is proved,
and a lemma shows an input or a run on which the difference appears:

* match results compared over the common length of their index lists, a legal ordering exactly for lists
  without a fork, as those of one query are: `Ranking.StrictWeakOrderExactlyWhen`, and for results of different
  queries shown not to be by `Ranking.MixedQueriesCanCycle`;
* a parser that reads more than JSON: `JsonLanguage.ParsedExactlyWhen`, shown by `JsonLanguage.ReadsMoreThanJson`
  and `JsonLanguage.ReadsUnknownEscapes`;
* priorities compared as unsigned numbers: `ThreadPool.InsertedOrderedExactlyWhen`, shown by
  `ThreadPool.MixedSignsMissort`;
* a child already in the reaper's hand is still finished behind `removePid`:
  `Reaper.RemoveSilencesExactlyWhen`, shown by `Reaper.WindowIsReachable`;
* jsonEscape writes bytes from 128 up as `\uffff`: `JsonFormat.EscapeRoundTripExactlyWhen`, shown by
  `JsonFormat.NotAllComeBack`;
* values that the codecs do not give back: `Wire.RoundTripExactlyWhen` and
  `ValueJson.JsonRoundTripExactlyWhen`, shown by `Wire.NotAllComeBack` and `ValueJson.NotAllComeBack`.

## Model

| member | source | states |
|---|---|---|
| `Glob.WildCmp` | rct/Rct.h:272-305 | returns true exactly when the pattern matches declaratively (`*` any run, `?` any one character), in both case modes; all three loops terminate |
| `Glob.StarFreeMatches` | rct/Rct.h:272-305 | a pattern without `*` matches exactly the texts of its length in which each character is matched by `?`, by itself or, ignoring case, by the same letter of the alphabet |
| `Glob.PatternsFollow` | rct/Rct.h:285-299 | a pattern followed by another matches exactly the texts that split into a match of each |
| `Glob.StarMatchesAll` | rct/Rct.h:287-289 | a star alone matches every text; with the two laws above this determines the relation |
| `Ascii.LowerMeans` | rct/Rct.h:278 | each capital becomes the small letter at its place in the alphabet, and nothing else changes |
| `Glob.OlderRetriesAreRedundant` | rct/Rct.h:285-299 | at a later star nothing is lost by forgetting the retry point of the earlier one |
| `Glob.NoRoomLeft` | rct/Rct.h:285-299 | a retry point too close to the end of the text cannot succeed, so the loop may end |
| `Glob.StarAbsorbs` | rct/Rct.h:286-291 | what matches behind a star from some position matches from every earlier one |
| `Glob.StarIsAnyStart` | rct/Rct.h:286-291 | a star matches exactly when the rest matches from some later start |
| `Glob.SegmentSkip` | rct/Rct.h:277-283 | a star-free segment consumes exactly its own length |
| `Glob.OneCharacter` | rct/Rct.h:277-298 | one comparison of the loops decides one character of the relation |
| `Glob.AtEndOfText` | rct/Rct.h:301-304 | at the end of the text only stars may remain |
| `Glob.TrailingStar` | rct/Rct.h:287-289 | a final star matches whatever is left |
| `Words.BreakPartsOfWord` | rct/StringTokenizer.h:119-171 | the parts are the lower-cased words of the one segmentation that cuts between characters exactly where the rules say |
| `Words.TakeCharacter` | rct/StringTokenizer.h:124-161 | one character keeps the segmentation of the text read so far, in every branch |
| `Words.NewWord` | rct/StringTokenizer.h:144-160 | a character that breaks begins a word of its own |
| `Words.SameWord` | rct/StringTokenizer.h:131-160 | a character that does not break extends the last word |
| `Words.PulledWord` | rct/StringTokenizer.h:132-136 | XML\|Do: the last capital moves to the lower-case word |
| `Words.LowerCaseParts` | rct/StringTokenizer.h:166-168 | every part is lower-cased and none is dropped or moved |
| `Words.SegmentationIsUnique` | rct/StringTokenizer.h:119-164 | text and cutting rules leave only one way to split |
| `Words.PartsConserveText` | rct/StringTokenizer.h:119-171 | the parts concatenate to the lower-cased alphanumeric characters of the word |
| `Words.EveryWordHasShape` | rct/StringTokenizer.h:119-164 | every word is non-empty and consists of digits, of capitals, or of lower-case letters behind at most one capital |
| `Words.WordsAreLongest` | rct/StringTokenizer.h:119-164 | words are not cut further than that: two neighbours together would not be a word, unless an underscore stands between them, and a lower-case letter begins a word only there or behind a digit |
| `Words.CutBreaksShape` | rct/StringTokenizer.h:131-160 | where a digit follows what is none, a capital what is none, a lower-case letter a digit, or a lower-case letter the second of two capitals, no word goes on |
| `Words.UnderscoreCuts` | rct/StringTokenizer.h:124-130 | an underscore, and other characters behind it, always cut |
| `Words.PartsAreLower` | rct/StringTokenizer.h:166-168 | a part has no capitals and is its word up to case |
| `Words.LowerPrefix` | rct/StringTokenizer.h:184-202 | what find_match compares after lower-casing both is being a prefix up to case |
| `Boundary.CommonPrefix` | rct/StringTokenizer.h:173-182 | the longest common prefix, neither shorter nor longer |
| `Boundary.MatchFrom` | rct/StringTokenizer.h:227-246 | succeeds exactly when the rest of the query decomposes into prefixes of the remaining parts, and then has written the lexicographically greatest decomposition, without touching earlier entries; entries behind the last used part are 0 or as they were |
| `Boundary.IsBoundaryMatch` | rct/StringTokenizer.h:217-225 | on a fresh list: true exactly when the stripped query decomposes, and then the whole list is the greatest decomposition with the length of the stripped query as sum, zeros behind the last used part |
| `Boundary.LongestFirst` | rct/StringTokenizer.h:236-243 | trying longer prefixes first finds the lexicographically greatest decomposition |
| `Boundary.SumIsLength` | rct/StringTokenizer.h:227-246 | the lengths taken from the parts add up to the length of the query |
| `Boundary.EmptyQuery` | rct/StringTokenizer.h:230-231 | an empty rest of the query is decomposed by zeros, and nothing greater decomposes it |
| `Boundary.PrefixDecomposes` | rct/StringTokenizer.h:217-246 | every prefix of the joined parts decomposes |
| `Boundary.PrefixIsBoundaryMatch` | rct/StringTokenizer.h:184-225 | every case-insensitive prefix of a name would also be a boundary match of it |
| `Ranking.FindMatch` | rct/StringTokenizer.h:184-210 | the kind of the result says which of the five ways matches first, and a boundary result carries the greatest decomposition; nothing is returned exactly when none applies |
| `Ranking.FoundExactlyWhen` | rct/StringTokenizer.h:184-210 | there is a result exactly when the query is not longer than the name and is a boundary match of its parts |
| `Ranking.MatchIsUnique` | rct/StringTokenizer.h:184-210 | the result is determined by candidate and query |
| `Ranking.MatchSum` | rct/StringTokenizer.h:203-207 | the index list of a boundary result sums to the length of the stripped query |
| `Ranking.DifferenceOrder` | rct/StringTokenizer.h:88-93 | with equal sums, comparing over the common length is transitive, and so is being equal over it |
| `Ranking.ForklessOrder` | rct/StringTokenizer.h:83-93 | on lists of which none continues into two that do not continue each other, comparing over the common length is transitive, and so is being equal over it |
| `Ranking.LessIsTransitive` | rct/StringTokenizer.h:77-101 | the comparator is transitive on results whose lists have no fork |
| `Ranking.EquivalentMeans` | rct/StringTokenizer.h:77-101 | results the comparator does not separate have equal kinds, candidates and indices over the common length |
| `Ranking.StrictWeakOrderExactlyWhen` | rct/StringTokenizer.h:77-101 | for a set of index lists: the comparator is a strict weak ordering on all results with these lists, whatever the candidates, exactly when no list continues into two that do not continue each other |
| `Ranking.OneQueryIsForkless` | rct/StringTokenizer.h:77-101 | the index lists of a single query have no fork, because their sums are equal |
| `Ranking.OneQueryIsStrictWeakOrder` | rct/StringTokenizer.h:77-101 | on the results of a single query the comparator is a strict weak ordering |
| `Ranking.MixedQueriesCanCycle` | rct/StringTokenizer.h:77-210 | what find_match returns for a_bb under abb, a_bb under ab and _a under a: each result is less than the next, in a circle |
| `Ranking.Sort` | rct/StringTokenizer.h:259 | any sort under a strict weak ordering: an ordered permutation |
| `Ranking.PresentSums` | rct/StringTokenizer.h:252-257 | all results collected for one query have equal index sums |
| `Ranking.FindAndSortMatches` | rct/StringTokenizer.h:248-262 | an ordered permutation of exactly the matches of the candidates, every one of which may precede every later one in the sense of `OrderMeans` |
| `Ranking.OrderMeans` | rct/StringTokenizer.h:77-101 | a result may stand before another exactly when its kind comes first in the order exact, exact ignoring case, prefix, prefix ignoring case, word boundary; or with equal kinds its indices are larger where they first differ; then by smaller priority and smaller name |
| `Ranking.OrderedMeans` | rct/StringTokenizer.h:77-101 | an ordered list is one whose every result may stand before every later one in that sense |
| `Common.StringLessMeans` | rct/StringTokenizer.h:95-100 | names compare by the first character that differs, or a proper prefix first |
| `Utf8.DecodeEncode` | cJSON/cJSON.c:292-318 | a UTF-8 decoder recovers every scalar value, and what follows it |
| `Utf8.EncodeDecoded` | cJSON/cJSON.c:292-318 | and nothing else: what it accepts is the encoding of a scalar value |
| `Utf8.Emit` | cJSON/cJSON.c:292-318 | the length chosen by comparison and the backward fall-through with masks and shifts write exactly the UTF-8 encoding (section 3 of RFC 3629) of the 32-bit word, and nothing before it |
| `Unsigned.TailMask` | cJSON/cJSON.c:302-311 | or with 0x80, and with 0xBF, shift by 6, on 32-bit words: the arithmetic of a continuation byte |
| `Unsigned.LeadMask` | cJSON/cJSON.c:314-316 | or with the first-byte mark adds it |
| `Unsigned.PairMask` | cJSON/cJSON.c:289 | the masks and shift of a surrogate pair are the arithmetic of section 2.2 of RFC 2781 |
| `Unsigned.ShiftIn` | cJSON/cJSON.c:183-226 | shifting a word left by four and adding a digit is multiplying by 16 and adding |
| `Unsigned.UnitCompares` | cJSON/cJSON.c:278-286 | the comparisons of the code on the word of a UTF-16 unit are those on its number |
| `Unsigned.LengthCompares` | cJSON/cJSON.c:292-299 | so are the comparisons that choose the length of the encoding |
| `JsonString.HexRoundTrip` | cJSON/cJSON.c:183-226 | parse_hex4 inverts `%04x` |
| `JsonString.HexValueMeans` | cJSON/cJSON.c:183-226 | a digit is worth its place in 0123456789abcdef or 0123456789ABCDEF, and other characters are no digits |
| `JsonString.HexDigitMeans` | cJSON/cJSON.c:391 | the digits written are 0123456789abcdef |
| `JsonString.UnescapeMeans` | cJSON/cJSON.c:260-273 | what each letter behind a backslash stands for, by code |
| `JsonString.EscapeLetterMeans` | cJSON/cJSON.c:373-390 | exactly quote, backslash, backspace, form feed, line feed, carriage return and tab have an escape of two characters, which means them |
| `JsonString.DecodeBasic` | cJSON/cJSON.c:274-318 | a scalar value of the basic plane written as one escape decodes to its UTF-8 |
| `JsonString.DecodePair` | cJSON/cJSON.c:281-318 | a scalar value beyond it written as a surrogate pair decodes to its UTF-8 |
| `JsonString.DecodeInvertsEscape` | cJSON/cJSON.c:231-401 | parse_string recovers every NUL-free byte string from what print_string_ptr wrote, stopping behind the closing quote |
| `JsonStringCode.Measure` | cJSON/cJSON.c:346-353 | the measuring loop computes the measure of the string |
| `JsonStringCode.MeasureIsLength` | cJSON/cJSON.c:336-401 | the measure equals the length the quoted writing pass emits and bounds the unquoted one |
| `JsonStringCode.WriteEscape` | cJSON/cJSON.c:367-394 | one special character is written as its escape, as long as measured |
| `JsonStringCode.WriteEscaped` | cJSON/cJSON.c:363-396 | the writing loop appends the escaped string and stays within the measure |
| `JsonStringCode.PrintStringPtr` | cJSON/cJSON.c:336-401 | the buffer holds the printed string and its NUL; quoted, it is exactly full |
| `JsonStringCode.StrCpy` | cJSON/cJSON.c:642-643 | the string and a NUL are written where asked, nothing before it changes |
| `JsonStringCode.Count` | cJSON/cJSON.c:243-245 | the counting loop of parse_string computes the count of the literal |
| `JsonStringCode.EscapeFits` | cJSON/cJSON.c:257-325 | one escape decodes to no more bytes than it was counted for |
| `JsonStringCode.DecodedFits` | cJSON/cJSON.c:243-327 | the decoded string never exceeds the counted length |
| `JsonStringCode.ParseHex4` | cJSON/cJSON.c:183-226 | four digits, shifted in one by one, give the word of the number they spell, and 0 when one of them is no digit |
| `JsonStringCode.CopyUnit` | cJSON/cJSON.c:274-320 | one `\\u` escape or a pair of them appends exactly the bytes it means and moves behind it, in the dropping branches too |
| `JsonStringCode.CopyEscape` | cJSON/cJSON.c:257-325 | one escape appends exactly its bytes and moves behind it |
| `JsonStringCode.ParseString` | cJSON/cJSON.c:231-333 | cursor, counted buffer and decoding loop agree with the meaning of the literal, in the failing cases too |
| `JsonRoundTrip.ParsePrintInt` | cJSON/cJSON.c:120-157 | reading a printed integer gives it back, up to what cannot continue a number |
| `JsonRoundTrip.ParseQuoted` | cJSON/cJSON.c:231-401 | reading a printed string value gives it back and stops at the rest |
| `JsonRoundTrip.ParsePrintValue` | cJSON/cJSON.c:475-824 | parsing undoes printing: every tree of null, booleans, 32-bit integers, NUL-free strings, arrays and objects, both layouts, any depth, any rest that cannot continue a number |
| `JsonRoundTrip.ParsePrintItems` | cJSON/cJSON.c:545-656 | the same for the elements of an array behind any blanks |
| `JsonRoundTrip.ParsePrintMembers` | cJSON/cJSON.c:659-824 | the same for the members of an object behind any blanks |
| `JsonReading.NumeralMeans` | cJSON/cJSON.c:120-157 | every numeral of section 6 of RFC 8259, and every other that is read, has the value of its digits times the power of ten of its exponent less the length of its fraction |
| `JsonReading.LiteralMeans` | cJSON/cJSON.c:231-333 | every string of section 7 of RFC 8259, lone surrogates included, and every other that is read, is read as the bytes its characters and escapes mean |
| `JsonReading.RecasedMeans` | cJSON/cJSON.c:183-226 | the meaning of a string does not depend on the case of its hexadecimal digits |
| `JsonReading.EscapedScalarMeans` | cJSON/cJSON.c:274-320 | four digits of either case worth a, b, c, d mean the UTF-8 of 4096a + 256b + 16c + d |
| `JsonReading.ShortestEscape` | cJSON/cJSON.c:363-394 | no way of writing a byte in a string is shorter than the one print_string_ptr chooses |
| `JsonReading.ReadSpelled` | cJSON/cJSON.c:475-714 | the parser gives every text of the wider grammar its meaning and stops where it ends |
| `JsonReading.ParseSpelled` | cJSON/cJSON.c:475-714 | in particular every JSON text, however it is spaced, escaped or nested |
| `JsonReading.DenotedIsParsed` | cJSON/cJSON.c:427-460 | a text denoting a tree, with blanks before and behind it, parses to that tree |
| `JsonReading.DenotesOneTree` | cJSON/cJSON.c:475-714 | a JSON text denotes one tree only |
| `JsonLanguage.ParsedIsRead` | cJSON/cJSON.c:475-714 | whatever the parser reads is spelled according to the wider grammar, up to where it stops |
| `JsonLanguage.ParsedExactlyWhen` | cJSON/cJSON.c:475-714 | the parser reads a value off a text and leaves a rest exactly when the text begins with a spelling of that value in the wider grammar, which the rest does not continue |
| `JsonLanguage.ReadsMoreThanJson` | cJSON/cJSON.c:120-157 | a minus sign alone is no JSON text and is read as 0 |
| `JsonLanguage.ReadsUnknownEscapes` | cJSON/cJSON.c:257-325 | a backslash before any letter that section 7 of RFC 8259 does not list is no JSON text and is read as that letter |
| `JsonParser.SkipAt` | cJSON/cJSON.c:418-424 | the cursor moves over blanks and control characters only |
| `JsonParser.NumberAt` | cJSON/cJSON.c:120-157 | sign, digits, fraction and exponent are read as mantissa and power of ten, and the cursor stops at the first character that cannot continue |
| `JsonParser.ParseArrayAt` | cJSON/cJSON.c:545-582 | elements are linked in text order, or the parse fails or overruns, as the meaning of the text has it |
| `JsonParser.ParseObjectAt` | cJSON/cJSON.c:659-714 | members are linked in text order, or the parse fails or overruns, as the meaning of the text has it |
| `JsonParser.PairAt` | cJSON/cJSON.c:696-707 | one name, colon and value |
| `JsonParser.ParseValueAt` | cJSON/cJSON.c:475-508 | dispatch on the first characters; result and end position agree with the meaning of the text |
| `JsonParser.Parse` | cJSON/cJSON.c:427-460 | leading blanks are skipped, one value is read, what follows it is ignored |
| `JsonPrinter.MeasureArray` | cJSON/cJSON.c:609-619 | prints each element and adds up the length of the composed array |
| `JsonPrinter.ArrayMeasureBounds` | cJSON/cJSON.c:609-655 | the array measure bounds what is composed |
| `JsonPrinter.PrintArray` | cJSON/cJSON.c:585-656 | measuring, composing with separators and closing give the print of the array, terminated by its NUL |
| `JsonPrinter.MeasureObject` | cJSON/cJSON.c:756-769 | prints each name and value and adds up the length of the composed object |
| `JsonPrinter.ObjectMeasureBounds` | cJSON/cJSON.c:756-823 | the object measure bounds what is composed |
| `JsonPrinter.ComposeObject` | cJSON/cJSON.c:790-823 | braces, indentation, separators and members are written in the given buffer in order |
| `JsonPrinter.PrintObject` | cJSON/cJSON.c:717-824 | measuring and composing give the print of the object, terminated by its NUL |
| `JsonPrinter.PrintEmptyObject` | cJSON/cJSON.c:729-743 | the empty object in both layouts |
| `JsonPrinter.Print` | cJSON/cJSON.c:511-542 | dispatch over the kinds of value gives the print of the tree |
| `JsonLayout.TabbedIsPretty` | cJSON/cJSON.c:511-824 | for every tree, the tabbed print is what one pass over the compact print makes of it that looks at one character, the brackets open around it and, behind `{`, the next: line breaks and as many tabs as there are brackets within objects, nothing within strings |
| `JsonMinify.Minify` | cJSON/cJSON.c:1167-1201 | in place: the buffer holds the minified text and its NUL, bytes behind the old end untouched, the write cursor never passes the read cursor |
| `JsonMinify.MinifyStep` | cJSON/cJSON.c:1171-1199 | one turn of the loop keeps written text plus the minified rest, in every branch |
| `JsonMinify.CopyLiteral` | cJSON/cJSON.c:1188-1196 | a string literal is copied verbatim with its escapes |
| `JsonMinify.SkipComment` | cJSON/cJSON.c:1183-1187 | a block comment is skipped up to behind its end |
| `JsonMinify.SkipLine` | cJSON/cJSON.c:1180-1182 | a line comment is skipped up to the line feed |
| `JsonMinify.MinifyQuoted` | cJSON/cJSON.c:1188-1196 | the minifier leaves a printed string as it is, whatever it contains |
| `JsonText.SpaceMeans` | cJSON/cJSON.c:1171-1179 | the blanks that are dropped are space, tab, line feed and carriage return |
| `JsonMinify.LineCommentIsDropped` | cJSON/cJSON.c:1180-1182 | a line comment disappears, its line feed is treated as before |
| `JsonMinify.BlockCommentIsDropped` | cJSON/cJSON.c:1183-1187 | a block comment disappears up to its first end |
| `JsonCompact.SqueezeSyntax` | cJSON/cJSON.c:1167-1201 | in front of any text, the minifier takes the blanks out of a JSON text and changes nothing else |
| `JsonCompact.MinifySpelled` | cJSON/cJSON.c:1167-1201 | minifying a JSON text between blanks leaves the spelling of its syntax without blanks |
| `JsonCompact.MinifyKeepsMeaning` | cJSON/cJSON.c:1167-1201 | the minified text denotes and parses to the same tree, and minifying it again changes nothing |
| `JsonMinify.SqueezeValue` | cJSON/cJSON.c:1167-1201 | in front of any text, the minifier turns a print of any layout and depth into the compact print |
| `JsonMinify.MinifyIsCompact` | cJSON/cJSON.c:1167-1201 | minifying the tabbed print of any tree gives its compact print byte for byte |
| `JsonMinify.ParseMinified` | cJSON/cJSON.c:1167-1201 | parsing the minified print gives the tree back |
| `ValueJson.ToCJSON` | rct/Value.cpp:115-154 | the tree of the value, children in order, Integers through 32 bits, strings cut at their first NUL |
| `JsonValues.ScalarTexts` | rct/Value.cpp:115-154 | the texts of null, true, false and strings, in both layouts |
| `JsonValues.IntegerText` | rct/Value.cpp:115-154 | an Integer is printed as sign and decimal digits of its value in 32 bits |
| `JsonValues.CStrMeans` | rct/Value.cpp:115-130 | a string is cut at its first NUL and nowhere else |
| `ValueJson.FromCJSON` | rct/Value.cpp:66-97 | the value of the tree: integers told from doubles, lists in order, maps by key with the last entry of a name |
| `JsonValues.NumeralIsInteger` | rct/Value.cpp:66-97 | a numeral becomes the Integer n exactly when its digits times the power of ten of its exponent less the length of its fraction is n, and n has 32 bits: 1e2 is 100 |
| `JsonValues.HundredIsRead` | cJSON/cJSON.c:120-157 | 1e2, 1E2, 1e+2 and 1E+2 are read as the Integer 100; 1e-2 is none |
| `JsonValues.MembersMean` | rct/Value.cpp:83-92 | an object becomes the map, in key order, that gives each name its last member |
| `ValueJson.TreeRoundTrip` | rct/Value.cpp:66-154 | fromCJSON undoes toCJSON on representable values |
| `ValueJson.JsonRoundTripExactlyWhen` | rct/Value.cpp:66-154 | without doubles and customs, fromJSON after toJSON in either layout gives the same value exactly when it holds no undefined value, no date, no Integer of more than 32 bits and no NUL; otherwise what the tree kept |
| `ValueJson.NotAllComeBack` | rct/Value.cpp:66-154 | an undefined value, an Integer of 41 bits, a date and a string with a NUL each come back as something else |
| `ValueJson.ToJSON` | rct/Value.cpp:230-238 | the print of the tree of the value |
| `ValueJson.FromJSON` | rct/Value.cpp:99-113 | the value of the parsed tree, or an invalid value and not ok when the text does not parse |
| `ValueJson.ThereAndBack` | rct/Value.cpp:99-238 | the two calls in sequence always succeed and give the same value exactly when it is representable |
| `JsonFormat.JsonEscape` | rct/Rct.h:145-201 | copying nothing until the first escape and then everything gives the escapes of all bytes in order between quotes |
| `JsonFormat.EscapedIsPrintable` | rct/Rct.h:145-201 | for every byte string, what is written is printable 7-bit text |
| `JsonFormat.EscapeRoundTripExactlyWhen` | rct/Rct.h:145-201 | for every byte string: parse_string reads U+FFFF for a byte from 128 up and nothing for a NUL, so it recovers the string exactly when it is 7-bit text without NUL |
| `JsonFormat.NotAllComeBack` | rct/Rct.h:145-201 | the bytes 200 and 0 come back as the three bytes of U+FFFF |
| `JsonFormat.SameEscapes` | rct/Rct.h:161-196 | on 7-bit text without NUL and DEL the two escapers write the same |
| `JsonFormat.SamePrint` | rct/Value.cpp:115-228 | on values whose strings are 7-bit without NUL and DEL the two writers write the same |
| `JsonFormat.Format` | rct/Value.cpp:156-228 | what JSONFormatter writes is JSON: the spelling, without blanks, of the syntax of the value |
| `JsonFormat.FormatRoundTripExactlyWhen` | rct/Value.cpp:66-228 | what it writes always parses, and the value comes back exactly when it holds no undefined value, no Integer of more than 32 bits and only 7-bit strings and keys without NUL |
| `JsonFormat.ThereAndBack` | rct/Value.cpp:99-228 | the two calls in sequence always succeed and give the same value exactly under that condition |
| `Wire.OctetsRoundTrip` | rct/Serializer.h:307-340 | little-endian bytes of a number are undone |
| `WireFormat.FourBytes` | rct/Serializer.h:307-340 | the four bytes of a number, least significant first |
| `WireFormat.EightBytes` | rct/Serializer.h:307-340 | the eight bytes of a number, lower half first |
| `WireFormat.SignedBytes` | rct/Serializer.h:307-340 | a negative integer is written as what it lacks to two to the power 32 |
| `WireFormat.WrapsModulo` | rct/Serializer.h:307-340 | what is kept of a number that does not fit differs from it by a multiple of the word size |
| `Wire.DecodeI32Encoded` | rct/Serializer.h:307-340 | a 32-bit integer is recovered in two's complement, and what follows it |
| `Wire.DecodeStringEncoded` | rct/Serializer.h:357-365 | a length-prefixed string is recovered, and what follows it |
| `Wire.DateEncoded` | rct/Value.h:1108-1110 | the eight bytes of a date, read as a long long, are its full 64-bit count |
| `Wire.DecodeEncoded` | rct/Value.h:1104-1200 | decoding an encoding followed by anything gives what the decoder makes of the value, and leaves exactly the rest |
| `WireFormat.BeginsWithKind` | rct/Value.h:1104-1138 | an encoded value begins with the number of its kind, from 0 for an invalid value to 9 for a Date, in four bytes |
| `WireFormat.UnknownKind` | rct/Value.h:1140-1200 | a number that is no kind leaves the target as it was and takes four bytes |
| `WireFormat.AnyBoolean` | rct/Value.h:1163-1168 | every byte but 0 is read as true |
| `WireFormat.DecodeExtends` | rct/Value.h:1140-1200 | decoding looks no further than it has to: what follows does not change what is read, malformed input included |
| `WireFormat.PartIsShort` | rct/Serializer.h:219-241 | no proper prefix of an encoding decodes |
| `Wire.DecodeEncodedItems` | rct/Serializer.h:384-393 | the same for the elements of a list |
| `Wire.DecodeEncodedEntries` | rct/Serializer.h:457-472 | the same for the entries of a map, which are inserted behind those read before |
| `Wire.InsertLast` | rct/Serializer.h:466-469 | a key above all others is inserted at the end |
| `WireFormat.InsertMeans` | rct/Serializer.h:466-469 | inserting by key keeps the entries in key order and is the update of the map they stand for |
| `Wire.RoundTripExactlyWhen` | rct/Value.h:1104-1200 | decode(encode(v) + rest) is v and rest exactly when v holds no Date, no Custom and no Integer of more than 32 bits |
| `Wire.NotAllComeBack` | rct/Value.h:1104-1200 | an Integer of 41 bits comes back as 0, a Date as an Integer, a Custom as an invalid value |
| `WireCode.Serializer.WriteString` | rct/Serializer.h:357-365 | appends exactly the encoding of the string |
| `WireCode.Serializer.WriteValue` | rct/Value.h:1104-1138 | appends exactly the encoding of the value |
| `WireCode.Serializer.WriteList` | rct/Serializer.h:384-393 | appends exactly the encodings of the elements |
| `WireCode.Serializer.WriteMap` | rct/Serializer.h:395-404 | appends exactly the encodings of the entries |
| `WireCode.Deserializer.Read` | rct/Serializer.h:219-241 | takes the next bytes and moves the position behind them, or takes none when too few are left |
| `WireCode.Deserializer.ReadString` | rct/Serializer.h:552-562 | reads what the string decoder says and stops where it says |
| `WireCode.Deserializer.ReadValue` | rct/Value.h:1140-1200 | reads what the value decoder says, in the failing cases too, and stops where it says |
| `WireCode.Deserializer.ReadList` | rct/Serializer.h:522-534 | reads what the list decoder says |
| `WireCode.Deserializer.ReadMap` | rct/Serializer.h:457-472 | reads what the map decoder says; one variable receives all values in turn |
| `Buffers.Buffer.Clear` | rct/Buffer.h:58-71 | empties the buffer; with 512 KiB or more in use the allocation is given back, otherwise kept |
| `Buffers.Buffer.Reserve` | rct/Buffer.h:73-81 | room for the given size, contents kept |
| `Buffers.Buffer.Resize` | rct/Buffer.h:83-97 | the new size, contents kept up to it |
| `Buffers.Buffer.Store` | rct/SocketClient.cpp:561-563 | reserving, copying and resizing append the bytes |
| `Buffers.Buffers.Push` | rct/Buffer.h:143-146 | appends to the flat sequence of unread bytes |
| `Buffers.Buffers.Size` | rct/Buffer.h:148-154 | the number of unread bytes |
| `Buffers.Buffers.Read` | rct/Buffer.h:156-186 | takes and drops the first min(n, size) bytes of the flat sequence, over block borders, with the offset right in every case |
| `Frames.DeframeSplit` | rct/Connection.cpp:143-190 | cutting a stream does not depend on where it was split |
| `Frames.DeframeFrame` | rct/Connection.cpp:150-173 | a frame is cut off as its payload |
| `FrameFormat.AnyPayloadIsCut` | rct/Connection.cpp:150-173 | whatever follows a positive length is cut off as a payload, of one byte up; a length that is not positive ends the cutting |
| `Frames.DeframeFrames` | rct/Connection.cpp:143-190 | a number of frames is cut into exactly their payloads |
| `Frames.DeframePartial` | rct/Connection.cpp:150-168 | part of a frame yields no payload |
| `Frames.DeframePrefix` | rct/Connection.cpp:143-190 | from any prefix of a stream of frames exactly the whole frames in it are cut |
| `Frames.DispatchPayload` | rct/Message.cpp:46-113 | decoding the header of a payload gives back its message, its finish status, or the id error |
| `FrameFormat.DispatchedAs` | rct/Message.cpp:46-113 | with the version expected: an unknown id is an id error, the id of a finish message gives the status its body begins with, every other known id the message itself |
| `FrameFormat.OtherVersion` | rct/Message.cpp:61-77 | a payload of another version is a version error, whatever it holds |
| `FrameFormat.TooShort` | rct/Message.cpp:46-77 | a payload shorter than a version is told apart as truncated |
| `FrameFormat.FailuresAre` | rct/Connection.cpp:174-189 | exactly the dispatches that give no message close the client |
| `FrameFormat.FrameBytes` | rct/Message.h:117-127 | a frame byte for byte: length of what follows, version, id, flags, body |
| `Frames.FrameIsPayload` | rct/Message.h:117-127 | a frame is the length of its payload and the payload |
| `Receiver.Connection.OnDataAvailable` | rct/Connection.cpp:140-191 | pending length, queued bytes and dispatched messages afterwards are those of cutting pending, queued and new bytes |
| `Receiver.Connection.TakeLength` | rct/Connection.cpp:150-165 | four bytes become the awaited length |
| `Receiver.Connection.TakePayload` | rct/Connection.cpp:170-173 | the awaited payload is read, dispatched and no longer awaited |
| `Receiver.Create` | rct/Message.cpp:46-113 | reading the header field by field dispatches the payload of any message as that message, its finish status or its id error |
| `Receiver.Connection.DispatchPayload` | rct/Connection.cpp:174-189 | for the payload of a message, exactly the dispatch expected of that message is handed over, and the client is closed once any dispatch has failed |
| `Receiver.Connection.TakeNext` | rct/Connection.cpp:150-189 | one turn of the loop keeps what remains to be cut, or shows that nothing can be cut yet |
| `Receiver.ReceiveAll` | rct/Connection.cpp:140-191 | however a prefix of a stream of frames is split into calls, the messages dispatched are those whose frames have arrived completely |
| `Sender.Connection.OnDataWritten` | rct/Connection.cpp:193-201 | the assertion holds, the pending count stays the bytes promised but not taken, and sendFinished fires exactly when everything is flushed |
| `Sender.SocketClient.WriteSome` | rct/SocketClient.cpp:474-500 | short writes hand over consecutive bytes until all are taken or the kernel stops; the socket closes exactly when a write fails, and waits for writability exactly when the last answer was to come again |
| `Sender.SocketClient.Flush` | rct/SocketClient.cpp:471-510 | offset and buffer afterwards hold exactly what the kernel did not take; the socket closes exactly when a write fails |
| `Sender.SocketClient.WriteDirect` | rct/SocketClient.cpp:519-564 | new bytes go to the kernel and what it does not take into the buffer; it closes exactly when a write fails or the rest would pass the maximum |
| `Sender.SocketClient.StoreRest` | rct/SocketClient.cpp:554-564 | the rest is appended to the buffer, or the socket closes, exactly when the buffer would pass its maximum |
| `Sender.SocketClient.WriteTo` | rct/SocketClient.cpp:440-566 | bytes handed to the kernel followed by the unsent part of the buffer grow by exactly the data accepted; nothing is written while waiting, otherwise everything is offered until the kernel stops; it closes exactly when a write fails or the rest would pass the maximum; sendFinished fires at most once and only when all is flushed |
| `Sender.SocketClient.WriteNow` | rct/SocketClient.cpp:471-565 | the same when nobody waits for writability: the buffer first, then the data, and what is left into the buffer |
| `Sender.SocketClient.OnWritable` | rct/SocketClient.cpp:621-730 | becoming writable flushes without losing, doubling or reordering bytes, and closes exactly when a write fails |
| `Sender.SendPieces` | rct/Connection.cpp:231-263 | a message is counted whole before its pieces are written, so sendFinished never fires in its middle |
| `Sender.SendCached` | rct/Connection.cpp:250-255 | prepare and two writes promise and hand over exactly the frame of the message, whatever version was cached |
| `Sender.SendEncoded` | rct/Connection.cpp:257-261 | length, version, id and flags and then whatever writes encode makes: exactly the frame of the message |
| `Sender.EncodedPieces` | rct/Message.h:117-127 | header fields and the writes of encode split the frame |
| `Sender.Handle` | rct/SocketClient.cpp:440-566 | one send or writable event extends what is promised by the frame of its message and loses nothing; a failed write closes the socket, and otherwise only a buffer too small for what was promised does |
| `Sender.MessageCache.Prepare` | rct/Message.cpp:24-44 | whatever versions were asked for before, header and value are those of this version |
| `Sender.MessageCache.ClearCache` | rct/Message.h:29-34 | forgets the cached encoding, which keeps the cache valid |
| `Sender.CachedPieces` | rct/Connection.cpp:250-255 | the cached header and the value, unless empty, split the frame |
| `Sender.Run` | rct/SocketClient.cpp:440-566 | over every run of sends and writable events, what the kernel has taken is a prefix of the frames sent; the socket stays open, and nothing is lost, unless a write fails or the buffer may not hold what is sent; and unless its last answer was to come again the kernel has taken everything |
| `Channel.ChopDelivers` | rct/Connection.cpp:140-148 | chunks of any sizes carry a prefix of the bytes in order |
| `Channel.Transfer` | rct/Connection.cpp:140-263 | from sender to receiver over any short writes and any chunking: exactly the messages whose frames arrived are dispatched; all of them, with the socket open, unless a write fails, the buffer may not hold what is sent, the last answer was to come again or bytes are still on their way |
| `ThreadPool.WakeupPreserved` | rct/ThreadPool.cpp:56-101 | every step keeps: while a worker sleeps un-notified, queued jobs do not outnumber the workers about to recheck |
| `ThreadPool.NoLostWakeup` | rct/ThreadPool.cpp:56-186 | in every reachable state with a job queued and a worker asleep, some worker that will not leave is about to look |
| `ThreadPool.JobsPreserved` | rct/ThreadPool.cpp:63-101 | every step keeps the job invariant: queued, running, finished and removed are told apart by the job state |
| `ThreadPool.OnePlaceEach` | rct/ThreadPool.cpp:63-218 | in every reachable state each job started is in exactly one place and has been run at most once |
| `ThreadPool.StateMovesForward` | rct/ThreadPool.cpp:87-99 | the job state moves only from not started to running on a pop, and from running to finished |
| `ThreadPool.BusyPreserved` | rct/ThreadPool.cpp:73-92 | every step keeps mBusyThreads the number of workers between a pop and the next time they hold the mutex |
| `ThreadPool.InsertedOrderedExactlyWhen` | rct/ThreadPool.cpp:158-183 | sorting a new job into an ordered queue leaves it ordered exactly unless its priority lies between those at the two ends and these have different signs |
| `ThreadPool.OrderPreservedExactlyWhen` | rct/ThreadPool.cpp:63-218 | a step from an ordered queue leaves it ordered exactly unless it is such a start |
| `ThreadPool.RunOrderedExactlyWhen` | rct/ThreadPool.cpp:63-218 | in a run the queue has been non-increasing in priority throughout exactly when no start has missorted it |
| `ThreadPool.OneSignNeverMissorts` | rct/ThreadPool.cpp:158-183 | runs whose priorities all have one sign contain no such start |
| `ThreadPool.MixedSignsMissort` | rct/ThreadPool.cpp:158-183 | a run that starts jobs of priority -2, 5 and 3 ends with the queue -2, 5, 3 |
| `ThreadPool.TakesMaximum` | rct/ThreadPool.cpp:79-86 | in every run whose starts so far have not missorted, each pop takes a job of the highest priority queued |
| `ThreadPool.SortOrdersExactlyWhen` | rct/ThreadPool.cpp:158-160 | what the unsigned comparison sorts is ordered by priority exactly when negative and non-negative priorities are not mixed |
| `ThreadPoolRuns.UnsignedMeans` | rct/ThreadPool.cpp:158-160 | as an unsigned number a negative priority is larger by two to the power 32 |
| `ThreadPool.StepKeepsInv` | rct/ThreadPool.cpp:56-299 | the whole invariant is kept by every step of every thread |
| `ThreadPoolRuns.QueuedExactlyWhen` | rct/ThreadPool.cpp:158-218 | over every run: a job started is queued exactly as long as no worker has taken it, nobody has removed it and the backlog has not been cleared |
| `ThreadPoolRuns.RunExactlyWhen` | rct/ThreadPool.cpp:79-92 | over every run: a job has been run once exactly when a worker has taken it since it was started, and otherwise not at all |
| `ThreadPoolRuns.WithdrawnNeverRuns` | rct/ThreadPool.cpp:208-299 | clearing the backlog empties the queue, and no job cleared or removed is ever run |
| `ThreadPoolRuns.RemoveTakesOne` | rct/ThreadPool.cpp:208-216 | removing a job takes out exactly that one and keeps the order of the others; a job not queued changes nothing |
| `ThreadPoolRuns.EqualsQueueUp` | rct/ThreadPool.cpp:167-183 | a job as important as everything queued waits behind it |
| `ThreadPoolRuns.StoppedTakesNothing` | rct/ThreadPool.cpp:56-101 | a stopped worker finishes the job it has and takes no other |
| `ThreadPoolRuns.ServesUntilStopped` | rct/ThreadPool.cpp:63-101 | a worker nobody stops is never stopped and never leaves |
| `ThreadPoolRuns.HeadIsTaken` | rct/ThreadPool.cpp:73-99 | a worker awake and not stopped can always go on to the first job queued, finishing the one it has |
| `ThreadPoolRuns.WakesWithoutCause` | rct/ThreadPool.cpp:73-78 | a worker asleep can wake without cause and looks at the queue then |
| `ThreadPoolRuns.StartIsPossible` | rct/ThreadPool.cpp:163-183 | any new job can be started in any state: where the queue is sorted there is an order std::sort may leave |
| `ThreadPool.RunKeepsInv` | rct/ThreadPool.cpp:56-299 | it holds in every state of every run |
| `RwLock.StepKeepsInv` | rct/ReadWriteLock.cpp:12-77 | count equals holders, a writer holds alone, sleepers have to wait, and the source's assertions hold, after every step |
| `RwLock.RunKeepsInv` | rct/ReadWriteLock.cpp:12-77 | the same in every state of every run |
| `RwLock.Exclusion` | rct/ReadWriteLock.cpp:12-77 | in every reachable state a writer excludes every other holder |
| `RwLock.SleepersHaveHolder` | rct/ReadWriteLock.cpp:12-59 | in every reachable state a thread asleep un-notified is kept waiting by another holder |
| `RwLock.TakenExactlyWhen` | rct/ReadWriteLock.cpp:12-59 | every attempt succeeds exactly when the lock is free or held by readers beside whom a reader wants it; a try that fails changes nothing, and any other that fails sleeps |
| `RwLock.WakesExactlyWhen` | rct/ReadWriteLock.cpp:47-60 | unlock wakes the sleepers exactly when nobody else holds the lock |
| `RwLock.WaitsCanEnd` | rct/ReadWriteLock.cpp:17-43 | a thread that waits can look again at any time, and can give up, which leaves everything else as it was |
| `RwLock.OthersUndisturbed` | rct/ReadWriteLock.cpp:12-77 | a step moves no other thread, except that it wakes sleepers |
| `Reaper.CountPreserved` | rct/Process.cpp:110-149 | sPending stays the number of starts in flight and never goes negative |
| `Reaper.PidPreserved` | rct/Process.cpp:110-240 | every step keeps what holds of each process id |
| `Reaper.StepKeepsInv` | rct/Process.cpp:110-240 | every step keeps the invariant, and the source's assertions hold |
| `Reaper.RunKeepsInv` | rct/Process.cpp:110-240 | the same in every state of every run |
| `Reaper.FinishedExactlyOnce` | rct/Process.cpp:110-240 | in every reachable state a started child whose exit was reaped has had one finish call with its own status, or the reaper is about to make it, before or after addPid |
| `Reaper.HistoryMeans` | rct/Process.cpp:110-240 | over every run: who was added, reaped, exited with which status or removed is what the steps say |
| `Reaper.DeliveredAsExited` | rct/Process.cpp:110-240 | over every run: a child started, exited with a status, reaped and never removed has had finish with that status, once, or the reaper is about to make that call |
| `Reaper.EarlyExitIsKept` | rct/Process.cpp:119-149 | an exit seen before addPid is still recorded when addPid comes |
| `Reaper.AddPidForgets` | rct/Process.cpp:119-149 | addPid forgets the exit it delivers, and all others exactly when no start is left in flight |
| `Reaper.FailedForkUndoes` | rct/Process.cpp:110-117 | a fork that fails leaves everything as it was before the start |
| `Reaper.SilentStays` | rct/Process.cpp:151-240 | a child without a live entry and not in the reaper's hand gets no further finish call |
| `Reaper.RemoveSilencesExactlyWhen` | rct/Process.cpp:151-225 | finish can still be called behind removePid exactly when removePid finds no entry and finish has not been called, that is, when the reaper already has the child in its hand |
| `Reaper.WindowIsReachable` | rct/Process.cpp:110-225 | a run from the initial state ends there: the child is added, reaped, and removed before its finish call |
| `Timers.EventLoop.RegisterTimer` | rct/EventLoop.cpp:371-386 | a fresh id, both indexes with the timer, nothing else changed |
| `Timers.EventLoop.NextId` | rct/EventLoop.cpp:376-378 | ids count up to the first one not in use |
| `Timers.EventLoop.ClearTimer` | rct/EventLoop.cpp:395-426 | the timer leaves both indexes; one found by id is found by deadline, so the abort is unreachable |
| `Timers.EventLoop.FireSingleShot` | rct/EventLoop.cpp:449-455 | a single-shot timer leaves both indexes before its callback |
| `Timers.EventLoop.FireRepeating` | rct/EventLoop.cpp:461-479 | a repeating timer is moved on by its interval in both indexes before its callback |
| `Timers.EventLoop.Answer` | rct/EventLoop.cpp:371-426 | one request of a callback does what it asks |
| `Timers.EventLoop.Callback` | rct/EventLoop.cpp:457-484 | whatever a callback registers and unregisters, each request does what it asks, in order |
| `Timers.EventLoop.FirstUnfired` | rct/EventLoop.cpp:433-446 | skips exactly the timers fired in this round |
| `Timers.EventLoop.SendTimers` | rct/EventLoop.cpp:428-488 | a round fires in order, keeps both indexes equal to the table its events lead to, terminates, and leaves no unfired timer due |
| `Timers.FiresAtMostOnce` | rct/EventLoop.cpp:430-446 | a round fires no id twice |
| `Timers.FiresInDeadlineOrder` | rct/EventLoop.cpp:433-448 | deadlines fired are non-decreasing and none is later than the time of the round |
| `Timers.FiresExactlyTheDue` | rct/EventLoop.cpp:428-488 | a timer nobody unregisters fires in a complete round exactly when it was due |
| `Timers.RepeatingDeadlines` | rct/EventLoop.cpp:465-473 | over any number of rounds the k-th deadline of a repeating timer is its first plus k intervals |
| `Timers.SingleShotFiresAtMostOnce` | rct/EventLoop.cpp:449-460 | over any number of rounds a single-shot timer fires at most once per registration |
| `Timers.ClearedStaysAway` | rct/EventLoop.cpp:395-426 | a timer cleared and not registered again is not in the table |
| `Timers.ClearedNeverFires` | rct/EventLoop.cpp:395-488 | and never fires, in the round that cleared it or any later one |
| `Timers.IndexInsert` | rct/EventLoop.cpp:381-383 | inserting at a place that fits keeps both indexes equal and ordered |
| `Timers.IndexErase` | rct/EventLoop.cpp:415-419 | erasing keeps both indexes equal and ordered |
| `EmbeddedList.EmbeddedLinkedList.Insert` | rct/EmbeddedLinkedList.h:42-65 | the node is put behind the given one or first; links, ends and count stay right |
| `EmbeddedList.EmbeddedLinkedList.Append` | rct/EmbeddedLinkedList.h:67-70 | the node is put last |
| `EmbeddedList.EmbeddedLinkedList.Prepend` | rct/EmbeddedLinkedList.h:72-75 | the node is put first |
| `EmbeddedList.EmbeddedLinkedList.Remove` | rct/EmbeddedLinkedList.h:127-158 | exactly the node leaves, unlinked on both sides; no assertion fails |
| `EmbeddedList.EmbeddedLinkedList.TakeFront` | rct/EmbeddedLinkedList.h:274-294 | takes the first node off |
| `EmbeddedList.EmbeddedLinkedList.TakeBack` | rct/EmbeddedLinkedList.h:283-299 | takes the last node off |
| `EmbeddedList.EmbeddedLinkedList.Contains` | rct/EmbeddedLinkedList.h:311-318 | true exactly for the linked nodes |
| `EmbeddedList.EmbeddedLinkedList.DeleteAll` | rct/EmbeddedLinkedList.h:320-331 | every node is unlinked, the list is empty |
| `EmbeddedList.EmbeddedLinkedList.MoveToEnd` | rct/EmbeddedLinkedList.h:333-341 | the node moves last, the others keep their order |
| `EmbeddedList.EmbeddedLinkedList.MoveToFront` | rct/EmbeddedLinkedList.h:343-351 | the node moves first, the others keep their order |
| `EmbeddedList.InsertThenRemove` | rct/EmbeddedLinkedList.h:42-158 | on the list itself: inserting a node anywhere, the front included, and removing it leaves the list as it was |
| `EmbeddedList.RemoveThenInsert` | rct/EmbeddedLinkedList.h:42-158 | removing any node, the first included, and inserting it behind its old neighbour leaves the list as it was |
| `EmbeddedList.RemoveUndoesInsert` | rct/EmbeddedLinkedList.h:42-158 | removing a node undoes inserting it, wherever it was put |
| `EmbeddedList.InsertUndoesRemove` | rct/EmbeddedLinkedList.h:42-158 | inserting a removed node behind its old neighbour, or first when it had none, undoes the removal |

## Left out

- Floating point in JSON: printing of doubles (`%f`, `%e`) is not modelled, and parse_number yields an exact mantissa and power of ten; rounding, `pow` and overflow of the exponent are not.
- cJSON references, raw strings (and with them Custom in toJSON), allocation hooks and allocation failure.
- Escapes that run past their literal, and literals or comments without an end, in JSON text: the source then leaves the text; the model says `Overrun` or `Overruns` there and claims nothing more.
- JsonParser.NumberAt: yields the exact mantissa and power of ten; the double computed from them by `pow` and rounding is floating point and not modelled.
- JsonReading.LiteralMeans: escapes of U+0000 mean nothing, because the source drops them; neither do surrogates without a partner, whose meaning section 8.2 of RFC 8259 leaves open.
- JsonLanguage.ParsedExactlyWhen: does not tell texts that fail from texts that overrun.
- JSON children are chains of values instead of objects with `next` and `prev` links.
- ValueJson.FromCJSON: a number whose mantissa and power of ten give no 32-bit integer becomes a Double without a value; the source rounds first, so that a numeral as small as 1e-400, or a fraction closer to an integer than doubles are, becomes an Integer there.
- ValueJson.ToCJSON: takes values without doubles and customs, whose printed text is floating point or a raw string.
- ValueJson.JsonRoundTripExactlyWhen: the same, and so do ValueJson.ToJSON and ValueJson.ThereAndBack.
- ValueJson.FromJSON: requires text none of whose escapes overruns its literal, for the reason above.
- JsonFormat.Format: takes values without doubles, dates and customs, whose texts come from `%g`, a date format and the caller.
- JsonFormat.FormatRoundTripExactlyWhen: the same values.
- Sizes and lengths beyond 32 bits, except where `Wire.WellFormed` and `Frames.Sendable` name the limit.
- Doubles in the binary codec are eight uninterpreted bytes; a double read from JSON has no bytes at all. Lists are decoded into fresh targets.
- Sender.SendEncoded: requires that `encodedSize()` is the number of bytes `encode` writes, as the source relies on it without a check; the writes themselves are any pieces of the body.
- The Compressed flag and zlib; the assertion at rct/Connection.cpp:254, whose arithmetic omits the header bytes; payloads shorter than their header yield an error in the model.
- UDP, DNS, connecting, the read buffer of sockets, and handlers that call write while a flush is in progress. Every write that does not fail takes at least one byte; interrupted writes are repeated by the source and do not appear.
- Receiver.Connection.OnDataAvailable: requires positive frame lengths, which the source only asserts.
- Timers: wrap-around of ids, negative timeouts, and clocks that run backwards; a round's callbacks make finitely many requests. Among equal deadlines the order of firing is not stated.
- ThreadPool: jobs of priority -1 (`Guaranteed`), which get a thread of their own and are never queued, and the order among equal priorities where the queue is sorted, because std::sort is not stable; it is any sorted permutation.
- Reaper: fork, exec, pipes, reuse of process ids, event loops that have ended; a finish call handed to a live loop counts as made. A cleared table entry that removePid leaves behind stays.
- RwLock: the length of waits; a timed wait may expire at any moment, notified or not. A thread that takes the lock again while it holds it counts as another thread, since the source looks at no thread's identity; that such a thread can wait for itself is not told apart.
- EmbeddedList.EmbeddedLinkedList.Insert: requires a node that is not linked yet and a neighbour that is, as Remove requires a linked node; the source does not check this and keeps its links only then.
- Character classes are those of the C locale.
- Ranking.Sort: stands for std::sort, whose algorithm is not modelled.
- Thin container classes, wrappers of system calls, logging, files, paths and dates, which would only add easy members.
