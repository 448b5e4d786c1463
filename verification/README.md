# The self-contained engines under Kap, verified

Kap is an array language in the APL family; this project models the engines of its Rust
implementation that the evaluator rests on, and proves what they promise:

- the five number kinds (64-bit long, big integer, rational, double, complex): comparison,
  the cross-kind total order, exact arithmetic, and numbers as text
  (`Doubles`, `Rationals`, `Numbers`, `NumberOrder`, `NumberArithmetic`, `NumberText`,
  `Terminating`, `DecimalReaders`, `LiteralRuns`, `LiteralForms`, `Decimals`);
- the total order lifted to arbitrarily nested values (`Values`, `ValueOrder`);
- calendar arithmetic and timestamps (`Calendar`, `Timestamps`);
- the binary wire format: variable-length integers and a recursive value codec
  (`DynInt`, `WireFormat`, `WireScalars`, `WireRoundTrip`, `WireTruncation`, `WireBytes`,
  `Encoder`);
- keys and the insertion-ordered map (`KeyEquality`, `KapMaps`, `MapEquality`);
- stack machines and streaming readers: HTML table trees, RIDE frames, CSV, block-buffered
  streams, string literals (`HtmlTables`, `HtmlNesting`, `HtmlTree`, `HtmlScan`, `HtmlMarkup`,
  `Ride`, `Csv`, `CsvSpelling`, `CsvRoundTrip`, `CsvPlainLines`, `CsvTables`, `Streams`,
  `LexStrings`);
- drawing arrays of rank 3 and more (`Render`, `Pictures`, `Drawing`).

`Common`, `Arithmetic`, `Bytes`, `Text` and `Lines` are shared vocabulary.

Doubles are bit fields (sign, biased exponent, fraction), with the value `double_to_rational`
reads off them; rationals are reduced pairs; longs are bounded integers. Code that updates
state in place is written as methods and classes with the source's fields, proved against a
specification function; what the source promises is then proved about that function. A
failure's wording is not modelled, only that and when it happens.

Where the code and its comments disagree, the model follows the code:

- int8 integers are written signed and read back unsigned (`WireScalars.ReadLong`), and the groups
  of a variable-length integer come most significant first (`WireBytes.DynIntegerBits`);
- the double 2^63 saturates to 2^63 - 1 in two comparators (`NumberOrder.OrderingIsKeyOrder`,
  `NumberOrder.ValueComparison`), which puts every such pair on a cycle of the order
  (`NumberOrder.SaturationCycles`);
- complex numbers with a zero imaginary part break transitivity of the order
  (`NumberOrder.ZeroImaginaryCycles`), and zeros and NaNs that of key equality
  (`KeyEquality.FailingNumbers`);
- big integer with rational leaves exact arithmetic (`NumberArithmetic.AddExact`);
- `i64::MIN` modulo -1 panics, and so does a rational text with a zero denominator, which the
  comment says is kept (`NumberArithmetic.ModuloPanics`, `NumberText.ParsePanics`);
- an unquoted CSV field loses trailing blanks at the end of a line even when trimming is off
  (`CsvPlainLines.PlainLine`), and an empty last field of a line is no field at all; which lines
  are spared is `CsvPlainLines.NothingLost`;
- `KapMap::new` keeps repeated keys, and each map that has one breaks the symmetry of
  `deep_equal` (`MapEquality.RepeatedKeysBreakSymmetry`); its comment speaks of pointer equality
  of values, the code compares by value;
- the `\xNN` and `\t` escapes of printed strings are not ones the lexer reads
  (`LexStrings.EscapeLexes`).

## Model

| member | source | states |
|---|---|---|
| Doubles.ToRationalExact | kap-core/src/number.rs:148-171 | every finite double becomes the rational with exactly its value, subnormals and all binades included |
| Doubles.ToRationalOfSpecial | kap-core/src/number.rs:148-171 | infinities and NaN become 0/1 |
| Doubles.ScaledMonotone | kap-core/src/number.rs:148-171 | a larger bit pattern denotes a strictly larger magnitude, across binades |
| Doubles.TotalCmpIsValueOrder | kap-core/src/number.rs:313-327 | on finite doubles totalOrder is the order of exact values, the two zeros aside |
| Doubles.TwoTo63Unique | kap-core/src/number.rs:345-347 | exactly one double has the value 2^63 |
| Rationals.MakeExact | kap-core/src/number.rs:126-134 | reducing a fraction keeps its value, and leaves a reduced one alone |
| Rationals.ReducedUnique | kap-core/src/number.rs:126-134 | lowest terms are canonical: equal value if and only if equal fraction |
| Rationals.CmpRationalByValue | kap-core/src/number.rs:380-393 | comparing rationals by cross multiplication is comparing their values |
| NumberOrder.DoubleIntegerOutcome | kap-core/src/number.rs:340-377 | a double is compared with an integer by exact value, but 2^63 as if it were 2^63 - 1 |
| NumberOrder.DoubleRationalOutcome | kap-core/src/number.rs:380-393 | a double is compared with a rational by exact value |
| NumberOrder.DoubleKeys | kap-core/src/number.rs:313-327 | on doubles without NaN the order is that of class, value, and -0.0 before 0.0 |
| NumberOrder.ComplexKeys | kap-core/src/number.rs:284-310 | complex numbers are ordered by imaginary part, then real part, NaN above all |
| NumberOrder.OrderingIsKeyOrder | kap-core/src/number.rs:284-310 | the ordering is lexicographic on one key (class, exact value, tie-break) if and only if the pair is not double 2^63 with integer 2^63 - 1 |
| NumberOrder.OrderingReverses | kap-core/src/number.rs:284-310 | swapping the operands reverses the outcome, for all numbers without exception |
| NumberOrder.OrderingComposes | kap-core/src/number.rs:284-310 | three numbers without zero imaginary parts compose, over any mixture of kinds and ties included, if and only if they are not double 2^63, integer 2^63 - 1 and a rational between them |
| NumberOrder.ZeroImaginaryCycles | kap-core/src/number.rs:292-309 | every complex number with zero imaginary part lies on a cycle |
| NumberOrder.JoinsOrderExactly | kap-core/src/number.rs:284-310 | a number composes with all those without zero imaginary parts, the squeezed triples aside, if and only if it has none either |
| NumberOrder.OrderedExactly | kap-core/src/number.rs:284-310 | a set of numbers without zero imaginary parts is ordered as a whole if and only if it lacks double 2^63, or integer 2^63 - 1, or the rationals between |
| NumberOrder.SaturationCycles | kap-core/src/number.rs:340-377 | every pair that saturates, long or big, lies on a cycle with a rational between the two |
| NumberOrder.ValueComparison | kap-core/src/number.rs:183-239 | without type discrimination numbers compare by exact value alone, if and only if the pair does not saturate |
| Values.TotalCmpReverses | kap-core/src/lib.rs:1015-1101 | on every two nested values of the ordered kinds, any numbers in them, an outcome exists, and swapping reverses it |
| Values.TotalCmpComposes | kap-core/src/lib.rs:1015-1101 | transitivity on every three nested values, strings mixed with arrays included, whose numbers have no zero imaginary part and lack one member of the squeezed triple |
| ValueOrder.CharsByCode | kap-core/src/lib.rs:1024 | characters are ordered by code point |
| ValueOrder.PartingPoint | kap-core/src/lib.rs:1030-1065 | every two sequences part at one place, their first difference or the end of the shorter, and run to both ends if and only if they are equal |
| ValueOrder.StringsByCode | kap-core/src/lib.rs:1025-1065 | strings are ordered by the code points at their first difference, and a proper beginning comes first, the empty string included |
| ValueOrder.ElementsDecide | kap-core/src/lib.rs:1030-1080 | arrays of one shape, any two vectors, and lists are ordered by their first unequal pair of elements, or by length where one runs out |
| ValueOrder.ArraysByShape | kap-core/src/lib.rs:1030-1060 | the lower rank comes first whatever the elements; above rank 1 the dimensions decide next, at their first difference |
| ValueOrder.StringAgainstArray | kap-core/src/lib.rs:953-965 | against an array of another rank a string counts as rank 1, and the empty one as rank 0 |
| ValueOrder.NumbersByValue | kap-core/src/number.rs:284-310 | exact numbers are ordered by value |
| ValueOrder.DoubleByValue | kap-core/src/number.rs:340-393 | a finite double is ordered against an exact number by value and comes first on a tie, 2^63 counting as 2^63 - 1 against integers |
| ValueOrder.DoublesByValue | kap-core/src/number.rs:313-327 | finite doubles are ordered by value, -0.0 before 0.0 |
| ValueOrder.SpecialDoubles | kap-core/src/number.rs:313-327 | infinities lie outside all finite doubles; every NaN is above them and ties with every NaN |
| ValueOrder.SpecialAgainstExact | kap-core/src/number.rs:340-393 | minus infinity is below and infinity and NaN are above every exact number |
| ValueOrder.ComplexLast | kap-core/src/number.rs:284-310 | a complex number with an imaginary part comes after all other kinds; among complex numbers the imaginary part decides, then the real one |
| ValueOrder.ZeroImaginaryAsReal | kap-core/src/number.rs:284-310 | a complex number with zero imaginary part is ordered by its real part against numbers of other kinds |
| ValueOrder.SymbolsByName | kap-core/src/lib.rs:1077-1079 | symbols are ordered by namespace, none first, then by name, byte by byte |
| ValueOrder.KindsInOrder | kap-core/src/lib.rs:1075-1101 | number < char < symbol < string or array < list < null or nil, and no outcome for any other kind |
| Values.CmpNatsComposes | kap-core/src/lib.rs:1015-1101 | lexicographic comparison of dimensions is transitive |
| Values.CmpNatsEqual | kap-core/src/lib.rs:1015-1101 | dimensions tie if and only if they are equal |
| Values.StringAgainstCharVector | kap-core/src/lib.rs:953-965 | a string ties with its character vector, except the empty one, whose rank is 0 |
| Calendar.DaysFromCivilIsNaive | kap-core/src/time.rs:9-18 | the closed form equals counting years and months one by one, negative years included |
| Calendar.CivilFromDaysValid | kap-core/src/time.rs:20-31 | every integer day yields a valid proleptic Gregorian date, and that date's day is the day given |
| Calendar.DaysFromCivilInverse | kap-core/src/time.rs:9-31 | every valid date comes back from its day number |
| Calendar.DaysInjective | kap-core/src/time.rs:9-18 | no two valid dates share a day number |
| Timestamps.ParseFormat | kap-core/src/time.rs:43-109 | parsing a printed timestamp gives it back exactly for the years -999 to 9999, and nothing for any other year |
| Timestamps.FormatParse | kap-core/src/time.rs:43-109 | printing an accepted text gives it back if and only if it has no plus sign, no negative zero year, no zero millisecond field |
| Timestamps.FieldsAccepted | kap-core/src/time.rs:43-93 | every text with the separators in place and fields in range is accepted, with the instant they name, zero milliseconds included |
| Decimals.ParseToDigits | kap-core/src/time.rs:95-109 | a printed natural number reads back |
| Decimals.DigitCount | kap-core/src/time.rs:95-109 | a number prints in at most k digits if and only if it is below 10^k |
| Decimals.PadParseDigits | kap-core/src/time.rs:95-109 | padding the value of a digit string to its length gives the string back |
| DynInt.ReadDynBytes | kap-core/src/encoder.rs:41-72 | reading a written 64-bit integer gives it back and stops right behind it, whatever follows |
| DynInt.DynBytesMinimal | kap-core/src/encoder.rs:41-72 | no shorter byte string reads as the same integer |
| Encoder.Writer.PushGroups | kap-core/src/encoder.rs:58-71 | the group loop appends the groups, most significant first, with continuation and complement bits |
| Encoder.Writer.WriteDynint64 | kap-core/src/encoder.rs:41-72 | the mask loop appends exactly the specified encoding |
| Encoder.Writer.WriteLong | kap-core/src/encoder.rs:74-84 | appends the three-way encoding of a long that `ReadLong` is about |
| Encoder.Writer.WriteBigint | kap-core/src/encoder.rs:102-113 | appends a big integer, as a long when it fits |
| Encoder.Writer.WriteRational | kap-core/src/encoder.rs:115-123 | appends a rational, as an integer when whole |
| Encoder.Writer.WriteValue | kap-core/src/encoder.rs:131-177 | appends the encoding of an arbitrarily nested value, or fails exactly when some part has no encoding |
| Encoder.EncodeValue | kap-core/src/encoder.rs:186-191 | the encoder built on the writer is the encoding that `DecodeEncode` inverts |
| Encoder.Reader.Dynint64 | kap-core/src/encoder.rs:219-229 | the reading loop follows the specification that `ReadDynBytes` is about, errors and position included |
| Encoder.Reader.Value | kap-core/src/encoder.rs:239-246 | reads what the specification reads, leaving the same position, or fails with it |
| Encoder.Reader.Atom | kap-core/src/encoder.rs:248-329 | every type byte of the scalar formats, unknown ones included |
| Encoder.Reader.KapInteger | kap-core/src/encoder.rs:348-359 | the integers inside rationals, in any of their formats |
| Encoder.Reader.ArrayOf | kap-core/src/encoder.rs:361-381 | rank, dimensions and elements of an array, in the order written |
| Encoder.DecodeValue | kap-core/src/encoder.rs:383-391 | the decoder built on the reader is the decoding of `DecodeEncode`, header check included |
| WireScalars.ReadLong | kap-core/src/encoder.rs:256-270 | a written long reads back, except that -128..-5 reads as the value plus 256 |
| WireScalars.ReadBigInt | kap-core/src/encoder.rs:248-329 | a written big integer reads back as the smallest kind, with the same exception |
| WireScalars.ReadRational | kap-core/src/encoder.rs:115-123 | a written rational reads back, whole ones as integers |
| WireScalars.ReadNumber | kap-core/src/encoder.rs:131-145 | every number kind reads back in its read form |
| WireScalars.ReadChar | kap-core/src/encoder.rs:91-100 | both character formats read back |
| WireBytes.HeaderBytes | kap-core/src/encoder.rs:186-191 | an encoding starts with 0x99 and the letters kap |
| WireBytes.NumberTypes | kap-core/src/encoder.rs:74-145 | the type byte and layout of every number kind, as literal bytes |
| WireBytes.ValueTypes | kap-core/src/encoder.rs:86-177 | the type byte and layout of characters, strings, null, symbols and arrays, as literal bytes; the kinds without an encoding |
| WireBytes.DynIntegerBits | kap-core/src/encoder.rs:219-229 | six bits in the first byte and seven in each later one, most significant first, bit 0x80 for more and 0x40 for the complement |
| WireBytes.DynIntegerCut | kap-core/src/encoder.rs:199-229 | an integer that goes on past the end of the buffer is an error |
| WireBytes.LengthLimit | kap-core/src/encoder.rs:230-236 | a length is any integer from 0 to 2^31 - 1, and any other is an error |
| WireBytes.BigEndianDigit | kap-core/src/encoder.rs:131-145 | fixed-width numbers are written most significant byte first |
| WireBytes.FromBigEndianFirst | kap-core/src/encoder.rs:271-279 | and read that way |
| WireBytes.TwosComplement | kap-core/src/encoder.rs:264-270 | the bytes of a big integer are two's complement |
| WireBytes.SignedBytesShortest | kap-core/src/encoder.rs:102-113 | no shorter byte string stands for the same big integer |
| WireBytes.BitFields | kap-core/src/encoder.rs:131-145 | a double is its sign bit, exponent bits and fraction bits |
| WireBytes.DecodeList | kap-core/src/encoder.rs:305-315 | type 104, a length and that many values decode as a vector |
| WireBytes.DecodeEnclosed | kap-core/src/encoder.rs:298-304 | type 80 and a value decode as an array of rank 0 around it |
| WireBytes.DecodeEmptyInteger | kap-core/src/encoder.rs:264-270 | a big integer of no bytes is zero |
| WireBytes.DecodeCodePoint | kap-core/src/encoder.rs:293-296 | a code point that is no character decodes as null |
| WireBytes.DecodeNamespace | kap-core/src/encoder.rs:316-325 | the namespace "default", and no other, is dropped |
| WireBytes.UnknownTypes | kap-core/src/encoder.rs:248-327 | every other type is an error |
| WireBytes.LowBitsIgnored | kap-core/src/encoder.rs:344-347 | the low three bits of a type byte matter to small integers only |
| WireBytes.SmallInteger | kap-core/src/encoder.rs:256-261 | to which they are a three-bit two's complement number |
| WireBytes.LabelsRefused | kap-core/src/encoder.rs:361-381 | an array with the label flag is an error |
| WireRoundTrip.ReadBack | kap-core/src/encoder.rs:239-381 | wherever an encoding stands in a buffer, the reader consumes exactly it and returns the read form; a length over 32 bits anywhere is an error |
| WireRoundTrip.DecodeEncode | kap-core/src/encoder.rs:186-191 | decoding an encoded value with anything behind it succeeds if and only if its lengths fit 32 bits, and then yields the read form |
| WireRoundTrip.ExactNumberSurvives | kap-core/src/encoder.rs:262-264 | an exact number keeps its value if and only if no integer in it lies in -128..-5 |
| WireTruncation.TrailingBytesIgnored | kap-core/src/encoder.rs:383-391 | whatever bytes decode, made by the encoder or not, decode alike with anything behind them |
| WireTruncation.TruncationFails | kap-core/src/encoder.rs:195-230 | no proper prefix of an encoded value decodes, wherever it is cut |
| HtmlTables.RunCells | kap-core/src/html.rs:192-284 | however mis-nested the tags, the cells of the tree are the `td` and `th` tags, each once, in order |
| HtmlTables.RunTables | kap-core/src/html.rs:192-284 | the tables of the tree are the `table` tags, each once, in order |
| HtmlTables.RunExtends | kap-core/src/html.rs:192-284 | a frame once pushed keeps its place, depth, kind and tag for the rest of the run |
| HtmlNesting.CloseLands | kap-core/src/html.rs:259-284 | a closing tag leaves open exactly what is outside the innermost frame of its kind, or the root alone if there is none |
| HtmlNesting.OpenThenClose | kap-core/src/html.rs:192-284 | a closing tag right behind the opening tag of its name closes that very frame |
| HtmlNesting.TableCloses | kap-core/src/html.rs:192-284 | a table opened and closed leaves open what was open before it |
| HtmlNesting.OtherNames | kap-core/src/html.rs:192-268 | tags of any other name change nothing |
| HtmlNesting.OpenTable | kap-core/src/html.rs:194-200 | a `table` tag opens one more frame inside the innermost one |
| HtmlNesting.OpenSection | kap-core/src/html.rs:201-210 | a section takes the place of a section that is innermost |
| HtmlNesting.OpenRowLands | kap-core/src/html.rs:211-221 | a row closes the cell and row before it and implies a `tbody` in a bare table |
| HtmlNesting.OpenCellLands | kap-core/src/html.rs:222-234 | a cell closes the cell before it and implies exactly the section and row it lacks |
| HtmlNesting.TextLands | kap-core/src/html.rs:161-174 | text adds up in the innermost cell and is dropped elsewhere |
| HtmlTree.Builder.Attach | kap-core/src/html.rs:240-247 | popping a frame below its parent leaves the document order alone, and the nesting rules hold |
| HtmlTree.Builder.OpenTag | kap-core/src/html.rs:192-238 | an opening tag acts on the document order as specified; rows stay in sections and cells in rows |
| HtmlTree.Builder.CloseTag | kap-core/src/html.rs:259-284 | the popping loop closes the innermost frame of the kind, all but the root if there is none |
| HtmlTree.Builder.AddText | kap-core/src/html.rs:160-174 | text reaches the innermost open cell and nothing else |
| HtmlTree.Builder.Finish | kap-core/src/html.rs:177-183 | the tree handed out has the preorder in which frames were pushed, properly nested all the way down |
| HtmlScan.CollectIsSelection | kap-core/src/html.rs:286-293 | collecting finds each `table` node of the preorder exactly once |
| HtmlScan.CollectedSubtree | kap-core/src/html.rs:286-293 | the i-th frame collected is the whole subtree at the i-th `table` node of the preorder |
| HtmlScan.ParseTables | kap-core/src/html.rs:120-190 | for every text the scanner's tree has the preorder of the pushed frames, and the tables listed are the opening `table` tags in document order |
| HtmlMarkup.TagSays | kap-core/src/html.rs:137-152 | slashes in front make a closing tag; blanks, slashes behind the name, attributes and letter case do not matter |
| HtmlMarkup.MarkupEvents | kap-core/src/html.rs:120-174 | however tags, comments and texts are written, the scanner sees exactly their events, in order, up to an unfinished tag or comment |
| HtmlMarkup.TablesOfMarkup | kap-core/src/html.rs:120-190 | the tables found in written markup are its opening `table` tags |
| KeyEquality.SymbolKeys | kap-core/src/map.rs:26-58 | symbols are equal keys if and only if their names agree and so do their namespaces, none and "default" being the same |
| KeyEquality.LeafKeys | kap-core/src/map.rs:46-53 | characters, strings, null and timestamps are compared by contents, locks and condition variables by identity |
| KeyEquality.CompoundKeys | kap-core/src/map.rs:60-73 | arrays agree in dimensions and elements, lists in elements |
| KeyEquality.KindsApart | kap-core/src/map.rs:36-75 | values of different kinds are different keys; nil and the kinds not listed equal nothing |
| KeyEquality.NumberKeysByValue | kap-core/src/map.rs:36-44 | exact numbers are equal keys when their values are, doubles when their bits are, and no double equals an exact number |
| KeyEquality.FloatsByValue | kap-core/src/map.rs:40 | the parts of complex keys are compared by value, a NaN equalling nothing |
| KeyEquality.KeyEqualIsCanon | kap-core/src/map.rs:36-75 | on plain values key equality is equality of canonical keys: exact numbers by value, doubles by bit pattern, complex numbers by parts, locks by identity, deeply |
| KeyEquality.KeyEqualSymmetric | kap-core/src/map.rs:36-75 | key equality is symmetric on all values |
| KeyEquality.KeyEqualReflexive | kap-core/src/map.rs:36-75 | a value equals itself as a key if and only if it holds no NaN inside a complex or JVM value, no nil, and none of the kinds the comparison does not list |
| KeyEquality.NumberKeysChain | kap-core/src/map.rs:36-44 | two equal links x = y = z give x = z if and only if they do not pass through a complex zero between zeros of different sign, or a real NaN between complex numbers |
| KeyEquality.FailingNumbers | kap-core/src/map.rs:36-44 | a number is part of some failure of transitivity if and only if it is a zero or NaN, real or with a zero imaginary part |
| KeyEquality.FailureIsAwkward | kap-core/src/map.rs:36-44 | every failure of transitivity has in it a complex number with zero imaginary part whose real part is zero or NaN |
| KeyEquality.FailureThrough | kap-core/src/map.rs:36-44 | and each such number, as each real zero or NaN, stands in one |
| KeyEquality.KeyEqualTransitive | kap-core/src/map.rs:36-75 | on nested values without such complex numbers key equality is transitive |
| KeyEquality.PlainIs | kap-core/src/map.rs:36-75 | the values with canonical keys are exactly the ones that equal themselves and hold no such complex number |
| KapMaps.LookupRefines | kap-core/src/map.rs:104-110 | lookup is application of the finite map the list stands for |
| KapMaps.WithPairRefines | kap-core/src/map.rs:143-152 | one insertion updates the finite map, keeps keys distinct, and keeps every slot in place |
| KapMaps.WithPairs | kap-core/src/map.rs:154-160 | the rebinding loop performs the insertions that `WithAllRefines` is about, in order |
| KapMaps.WithAllRefines | kap-core/src/map.rs:154-160 | many insertions merge the writes, the last one winning, and add new slots in the order of first occurrence |
| KapMaps.WithoutRefines | kap-core/src/map.rs:163-171 | removal is a filter: exactly the pairs with other keys stay, in order, and the finite map loses those keys |
| MapEquality.MapDeepEqual | kap-core/src/map.rs:118-139 | the loop answers whether the lengths agree and every pair of one map is found in the other |
| MapEquality.DeepEqualIsInclusion | kap-core/src/map.rs:118-139 | for all plain maps that one-directional test holds if and only if the lengths agree, no key of the left map has two values, and its finite map is included in the right one |
| MapEquality.DeepEqualReflexive | kap-core/src/map.rs:118-139 | a plain map equals itself if and only if its repeated keys carry equal values |
| MapEquality.DeepEqualTransitive | kap-core/src/map.rs:118-139 | transitive on all plain maps, repeated keys or not |
| MapEquality.DeepEqualTurnsAround | kap-core/src/map.rs:118-139 | a success can be turned around if and only if the right map is consistent and both have as many different keys |
| MapEquality.DeepEqualIsMapEquality | kap-core/src/map.rs:118-139 | with distinct keys it is equality of the finite maps, both ways |
| MapEquality.DeepEqualEquivalence | kap-core/src/map.rs:118-139 | hence, with distinct keys, reflexive, symmetric and transitive |
| MapEquality.RepeatedKeysBreakSymmetry | kap-core/src/map.rs:85-87 | every plain map with a repeated key has a plain partner on which the two directions answer differently |
| Ride.DrainSplit | kap-cli/src/ride.rs:375-409 | draining early and again with more bytes is draining once with all of them |
| Ride.DrainIdempotent | kap-cli/src/ride.rs:375-409 | what is left over holds no whole frame |
| Ride.ChunksDoNotMatter | kap-cli/src/ride.rs:363-412 | for every byte stream, payloads and close decision do not depend on how reads split it |
| Ride.DrainFrames | kap-cli/src/ride.rs:375-409 | framed payloads come out in order, with any bytes behind them |
| Ride.BadFrameCloses | kap-cli/src/ride.rs:379-390 | behind good frames the session closes if and only if a length is below 8 or a complete frame lacks the magic, delivering nothing more |
| Ride.EndingPayload | kap-cli/src/ride.rs:394-403 | the payload whose command ends the session is the last one delivered |
| Ride.FrameRecovered | kap-cli/src/ride.rs:14-21 | a frame gives its payload back if and only if its length fits in 32 bits |
| Ride.FrameBytes | kap-cli/src/ride.rs:14-21 | a frame is its length in four bytes, most significant first, the letters of RIDE, and the payload |
| Ride.MagicChecked | kap-cli/src/ride.rs:386-390 | a complete frame with other letters in their place closes the session |
| Ride.FramesDelivered | kap-cli/src/ride.rs:363-412 | payloads framed, concatenated and read in any chunks are delivered exactly, in order, nothing left over |
| Ride.Session.OnRead | kap-cli/src/ride.rs:370-409 | one read and the inner loop make the step of the specification |
| Ride.Session.Serve | kap-cli/src/ride.rs:363-412 | the outer loop runs those steps over all reads |
| Lines.SplitUnique | kap-core/src/csv.rs:55-62 | splitting is the only way to cut a text into pieces without the separator |
| Lines.SplitParts | kap-core/src/csv.rs:55-62 | the pieces hold no separator and join back to the text |
| Text.WhitespaceList | kap-core/src/csv.rs:64-66 | the blanks are the 25 characters with the Unicode property White_Space |
| Csv.ReadQuoted | kap-core/src/csv.rs:93-126 | the nested loops read a quoted field over any number of lines as specified, all three ways of failing included |
| Csv.ReadUnquoted | kap-core/src/csv.rs:130-152 | the loop with held-back blanks reads what `PlainField` describes |
| Csv.ReadRows | kap-core/src/csv.rs:69-170 | the cursor loops end on every input and yield the specified rows or error |
| CsvSpelling.ReadSpelled | kap-core/src/csv.rs:93-126 | every spelling of a field inside quotes is undone, each character being itself, a quote and `"`, or behind a backslash, for any quote character |
| CsvSpelling.SpelledNeverClosed | kap-core/src/csv.rs:97-100 | a field the text ends in the middle of is the end-of-file error, whatever its spelling |
| CsvSpelling.SpelledDangling | kap-core/src/csv.rs:116-119 | a backslash at the end of a line is the unterminated-string error, whatever precedes it in the field |
| CsvSpelling.ReadItems | kap-core/src/csv.rs:69-170 | a row of quoted items, with blanks around them if blanks are trimmed, and bare items in any order comes back as its fields |
| CsvSpelling.ReadAll | kap-core/src/csv.rs:69-170 | rows of such items come back row by row |
| CsvSpelling.FinalNewline | kap-core/src/csv.rs:55-62 | the newline behind the last row may be missing |
| CsvRoundTrip.ReadEscaped | kap-core/src/csv.rs:93-126 | a field with doubled quotes and backslashes is restored up to its closing quote, newlines included |
| CsvRoundTrip.RoundTrip | kap-core/src/csv.rs:69-170 | every list of rows survives the canonical writer, whatever the trimming, if and only if the separator is neither quote nor newline |
| CsvRoundTrip.NeverClosed | kap-core/src/csv.rs:97-100 | a quoted field that no later line closes is the end-of-file error |
| CsvRoundTrip.DanglingBackslash | kap-core/src/csv.rs:116-119 | a backslash at the end of a line is the unterminated-string error |
| CsvRoundTrip.TextAfterQuote | kap-core/src/csv.rs:159-165 | anything but blanks, separator or line end after a closing quote is the syntax error |
| CsvPlainLines.PlainField | kap-core/src/csv.rs:130-152 | an unquoted field is its piece of the line, trimmed as configured |
| CsvPlainLines.PlainLine | kap-core/src/csv.rs:82-166 | a line in which no piece starts with the quote is cut at its separators, an empty last piece giving no field |
| CsvPlainLines.NothingLost | kap-core/src/csv.rs:130-152 | without trimming the pieces come back unchanged if and only if the last one is not empty and has no blanks at its end behind its first character |
| CsvTables.Width | kap-core/src/csv.rs:189-189 | the largest number of fields in a row |
| CsvTables.CellAt | kap-core/src/csv.rs:194-201 | there are nrows * ncols cells, and cell (r, c) is that field, or empty text past the end of the row, as a number if numbers are asked for and it is one |
| CsvTables.LabelsAt | kap-core/src/csv.rs:203-221 | a column is labelled by its field of the header row, a row by its first field, empty text standing in for a missing one |
| CsvTables.BuildTable | kap-core/src/csv.rs:182-223 | the table is the rectangular padding of the rows, with header row and column split off and their labels padded |
| Terminating.DecimalDenominator | kap-core/src/sql.rs:60-76 | a reduced fraction equals some n / 10^k if and only if its denominator divides a power of ten |
| Terminating.BindsAsDecimal | kap-core/src/sql.rs:60-76 | dividing out 2 and then 5 leaves 1 if and only if the rational is a terminating decimal |
| DecimalReaders.ParseDecimalAccepts | kap-core/src/sql.rs:191-216 | accepted are exactly the signed digit strings with at most one dot and at least one digit, with their value |
| DecimalReaders.ParsedBinds | kap-core/src/sql.rs:191-216 | everything read can be bound to a column again |
| DecimalReaders.ReadersAgree | kap-core/src/lex_helpers.rs:250-267 | whatever the column reader accepts the literal reader reads as the same number |
| DecimalReaders.SpacedParses | kap-core/src/lex_helpers.rs:250-267 | the digits of a literal may have underscores among them and one sign in front |
| DecimalReaders.OnlySpaced | kap-core/src/lex_helpers.rs:250-267 | and no other text is an integer to the literal reader |
| DecimalReaders.ReadAlike | kap-core/src/lex_helpers.rs:250-267 | on every text the two readers give the same answer if and only if the literal reader refuses it or it has no underscore, second sign or second dot |
| LiteralRuns.CollectRun | kap-core/src/lex_helpers.rs:206-241 | the collecting loop with its four flags yields the run of characters that `LiteralsAgree` is about |
| LiteralRuns.LiteralsAgree | kap-core/src/lex_helpers.rs:206-246 | on the numerator of every literal the lexer collects the two readers give the same answer |
| LiteralForms.LiteralCollected | kap-core/src/lex_helpers.rs:206-246 | every real, quotient and complex literal is collected whole, its signs and letters folded, up to the first character that does not fit on |
| NumberArithmetic.AddExact | kap-core/src/number.rs:527-550 | the true sum for every pair of exact kinds, if and only if it is not big integer with rational; no whole rational is left |
| NumberArithmetic.SubExact | kap-core/src/number.rs:612-642 | the true difference, under the same condition |
| NumberArithmetic.MulExact | kap-core/src/number.rs:553-576 | the true product, under the same condition |
| NumberArithmetic.IntegerKinds | kap-core/src/number.rs:527-535 | two longs give a long exactly when the result fits 64 bits; a big operand keeps the result big |
| NumberArithmetic.RationalKinds | kap-core/src/number.rs:527-713 | with a rational operand every result has the smallest kind that holds it |
| NumberArithmetic.DivisionKinds | kap-core/src/number.rs:651-713 | a whole quotient of two longs is a long, but for the one outside 64 bits; with a big operand it stays big; any other quotient is a rational |
| NumberArithmetic.DivExactly | kap-core/src/number.rs:651-713 | the quotient times the divisor is the dividend for every nonzero divisor of an exact kind; 0 for a zero one |
| NumberArithmetic.FloorExact | kap-core/src/number.rs:908-926 | the largest integer not above the number, in an integer kind |
| NumberArithmetic.FloorKinds | kap-core/src/number.rs:908-926 | an integer is its own floor, and the floor of a rational has the smallest kind |
| NumberArithmetic.RemPanics | kap-core/src/number.rs:1139-1156 | with a nonzero divisor the quotient of two longs leaves 64 bits for `i64::MIN` by -1 and for nothing else |
| NumberArithmetic.ModuloPanics | kap-core/src/number.rs:1139-1156 | a panic for -1 with `i64::MIN` and for nothing else, a zero modulus included |
| NumberArithmetic.ModuloFloor | kap-core/src/number.rs:1139-1172 | residue plus modulus times floored quotient is the dividend, a zero modulus included; the residue is smaller than the modulus and has its sign; it is a long exactly when the dividend is |
| NumberText.DoubleShapeIsPattern | kap-core/src/number.rs:814-854 | accepted are exactly the three documented alternatives, over all strings |
| NumberText.IntegerParses | kap-core/src/number.rs:729-738 | signed digits read as their value, in the smallest kind |
| NumberText.FractionParses | kap-core/src/number.rs:752-766 | a fraction reads as its reduced value, whole ones as integers, a zero denominator aside |
| NumberText.ParsePanics | kap-core/src/number.rs:757-757 | a panic exactly on the fractions whose denominator is zero |
| NumberText.DoubleParses | kap-core/src/number.rs:739-751 | a text of double shape reads as the double it spells |
| NumberText.NoOtherNumbers | kap-core/src/number.rs:729-766 | what reads as a number, or panics, is exactly the integers, the doubles and the fractions |
| NumberText.FormatParses | kap-core/src/number.rs:398-430 | every printed exact number reads back as its normal form |
| NumberText.ReadableParses | kap-core/src/number.rs:398-408 | in the readable style that holds if and only if the number is not negative |
| NumberText.ReadableForm | kap-core/src/number.rs:398-408 | the readable style replaces each minus by U+00AF and nothing else |
| NumberText.FloatForms | kap-core/src/number.rs:410-430 | a complex number prints as its two parts with a J between |
| Streams.RunCovers | kap-core/src/stream.rs:101-174 | any interleaving of reads yields consecutive slices of the bytes, nothing lost and nothing repeated |
| Streams.TerminateLines | kap-core/src/stream.rs:147-156 | the lines with their newlines are the bytes, but for one newline missing at the very end |
| Streams.PerformTakes | kap-core/src/stream.rs:101-174 | one byte; up to a newline, byte 10, and that too; everything; as many bytes as asked for; and nothing at the end |
| Streams.Stream.FillPending | kap-core/src/stream.rs:81-99 | refilling changes no byte still to come, and answers whether one is left |
| Streams.Stream.Byte | kap-core/src/stream.rs:102-124 | the next byte, or none at the end; an error loses nothing |
| Streams.Stream.NextLine | kap-core/src/stream.rs:128-143 | the bytes up to the newline, which is consumed; a non-empty tail counts, an empty one does not; an error loses bytes of one line at most, and what is left is an end of what there was |
| Streams.Stream.AllLines | kap-core/src/stream.rs:147-156 | exactly the lines of the remaining bytes, empty ones kept; after an error an end of them is left |
| Streams.Stream.Bytes | kap-core/src/stream.rs:160-174 | the next bytes up to the limit; after an error an end of them is left |
| Streams.Stream.Run | kap-core/src/stream.rs:101-174 | whatever blocks the source hands over, the outputs of a run depend on the bytes alone; after an error an end of the bytes is left |
| LexStrings.EscapeString | kap-core/src/lib.rs:1107-1123 | the loop appends the escapes that `EscapeLexes` is about |
| LexStrings.ParseHex4 | kap-core/src/lex_helpers.rs:17-26 | the value of four hexadecimal digits, or nothing |
| LexStrings.LexString | kap-core/src/lex_helpers.rs:98-166 | the loop returns the string and the position behind the quote, or an error, as specified |
| LexStrings.LexOne | kap-core/src/lex_helpers.rs:98-166 | ordinary characters stand for themselves; a backslash escapes itself, the quote, n, r and u, and nothing else |
| LexStrings.LexUnclosed | kap-core/src/lex_helpers.rs:98-166 | a string without a closing quote is an error |
| LexStrings.LexLoneSurrogate | kap-core/src/lex_helpers.rs:128-157 | a high surrogate by itself becomes U+FFFD, a low one is an error |
| LexStrings.LexBadHex | kap-core/src/lex_helpers.rs:128-133 | fewer than four hexadecimal digits are an error |
| LexStrings.HexDigits | kap-core/src/lex_helpers.rs:17-26 | a hexadecimal digit is worth its place in the alphabet, in either case |
| LexStrings.Hex4Value | kap-core/src/lex_helpers.rs:17-26 | four digits count 4096, 256, 16 and 1, and nothing with fewer digits has a value |
| LexStrings.EscapeLetters | kap-core/src/lib.rs:1107-1123 | the escapes with a letter, and the characters that need none |
| LexStrings.EscapeControl | kap-core/src/lib.rs:1107-1123 | every other control character is written `\x` and two lower-case digits |
| LexStrings.EscapeLexes | kap-core/src/lex_helpers.rs:98-166 | an escaped string lexes back, stopping past the quote, if it has no control character other than newline and carriage return, and is an error otherwise |
| LexStrings.UnicodeEscapesLex | kap-core/src/lex_helpers.rs:128-157 | any spelling of a string's UTF-16 units as `\u` escapes lexes back to the string, surrogate pairs included |
| LexStrings.HexSpelling | kap-core/src/lex_helpers.rs:17-26 | every 16-bit unit has such a spelling |
| Render.LayoutHolds | kap-core/src/lib.rs:739-766 | the layout of every shape has as many cells as the array has elements |
| Render.IndexInjective | kap-core/src/lib.rs:755-765 | no two cells show the same element |
| Render.IndexSurjective | kap-core/src/lib.rs:755-765 | every element is shown by some cell |
| Render.Multipliers | kap-core/src/lib.rs:745-748 | the backward loop yields the products of the later dimensions |
| Render.LookupIsIndex | kap-core/src/lib.rs:755-765 | the lookup of ranks 3 and 4 is the row-major index |
| Render.DecodeBlock | kap-core/src/lib.rs:901-907 | peeling digits off a block number recombines to that block's first element |
| Render.CellIndex | kap-core/src/lib.rs:899-908 | for every rank the element found is the row-major index of the cell, and exists |
| Pictures.WidthIsMaximum | kap-core/src/lib.rs:767-782 | a column is exactly as wide as its widest cell |
| Pictures.EqualWidths | kap-core/src/lib.rs:783-838 | every line of the picture has the same number of characters |
| Pictures.CellAppears | kap-core/src/lib.rs:794-828 | the text of each element stands at the right end of its column on its line, with nothing but spaces before it and a bar or space in front of the column |
| Pictures.PictureBox | kap-core/src/lib.rs:783-838 | a ruled top and bottom, a bar at both ends of every line, one line for each row and one between two blocks |
| Pictures.BlocksApart | kap-core/src/lib.rs:794-803 | the line between two blocks is blank |
| Pictures.ElementShownOnce | kap-core/src/lib.rs:794-828 | one cell shows each element and no other does |
| Pictures.PrintedLines | kap-core/src/lib.rs:838-838 | for cells without newlines the lines of the text are the lines of the picture |
| Drawing.ColumnWidths | kap-core/src/lib.rs:767-781 | the nested loops compute the width of every column |
| Drawing.PrintRow | kap-core/src/lib.rs:804-827 | one printed row is the padded cells with spaces and group bars between them |
| Drawing.FormatConformNd | kap-core/src/lib.rs:733-930 | the drawing loops print the specified picture, for every rank from 3 up and no zero dimension |

## Left out

- The evaluator, the parser and the token dispatch of the lexer; JNI and JVM emulation; SQLite calls and table materialisation; processes, sockets, JSON, the command line and the REPL.
- Results of floating-point arithmetic: `exp`, `log`, `sqrt`, `pow`, complex multiplication and division, `format_double` and reading a double are left out or are parameters; doubles appear in comparisons, keys and the wire format.
- Dimension labels, the registry of native functions, and the statistics extension.
- HTML entity decoding is a parameter; the conversion of a frame to rows of text, and whitespace inside cells, are not modelled.
- UTF-8: symbol names are byte strings, stream lines and RIDE payloads stay bytes, so the lossy decoding of invalid bytes is not captured.
- Which commands end a RIDE session: any function of the payloads received so far; the handshake and the identification flag are part of that function.
- In the wire format an error return and a panic are one outcome, and the product of dimensions does not overflow.
- Lengths of texts and arrays are unbounded: `as u32` of a fraction's length, and 64-bit overflow of calendar intermediates for years far outside any clock, are not modelled.
- Timestamps: texts are sequences of characters, so byte slicing inside a multi-byte character is not modelled.
- The column that `lex_string` also returns, an approximation by its own account.
- Ranks below 3 of the drawing code, and cells that span several lines.
- Streams: a file that grows after its end was seen, and the writing end.
- JVM values are compared by snapshots of their contents; changes to a mutable array that is a key are not modelled.
- A number literal with an exponent before its `r` and a denominator behind it goes through a float, which is not modelled.
- NumberOrder.OrderingComposes: no number has a zero imaginary part; `JoinsOrderExactly` shows that each such number breaks transitivity.
- Values.TotalCmpComposes: the numbers in the values have no zero imaginary part and lack one of double 2^63, integer 2^63 - 1 and the rationals between; `OrderedExactly` shows that numbers with all three are not ordered.
- KeyEquality.KeyEqualTransitive: the values hold no complex number with zero imaginary part whose real part is zero or NaN; `FailureThrough` puts each of those on a failure.
- MapEquality.DeepEqualIsInclusion: keys and values are plain, that is, have canonical keys in the sense of `PlainIs`.
- NumberArithmetic.ModuloFloor: for a long modulus with a long or big integer dividend, the pairs that stay exact; the other pairs go through floats.
- CsvPlainLines.PlainLine: the quote and the separator are different characters and no piece starts with the quote; a line where one does is read by the quoted reader.
- CsvSpelling.ReadItems: the quote is no blank, backslash or newline and not the separator, and the separator is neither newline nor `"`, since quoted fields cannot be told apart otherwise.
- HtmlMarkup.MarkupEvents: text does not stand next to text, with which it would be one run, and what starts with `<!--` is a comment.
- WireRoundTrip.DecodeEncode: arrays hold as many elements as their dimensions say and no buffer reaches 2^63 bytes.
