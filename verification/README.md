# Verified model of the MicroPython and Pico components

This project models the parts of the repository that pack bits, parse texts, queue connections, drive wires and
decode signals, and proves what they are for. Each C or Python component has its own files:

- **Frame buffer** (`modframebuf.c`): `BitFields`, `FrameGeometry`, `FramePaint`, `FrameFormats`, `FrameBuffer`,
  `FrameFill`, `FrameScroll`, `FrameLine`, `EvenOdd`, `PolyFill`, `PolyVertices`, `PolyColumns`, `PolyEdges`. A buffer is
  an array of units (bytes, or 16-bit words for RGB565) and a geometry. Every drawing operation is stated on the grid of pixels, padding included: `Paints` says
  that exactly the pixels of a region took a value. `PixelsDetermine` shows that this leaves no bit open. Masks and
  shifts are written as `Field` and `Insert` on bit fields, and as quotients and remainders where the source works on
  nibbles.
- **JSON parser** (`modjson.c`, with the string and number conversions it uses from `py/`): `Utf8`, `ParseNumber`,
  `NumberSyntax`, `JsonLexer` and `JsonLoad` hold the parser, as a machine and as the imperative loop with a store of containers that are filled through references. `JsonText` has every way to write a value
  (sections 2 to 2.5 of RFC 4627), `JsonCorrect` proves that each of them is parsed to its value, `JsonPairs`
  characterises the one departure from the standard, and `JsonLanguage` all texts that the parser accepts.
- **lwIP sockets** (`modlwip.c`): `AcceptQueue` is the circular slot array of a listening socket with removal from the
  middle; `TcpReceive` the receive path over chains of packet buffers. Network callbacks are events that arrive in any
  order, also while a call waits.
- **I2C master** (`machine_i2c.c`): `SoftI2c`, over `BitStrings`. The slaves' behaviour is arbitrary: for each clock
  pulse it is given whether they release SDA and how long they stretch SCL. A ghost listener hears the wires as
  sections 3.1.3 to 3.1.6 of NXP UM10204 define START, STOP and bits.
- **I2S** (`machine_i2s.c`): `RingBuffer` has the ring as a class and as a machine of single memory accesses by one
  producer and one consumer; `I2sTransfer` the non-blocking transfers on top of it, and `I2sRuns` whole
  transfers with their bytes.
- **Infrared decoders** (`philips.py`, `ir_rx/__init__.py`): `Biphase` and `Philips`.
- **Small algorithms**: `HeapQueue` (`modheapq.c`), `Base64` and `Base64Texts` (`modbinascii.c`), `RotaryEncoder` (`rotary.py`),
  `OneWire` (`modonewire.c`), with `Arith` for facts about quotients and remainders and
  `Common` for what several components share.

Imperative code is modelled by methods over classes and arrays, each proved against functions or predicates on
values; the properties over whole runs are lemmas about those.

Where the code does not do what its users might expect, the model keeps the code and states exactly when the
expectation holds: surrogate pairs in JSON (`JsonPairs.DocumentAsWritten`), rounded strides that no longer fit 16 bits
(`FrameGeometry.AcceptedIsInjective`), reads whose last buffer is empty (`SoftI2c.NackOnlyFinal`), backlogs that do not
fit 8 bits (`AcceptQueue.CapacityAsRequested`), frames whose size in bits wraps in `size_t`
(`FrameGeometry.SizeTestIsExact` and `FrameGeometry.AcceptedIsSafe`, with the example `FrameGeometry.WrappedSize`),
polygons left of column 0 that are filled beyond their rightmost column (`PolyColumns.FillBeyond`, with the example
`PolyColumns.TriangleFillsBeyond`), texts accepted that are not JSON (`JsonLanguage.AcceptedLanguage`), and vertices of
filled polygons left of column 0
(`PolyVertices.VertexDrawn` for any polygon, `PolyVertices.TriangleVertexDrawn` for triangles, and
`PolyVertices.NegativeVertexMissed` as an example; `PolyFill.VerticalNode` shows where the shift comes from).

## Model

| member | source | states |
|---|---|---|
| BitFields.FieldOfInsert | micropython/extmod/modframebuf.c:73-79 | setting one bit field of a unit and reading any field gives the new value there and the old value everywhere else |
| BitFields.FieldsDetermine | micropython/extmod/modframebuf.c:73-79 | a byte or word is known from its fields, so a statement about all fields says everything about it |
| FrameGeometry.MakeNew | micropython/extmod/modframebuf.c:273-337 | the constructor accepts exactly when the numbers are in range and the size in bits, which is counted modulo the range of `size_t`, does not ask for more bytes than the buffer has; the rounded stride is stored modulo 2^16 |
| FrameGeometry.SizeIsExact | micropython/extmod/modframebuf.c:287-325 | before any wrap, the size asked for is that of the units up to and including the one of the bottom right pixel, in all seven formats |
| FrameGeometry.SizeTestIsExact | micropython/extmod/modframebuf.c:287-325 | while the bit total does not wrap, the test passes if and only if the last pixel is in the buffer (never too small, never refused needlessly); a frame that passes over a buffer of fewer bits than `size_t` counts has its last pixel in the buffer if and only if the total did not wrap |
| FrameGeometry.PlacesDistinct | micropython/extmod/modframebuf.c:70-80 | two different pixels, visible or in the padding between width and stride, never share a bit field |
| FrameGeometry.EveryPlaceIsPixel | micropython/extmod/modframebuf.c:70-246 | every field of every unit belongs to a pixel of the grid |
| FrameGeometry.AcceptedIsSafe | micropython/extmod/modframebuf.c:287-333 | an accepted frame lies wholly in its buffer if the bit total did not wrap, even when the stored stride was cut to 16 bits; where the stride was not cut and the buffer has fewer bits than `size_t` counts, only then |
| FrameGeometry.WrappedSize | micropython/extmod/modframebuf.c:287-325 | with a 32-bit `size_t`, 32768 by 8192 pixels of RGB565 are accepted over an empty buffer, as the total wraps to 0, and the frame is not in it |
| FrameGeometry.RoundedIs | micropython/extmod/modframebuf.c:297-320 | the rounded stride is the smallest that is large enough and, where rows are packed, a whole number of units |
| FrameGeometry.AcceptedIsInjective | micropython/extmod/modframebuf.c:281-333 | no two pixels of a frame share bits if and only if the rounded stride still fits 16 bits or there is a single row |
| FrameFormats.RowUnit | micropython/extmod/modframebuf.c:70-246 | in the six formats that pack rows, named by their codes, a unit is the number whose digits are the pixels next to each other, with the leftmost in the highest or the lowest bits as the documentation says |
| FrameFormats.ColumnUnit | micropython/extmod/modframebuf.c:98-106 | in MVLSB a byte is eight pixels below each other, the lowest bit on top, and the next eight rows are one stride further |
| FramePaint.SetPaints | micropython/extmod/modframebuf.c:70-80 | setting a pixel in the packed unit gives that pixel the value and leaves every other pixel of the buffer as it was |
| FramePaint.ReduceIs | micropython/extmod/modframebuf.c:70-244 | the one-bit formats only ask whether the colour is 0; the others keep its low bits |
| FramePaint.PixelsDetermine | micropython/extmod/modframebuf.c:70-246 | two buffers with equal pixels are equal, so the frame conditions leave no bit open |
| FramePaint.PaintsAgree | micropython/extmod/modframebuf.c:258-271 | any two ways of painting the same region (a fast fill, one `setpixel` per pixel) leave identical buffers |
| FramePaint.AcceptedFits | micropython/extmod/modframebuf.c:323-336 | every accepted frame whose bit total did not wrap and whose rows do not overlap can be drawn on: as stored, or, for a single row, with the stride before the cut, which places the same pixels at the same bits |
| FrameBuffer.FrameBuffer.MonoHorizSetPixel | micropython/extmod/modframebuf.c:70-74 | MHLSB and MHMSB: exactly the pixel (x, y) becomes 0 or 1 |
| FrameBuffer.FrameBuffer.MvlsbSetPixel | micropython/extmod/modframebuf.c:98-102 | MVLSB: exactly the pixel (x, y) becomes 0 or 1 |
| FrameBuffer.FrameBuffer.Rgb565SetPixel | micropython/extmod/modframebuf.c:121-123 | RGB565: exactly the pixel (x, y) becomes the low 16 bits of the colour |
| FrameBuffer.FrameBuffer.Gs2HmsbSetPixel | micropython/extmod/modframebuf.c:142-148 | GS2_HMSB: exactly the pixel (x, y) becomes the low 2 bits of the colour |
| FrameBuffer.FrameBuffer.Gs4HmsbSetPixel | micropython/extmod/modframebuf.c:166-174 | GS4_HMSB: exactly the pixel (x, y) becomes the low 4 bits, its nibble neighbour stays |
| FrameBuffer.FrameBuffer.Gs8SetPixel | micropython/extmod/modframebuf.c:217-220 | GS8: exactly the pixel (x, y) becomes the low 8 bits of the colour |
| FrameBuffer.FrameBuffer.SetPixel | micropython/extmod/modframebuf.c:242-244 | in every format the pixel takes the colour reduced to the format and no other pixel changes |
| FrameBuffer.FrameBuffer.GetPixel | micropython/extmod/modframebuf.c:76-80 | in every format the value read is the pixel of the grid, below the number of colours; together with `SetPixel` this is get-after-set |
| FrameBuffer.FrameBuffer.SetPixelChecked | micropython/extmod/modframebuf.c:246-250 | outside the frame nothing changes |
| FrameBuffer.FrameBuffer.constructor | micropython/extmod/modframebuf.c:327-336 | a frame over an existing buffer and its geometry |
| FrameBuffer.FrameBuffer.Store | micropython/extmod/modframebuf.c:73-73 | writing a unit back with one field set paints exactly that pixel |
| FrameFill.MonoHorizFillRect | micropython/extmod/modframebuf.c:82-94 | the column loops over moving byte pointers paint exactly the rectangle |
| FrameFill.MvlsbFillRect | micropython/extmod/modframebuf.c:108-117 | the row loops over moving byte pointers paint exactly the rectangle |
| FrameFill.Rgb565FillRect | micropython/extmod/modframebuf.c:129-137 | the pointer running over rows and gaps paints exactly the rectangle |
| FrameFill.Gs2HmsbFillRect | micropython/extmod/modframebuf.c:156-162 | pixel by pixel, exactly the rectangle |
| FrameFill.Gs4HmsbRow | micropython/extmod/modframebuf.c:194-212 | one row of the nibble-packed fill paints exactly its pixels and moves the byte pointer by exactly stride/2, for odd and even x and odd and even width |
| FrameFill.Gs4HmsbRest | micropython/extmod/modframebuf.c:200-210 | from an even pixel on: whole bytes, and one more half for an odd width |
| FrameFill.Gs4HmsbFillRect | micropython/extmod/modframebuf.c:184-213 | the byte-pointer version with its whole-byte middle paints exactly the rectangle |
| FrameFill.Gs8FillRect | micropython/extmod/modframebuf.c:227-233 | one `memset` per row paints exactly the rectangle |
| FrameFill.FillRect | micropython/extmod/modframebuf.c:256-271 | in every format exactly the pixels of the rectangle that are inside the frame take the colour; all others, also padding, keep theirs |
| FrameFill.Fill | micropython/extmod/modframebuf.c:345-350 | exactly the visible pixels take the colour |
| FrameFill.MonoHorizColumn | micropython/extmod/modframebuf.c:86-92 | one column: the pointer advances by a row, exactly the pixels of the column are painted |
| FrameFill.MvlsbRow | micropython/extmod/modframebuf.c:110-115 | one row: the pointer advances by a byte, exactly the pixels of the row are painted |
| FrameFill.Gs2HmsbColumn | micropython/extmod/modframebuf.c:158-160 | one column, pixel by pixel |
| FrameFill.StoreRun | micropython/extmod/modframebuf.c:132-134 | a run of equal units paints exactly that part of the row |
| FrameFill.StorePairs | micropython/extmod/modframebuf.c:201-202 | each whole byte of `memset` gives two neighbouring pixels the colour and no other |
| FrameFill.FormatFillRect | micropython/extmod/modframebuf.c:232-240 | the fill of the format paints exactly the rectangle |
| FrameScroll.SourceIsOld | micropython/extmod/modframebuf.c:797-804 | with the loop directions chosen by the signs of the steps, a source pixel has not been overwritten when it is read |
| FrameScroll.ScrollRow | micropython/extmod/modframebuf.c:798-803 | one row: the pixels passed hold the old colours of their sources, all others are untouched |
| FrameScroll.Scroll | micropython/extmod/modframebuf.c:765-806 | every pixel whose source is in the frame takes the old colour of its source, every other pixel keeps its own, in place and with overlap |
| FrameScroll.ScrolledPixel | micropython/extmod/modframebuf.c:765-806 | pixel (x, y) is the old pixel (x - xstep, y - ystep) if that is in the frame, and the old pixel (x, y) otherwise |
| FrameScroll.ScrollRows | micropython/extmod/modframebuf.c:798-804 | row by row in the chosen direction, the rows passed are moved and the rest is untouched |
| FrameLine.MinorSteps | micropython/extmod/modframebuf.c:472-475 | the inner loop runs at most once |
| FrameLine.WalkEnds | micropython/extmod/modframebuf.c:463-482 | the walk starts at (x1, y1) and after all major steps is exactly at (x2, y2), in all octants |
| FrameLine.LineIsConnected | micropython/extmod/modframebuf.c:463-478 | neighbouring pixels differ by one along the longer axis and at most one along the shorter |
| FrameLine.LineWithinHalfPixel | micropython/extmod/modframebuf.c:462-482 | every pixel of the line is within half a pixel of the ideal line, in the coordinates of the caller |
| FrameLine.LineExactly | micropython/extmod/modframebuf.c:425-483 | exactly which pixels a line has, for all end points: in each column (or row, if it is steep) the one nearest to the straight line, and in a tie the one further away from the start |
| FrameLine.MajorSteps | micropython/extmod/modframebuf.c:462-478 | the loop over the error term plots exactly the rounded ideal walk |
| FrameLine.Line | micropython/extmod/modframebuf.c:425-483 | exactly the visible pixels of the ideal walk from (x1, y1) to (x2, y2) are painted |
| EvenOdd.SwapRemovesInversion | micropython/extmod/modframebuf.c:673-680 | swapping neighbours in the wrong order removes exactly one inversion |
| EvenOdd.SortNodes | micropython/extmod/modframebuf.c:671-683 | the sort that steps back after a swap terminates, by inversions and then position, with a sorted permutation |
| EvenOdd.SpansAreEvenOdd | micropython/extmod/modframebuf.c:686-688 | between pairs of sorted nodes is the same as the even-odd rule: an odd number of nodes at or before the column, or the column is a node |
| EvenOdd.InsidePermuted | micropython/extmod/modframebuf.c:671-688 | the even-odd rule does not depend on the order in which the edges delivered their nodes |
| EvenOdd.SwapNodes | micropython/extmod/modframebuf.c:674-676 | two neighbours change places, all other nodes stay |
| PolyFill.NodesAreEven | micropython/extmod/modframebuf.c:628-664 | every scan line has an even number of crossings, at most one per edge, because the edges form a closed cycle |
| PolyFill.NodeIsNear | micropython/extmod/modframebuf.c:643-645 | every node is less than a pixel and a half from the exact crossing, and within 17/32 of a pixel where the rounded numerator is not negative |
| PolyFill.NodeIsRounded | micropython/extmod/modframebuf.c:643-645 | exactly which column a node is, from the exact crossing: rounded to the nearest with halves up where the edge goes to the right, and one thirty-second later where it goes to the left; left of column 0 one further to the right |
| PolyFill.VerticalNode | micropython/extmod/modframebuf.c:643-645 | a vertical edge is crossed at its own column if and only if that column is not negative; otherwise the node is one to the right |
| PolyFill.NodeIsBetween | micropython/extmod/modframebuf.c:643-645 | a node lies between the columns of the ends of its edge, or one to the right of column range when all of it is negative |
| PolyFill.FillStaysInside | micropython/extmod/modframebuf.c:625-689 | a polygon that reaches column 0 or beyond is never filled outside its columns; one left of column 0 at most one column further to the right |
| PolyFill.ScanEdges | micropython/extmod/modframebuf.c:630-664 | the edge loop leaves exactly the nodes of the row in the array, never more than it has room for, and draws the pixels of edges that end on the row |
| PolyFill.FillSpans | micropython/extmod/modframebuf.c:685-688 | filling between pairs of nodes never indexes past them and paints exactly the spans |
| PolyFill.Fill | micropython/extmod/modframebuf.c:602-690 | the filled polygon paints exactly the visible pixels that the even-odd rule puts inside, and those of edges ending on a row |
| PolyFill.Outline | micropython/extmod/modframebuf.c:691-704 | without filling, exactly the visible pixels of the lines of all edges |
| PolyFill.FindExtent | micropython/extmod/modframebuf.c:617-623 | the lowest and the highest row of any vertex |
| PolyFill.ScanEdge | micropython/extmod/modframebuf.c:643-658 | one edge adds at most one node, or draws the pixels it contributes at once |
| PolyFill.FillRow | micropython/extmod/modframebuf.c:625-689 | one scan line: the even-odd inside of the row and the pixels of edges that end on it, nothing else |
| PolyColumns.NodeBeyond | micropython/extmod/modframebuf.c:643-645 | a node is beyond both ends of its edge if and only if their columns are negative and the crossing is within half a pixel of the rightmost one |
| PolyColumns.InsideBeyond | micropython/extmod/modframebuf.c:685-688 | a row is filled beyond a column if and only if one of its nodes is beyond it |
| PolyColumns.FillBeyond | micropython/extmod/modframebuf.c:625-689 | a row of any polygon is filled to the right of all vertices if and only if all columns are negative and some edge crosses the row within half a pixel of the rightmost |
| PolyColumns.TriangleFillsBeyond | micropython/extmod/modframebuf.c:643-645 | a concrete triangle with columns -5 to -1 fills column 0 |
| PolyEdges.FilledExactly | micropython/extmod/modframebuf.c:602-690 | exactly which pixels a filled polygon has, from its vertices alone: an odd number of edges cross the row there or left of it, an edge crosses there, the pixel is on a horizontal edge, or it is a vertex with a neighbour above it |
| PolyEdges.OutlineExactly | micropython/extmod/modframebuf.c:691-704 | exactly which pixels an outline has: those of the line from each vertex to the next, and from the last to the first |
| PolyEdges.ChainCounts | micropython/extmod/modframebuf.c:628-664 | the nodes of a row are those of the edges between neighbouring vertices, each edge once |
| PolyEdges.DrawsByVertex | micropython/extmod/modframebuf.c:646-658 | what is drawn besides the inside is the horizontal edges and the vertices with a neighbour above |
| PolyVertices.DrawnByOwnRow | micropython/extmod/modframebuf.c:625-689 | a pixel is drawn by its own row or not at all: it is inside by the even-odd rule or on an edge that ends there |
| PolyVertices.VertexIsFilled | micropython/extmod/modframebuf.c:638-661 | a vertex is drawn if its column is not negative or a neighbouring vertex is not below it, also at local extrema, spikes and flat edges |
| PolyVertices.VertexDrawn | micropython/extmod/modframebuf.c:625-689 | exactly when a vertex of any polygon is drawn: in one of those cases, or if the polygon without it covers its place |
| PolyVertices.TriangleVertexDrawn | micropython/extmod/modframebuf.c:625-689 | a vertex of a triangle is drawn if and only if its column is not negative or a neighbour is not below it |
| PolyVertices.NegativeVertexMissed | micropython/extmod/modframebuf.c:643-645 | the tip of a concrete triangle left of column 0 is not drawn |
| JsonLexer.Lex | micropython/extmod/modjson.c:170-297 | every round of the main loop consumes input |
| Utf8.Check | micropython/py/unicode.c:183-209 | the loop over continuation bytes accepts exactly the strings that pass the check |
| Utf8.EncodedPasses | micropython/py/vstr.c:147-174 | every encoded code point, a surrogate too, passes the check |
| Utf8.PassesConcat | micropython/py/unicode.c:183-209 | a string that passes can be continued exactly by strings that pass |
| Utf8.DecodesBack | micropython/py/vstr.c:147-174 | the bytes of a code point are as many as section 3 of RFC 3629 says, and decode to it |
| Utf8.PassesIsCharacters | micropython/py/unicode.c:183-209 | the strings that pass are exactly those cut into lead bytes with as many continuation bytes as they ask for |
| ParseNumber.ParseInteger | micropython/py/parsenum.c:49-167 | sign, digit loop and trailing test give the value of the integer or an error |
| ParseNumber.ScanFloat | micropython/py/parsenum.c:219-429 | accepts exactly its syntax: decimal numbers with fraction and exponent, `inf`, `infinity` and `nan` in any case, with a sign and white space around |
| ParseNumber.ScanDecimal | micropython/py/parsenum.c:274-336 | the digit loop takes whole part, fraction and exponent as the grammar of its three states says |
| NumberSyntax.IntegerExactly | micropython/py/parsenum.c:49-167 | exactly which tokens are integers: white space, a sign, digits with underscores, white space; and the value is that of the digits |
| NumberSyntax.FloatExactly | micropython/py/parsenum.c:219-429 | exactly which tokens without letters at the front are floating point numbers: digits, a point with digits, an exponent with a sign, in which almost everything may be missing |
| JsonLoad.JsonStream.Advance | micropython/extmod/modjson.c:137-146 | one byte further in the stream; past the end the cursor stays 0 |
| JsonLoad.ReadString | micropython/extmod/modjson.c:205-251 | reads a string with its escapes; bytes that are not UTF-8 raise UnicodeError |
| JsonLoad.ReadNumber | micropython/extmod/modjson.c:252-281 | takes the longest run of number bytes and converts it: an integer to its value, a float if its syntax is accepted, otherwise ValueError |
| JsonLoad.ReadToken | micropython/extmod/modjson.c:165-309 | one round of the switch |
| JsonLoad.LoadStream | micropython/extmod/modjson.c:148-357 | the imperative loop with its stack, key and containers filled by reference computes the abstract machine; it terminates on every input |
| JsonLoad.JsonStream.constructor | micropython/extmod/modjson.c:149-157 | a stream after its first read |
| JsonLoad.ReadWord | micropython/extmod/modjson.c:174-197 | a keyword is accepted exactly if its remaining letters follow |
| JsonLoad.ReadHex | micropython/extmod/modjson.c:225-231 | four hexadecimal digits, with the bit operations of the source |
| JsonLoad.FinishStream | micropython/extmod/modjson.c:343-356 | accepts exactly one complete object followed by white space only |
| JsonText.Hex4Reads | micropython/extmod/modjson.c:224-232 | a \u escape with digits in either case is read as its code |
| JsonText.EscapesAgree | micropython/extmod/modjson.c:211-219 | the parser gives every one-letter escape the character that section 2.5 of RFC 4627 assigns to it |
| JsonText.ItemsInOrder | micropython/extmod/modjson.c:310-341 | the meaning of a list is the meanings of its items as they are written, from left to right |
| JsonText.LastMemberCounts | micropython/extmod/modjson.c:310-341 | the meaning of an object has exactly the names that are written, each with the value written last |
| JsonText.StringReads | micropython/extmod/modjson.c:205-251 | every writing of a string, with any escapes, is read back byte for byte |
| JsonText.StrPasses | micropython/extmod/modjson.c:245-249 | every string of the grammar passes the check for UTF-8, also when surrogate pairs are split |
| JsonText.NumberReads | micropython/extmod/modjson.c:252-281 | every number of the grammar is read as one token: an integer as its value, others as floats |
| JsonText.ScalarReads | micropython/extmod/modjson.c:174-281 | every writing of a primitive value is read as exactly one token |
| JsonCorrect.DenotesFrame | micropython/extmod/modjson.c:310-341 | an object keeps its meaning while older containers are filled and new ones made |
| JsonCorrect.DenotesOne | micropython/extmod/modjson.c:310-341 | an object stands for one tree only |
| JsonCorrect.ValueLoads | micropython/extmod/modjson.c:165-341 | wherever a value is written inside a container, reading it stores exactly that value there and leaves the rest of the parser state and all older objects as they were |
| JsonCorrect.ItemsLoad | micropython/extmod/modjson.c:148-341 | the same for a list of items, with the list filled in place |
| JsonCorrect.MembersLoad | micropython/extmod/modjson.c:148-341 | the same for the members of an object, later names replacing earlier ones |
| JsonCorrect.DocumentLoads | micropython/extmod/modjson.c:148-357 | every writing of every value, with any legal white space, escapes and UTF-8 text, is parsed to that value without an error (surrogate pairs read half by half) |
| JsonCorrect.RawString | micropython/extmod/modjson.c:205-251 | a string is refused with UnicodeError if and only if its bytes are not UTF-8 |
| JsonLanguage.AcceptedLanguage | micropython/extmod/modjson.c:148-357 | exactly which texts are accepted: with commas, colons and blanks left out, one primitive value, or a well-bracketed sequence in which no list or object stands for a name; either bracket closes, the last may be missing, and a name still waiting for its value passes over to what follows the container it was read in |
| JsonLanguage.RunIsGrammar | micropython/extmod/modjson.c:310-341 | names and values taking turns along the stack of kinds is the nesting that the grammar of the texts describes, closed or left open |
| JsonLanguage.TokenSteps | micropython/extmod/modjson.c:170-341 | what a token does to kinds, stack and waiting name does not depend on any value |
| JsonPairs.StringAsWritten | micropython/extmod/modjson.c:223-235 | a string is read as section 2.5 of RFC 4627 says if and only if it has no surrogate pair |
| JsonPairs.DocumentAsWritten | micropython/extmod/modjson.c:148-357 | a text with distinct names is read as RFC 4627 says if and only if no string or name in it has a surrogate pair |
| JsonPairs.GrinIsSplit | micropython/extmod/modjson.c:223-235 | a concrete string with a pair that is not read as RFC 4627 says |
| AcceptQueue.Listener.Listen | micropython/extmod/modlwip.c:998-1014 | a fresh queue of the capacity that the stored size gives; up to 1 means one slot |
| AcceptQueue.CapacityAsRequested | micropython/extmod/modlwip.c:998-1007 | a listener holds as many connections as requested, and always one, if and only if the backlog fits 8 bits |
| AcceptQueue.Listener.OnConnection | micropython/extmod/modlwip.c:517-551 | a connection joins at the back if there is room, otherwise ERR_BUF is returned; an out-of-memory report changes nothing |
| AcceptQueue.Listener.OnLost | micropython/extmod/modlwip.c:472-505 | a dropped connection leaves the queue wherever it is, the rest keep their order, and the slots stay one contiguous cyclic run |
| AcceptQueue.Listener.Accept | micropython/extmod/modlwip.c:1018-1073 | returns the oldest waiting connection, or waits through network events and then times out, as the queue model says |
| AcceptQueue.RemovalDone | micropython/extmod/modlwip.c:483-505 | shifting the later entries down and clearing the last one is exactly removal from the sequence |
| AcceptQueue.WithoutAt | micropython/extmod/modlwip.c:483-505 | removal takes out the first occurrence and keeps everything before and after it in order |
| AcceptQueue.FifoAlways | micropython/extmod/modlwip.c:472-551 | over every interleaving of arrivals, losses and accepts, connections accepted followed by those queued are the admitted ones not lost while waiting, in order of arrival, and the queue never exceeds its slots |
| AcceptQueue.FifoFromStart | micropython/extmod/modlwip.c:998-1073 | the same from a fresh listener |
| AcceptQueue.AllAdmitted | micropython/extmod/modlwip.c:517-551 | while there is room for all and none is lost, every connection that arrives is accepted or waits, in order of arrival |
| AcceptQueue.TakenAfter | micropython/extmod/modlwip.c:1018-1073 | a waiting accept takes the head of the queue as the network has left it, or leaves it empty |
| AcceptQueue.TakenIsReplayed | micropython/extmod/modlwip.c:1018-1073 | a waiting accept is, in a run, the events of its wait followed by one accept, so the results on runs hold of whole calls |
| AcceptQueue.TakenUntil | micropython/extmod/modlwip.c:1018-1073 | an accept returns after the first poll that leaves a connection, with the oldest; it times out after an expired poll that leaves none, and not before |
| AcceptQueue.Listener.TakeFirst | micropython/extmod/modlwip.c:1068-1073 | hands out the oldest connection and frees its slot |
| AcceptQueue.Listener.On | micropython/extmod/modlwip.c:472-551 | one network event has the effect of the queue model |
| AcceptQueue.Listener.Network | micropython/extmod/modlwip.c:1049-1055 | any sequence of network events during a wait has the effect of the queue model |
| TcpReceive.TcpSocket.OnRecv | micropython/extmod/modlwip.c:554-578 | a delivered chain is appended to the pending bytes, unless the single-buffer build refuses it |
| TcpReceive.TcpSocket.OnError | micropython/extmod/modlwip.c:451-460 | an error drops the pending buffers and becomes the state |
| TcpReceive.TcpSocket.Receive | micropython/extmod/modlwip.c:779-848 | bytes come out once and in order; if any are there or arrive during the wait, some are returned unless an error comes; otherwise the state decides: end of file if the peer has closed, `EAGAIN`, `ETIMEDOUT` or still waiting while the connection is open, `ENOTCONN` if there is none |
| TcpReceive.HeardInOrder | micropython/extmod/modlwip.c:554-578 | without an error everything that arrives is appended in order |
| TcpReceive.HeardState | micropython/extmod/modlwip.c:554-578 | without an error the state tells whether the peer has closed |
| TcpReceive.HeardSingle | micropython/extmod/modlwip.c:554-578 | in the single-buffer build only the first chain gets in |
| TcpReceive.HeardError | micropython/extmod/modlwip.c:451-460 | the first error stays, and nothing is left to read |
| TcpReceive.WaitedUntil | micropython/extmod/modlwip.c:795-801 | a wait ends with the first poll after which there is something to read or the connection is no longer open, and is given up when the timeout has run out before |
| TcpReceive.TakeConserves | micropython/extmod/modlwip.c:822-842 | a read takes the first pending bytes, as many as asked for or as the first buffer still has, and leaves the rest in order |
| TcpReceive.StreamPreserved | micropython/extmod/modlwip.c:554-848 | over every interleaving of deliveries and reads, bytes returned followed by bytes pending are the bytes delivered |
| TcpReceive.ReadsDrain | micropython/extmod/modlwip.c:822-842 | as many positive reads as there are pending bytes return all of them |
| TcpReceive.TcpSocket.Network | micropython/extmod/modlwip.c:795-801 | callbacks during a wait act one after the other as the network model says; nothing is read |
| TcpReceive.TcpSocket.Callback | micropython/extmod/modlwip.c:451-578 | one callback acts as the network model says |
| TcpReceive.TcpSocket.TakeFront | micropython/extmod/modlwip.c:818-847 | copies out of the first buffer and drops it when used up |
| SoftI2c.ParseEvents | micropython/extmod/machine_i2c.c:115-182 | a listener groups START, bytes with their acknowledge and STOP exactly as they were sent |
| SoftI2c.Master.SclRelease | micropython/extmod/machine_i2c.c:52-65 | succeeds exactly when the slave lets go of the clock before the timeout |
| SoftI2c.Master.StartCondition | micropython/extmod/machine_i2c.c:79-89 | a START is heard, and nothing else |
| SoftI2c.Master.StopCondition | micropython/extmod/machine_i2c.c:91-99 | a STOP is heard, and nothing else |
| SoftI2c.Master.WriteByte | micropython/extmod/machine_i2c.c:115-146 | eight bits most significant first and an acknowledge are heard; SDA never moves while SCL is high; the result is the slave's acknowledge |
| SoftI2c.Master.ReadByte | micropython/extmod/machine_i2c.c:151-182 | the byte the slave sends is heard and returned, followed by the planned acknowledge |
| SoftI2c.Master.WriteBuffers | micropython/extmod/machine_i2c.c:207-232 | bytes go out until the first that is not acknowledged; the count is the number before it |
| SoftI2c.Master.ReadBuffers | micropython/extmod/machine_i2c.c:207-217 | the buffers are filled with the slave's bytes, refused where the source plans it |
| SoftI2c.Master.Transfer | micropython/extmod/machine_i2c.c:187-243 | START, address byte, data and STOP as heard on the wire, and the result in every case: acknowledged, no device, or timed out, which happens in the first pulse whose clock is held too long and at no other time |
| SoftI2c.Master.AddressPhase | micropython/extmod/machine_i2c.c:187-204 | START and the address byte, and whether it is acknowledged |
| SoftI2c.Master.WriteTransferHeard | micropython/extmod/machine_i2c.c:187-243 | a complete write to a 7-bit address as any listener decodes it: START, address, the bytes up to the first refused one, STOP |
| SoftI2c.Master.ReadTransferHeard | micropython/extmod/machine_i2c.c:187-243 | a complete read from a 7-bit address as any listener decodes it, if the slaves let go of SDA where the master refuses |
| SoftI2c.NackOnlyFinal | micropython/extmod/machine_i2c.c:207-217 | a read refuses exactly its final byte if and only if the last buffer is not empty or all are empty |
| SoftI2c.PlanIs | micropython/extmod/machine_i2c.c:207-217 | the byte that is refused, if the last buffer is not empty, is the final one; otherwise none is |
| SoftI2c.Master.SclLow | micropython/extmod/machine_i2c.c:48-50 | the clock goes low; a bit is heard if SDA was steady while it was high |
| SoftI2c.Master.SdaSet | micropython/extmod/machine_i2c.c:67-73 | SDA follows the open-drain rule; a change while SCL is high is heard as START or STOP |
| SoftI2c.Master.ClockBit | micropython/extmod/machine_i2c.c:119-132 | one clock pulse carries one bit |
| SoftI2c.Master.ClockOutByte | micropython/extmod/machine_i2c.c:119-145 | the nine pulses of a byte |
| SoftI2c.Master.ClockOutBits | micropython/extmod/machine_i2c.c:119-132 | the eight data pulses of a written byte |
| SoftI2c.Master.ReadBits | micropython/extmod/machine_i2c.c:156-166 | the eight data pulses of a byte that is read |
| SoftI2c.Master.WriteBuffer | micropython/extmod/machine_i2c.c:220-230 | one buffer up to the first byte that is not acknowledged |
| SoftI2c.Master.ReadBuffer | micropython/extmod/machine_i2c.c:212-217 | one buffer; only the last byte of the last buffer is refused |
| SoftI2c.Master.SentUnchanged | micropython/extmod/machine_i2c.c:119-132 | if the slaves leave SDA alone, the byte on the wire is the byte sent |
| SoftI2c.Master.WriteHeard | micropython/extmod/machine_i2c.c:220-230 | a write puts exactly the given bytes on the wire up to the first one refused, and the count is the number before it |
| SoftI2c.Master.AcksCounted | micropython/extmod/machine_i2c.c:220-230 | the slaves acknowledge as many bytes as a write returns, and not the next one |
| SoftI2c.Master.ReadHeard | micropython/extmod/machine_i2c.c:212-217 | a read puts the slave's bytes on the wire, each answered as planned, if the slaves let go of SDA where the master refuses |
| SoftI2c.Master.DataPhase | micropython/extmod/machine_i2c.c:206-232 | the loop over the buffers, both ways: what is heard, and what comes back |
| RingBuffer.Ring.Push | micropython/extmod/machine_i2s.c:145-156 | appends unless size - 1 bytes are held |
| RingBuffer.Ring.Pop | micropython/extmod/machine_i2s.c:158-167 | takes the oldest byte unless empty |
| RingBuffer.Ring.Available | micropython/extmod/machine_i2s.c:177-179 | is the number of bytes held |
| RingBuffer.Ring.Space | micropython/extmod/machine_i2s.c:181-183 | is the number of bytes that can still be pushed |
| RingBuffer.EveryInterleaving | micropython/extmod/machine_i2s.c:132-183 | with push and pop split into single reads and writes, over every interleaving of one producer and one consumer, popped bytes followed by ring contents are the pushed bytes, and data plus space is size - 1 |
| RingBuffer.FromEmpty | micropython/extmod/machine_i2s.c:138-183 | the same from an empty ring of any size, with the ring memory holding exactly the bytes pushed and not yet popped |
| RingBuffer.TestsDecide | micropython/extmod/machine_i2s.c:145-167 | the test of a push or pop goes ahead exactly when there is room, or a byte, and changes nothing otherwise |
| RingBuffer.UndisturbedPush | micropython/extmod/machine_i2s.c:145-156 | a push that nothing comes between appends unless size - 1 bytes are held |
| RingBuffer.UndisturbedPop | micropython/extmod/machine_i2s.c:158-167 | a pop that nothing comes between takes the oldest byte unless there is none |
| RingBuffer.Ring.constructor | micropython/extmod/machine_i2s.c:138-143 | an empty ring |
| I2sTransfer.Rp2MapFits | micropython/ports/rp2/machine_i2s.c:100-105 | each frame map of the rp2 port fills every place of the sample from exactly one frame byte |
| I2sTransfer.I2s.StreamRead | micropython/extmod/machine_i2s.c:525-559 | a read must be a whole number of samples; a started read begins at index 0 |
| I2sTransfer.I2s.StreamWrite | micropython/extmod/machine_i2s.c:573-601 | a write of any size starts at index 0 |
| I2sTransfer.WantedWholeFrames | micropython/extmod/machine_i2s.c:258-281 | the countdown of ring bytes consists of whole frames, so it reaches zero without underflow |
| I2sTransfer.I2s.FillFrame | micropython/extmod/machine_i2s.c:267-280 | one frame: no pop fails, exactly the bytes of one sample are written, and each ring byte that the map does not discard is at its place |
| I2sTransfer.PickedAt | micropython/extmod/machine_i2s.c:269-273 | every byte of a frame that the map does not discard is at its place in the sample |
| I2sTransfer.FormattedKeeps | micropython/extmod/machine_i2s.c:265-281 | ring byte 8k + i is at the place of i in sample k |
| I2sTransfer.I2s.FillStep | micropython/extmod/machine_i2s.c:250-289 | one step moves all wanted bytes or none, oldest first, formatted by the map, and touches nothing beyond the new index; it is the step of the run model |
| I2sTransfer.I2s.CopyStep | micropython/extmod/machine_i2s.c:322-340 | one step pushes exactly the next application bytes or none; no push fails; it is the step of the run model |
| I2sTransfer.RunOrderly | micropython/extmod/machine_i2s.c:250-340 | for reads, whatever the other side offers between steps, the callback is scheduled once, exactly when the last byte has moved |
| I2sTransfer.RunCompletes | micropython/extmod/machine_i2s.c:250-340 | enough offers always finish a read |
| I2sTransfer.SendRunOrderly | micropython/extmod/machine_i2s.c:322-340 | the same for writes of any length |
| I2sTransfer.SendRunCompletes | micropython/extmod/machine_i2s.c:322-340 | enough offers always finish a write of any length |
| I2sTransfer.ReceiveStepKeeps | micropython/extmod/machine_i2s.c:250-289 | a read step on values: bytes moved and bytes in the ring stay the same together, the buffer so far is made from the bytes moved |
| I2sTransfer.I2s.NeededNow | micropython/extmod/machine_i2s.c:258-262 | the block size of a step |
| I2sTransfer.I2s.CopyFrames | micropython/extmod/machine_i2s.c:265-281 | the countdown moves whole frames and ends at exactly zero |
| I2sTransfer.I2s.PushBytes | micropython/extmod/machine_i2s.c:329-332 | no push fails |
| I2sTransfer.FormattedConcat | micropython/extmod/machine_i2s.c:265-281 | frames convert independently of what came before |
| I2sRuns.ReadRunConserves | micropython/extmod/machine_i2s.c:250-289 | over every interleaving of arriving bytes and steps: bytes moved followed by the ring are all bytes there ever were in order, and the buffer so far is made from exactly the bytes moved |
| I2sRuns.ReadDelivers | micropython/extmod/machine_i2s.c:250-289 | a finished read has filled the buffer from the first bytes of the stream, each used once and in order, with one callback |
| I2sRuns.ReadKeepsSamples | micropython/extmod/machine_i2s.c:250-289 | a finished read has used eight bytes of the stream for each sample, and each that the map does not discard is at its place; the rest of the stream is in the ring |
| I2sRuns.Rp2Keeps | micropython/ports/rp2/machine_i2s.c:97-105 | what the rp2 port keeps of a frame of two 32-bit samples: with 16 bits the upper half of a sample, with mono the left one |
| I2sRuns.WriteRunConserves | micropython/extmod/machine_i2s.c:322-340 | over every interleaving of departing bytes and steps, for any length: what left the ring followed by what it holds is what was there followed by exactly the bytes passed over |
| I2sRuns.WriteDelivers | micropython/extmod/machine_i2s.c:322-340 | a finished write has put the whole buffer behind the earlier ring contents, once and in order, with one callback |
| Biphase.BitRunsAreRuns | cat/ir_rx/philips.py:25-41 | bit by bit, two short widths or one long one, is the same waveform as the Manchester levels |
| Philips.TicksDiffIs | micropython/extmod/modtime.c:157-173 | the wrapped microsecond counter gives true intervals below half its period |
| Philips.WalkReads | cat/ir_rx/philips.py:25-41 | following a jittered waveform from the middle of a bit reads off exactly the bits that come next |
| Philips.Rc5RoundTrip | cat/ir_rx/philips.py:15-51 | for every command, address and toggle bit, and edges more than 500 and less than 1334 microseconds apart for one half-bit, 1334 to less than 2100 for two, RC-5 decoding gives the fields back |
| Philips.Rc5Exactly | cat/ir_rx/philips.py:15-51 | RC-5 decodes captured times to a word if and only if there are 14 to 28 and the widths that are looked at spell the word out within those limits |
| Philips.Rc5Errors | cat/ir_rx/philips.py:15-51 | everything else is the error for its cause: too few edges, too many, or a bad width |
| Philips.Rc6RoundTrip | cat/ir_rx/philips.py:63-123 | the same for RC-6 mode 0, with the limits of the header, of the double-width toggle bit and of the data in microseconds |
| Philips.Rc6Exactly | cat/ir_rx/philips.py:63-123 | RC-6 decodes captured times to a word if and only if there are 22 to 44, the header is within its limits, and the widths that are looked at after it spell the word out |
| Philips.Rc6Errors | cat/ir_rx/philips.py:63-123 | everything else is the error for its cause: too few edges, too many, a bad header, or a bad width |
| Philips.IrReceiver.WalkEdges | cat/ir_rx/philips.py:25-41 | the decoder loop computes the walk and never reads past the captured edges |
| Philips.ReportsAreClear | cat/ir_rx/__init__.py:58-63 | whatever was captured, the user callback gets exactly the decoded words with all fields in range, and the error function exactly the errors |
| Philips.IrReceiver.DecodeRc5 | cat/ir_rx/philips.py:15-51 | the report on the captured edges, overrun included; the receiver is ready again |
| Philips.IrReceiver.DecodeRc6 | cat/ir_rx/philips.py:63-123 | the same for RC-6 |
| Philips.IrReceiver.OnEdge | cat/ir_rx/__init__.py:49-56 | edges are recorded in order, the timer is started by the first, one extra edge marks an overrun |
| Philips.Rc5Nominal | cat/ir_rx/philips.py:15-51 | an undisturbed RC-5 transmission at any time is decoded, also while the microsecond counter wraps |
| Philips.Rc6Nominal | cat/ir_rx/philips.py:63-123 | an undisturbed RC-6 transmission at any time is decoded |
| Philips.IrReceiver.constructor | cat/ir_rx/__init__.py:33-46 | room for one edge more than the protocol has |
| HeapQueue.RaiseStep | micropython/extmod/modheapq.c:43-52 | moving a too small item one level up leaves only the next edge up in doubt |
| HeapQueue.SinkAround | micropython/extmod/modheapq.c:60-68 | pulling the smaller child up keeps everything around the hole in order |
| HeapQueue.Heap.SiftDown | micropython/extmod/modheapq.c:41-54 | restores the heap below its start position with the same elements |
| HeapQueue.Heap.SiftUp | micropython/extmod/modheapq.c:56-71 | sinking to a leaf and sifting back restores the heap from its start position on, with the same elements |
| HeapQueue.Heap.Push | micropython/extmod/modheapq.c:73-78 | keeps the heap and adds exactly the item |
| HeapQueue.Heap.Pop | micropython/extmod/modheapq.c:81-94 | keeps the heap, removes exactly the item returned, and no element was smaller; an empty heap is an error |
| HeapQueue.Heap.Heapify | micropython/extmod/modheapq.c:97-103 | any list becomes a heap with the same elements |
| HeapQueue.RootIsMin | micropython/extmod/modheapq.c:86-93 | no element of a heap is smaller than its first |
| HeapQueue.Drain | micropython/extmod/modheapq.c:81-103 | a list that is made into a heap and popped until it is empty comes out sorted, each element once |
| HeapQueue.PopContents | micropython/extmod/modheapq.c:86-89 | taking the last element into the place of the first removes just the first |
| RotaryEncoder.Rotary.ProcessPins | picow/rotary.py:129-170 | one pin change: next state by the table, value by the range mode, and whether listeners are called |
| RotaryEncoder.FullStepNeverDrifts | picow/rotary.py:25-37 | over any walk with bounce the position stays within one detent of four times the count, and is exact at every 11 detent |
| RotaryEncoder.HalfStepNeverDrifts | picow/rotary.py:39-47 | over any walk with bounce the position stays within one quarter turn of twice the count (this table counts the other way) |
| RotaryEncoder.DetentResynchronises | picow/rotary.py:25-47 | from any state, also after `set`, the first 11 detent brings the decoder back into step |
| RotaryEncoder.CountBetweenDetents | picow/rotary.py:25-37 | from any state, in both modes, the count between two 11 detents is the net number of detents between them |
| RotaryEncoder.FreshValue | picow/rotary.py:78-167 | a new encoder whose shaft has been moved to a detent in any way shows its lower bound plus net detents times increment, in each of the three range modes |
| RotaryEncoder.WrapIsResidue | picow/rotary.py:53-60 | `_wrap` is arithmetic modulo the range, for every step size and sign |
| RotaryEncoder.WrapRun | picow/rotary.py:129-167 | in wrap mode the value after any walk is the start plus net count times increment, modulo the range |
| RotaryEncoder.BoundedRun | picow/rotary.py:63-64 | in bounded mode the value never leaves its range, what would goes to the bound, and runs inside it are exact |
| RotaryEncoder.BoundIs | picow/rotary.py:63-64 | inside the range the sum is exact; what goes beyond a bound stops there |
| RotaryEncoder.ComplementIs | picow/rotary.py:134-135 | inverting exchanges the levels of both lines |
| RotaryEncoder.IncrementsAddUp | picow/rotary.py:144-152 | the signed increments of a walk add up to net count times increment |
| Base64.B2aBase64 | micropython/extmod/modbinascii.c:111-170 | the two-pass encoder computes the encoding of section 4 of RFC 4648, with or without newline |
| Base64.A2bBase64 | micropython/extmod/modbinascii.c:68-108 | the shift-register decoder computes the decoding function and writes at most 3/4 of the input length |
| Base64.RoundTrip | micropython/extmod/modbinascii.c:68-170 | decoding an encoding gives the bytes back, for every byte string |
| Base64.ForeignIgnored | micropython/extmod/modbinascii.c:81-92 | characters that are neither in the alphabet nor padding never change the result |
| Base64.NoisyRoundTrip | micropython/extmod/modbinascii.c:68-170 | an encoding still decodes to its data after foreign characters are inserted |
| Base64.SymbolIsLetter | micropython/extmod/modbinascii.c:148-165 | values and characters correspond as table 1 of RFC 4648 says |
| Base64.SextetIsLetter | micropython/extmod/modbinascii.c:41-66 | exactly the characters of the table have values |
| Base64.GroupsAreNumbers | micropython/extmod/modbinascii.c:128-135 | every group of three bytes is one number of 24 bits, written with four characters of the table, six bits each from left to right |
| Base64.EndIsPadded | micropython/extmod/modbinascii.c:136-170 | what is left over is filled up with zero bits to whole characters and with `=` to four; the newline comes last |
| Base64.FirstPass | micropython/extmod/modbinascii.c:126-146 | the first pass writes the six-bit values |
| Base64.StoreGroup | micropython/extmod/modbinascii.c:129-135 | one group of three bytes |
| Base64.InsertForeign | micropython/extmod/modbinascii.c:81-92 | foreign characters inserted between two texts change nothing |
| Base64Texts.DecodedExactly | micropython/extmod/modbinascii.c:68-108 | what any text is decoded to: up to the padding that ends it, the bits of its letters cut into bytes; an error if and only if there is no such padding and a group of four letters is not complete |
| OneWire.StepIsStepBit | micropython/extmod/modonewire.c:133-142 | the masks and shifts are one step of division by x^8 + x^5 + x^4 + 1 |
| OneWire.Crc8 | micropython/extmod/modonewire.c:126-145 | the nested loop computes the checksum of the transmitted bits |
| OneWire.ChecksumLinear | micropython/extmod/modonewire.c:126-145 | the checksum of an XOR of messages is the XOR of their checksums |
| OneWire.ChecksumAppended | micropython/extmod/modonewire.c:126-145 | a message followed by a byte checks to zero if and only if the byte is its checksum |
| OneWire.BurstDetected | micropython/extmod/modonewire.c:126-145 | two messages that differ only inside eight consecutive transmitted bits never have the same checksum |
| OneWire.ChecksumIsRemainder | micropython/extmod/modonewire.c:126-145 | a message followed by a byte is a multiple of x^8 + x^5 + x^4 + 1 in the order of transmission if and only if the byte is its checksum |
| OneWire.AbsorbByte | micropython/extmod/modonewire.c:132-143 | one byte is absorbed least significant bit first |

## Left out

- AcceptQueue.Listener.Listen: requires that a backlog above 1 is not a multiple of 256; the source would then store size 0 and read the array pointer as a waiting connection, which the model does not represent.
- FrameBuffer.FrameBuffer.constructor: requires a geometry whose rows do not overlap and whose pixels are in the buffer, as all drawing operations do. Accepted frames whose bit total wrapped in `size_t`, and those of several rows whose rounded stride was cut to 16 bits, are excluded from drawing; a single such row is represented with the stride before the cut (`FramePaint.AcceptedFits`).
- FrameBuffer.FrameBuffer.GetPixel: works on units, so the byte order of RGB565 words and a trailing odd byte of the buffer are not modelled.
- FrameFill.FillRect: coordinates are unbounded integers; overflow of `x + w` in C is not modelled, nor that of the products in `line` and `poly`.
- PolyFill.Fill: takes the coordinates as values; reading them from an array of any type code is not modelled.
- JsonLoad.LoadStream: a floating point number stays as written once its syntax is accepted; its rounding to a float is not modelled, and neither are read errors of the stream.
- JsonLoad.ReadNumber: the same; integers have their value.
- ParseNumber.ScanFloat: imaginary numbers are left out; they are only accepted where the caller allows complex results, which the JSON parser does not.
- JsonLoad.Advance: dictionary keys of a JSON text are strings; that keys such as 1 and true are equal in Python is not modelled.
- TcpReceive.TcpSocket.Receive: reference counts of packet buffers and the window update are not modelled; UDP, raw sockets, DNS and socket options are left out.
- SoftI2c.Master.Transfer: time only enters as polls of a stretched clock; the delays between edges are not modelled. Buffers are values, filled in as the result.
- RingBuffer.Ring.Push: `size_t` wrap-around is not modelled; sizes are far below it.
- I2sTransfer.I2s.FillStep: only non-blocking mode; the blocking and asyncio copies, DMA and pins are left out. The frame map and the chunk size belong to the port; the map of the rp2 port is checked, any other is assumed to fill each sample exactly.
- HeapQueue.Heap.Push: elements compare by an integer key; comparisons that raise or are inconsistent are not modelled.
- Philips.IrReceiver.DecodeRc5: the block timer and the pin interrupt appear as calls; verbose output is left out.
- RotaryEncoder.Rotary.ProcessPins: listeners are represented by whether they are called; setters other than the constructor are left out.
- Ellipses, `blit`, text drawing, `hline`, `vline` and rectangle outlines of the frame buffer: the last three are calls of `fill_rect`.
- The JSON printer, the heap's Python bindings, hexlify and CRC-32 of `modbinascii.c`.
- Pins, timers, ADC, PWM, UART, USB, Bluetooth, asyncio, hashing, compression, btree and the network drivers: I/O or libraries that are not in the repository.
- The thermostat, lamp, buzzer and display programs: input and output around simple control flow.
