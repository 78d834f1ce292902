# kelondroRow: a fixed-width record codec, modelled and proved in Dafny

This project models the record codec of the kelondro database in
`source/de/anomic/kelondro/kelondroRow.java`. The codec has three parts:

- **Row.** A `kelondroRow` is a schema: an ordered list of fixed-width
  columns. Each column gets a cell offset `colstart[i]`, which is the sum of
  the widths before it. The record size `objectsize` is the sum of all
  widths. A schema can be built from columns, from bare widths, or from a
  structure string such as `<pivot-12>,'=',<UDate-3>,<VDate-3>`. The nickname
  table `nickref` is built lazily.
- **Entry.** A record is a byte buffer of `objectsize` bytes. Its
  constructors start from zeros, from raw bytes, from a slice, from per-cell
  byte arrays, or from the external form `{nick=value,...}`. Its accessors
  read and write one column's cell in place: raw bytes, first byte, string,
  and integer through the column's coder. `toPropertyForm` renders the
  record as `nick=value` text.
- **Big-endian codec.** `long2bytes` and `bytes2long` convert between a Java
  `long` and bytes.

The model keeps the source's imperative form:

- `Row` and `Entry` are classes.
- The schema constructors compute `colstart` in a loop.
- `genNickRef` fills the table in a loop.
- The entry accessors change an `array<int8>` in place.
- `long2bytes`, `bytes2long`, `getColString`, `toPropertyForm` and the
  `Entry(String)` element loop are methods with loops.

Each such method is proved against a specification function. The properties
are proved about those functions:

- the layout invariant;
- the frame of a cell write;
- the big-endian round trip and its order;
- the read-back of string cells;
- the error matrix of the integer accessors;
- the exception cases of `toPropertyForm`;
- the round trip from `toPropertyForm` back through `Entry(String)`.

Java's `byte` is the newtype `int8`. Java's `long` arithmetic is written out
explicitly: `WrapLong` handles the 64-bit wrap-around of `x << 8`, and
`Unsigned` is `0xff & b`. An exception is a `Failure` of a `RowError`.

Where the code does something other than what its names and comments
suggest, the model follows the code:

- **Duplicate nicknames.** `genNickRef` uses `HashMap.put`, so the table
  maps a duplicated nickname to its LAST column, not its first
  (`Layout.NickRefLast`).
- **Unknown nicknames.** `Entry(String)` does not skip an unknown nickname.
  `nickref.get` returns null and the next line dereferences it, so it throws
  (`ExternalUnknownNick`). A value shorter than its cell makes
  `System.arraycopy` throw (`ExternalValueShort`).
- **Pivot marker.** The structure parser skips `p + 5` characters after the
  pivot, which is one more than the 4-character marker `,'='`. So the
  character after the marker (normally a comma) is consumed. When the string
  ends right after the marker, `substring` throws (`StructureTruncated`).
- **Cardinal fields.** In `toPropertyForm`, the cardinal branch appends a
  `byte[]` to a `StringBuffer`. Java prints that as the array's identity, not
  as base-64 text. The model takes that text as the parameter `arrayText`,
  so no round trip is claimed for cardinal columns.

## Model

| member | source | states |
|---|---|---|
| JavaTypes.Unsigned | source/de/anomic/kelondro/kelondroRow.java:430 | `0xff & b` is the byte's value modulo 256, in 0..255 |
| JavaTypes.ToByte | source/de/anomic/kelondro/kelondroRow.java:422 | the `(byte)` cast of `x & 0xFF` reads back unsigned as the same value |
| JavaTypes.WrapLong | source/de/anomic/kelondro/kelondroRow.java:430 | the 64-bit wrap of a value is a `long`, congruent to the value modulo 2^64, and leaves a `long` unchanged |
| JavaTypes.ByteToChar | source/de/anomic/kelondro/kelondroRow.java:382 | `(char) b` sign-extends: the character's code is the byte modulo 2^16, so a negative byte `b` gives `b + 0x10000`, and its low 8 bits are the unsigned byte |
| JavaStrings.IndexOf | source/de/anomic/kelondro/kelondroRow.java:74 | `indexOf` returns an index where the pattern occurs with no earlier occurrence, or -1 when there is none |
| JavaStrings.Split | source/de/anomic/kelondro/kelondroRow.java:194 | `JavaStrings.Split`, the model of `split(",")`, yields at least one element and no element contains the separator |
| JavaStrings.JoinSplit | source/de/anomic/kelondro/kelondroRow.java:194 | joining the elements of a split with the separator gives the original string |
| JavaStrings.SplitJoin | source/de/anomic/kelondro/kelondroRow.java:194 | splitting separator-free elements joined by the separator gives the elements back |
| JavaStrings.Tokens | source/de/anomic/kelondro/kelondroRow.java:86-89 | the `StringTokenizer` tokens are non-empty and contain no delimiter |
| JavaStrings.TokensOfJoin | source/de/anomic/kelondro/kelondroRow.java:86-89 | tokenizing non-empty delimiter-free tokens joined by the delimiter gives the tokens back |
| JavaStrings.Trim | source/de/anomic/kelondro/kelondroRow.java:203 | `trim()` keeps the slice of its input that starts at the first character above U+0020; every character before and after that slice is at or below U+0020, and the slice neither starts nor ends with such a character |
| JavaStrings.Decimal | source/de/anomic/kelondro/kelondroRow.java:59 | the decimal text of `i` in `"col_" + i` is a non-empty string of digits, without a leading zero, whose value is `i` |
| JavaStrings.DecimalInjective | source/de/anomic/kelondro/kelondroRow.java:59 | distinct numbers give distinct `col_` nicknames |
| Layout.CellWithin | source/de/anomic/kelondro/kelondroRow.java:43-63 | under the layout every constructor computes, every cell lies within the record: `colstart[i] + width(i) <= objectsize` |
| Layout.CellsDisjoint | source/de/anomic/kelondro/kelondroRow.java:47-50 | an earlier column's cell ends before a later column's cell starts |
| Layout.LaidAppend | source/de/anomic/kelondro/kelondroRow.java:47-50 | one more turn of the layout loop keeps the offsets prefix sums and the size their total |
| Layout.Fit | source/de/anomic/kelondro/kelondroRow.java:226-237 | a cell value truncated or zero-padded to the width: byte `k` is the value's byte `k` if it has one, else zero |
| Layout.Write | source/de/anomic/kelondro/kelondroRow.java:232 | writing a cell sets exactly its range and leaves every other byte of the buffer unchanged |
| Layout.WriteFrame | source/de/anomic/kelondro/kelondroRow.java:226-237 | writing column `c`'s cell leaves the cell of every other column unchanged |
| Layout.WriteBackUnchanged | source/de/anomic/kelondro/kelondroRow.java:226-237 | `setCol` with the cell's own bytes (`getColBytes`) leaves the record unchanged |
| Layout.FitIdempotent | source/de/anomic/kelondro/kelondroRow.java:226-237 | storing a fitted cell again changes nothing |
| Layout.TrimmedLength | source/de/anomic/kelondro/kelondroRow.java:285 | the length after dropping trailing zero bytes: everything after it is zero and the byte before it is not |
| Layout.TrimmedLengthUnique | source/de/anomic/kelondro/kelondroRow.java:285 | that length is the only one with this property |
| Layout.StringBytes | source/de/anomic/kelondro/kelondroRow.java:280-286 | `getColString` decodes nothing exactly when the cell's first byte is zero or the cell is zero-wide; otherwise it decodes the prefix up to the last non-zero byte, with only zeros after it in the cell, inside the cell and the buffer |
| Layout.ScanIsStringBytes | source/de/anomic/kelondro/kelondroRow.java:284-286 | the backward scan of `getColString` ends at the length `StringBytes` specifies |
| Layout.StringBytesAfterWrite | source/de/anomic/kelondro/kelondroRow.java:226-237 | after `setCol` with non-zero-bounded bytes that fit, the string bytes read back are those bytes; after `setCol(null)` there are none |
| Layout.NickRefKeys | source/de/anomic/kelondro/kelondroRow.java:109-113 | a nickname is in the table exactly when some column has it |
| Layout.NickRefOf | source/de/anomic/kelondro/kelondroRow.java:109-113 | the specification `genNickRef` is proved against (KelondroRow.Row.GenNickRef): the nickname table; NickRefKeys, NickRefLast, NickRefSource and NickRefWithin state its keys, its last-duplicate-wins entries and their bounds |
| Layout.NickRefLast | source/de/anomic/kelondro/kelondroRow.java:112 | a column whose nickname no later column repeats is what the table holds for it, with its offset |
| Layout.NickRefSource | source/de/anomic/kelondro/kelondroRow.java:112 | every table entry is the last column with that nickname and its offset |
| Layout.NickRefWithin | source/de/anomic/kelondro/kelondroRow.java:205 | the cell a table entry names lies within the record |
| Layout.CellsImage | source/de/anomic/kelondro/kelondroRow.java:183-189 | the record built from per-cell arrays has `objectsize` bytes |
| Layout.CellsImageCell | source/de/anomic/kelondro/kelondroRow.java:183-189 | in that record, each column's cell is its array truncated or zero-padded, and zero for a null or missing array |
| BigEndian.Encode | source/de/anomic/kelondro/kelondroRow.java:420-425 | the big-endian image of `x` has `length` bytes |
| BigEndian.Value | source/de/anomic/kelondro/kelondroRow.java:427-432 | the unsigned value of `n` bytes is below 256^n |
| BigEndian.Decode | source/de/anomic/kelondro/kelondroRow.java:427-432 | the shift-and-or accumulation always yields a `long` |
| BigEndian.DecodeIsWrappedValue | source/de/anomic/kelondro/kelondroRow.java:430 | the accumulation equals the unsigned value of the bytes wrapped to 64 bits |
| BigEndian.EncodeValue | source/de/anomic/kelondro/kelondroRow.java:420-425 | the bytes written hold `x` modulo 256^length, negative `x` included |
| BigEndian.RoundTrip | source/de/anomic/kelondro/kelondroRow.java:420-432 | `bytes2long(long2bytes(x))` is `x` modulo 256^length, wrapped to a `long` |
| BigEndian.RoundTripInRange | source/de/anomic/kelondro/kelondroRow.java:420-432 | for a non-negative `x` below 256^length and within `long`, the round trip gives `x` |
| BigEndian.RoundTripLong | source/de/anomic/kelondro/kelondroRow.java:420-432 | with eight or more bytes every `long`, negative ones included, survives the round trip |
| BigEndian.Pow256Split | source/de/anomic/kelondro/kelondroRow.java:420-425 | proof helper for `RoundTripLong`: 256^(a+b) = 256^a · 256^b |
| BigEndian.LexLessAsymmetric | source/de/anomic/kelondro/kelondroRow.java:420-425 | proof helper for `EncodeOrder`: unsigned byte-wise order is asymmetric |
| BigEndian.EncodeMonotone | source/de/anomic/kelondro/kelondroRow.java:420-425 | for values in range, a smaller value encodes to a byte-wise smaller image |
| BigEndian.EncodeOrder | source/de/anomic/kelondro/kelondroRow.java:420-425 | for values in range, the images compare byte-wise exactly as the values do (both directions) |
| BigEndian.Long2Bytes | source/de/anomic/kelondro/kelondroRow.java:420-425 | `long2bytes` throws exactly when `length > 0` and the range leaves the array; otherwise it writes `Encode(x, length)` at `offset` and no byte outside that range changes, and nothing changes for `length <= 0`. When it throws, the in-range bytes it wrote from the top down before reaching index -1 are kept, and nothing else changes |
| BigEndian.Bytes2Long | source/de/anomic/kelondro/kelondroRow.java:427-432 | `bytes2long` returns 0 for `null` or a non-positive length; it throws when the range leaves the array; otherwise it returns `Decode` of the slice |
| Structure.SplitStructure | source/de/anomic/kelondro/kelondroRow.java:74-89 | the structure string fails exactly when its first pivot marker ends it; the pivot holds no marker; the column tokens are non-empty and comma-free |
| Structure.NoMarkerWithoutQuote | source/de/anomic/kelondro/kelondroRow.java:74 | a marker cannot start where the next character is not a quote |
| Structure.ColumnListRoundTrip | source/de/anomic/kelondro/kelondroRow.java:82-89 | a column list of plain tokens holds no marker and tokenizes back into the same tokens |
| Structure.PivotFound | source/de/anomic/kelondro/kelondroRow.java:74-78 | in a rendered structure, the first pivot marker is the one right after the pivot |
| Structure.StructureRoundTrip | source/de/anomic/kelondro/kelondroRow.java:65-107 | parsing the rendering of a plain pivot and column list gives them back |
| Cells.CoderFor | source/de/anomic/kelondro/kelondroRow.java:256-266 | only encoders b256 and b64e select a coder: the natural and the enhanced one respectively |
| Cells.StoreLong | source/de/anomic/kelondro/kelondroRow.java:254-278 | `setColLong` throws exactly for encoders none and bytes (each with its own error); b64e and b256 write the coder's bytes; an unnamed encoder writes nothing |
| Cells.LoadLong | source/de/anomic/kelondro/kelondroRow.java:297-320 | `getColLong` succeeds exactly when a coder is selected and returns its value for the cell; the three failure cases carry their own errors |
| Cells.LongRoundTrip | source/de/anomic/kelondro/kelondroRow.java:254-320 | after a store that writes, the load reads the value back when the coder decodes what it encodes; a throwing store has a throwing load; an unnamed encoder stores nothing and its load throws |
| Cells.DecodeText | source/de/anomic/kelondro/kelondroRow.java:287-294 | a missing or empty charset name uses the platform charset; an unsupported one gives `""` |
| Cells.EncodeText | source/de/anomic/kelondro/kelondroRow.java:243-252 | the bytes `setColString` writes (KelondroRow.Entry.SetColString): the platform charset's bytes without a charset name, the named charset's bytes otherwise, nothing for an unsupported one; TextRoundTrip states that LoadText reads them back |
| Cells.LoadText | source/de/anomic/kelondro/kelondroRow.java:280-295 | `getColString` is `null` exactly when there are no string bytes |
| Cells.TextRoundTrip | source/de/anomic/kelondro/kelondroRow.java:243-295 | `getColString` after `setColString` gives the string back when its bytes fit the cell, are bounded by non-zero bytes and decode back; after `setCol(null)` it gives `null` |
| PropertyForm.Chars | source/de/anomic/kelondro/kelondroRow.java:382 | each cell byte becomes one `(char)` cast character |
| PropertyForm.FieldText | source/de/anomic/kelondro/kelondroRow.java:374-401 | a column throws exactly when it is undefined, boolean, or a cardinal without b64e; it renders a field exactly for binary, string and cardinal columns; a field starts with `nick=` |
| PropertyForm.Fields | source/de/anomic/kelondro/kelondroRow.java:371-402 | the specification of the field loop of `toPropertyForm`: the fields of the first `n` columns, or the first exception; its properties are stated by FieldsFailureSticks, FirstRejectDecides, NoRejectRendersAll and FieldsStep |
| PropertyForm.Render | source/de/anomic/kelondro/kelondroRow.java:367-406 | the specification `toPropertyForm` is proved against (KelondroRow.Entry.ToPropertyForm): the fields joined by commas, in braces if asked for; its exceptions are stated by RenderFails and FirstRejectDecides, its text by RenderDone and TextFields, and its read-back by ExternalForm.PropertyFormRoundTrip |
| PropertyForm.FieldsFailureSticks | source/de/anomic/kelondro/kelondroRow.java:371-401 | once a column throws, later columns do not change the outcome |
| PropertyForm.FirstRejectDecides | source/de/anomic/kelondro/kelondroRow.java:371-401 | the first throwing column's exception is the one raised |
| PropertyForm.NoRejectRendersAll | source/de/anomic/kelondro/kelondroRow.java:371-401 | without a throwing column, rendering succeeds with one field per rendered column |
| PropertyForm.RenderFails | source/de/anomic/kelondro/kelondroRow.java:367-406 | `toPropertyForm` throws exactly when some column throws, or when braces are off and no field is rendered (`charAt(-1)`) |
| PropertyForm.FirstRejected | source/de/anomic/kelondro/kelondroRow.java:371-401 | the first throwing column: it throws and no column before it does |
| PropertyForm.FieldsStep | source/de/anomic/kelondro/kelondroRow.java:371-401 | one loop turn: a throwing field is the result of the whole rendering, else the fields grow by the new field, if any |
| PropertyForm.RenderDone | source/de/anomic/kelondro/kelondroRow.java:403-405 | the buffer after the loop, with a final comma dropped and braces closed, is the rendered record |
| PropertyForm.TerminatedIsJoin | source/de/anomic/kelondro/kelondroRow.java:383-403 | fields each followed by a comma, last comma dropped, are the fields joined by commas |
| ExternalForm.Elements | source/de/anomic/kelondro/kelondroRow.java:193-194 | `""` and `"{"` throw, each with its own error; otherwise there is at least one comma-free element |
| ExternalForm.Assignment | source/de/anomic/kelondro/kelondroRow.java:201-203 | an element assigns nothing exactly when it has no `=` or its first `=` is its first character |
| ExternalForm.Assign | source/de/anomic/kelondro/kelondroRow.java:201-206 | an element throws exactly when it names an unknown nickname or its value is shorter than the cell; otherwise the buffer keeps its size |
| ExternalForm.Assignments | source/de/anomic/kelondro/kelondroRow.java:200-207 | the specification of the element loop of `Entry(String)` (KelondroRow.ApplyElements): the first `n` elements applied in order keep the buffer's size; AssignmentsSucceed states when it throws and AcceptedWrites what each element writes |
| ExternalForm.Parse | source/de/anomic/kelondro/kelondroRow.java:191-208 | the specification `Entry(String)` is proved against (KelondroRow.Entry.FromExternal, KelondroRow.Row.NewEntryFromExternal): the elements applied to a zeroed buffer, or the exception; Elements and AssignmentsSucceed state its exceptions, and PropertyFormRoundTrip and ReadBackAll that it reads the property form back |
| ExternalForm.AssignmentsSucceed | source/de/anomic/kelondro/kelondroRow.java:200-207 | applying the elements succeeds exactly when none of them is rejected |
| ExternalForm.AcceptedWrites | source/de/anomic/kelondro/kelondroRow.java:201-206 | an accepted element copies the first `width` bytes of its trimmed value into the cell its nickname names |
| ExternalForm.PropertyFormRoundTrip | source/de/anomic/kelondro/kelondroRow.java:191-208 | for string and binary columns with distinct plain nicknames and ASCII bytes other than blanks, controls and commas (0x21..0x7F without 0x2C), under an ASCII-compatible charset, `Entry(toPropertyForm(true))` rebuilds the record exactly |
| ExternalForm.ReadBackAll | source/de/anomic/kelondro/kelondroRow.java:191-208 | parsing the braced, comma-joined fields of a record of such ASCII bytes rebuilds it |
| ExternalForm.ReadBackNothing | source/de/anomic/kelondro/kelondroRow.java:191-208 | with no columns, the single empty element leaves the (empty) record as it is |
| ExternalForm.ReadBackFields | source/de/anomic/kelondro/kelondroRow.java:200-207 | applying the fields of a record of such ASCII bytes to a zeroed buffer rebuilds the record |
| ExternalForm.FieldWithoutComma | source/de/anomic/kelondro/kelondroRow.java:380-389 | a field of a plain nickname and such ASCII bytes holds no comma, so the split keeps it whole |
| ExternalForm.TextFields | source/de/anomic/kelondro/kelondroRow.java:371-390 | for string and binary columns, rendering succeeds with field `i` being `nick=` and the cell's characters |
| ExternalForm.ReadBackPrefix | source/de/anomic/kelondro/kelondroRow.java:200-207 | for a record of such ASCII bytes, after the first `n` fields the buffer holds the record's first `n` cells and zeros after them |
| ExternalForm.ReadBackField | source/de/anomic/kelondro/kelondroRow.java:201-206 | a field over such ASCII bytes, read back, writes exactly its column's cell bytes at its offset |
| ExternalForm.FieldAssignment | source/de/anomic/kelondro/kelondroRow.java:201-205 | `nick=value` with a plain nickname assigns the value's bytes to that nickname |
| KelondroRow.ArrayCopy | source/de/anomic/kelondro/kelondroRow.java:172 | `System.arraycopy` writes the source bytes at the target position and nothing else |
| KelondroRow.ZeroDown | source/de/anomic/kelondro/kelondroRow.java:230 | the downward zeroing loop of `setCol` zeroes exactly the range |
| KelondroRow.ZeroUp | source/de/anomic/kelondro/kelondroRow.java:163 | the upward zeroing loop of the constructors zeroes exactly the range |
| KelondroRow.LayOut | source/de/anomic/kelondro/kelondroRow.java:47-50 | the constructor loop yields offsets that are prefix sums of the widths and a size that is their total |
| KelondroRow.WidthColumns | source/de/anomic/kelondro/kelondroRow.java:58-59 | column `i` of `kelondroRow(int[])` is `col_i`, undefined, without encoder, `widths[i]` wide |
| KelondroRow.WidthNicksDistinct | source/de/anomic/kelondro/kelondroRow.java:58-59 | the nicknames of `kelondroRow(int[])` are pairwise distinct, so its nickname table has one entry per column |
| KelondroRow.StructureColumns | source/de/anomic/kelondro/kelondroRow.java:92-105 | the pivot column comes first, then one parsed column per token, in order |
| KelondroRow.SliceRecordAsWritten | source/de/anomic/kelondro/kelondroRow.java:177-181 | the slice constructor as written: defined exactly when the bounds hold and the source array is at least `objectsize` long, and then the record is the bare slice |
| KelondroRow.SliceAsWrittenCounterexample | source/de/anomic/kelondro/kelondroRow.java:177-181 | as written, a 2-byte slice gives a 2-byte record under a 4-byte schema, and a 3-byte array throws |
| KelondroRow.SliceRecord | source/de/anomic/kelondro/kelondroRow.java:177-181 | the corrected slice record has `objectsize` bytes: the slice's bytes, then zeros |
| KelondroRow.SliceRecordParts | source/de/anomic/kelondro/kelondroRow.java:177-181 | the corrected record is the copied prefix of the slice followed by zeros |
| KelondroRow.Row.constructor | source/de/anomic/kelondro/kelondroRow.java:43-52 | `kelondroRow(kelondroColumn[])` keeps the columns, lays them out, and has no table yet |
| KelondroRow.Row.FromWidths | source/de/anomic/kelondro/kelondroRow.java:54-63 | `kelondroRow(int[])` builds the anonymous columns of the widths and lays them out |
| KelondroRow.Row.FromParts | source/de/anomic/kelondro/kelondroRow.java:84-105 | the pivot and the token columns, laid out with the pivot at offset 0 |
| KelondroRow.ParseRow | source/de/anomic/kelondro/kelondroRow.java:65-107 | `kelondroRow(String)` throws exactly when the structure is cut off after its pivot marker; otherwise it builds the columns of the split structure |
| KelondroRow.Row.GenNickRef | source/de/anomic/kelondro/kelondroRow.java:109-113 | the table, once built, is the nickname map of the columns; an existing table is kept |
| KelondroRow.Row.ColumnCount | source/de/anomic/kelondro/kelondroRow.java:115-117 | one offset per column |
| KelondroRow.Row.ObjectSize | source/de/anomic/kelondro/kelondroRow.java:119-121 | the record size is the sum of all widths |
| KelondroRow.Row.Width | source/de/anomic/kelondro/kelondroRow.java:123-125 | the column's width, whose cell lies within the record |
| KelondroRow.Row.Widths | source/de/anomic/kelondro/kelondroRow.java:127-131 | a new array holding every column's width |
| KelondroRow.Row.NewEntry | source/de/anomic/kelondro/kelondroRow.java:133-135 | a new zeroed record of this schema |
| KelondroRow.Row.NewEntryFromBytes | source/de/anomic/kelondro/kelondroRow.java:137-140 | `null` exactly for `null`, else the record over the bytes |
| KelondroRow.Row.NewEntryFromSlice | source/de/anomic/kelondro/kelondroRow.java:142-145 | `null` exactly for `null`, else the corrected slice record |
| KelondroRow.Row.NewEntryFromCells | source/de/anomic/kelondro/kelondroRow.java:147-150 | `null` exactly for `null`, else the record of the cells |
| KelondroRow.Row.NewEntryFromExternal | source/de/anomic/kelondro/kelondroRow.java:152-155 | `null` for `null`; else the parsed record or its exception; the table is built once the form splits |
| KelondroRow.Entry.constructor | source/de/anomic/kelondro/kelondroRow.java:161-164 | a fresh all-zero record of `objectsize` bytes |
| KelondroRow.Entry.FromBytes | source/de/anomic/kelondro/kelondroRow.java:166-175 | the array itself when its length is `objectsize` (an alias), else a fresh copy truncated or zero-padded to it |
| KelondroRow.Entry.FromSlice | source/de/anomic/kelondro/kelondroRow.java:177-181 | corrected: a fresh record of `objectsize` bytes holding the slice, then zeros |
| KelondroRow.CopySlice | source/de/anomic/kelondro/kelondroRow.java:177-181 | the corrected slice constructor's buffer: a new array equal to the slice cut or zero-padded to `objectsize` |
| KelondroRow.Entry.FromCells | source/de/anomic/kelondro/kelondroRow.java:183-189 | a fresh record whose cells are the given arrays truncated or zero-padded, zero for null |
| KelondroRow.Entry.FromExternal | source/de/anomic/kelondro/kelondroRow.java:191-208 | the table is built and the record is the elements applied to a zeroed buffer |
| KelondroRow.ApplyElements | source/de/anomic/kelondro/kelondroRow.java:200-207 | the element loop leaves the buffer that applying all elements specifies |
| KelondroRow.Entry.Bytes | source/de/anomic/kelondro/kelondroRow.java:210-212 | the record's own array, not a copy |
| KelondroRow.Entry.ColumnCount | source/de/anomic/kelondro/kelondroRow.java:214-216 | the schema's column count |
| KelondroRow.Entry.ObjectSize | source/de/anomic/kelondro/kelondroRow.java:218-220 | the schema's size, which is the buffer's length |
| KelondroRow.Entry.IsEmpty | source/de/anomic/kelondro/kelondroRow.java:222-224 | true exactly when the cell's first byte is zero, and then `getColString` reads `null` |
| KelondroRow.Entry.SetCol | source/de/anomic/kelondro/kelondroRow.java:226-237 | the cell becomes the value truncated or zero-padded (all zero for `null`); no other byte changes |
| KelondroRow.StoreCell | source/de/anomic/kelondro/kelondroRow.java:227-236 | the body of `setCol` on the buffer: the fitted value is written at the offset |
| KelondroRow.CopyCell | source/de/anomic/kelondro/kelondroRow.java:231-236 | the non-null case: the copy of the value's prefix and the zero padding give the fitted value |
| KelondroRow.SetColImage | source/de/anomic/kelondro/kelondroRow.java:232-235 | copying the prefix and then zeroing the rest of the cell is writing the fitted value |
| KelondroRow.ZeroedImage | source/de/anomic/kelondro/kelondroRow.java:230 | zeroing the cell is writing the fitted `null` |
| KelondroRow.Entry.SetColByte | source/de/anomic/kelondro/kelondroRow.java:239-241 | only the cell's first byte changes, to the given byte |
| KelondroRow.Entry.SetColString | source/de/anomic/kelondro/kelondroRow.java:243-252 | `setCol` with the string's bytes in the chosen charset; an unsupported charset leaves the record unchanged |
| KelondroRow.Entry.SetColLong | source/de/anomic/kelondro/kelondroRow.java:254-268 | throws exactly where `StoreLong` fails; otherwise the cell holds the coder's bytes, and an unnamed encoder changes nothing |
| KelondroRow.Entry.SetColLongB256 | source/de/anomic/kelondro/kelondroRow.java:270-273 | the cell becomes the natural coder's bytes for the value; nothing else changes |
| KelondroRow.Entry.SetColLongB64E | source/de/anomic/kelondro/kelondroRow.java:275-278 | the cell becomes the enhanced coder's bytes for the value; nothing else changes |
| KelondroRow.Entry.GetColString | source/de/anomic/kelondro/kelondroRow.java:280-295 | the result is `LoadText` of the cell: `null` for a leading zero byte or only zeros, else the decoded bytes up to the last non-zero one |
| KelondroRow.Entry.GetColLong | source/de/anomic/kelondro/kelondroRow.java:297-310 | the result is `LoadLong` of the cell's bytes, with its three exceptions |
| KelondroRow.Entry.GetColLongB256 | source/de/anomic/kelondro/kelondroRow.java:312-315 | the natural coder's value for exactly the cell's bytes |
| KelondroRow.Entry.GetColLongB64E | source/de/anomic/kelondro/kelondroRow.java:317-320 | the enhanced coder's value for exactly the cell's bytes |
| KelondroRow.Entry.GetColByte | source/de/anomic/kelondro/kelondroRow.java:322-324 | the cell's first byte; zero means the string is `null` |
| KelondroRow.Entry.GetColBytes | source/de/anomic/kelondro/kelondroRow.java:326-330 | a fresh array equal to the cell's bytes |
| KelondroRow.Entry.ToPropertyForm | source/de/anomic/kelondro/kelondroRow.java:367-406 | the result is `Render` of the record, whose exceptions and round trip are proved above |
| KelondroRow.FieldLoop | source/de/anomic/kelondro/kelondroRow.java:368-402 | the loop either raises the rendering's exception or leaves the buffer that closes into the rendered record |
| KelondroRow.Field | source/de/anomic/kelondro/kelondroRow.java:372-401 | one turn of the loop computes `FieldText` of the column's cell |
| KelondroRow.AppendCell | source/de/anomic/kelondro/kelondroRow.java:382 | the loop appends each cell byte as a `(char)` |

## Left out

- `htroot/ViewImage.java` is not part of this model. It is an HTTP image
  handler with network, file and AWT I/O.
- `toEncodedBytesForm` is commented out in the source. `toString` is a
  debugging aid built on `getColString`.
- The integer coders `kelondroNaturalOrder` and
  `kelondroBase64Order.enhancedCoder` are not part of this model.
  - They are the function parameters `IntCoder.encodeLong/decodeLong`.
  - Their only assumed property is that an encoding fills exactly its cell.
  - `Cells.LongRoundTrip` assumes that they decode what they encode.
- Charsets (`String.getBytes`, `new String(bytes, enc)`) are the function
  parameters of `Charsets`. An unsupported charset is modelled as `None`.
- `kelondroColumn(String)`, the grammar of one column token, is not part of
  this model. It is the function parameter `parse` of `ParseRow`. That
  parameter always yields a column, so a malformed column token, which
  `kelondroColumn(String)` may reject with an exception, never makes
  KelondroRow.ParseRow fail: ParseRow fails only for the truncated pivot
  marker.
- ExternalForm.PropertyFormRoundTrip claims nothing for records holding
  bytes 0x80..0xFF, blanks, controls or commas. Java's `(char)` cast turns a
  byte of 0x80..0xFF into U+FF80..U+FFFF, which no platform charset encodes
  back to that byte, and blanks and commas are lost to `trim()` and
  `split(",")`. Such records do not come back from the property form.
- In `toPropertyForm`, the cardinal branch's `bytes2long` and
  `encodeLongSmart` are not modelled. Java appends the returned `byte[]`'s
  identity text, which is the parameter `arrayText(i)`.
- The 32-bit `int` arithmetic of `colstart` and `objectsize` is not modelled.
  A schema whose widths sum past 2^31 would overflow in Java.
- Widths are `nat`. A negative width from `kelondroRow(int[])` is not
  modelled.
- Java's `split` drops trailing empty elements. `JavaStrings.Split` keeps
  them. An empty element has no `=` and assigns nothing, so the record built
  is the same.
- `Entry(String)` is modelled on the elements of the form. Every exception it
  can raise is modelled: `charAt(0)`, `substring(1, 0)`, an unknown
  nickname, and a short value.
- The column index is required to be in range (`c < |row.cols|`). Java throws
  `ArrayIndexOutOfBoundsException` otherwise.
- KelondroRow.Entry.IsEmpty, KelondroRow.Entry.SetColByte,
  KelondroRow.Entry.GetColByte and KelondroRow.Entry.GetColString require the
  cell's first byte to exist. A zero-width last column makes Java throw
  there.
- KelondroRow.Entry.FromSlice and KelondroRow.Row.NewEntryFromSlice require
  the slice to lie in the array, where `System.arraycopy` would throw. They
  model the corrected constructor; see Findings.
- The `byte[][]` argument of `Entry(byte[][])` is a sequence of optional
  byte sequences, copied by value.
- The arrays of `Entry(byte[][])` beyond the last column are required to be
  null. Java's `row[i]` throws for them.
- KelondroRow.Entry.FromExternal requires the form to parse. Its exceptions are the `Failure` results of KelondroRow.Row.NewEntryFromExternal.
- KelondroRow.Entry.SetColLong and its variants require the value to be a `long` and the coders to fill exactly the cell.
- Thread safety of the lazily built `nickref` is not modelled.

## Findings

| source | as written | input that shows it | evidently intended | confidence | as-written member | corrected member |
|---|---|---|---|---|---|---|
| source/de/anomic/kelondro/kelondroRow.java:177-181 | `Entry(byte[], start, length)` allocates `length` bytes, not `objectsize`. Its padding loop runs from the source array's length, so it indexes past the new buffer whenever it runs. | objectsize 4, an 8-byte zero array, start 0, length 2: the record has 2 bytes. objectsize 4, a 3-byte array, start 0, length 3: index 3 is out of bounds. | A record of `objectsize` bytes holding the slice truncated or zero-padded, as `Entry(byte[])` does for a whole array. | not executed | KelondroRow.SliceAsWrittenCounterexample | KelondroRow.Entry.FromSlice |
