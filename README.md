# TableManager core in Dafny

TableManager reads and writes fixed-layout binary tables. A JSON schema
lists the table's items in order. Each item has a name, a datatype, a
default value, a range and a display type. Every datatype maps to one
`struct` code: unsigned and signed integers, floats, fixed-length strings,
and enumerations stored as integers. A table file is all the items'
values packed back to back in one byte order. Its first 116 bytes are a
header (`8I32s3I40s`) whose last 40 bytes hold the table name.

This project models three parts of the repository.

- **The codec** (`TableDefinition.py`):
  - the item classes: their `mini`/`maxi`, `parse`, `cast`, `display`, size, `encode` and `decode`;
  - the factory that picks an item class by datatype name;
  - the definition that loads a list of items;
  - lookup of an item by name, the default values and the total byte size;
  - encoding and decoding a whole record, and reading the table name from the header.
- **The table object** (`TableObject.py`):
  - the values under a definition and the edited flag;
  - `get` and `set` of one cell;
  - the creation time kept in the "TimeSeconds" and "TimeSubSeconds" fields;
  - the CRC of the payload;
  - encoding and decoding of whole files.
- **The viewer's logic** (`TableViewer.py`):
  - the integer validator of the cell editor;
  - the undo command of one cell edit;
  - the table model's `setData` and `encode`.

The project is split into these modules:

| Module | What it holds |
|---|---|
| `Common` | values, errors, `Result` |
| `Text` | `int()`, `str()`, `hex()`, hexadecimal literals, strip, NUL removal, ASCII UTF-8 |
| `Packing` | `struct` codes, `pack`, `unpack` |
| `Items` | item kinds, the factory, `cast`, `display` and the per-item codec |
| `TableDefinitions` | the schema, whole-record encode/decode, loading |
| `TableObjects` | the table object |
| `TableViewer` | the viewer logic |

Python exceptions become `Err` values of `Result`. Branches whose
behaviour the model does not cover return `Err(NotModelled)`:
- `float()` of non-empty text, or of an integer beyond 2^53;
- `struct` packing of the float codes;
- `eval` of anything but a hexadecimal literal;
- UTF-8 beyond ASCII;
- `getattr` of methods and of `__` names.

The exception is `int()` of text, which answers ValueError for some
inputs Python accepts (see "## Left out").
The `TableDefinition` and `TableObject` classes, the undo command and the
viewer model are Dafny classes with mutable fields. Their methods are
proved against the specification functions of the record codec.

The central results are:

- `TableDefinitions.DecodeEncode`: a record of conforming values encodes, and decoding it gives the same values back. Bytes after the record are ignored (`TableDefinitions.DecodeIgnoresTrailingBytes`).
- `Packing.UnpackPack` and `Packing.PackUnpack`: `pack` and `unpack` of each code are inverse to each other.
- `Items.IntegerEncodeRange`: an integer item encodes exactly the values within its `mini()`..`maxi()`.
- `Items.EnumRoundTrip`: with distinct labels and values, an enumeration's `cast` and `display` invert each other.
- `Items.IntegerCastOfDisplay`: `cast` reads back what `display` shows.
- `TableDefinitions.Load`: loading sets the "NumBytes" default to the record size minus the header, and fails exactly when the loop over the records raises or there is no such item.
- `TableObjects.TableObject.SetCurrentTime`: the stored time reads back through `getTableTime`.

## Model

| member | source | states |
|---|---|---|
| Text.ParseInt | TableDefinition.py:70 | `int()` of text succeeds exactly when the stripped text is an optional sign followed by one or more decimal digits, and gives that numeral's signed value; otherwise ValueError |
| Text.DecimalText | TableDefinition.py:45-46 | `str(n)` of an integer is a minus sign exactly when n is negative, followed by decimal digits |
| Text.HexText | TableDefinition.py:78 | `hex(n)` is `0x` followed by hexadecimal digits, with a leading minus sign when n is negative |
| Text.ParseIntOfDecimalText | TableDefinition.py:70 | `int()` reads back `str(n)` for every integer, negative included |
| Text.DigitsRoundTrip | TableDefinition.py:76-80 | the digits `str`/`hex` print for a non-negative number denote that number in their base |
| Text.DecimalTextIsNotHex | TableDefinition.py:67-70 | `str(n)` is never empty and never starts with `0x`, so `cast` takes the `int()` branch for it |
| Text.EvalHexLiteral | TableDefinition.py:67-68 | a `0x`-prefixed text evaluates exactly when one or more hexadecimal digits follow the prefix; the value is non-negative |
| Text.HexTextEvaluates | TableDefinition.py:67-78 | `hex(n)` of a non-negative number has the `0x` prefix and evaluates back to `n` |
| Text.RemoveNul | TableDefinition.py:157 | the result is no longer than the input and holds no NUL |
| Text.EncodeUtf8 | TableDefinition.py:153 | encoding succeeds exactly for ASCII text, one byte per character holding its code |
| Text.DecodeUtf8 | TableDefinition.py:157 | decoding succeeds exactly when every byte is below 128, one character per byte with that code |
| Text.Utf8RoundTrip | TableDefinition.py:152-157 | decoding the encoding of ASCII text gives the text back |
| Packing.Pack | TableDefinition.py:268 | `struct.pack` of one code succeeds exactly for a non-float code and a value the code accepts (an integer in range, or bytes for `s`); the output is the code's size |
| Packing.Unpack | TableDefinition.py:258 | `struct.unpack` of one code's bytes succeeds exactly for non-float codes |
| Packing.UnpackPack | TableDefinition.py:258-268 | unpacking packed bytes gives the value back, or for `s` the bytes truncated or NUL-padded to the field length |
| Packing.PackUnpack | TableDefinition.py:258-268 | packing unpacked bytes gives the same bytes back, in both byte orders |
| Packing.UnsignedBytes | TableDefinition.py:268 | the bytes of an unsigned field: byte k of the number sits at position k for `<`, and at position w-1-k for `>` |
| Packing.LittleEndianAt | TableDefinition.py:268 | little-endian byte k of a number is (n / 256^k) mod 256 |
| Packing.FromToLittleEndian | TableDefinition.py:268 | reading the little-endian bytes of a number gives the number back |
| Packing.ToFromLittleEndian | TableDefinition.py:258 | writing the number that bytes denote gives the same bytes back |
| Packing.UnpackAll | TableDefinition.py:258 | a buffer whose length differs from the concatenated size raises struct.error; a result has one value per code |
| Packing.UnpackAllAt | TableDefinition.py:276-277 | without float codes the unpack succeeds, and element k is the unpacking of k's own slice of the buffer |
| Packing.TotalSizeAppend | TableDefinition.py:251-252 | the size of concatenated formats is the sum of their sizes |
| Items.ItemSize | TableDefinition.py:30-31 | `bytesSize()` is 1, 2, 4 or 8 bytes by class, and a string item's `length` |
| Items.Mini | TableDefinition.py:54-59 | `mini()` of an integer class is an integer no greater than 0, of a float class a negative float, and None for the other classes |
| Items.Maxi | TableDefinition.py:88-92 | `maxi()` minus `mini()` is 2^(8·size)−1 for every integer class, int8 included; the float classes are symmetric around 0; the other classes give None |
| Items.UnsignedBounds | TableDefinition.py:54-59 | unsigned items range from 0 to 255, 65535, 2^32-1 or 2^64-1, in 1, 2, 4 or 8 bytes |
| Items.LastRegistered | TableDefinition.py:203 | the name-to-class map holds a class with that name, and has no entry exactly when no class has the name |
| Items.RegistryNames | TableDefinition.py:197-203 | no registered class carries a name exactly when the name is outside the ten known datatype names |
| Items.AllKindsRegistered | TableDefinition.py:197-202 | every item class is in the factory list |
| Items.KindOf | TableDefinition.py:205-214 | the factory's class for a name carries that name, is absent exactly for unknown names, and is never the 32-bit enumeration |
| Items.Enum32Shadowed | TableDefinition.py:183-203 | the 32-bit enumeration class is never reachable by name: the 16-bit class registered later under "enum32" replaces it |
| Items.EnumNames | TableDefinition.py:189-203 | "enum32" yields the 16-bit enumeration and "enum16" yields nothing |
| Items.Parse | TableDefinition.py:61-63 | parsing keeps the record's name, datatype, default, description, length, editable flag and display type, gives numeric items the range [mini, maxi], and fails with AttributeError exactly for an enumeration whose range is a list |
| Items.Create | TableDefinition.py:205-214 | an unknown datatype yields None; a created item's datatype is its class's name; failures are AttributeError |
| Items.CastIntegerText | TableDefinition.py:66-72 | empty text gives 0 and every result is an integer; a `0x` literal gives a non-negative number; failure is ValueError from `int()`, or not modelled after a `0x` prefix |
| Items.CastFloat | TableDefinition.py:124-128 | `float()`: empty text gives 0.0; an integer converts exactly when its magnitude is at most 2^53 and is not modelled beyond; every result is a float |
| Items.Cast | TableDefinition.py:65-74 | a value that is not text comes back unchanged for every non-float class, and a string item's value always does; empty text gives 0 for the integer classes and 0.0 for the float classes; a float class converts an integer up to 2^53 exactly; integer and enumeration text casts to an integer; an enumeration's label casts exactly when the dictionary holds it, else KeyError |
| Items.Display | TableDefinition.py:76-80 | a numeric item shows the value itself, or with displaytype "hex" a `0x` text, which succeeds exactly for integers; an enumeration always shows a text; other classes show text, and text unchanged |
| Items.ItemEncode | TableDefinition.py:152-153 | values of non-string items pass unchanged; a string item's value encodes exactly when it is ASCII text, into one byte per character |
| Items.ItemDecode | TableDefinition.py:155-159 | values that are not bytes, and every non-string item's value, pass unchanged; a string item's bytes decode exactly when all are below 128, into NUL-free text no longer than the bytes |
| Items.LookupLabel | TableDefinition.py:173 | the dictionary lookup succeeds exactly when the label is present, gives the value paired with it, and raises KeyError otherwise; a dictionary range holds each label once, as `json.load` leaves it |
| Items.ReverseLookup | TableDefinition.py:169-179 | the reverse map finds a label whose number equals the value, and finds none exactly when no number does |
| Items.EncodeValue | TableDefinition.py:268 | an encoded value is exactly the item's byte size |
| Items.IntegerEncodeRange | TableDefinition.py:264-269 | an integer item encodes an integer exactly when it lies within mini()..maxi(); otherwise it raises struct.error |
| Items.StringRoundTrip | TableDefinition.py:152-158 | ASCII text encodes, and decodes back truncated to the field length with every NUL removed |
| Items.ValueRoundTrip | TableDefinition.py:39-43 | a value that conforms to its item encodes, and decoding the unpacked bytes gives it back |
| Items.IntegerCastOfDecimal | TableDefinition.py:65-74 | an integer item's `cast` of `str(n)` is n |
| Items.IntegerCastOfDisplay | TableDefinition.py:65-80 | `cast` reads back what `display` shows, for hexadecimal and decimal display |
| Items.EnumRoundTrip | TableDefinition.py:167-181 | with distinct labels and values, casting a label gives its value and displaying the value gives the label |
| Items.LabelFindsValue | TableDefinition.py:173 | with distinct labels, looking up a label finds its own value |
| Items.ValueFindsLabel | TableDefinition.py:169 | with distinct values, the reverse map finds the value's own label |
| Items.EnumMisses | TableDefinition.py:171-181 | an absent label fails to cast, and an absent value displays "ERROR" |
| TableDefinitions.HeaderLayout | TableDefinition.py:6 | the header format is 116 bytes, and its thirteenth element, the table name, is 40 bytes at offset 76 |
| TableDefinitions.Formats | TableDefinition.py:256-257 | the record format has one code per item: the item's own code, in order |
| TableDefinitions.BytesSize | TableDefinition.py:251-252 | the sum of the item sizes is at least each item's size |
| TableDefinitions.BytesSizeIsFormatSize | TableDefinition.py:251-258 | the sum of the item sizes is the size of the concatenated format |
| TableDefinitions.BytesSizeOfSameShape | TableDefinition.py:251-252 | items with the same codes have the same total size |
| TableDefinitions.FindIndex | TableDefinition.py:241-243 | the index is the first item with that name; None exactly when no item has it |
| TableDefinitions.FindIndexIgnoresDefaults | TableDefinition.py:241-243 | changing an item's default leaves every lookup by name unchanged |
| TableDefinitions.DefaultValues | TableDefinition.py:248-249 | one value per item: its default, in order |
| TableDefinitions.TableName | TableDefinition.py:238-239 | succeeds exactly when an item is named "TableName" and gives that item's default; otherwise TypeError |
| TableDefinitions.EncodePairs | TableDefinition.py:264-269 | an encoded record is exactly the record's byte size |
| TableDefinitions.EncodePairsOk | TableDefinition.py:264-269 | the record encodes exactly when every item encodes its value |
| TableDefinitions.EncodePairsStops | TableDefinition.py:267-268 | the first item that fails decides the error of the whole record |
| TableDefinitions.EncodeItems | TableDefinition.py:264-269 | encoding pairs items with values and, when they pair up, the output is the record's byte size |
| TableDefinitions.DecodeFields | TableDefinition.py:259-261 | decoding the unpacked fields keeps one value per item |
| TableDefinitions.DecodeFieldsStops | TableDefinition.py:259-261 | the first field that fails decides the error of the whole decode |
| TableDefinitions.DecodeField | TableDefinition.py:259-261 | a field whose item is not of datatype "string", or that is not bytes, passes unchanged; a string item's decoded bytes are NUL-free text |
| TableDefinitions.DecodeFieldOfCoherent | TableDefinition.py:260-261 | for an item whose code matches its class, field decoding is the item's own decode |
| TableDefinitions.DecodeItems | TableDefinition.py:254-262 | a buffer shorter than the record raises struct.error; a decoded record has one value per item |
| TableDefinitions.DecodeIgnoresTrailingBytes | TableDefinition.py:258 | bytes after the record do not change the decoded values |
| TableDefinitions.UnpackEncoded | TableDefinition.py:254-269 | unpacking an encoded record of conforming values gives per item what decoding turns back into the value |
| TableDefinitions.DecodeEncode | TableDefinition.py:254-269 | a record of conforming values encodes, and decoding the encoding gives exactly the values back |
| TableDefinitions.DecodeTableName | TableDefinition.py:271-279 | None exactly for a buffer shorter than the header; otherwise the text of bytes 76..116 with NULs removed, or the decoding error |
| TableDefinitions.LoadRecord | TableDefinition.py:228-230 | None exactly for an unknown datatype; otherwise the factory's item for the datatype, named as the record, whose datatype names its class and whose default is the `cast` of the record's default |
| TableDefinitions.Build | TableDefinition.py:227-231 | the loop keeps at most one item per record, and every item's datatype names its class |
| TableDefinitions.BuildStops | TableDefinition.py:227-231 | after an exception, later records change nothing |
| TableDefinitions.Known | TableDefinition.py:229 | the records the loop keeps all have a known datatype |
| TableDefinitions.BuildKeepsKnown | TableDefinition.py:205-231 | a loop without exceptions yields one item per known record: the factory's item whose default has been passed through `cast` |
| TableDefinitions.SetDefault | TableDefinition.py:234-235 | changing a default leaves the "NumBytes" lookup and the byte size unchanged |
| TableDefinitions.OnlyDefaultChanges | TableDefinition.py:235 | setting one item's default leaves every other field of every item as it was |
| TableDefinitions.Load | TableDefinition.py:227-235 | loading appends the records' items, changing at most defaults; it fails exactly when the loop raises or no item is named "NumBytes", and on success "NumBytes" holds the record size minus the header and every other item keeps its built default |
| TableDefinitions.SetNumBytes | TableDefinition.py:234-235 | only the "NumBytes" default changes: every other item is unchanged; TypeError when no item has that name |
| TableDefinitions.NumBytesFound | TableDefinition.py:234-235 | writing the record size minus 116 into the found item makes "NumBytes" hold it |
| TableDefinitions.TableDefinition.constructor | TableDefinition.py:216-219 | a new definition has no items and no file |
| TableDefinitions.TableDefinition.LoadJSON | TableDefinition.py:221-236 | no name, or an empty one, loads nothing; otherwise the items become those of the load, and the file name is kept only on success |
| TableDefinitions.TableDefinition.AppendRecords | TableDefinition.py:227-231 | the loop appends exactly the loop's items and reports its first exception |
| TableDefinitions.TableDefinition.Encode | TableDefinition.py:264-269 | the loop's result is the record's encoding |
| TableDefinitions.TableDefinition.Decode | TableDefinition.py:254-262 | the result is the record's decoding of the buffer |
| TableDefinitions.TableDefinition.DecodeStrings | TableDefinition.py:259-262 | the loop over the unpacked fields gives their decoding |
| TableObjects.Split | TableObject.py:49-51 | whole seconds and leftover microseconds, in 0..999999, that add up to the elapsed time |
| TableObjects.SplitJoin | TableObject.py:37-51 | splitting a time built from seconds and in-range microseconds gives both back |
| TableObjects.TimeOf | TableObject.py:41-42 | the time is defined exactly when both fields are integers, and is their sum as microseconds |
| TableObjects.Attribute | TableObject.py:58 | "datarange", "defaultvalue", "datatype" and "editable" give the item's own; a name starting with `__` is not modelled; any other unknown name raises AttributeError |
| TableObjects.Payload | TableObject.py:68 | the checksummed bytes are all bytes after the 116-byte header, or none |
| TableObjects.CrcIgnoresHeader | TableObject.py:65-68 | records that differ only in the header have the same CRC |
| TableObjects.TableObject.constructor | TableObject.py:12-19 | a definition's defaults become the values, or an empty definition and no values; not edited, no file |
| TableObjects.TableObject.LoadTableDefinition | TableObject.py:30-32 | the values reset to the new definition's defaults |
| TableObjects.TableObject.Length | TableObject.py:34-35 | the number of values |
| TableObjects.TableObject.TableTime | TableObject.py:37-42 | None exactly unless both time fields are found at non-zero indices; otherwise IndexError when either index is past the values, else the time the two stored values give: their sum as microseconds for integers, TypeError or not modelled otherwise |
| TableObjects.TableObject.SetCurrentTime | TableObject.py:44-51 | writes whole seconds and leftover microseconds into the two fields, so `getTableTime` then gives the elapsed time back; an out-of-range index stops it with IndexError after the fields before it are written |
| TableObjects.TableObject.Get | TableObject.py:53-58 | "value" gives the displayed value of that row; any other column gives the item attribute; a missing row raises IndexError |
| TableObjects.TableObject.Set | TableObject.py:60-63 | marks the table edited, then stores the item's cast of the value, or fails with the cast's error or IndexError and leaves the values unchanged |
| TableObjects.TableObject.Crc | TableObject.py:65-68 | the checksum of the encoded values after the header; fails exactly when encoding fails |
| TableObjects.TableObject.Encode | TableObject.py:70-75 | the values change only as `setCurrentTime` changes them; if that raises, the file is not opened; otherwise encoding succeeds exactly when the stamped record encodes, the file then holds its encoding, the name is recorded and the time fields read back the current time, and a failed encode leaves an empty file and the old name |
| TableObjects.TableObject.DecodeTableName | TableObject.py:77-81 | records the file name and gives the header's table name; the values are untouched |
| TableObjects.TableObject.Decode | TableObject.py:83-87 | records the file name; the values become the decoded record, or stay unchanged on error; a short file raises struct.error |
| TableViewer.IntValidator.Validate | TableViewer.py:12-27 | position 0 or a partial hexadecimal prefix is Intermediate; longer hexadecimal text is Acceptable unchecked; other text is Acceptable exactly when it is an integer within the bounds |
| TableViewer.ValidatedKinds | TableViewer.py:36-47 | the delegate gives the integer validator exactly to the unsigned integer classes, and a combo box to every enumeration |
| TableViewer.ValidatorFor | TableViewer.py:41-45 | an unsigned item's validator has its range [mini(), maxi()], from 0, as bounds |
| TableViewer.AcceptedDecimalEncodes | TableViewer.py:20-27 | decimal text an unsigned item's validator accepts casts to a value the item encodes |
| TableViewer.AcceptedHexMayNotEncode | TableViewer.py:15-19 | "0x100" passes a one-byte unsigned item's validator, casts to 256 and then fails to encode |
| TableViewer.CellEdit.constructor | TableViewer.py:146-151 | the edit keeps the previous value and captures the cell's current value |
| TableViewer.CellEdit.Undo | TableViewer.py:153-155 | the cell gets its previous value back; nothing else changes |
| TableViewer.CellEdit.Redo | TableViewer.py:157-159 | the cell gets its edited value back; nothing else changes |
| TableViewer.TableModel.constructor | TableViewer.py:67-71 | the model holds the table and an empty undo stack |
| TableViewer.TableModel.SetData | TableViewer.py:99-108 | as written: the definition, file name and undo stack stay; the answer is never true; for a valid edit of an existing row the table is marked edited, and the cell gets the cast value (answer False) or stays with the cast's error or IndexError |
| TableViewer.TableModel.SetDataPushing | TableViewer.py:99-108 | corrected: the definition and file name stay; true exactly when the cast succeeds for an existing row, and then the cell holds the cast value and one edit is pushed whose undo restores the previous values; every other outcome matches `SetData` and leaves the stack alone |
| TableViewer.TableModel.Encode | TableViewer.py:140-143 | as written: the call raises TypeError |
| TableViewer.TableModel.EncodeFile | TableViewer.py:140-143 | corrected: the definition stays and the values change only by the time stamp; it succeeds exactly when the stamp and the encoding succeed, and then the file holds the encoding and the table is no longer marked edited; on failure the flag and file name stay, and as in `TableObject.Encode` a failed time stamp writes nothing and raises IndexError, while a failed encoding leaves an empty file and gives the encoding's error |

## Left out

- Float items (`float`, `longfloat`): floats are exact reals, and IEEE rounding is not modelled.
  - `mini`/`maxi` give the largest finite single and double, negated for `mini`.
  - `cast` gives 0.0 for empty text, returns a float unchanged, and converts an integer of magnitude up to 2^53 exactly.
  - `cast` of other text (`float()` parsing) and of larger integers (where `float()` rounds or overflows) gives `Err(NotModelled)`.
  - `struct` packing of the float codes gives `Err(NotModelled)`.
- Enumeration values are integers. A JSON object may map a label to text, a float or a list; `cast` would return such a value and `display` would look it up. Such ranges are not modelled.
- File I/O and JSON parsing:
  - `loadJSON` takes the parsed records;
  - `decode`/`decodeTableName` take the file contents;
  - `encode` returns the bytes the file holds afterwards.
- `crc16arc` is a function parameter of `Crc`. The CRC-16/ARC algorithm is not part of this model.
- `datetime.now()` becomes the parameter `elapsed`: microseconds from the table epoch to now. The datetime range limit (OverflowError) is not modelled.
- `eval` is modelled only for a hexadecimal literal. Any other text after the `0x` prefix gives `Err(NotModelled)`.
- Text.ParseInt: answers ValueError, where Python's `int()` returns a number, for text with underscores between digits (`"1_000"`) or with non-ASCII digits or white space; so `cast` and the validator reject such text.
- `str.lower()` and `str.strip()` are modelled on ASCII characters only.
- UTF-8 encode and decode are modelled for ASCII only. Other text gives `Err(NotModelled)`.
- Lower-casing of the JSON keys in `parse`, and extra keys becoming attributes, are left out. Records arrive already normalised, with the known fields only.
- `getattr` of item methods, of the enumeration's `reverse` map and of names starting with `__` (Python's own attributes) gives `Err(NotModelled)`.
- `str()` of bytes and of floats gives `Err(NotModelled)`.
- Negative row indices are left out: rows are natural numbers.
- `TableDefinition(filename)` loading in its constructor is left out. The constructor makes an empty definition, and `LoadJSON` is called separately.
- `TableDefinition.get`, `info`, `copyText`, `__repr__` and the `crc` attribute are display helpers and are left out.
- `TableManager.py` is not part of this model.
- Qt is left out: widgets, signals such as `dataChanged`, and the editors themselves. Only the delegate's choice of editor is modelled, by `EditorFor`. `QUndoStack.push` calling `redo` is folded into `SetDataPushing`, whose cell is already set.
- The model follows the code as written:
  - an unknown datatype is skipped, not fatal;
  - `findIndex` is case-sensitive, and index 0 counts as "not found" for the time fields;
  - every NUL is removed from a decoded string, not only trailing ones;
  - there are no offsets, partial windows, padding types or datatype synonyms;
  - values need not have as many entries as items (`zip` stops at the shorter);
  - `set` marks the table edited before the cast can fail;
  - `setCurrentTime` may write the seconds field and then fail on the sub-seconds field;
  - the 16-bit enumeration is registered as "enum32".
- Integer `cast` of negative text for an unsigned item succeeds, as the code does. The error surfaces only at `encode`.

## Findings

| source | as written | input that shows it | evidently intended | confidence | as-written member | corrected member |
|---|---|---|---|---|---|---|
| TableViewer.py:104 | `if self.table.set(...)` tests the result of `set`, which returns None | any edit of a valid cell in the edit role: the cell changes but no undo command is pushed and `setData` answers False | push a `CellEdit` and answer True after a successful `set` | not executed | TableViewer.TableModel.SetData | TableViewer.TableModel.SetDataPushing |
| TableViewer.py:141 | `self.table.encode(filename, offset, numbytes)` passes three arguments to a method that takes `filename` and an optional byte order | any call of the model's `encode`: TypeError for too many arguments | save the table under `filename` and clear the edited flag | not executed | TableViewer.TableModel.Encode | TableViewer.TableModel.EncodeFile |
