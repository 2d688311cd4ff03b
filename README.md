# Fixed-width consumer record loader: a Dafny model

`Utilities/bulk_insert.js` is meant to load a flat file of fixed-width
consumer credit records into MySQL. Each record holds three kinds of field:

- a 72-character consumer name;
- a 9-character social security number;
- 200 credit tags of 9 characters each.

The script is unfinished. It is meant to do four things:

- open one database connection and keep it as a singleton;
- read the input file in windows of
  `maxBulkInsertCount * (fixedRowLength + 1)` bytes;
- cut each window into rows of `fixedRowLength + 1` characters, each with
  its absolute line number;
- decode a row into its name, SSN and tag array.

As written, only the first two steps are reached from `main`:

- The slicer `extractRecordsToInsert` (:131) and the decoder
  `getDataObjectFromFixedLengthRecord` (:100) have no call site in the
  file.
- Both read loops (:176-192, :238-254) discard what they read into
  `readBuffer`.
- The file does not even load. Under `'use strict'` (:1), the `let = …` at
  :114 is an early SyntaxError.

This project models each of the four functions as it is evidently meant to
work, and proves what each one guarantees. It does not model a pipeline
joining them, because the source has none.

The model is split into modules:

- `JsText` (`js_text.dfy`) models the JavaScript built-ins the decoder
  rests on: `trim`, `substr`, `Buffer.toString`, the anchored zero-stripping
  `replace` and `parseInt(…, 10)`. Each one is stated against an independent
  characterisation: which characters `trim` removes, which digits
  `parseInt` reads, and when it returns NaN.
- `RecordLayout` (`record_layout.dfy`) holds the field offsets and proves
  that the 200 tag fields tile `[81, 1881)`.
- `RecordDecoder` (`record_decoder.dfy`) models
  `getDataObjectFromFixedLengthRecord`. The tag loop is an imperative
  `for` loop proved against `TagValue`. Lemmas describe what the zero and
  sign stripping does to digit fields.
- `RecordEncoder` (`record_encoder.dfy`) is a reference writer of the
  layout, which the repository does not have. It serves as the decoder's
  partner: decoding an encoded record returns its name, SSN and tags.
- `RecordSlicing` (`record_slicing.dfy`) models `extractRecordsToInsert` as
  a `while` loop over a buffer `array`. It proves the record count, the
  consecutive line numbers and that the records tile the buffer.
- `BulkInsert` (`bulk_insert.dfy`) holds the constants and the
  `getDbConnection` validation cascade. Its `Loader` class owns the
  module-level state `filePosition` and `dbConnection`. The read loop is
  proved to deliver the file's remainder in windows that tile it.

In three places the code is unfinished, and the model follows what it
evidently means:

- **The SSN NaN test.** `ssn.isNaN()` (:108) is taken as `Number.isNaN(ssn)`.
- **The tag array and its contents.** `let = creditTagValues` (:114) is
  taken as a fresh array with `null` in slot 0. Tag `k` is stored in slot
  `k`, where the source drops the value it parses.
- **The two loops.**
  - Neither the slicing loop (:135-139) nor the read loop (:238-254) ever
    advances its cursor. The model advances `startBufferIndex` to
    `endBufferIndex`, and `filePosition` by `bytesRead`.
  - Both loops return what they read, where the source drops it.

The model follows the code in four places where a loader of this kind
might be expected to behave otherwise:

- A tag that does not parse is NaN in its slot, with no warning.
- An empty residual parses to NaN, not to 0.
- A short last read is not an error.
- The row length is 1800 + 1 (:27-28), while the field offsets reach 1881.
  The Python loader documents the 1881-character line
  (Utilities/bulk_insert.py:17-19, :98-99). `StrideCutsLastTags` and
  `StrideCutsTag192` show the consequence.

The regular expression `/^-0{1,7}/` is modelled literally: it removes the
sign together with the zeros, so `-00000012` decodes to 12 and not to -12.
`SignIgnoredAfterZero` and `NegativeDigitFieldValue` state this.

## Model

| member | source | states |
|---|---|---|
| JsText.Substr | Utilities/bulk_insert.js:101 | `substr(start, length)` is the in-range window when it fits, the rest of the string when it overruns, and "" from past the end |
| JsText.BufferSlice | Utilities/bulk_insert.js:138 | `buffer.toString(_, start, end)` is exactly `buffer[start..end]` when the range is inside the buffer, `buffer[start..]` when only `end` overruns it, "" when the clipped range is empty, and never longer than `end - start` or than the buffer |
| JsText.Trim | Utilities/bulk_insert.js:101 | `trim` never lengthens a string; what it removes is characterised by `TrimSpec` and `TrimIsUnique` |
| JsText.ParseInt | Utilities/bulk_insert.js:107 | `parseInt(s, 10)` skips leading whitespace, takes one optional sign, then the longest run of decimal digits, and is NaN when that run is empty; it has no contract of its own, and `ParseIntNaNIff`, `ParseIntOfDigits` and `ParseIntOfSignedDigits` state what it returns |
| JsText.TrimSpec | Utilities/bulk_insert.js:101 | the result of `trim` neither starts nor ends with ECMAScript whitespace, and is empty exactly when every character is whitespace |
| JsText.TrimIsUnique | Utilities/bulk_insert.js:101 | any split of the string into whitespace, a core without whitespace at its ends, and whitespace yields that core as the trim |
| JsText.TrimUnpadded | Utilities/bulk_insert.js:117 | a string with no whitespace at either end is its own trim |
| JsText.TrimIdempotent | Utilities/bulk_insert.js:117 | trimming twice is trimming once |
| JsText.StripLeadingZeros | Utilities/bulk_insert.js:107 | `replace(/^0{1,limit}/, '')` removes a prefix of at most `limit` characters and keeps the rest unchanged |
| JsText.StripLeadingZerosSpec | Utilities/bulk_insert.js:124 | the removed prefix is all zeros, and unless the limit stopped it, what is left does not start with a zero |
| JsText.StripZerosEmptyIff | Utilities/bulk_insert.js:124 | the strip leaves nothing exactly when the string is at most `limit` zeros |
| JsText.StripZerosKeepsDigits | Utilities/bulk_insert.js:124 | stripping zeros from digits leaves digits |
| JsText.StripZerosKeepsValue | Utilities/bulk_insert.js:124 | stripping zeros from digits keeps their decimal value |
| JsText.StripZerosOfDigits | Utilities/bulk_insert.js:107 | stripping keeps digits and their value; it empties the field exactly when the field is at most `limit` zeros |
| JsText.DigitsValueDropZeros | Utilities/bulk_insert.js:124-126 | leading zeros do not change the value of a digit string |
| JsText.AllZerosValue | Utilities/bulk_insert.js:124-126 | a string of zeros is a digit string of value 0 |
| JsText.DigitsValuePositive | Utilities/bulk_insert.js:126 | a digit string that does not start with '0' has a positive value |
| JsText.ParseIntNaNIff | Utilities/bulk_insert.js:107-108 | `parseInt` is NaN if and only if no digit follows the leading whitespace and an optional single sign |
| JsText.ParseIntOfDigits | Utilities/bulk_insert.js:107 | `parseInt` of a non-empty digit string is its decimal value |
| JsText.ParseIntOfDigitString | Utilities/bulk_insert.js:126 | `parseInt` of a digit string is NaN for "" and its decimal value otherwise |
| JsText.ParseIntOfSignedDigits | Utilities/bulk_insert.js:126 | `parseInt` of '-' and digits is NaN for "-" and the negated value otherwise (-0 for zeros) |
| RecordLayout.TagStart | Utilities/bulk_insert.js:116 | `startIndex = (72 + 9) + ((creditTagNumber - 1) * 9)`: every tag field starts after the SSN field and ends by the record width 1881; how the fields abut is `TagFieldsTile` |
| RecordLayout.TagAt | Utilities/bulk_insert.js:116 | every offset in `[81, 1881)` lies in the field of a tag between 1 and 200 |
| RecordLayout.TagFieldsTile | Utilities/bulk_insert.js:116 | tag 1 starts where the SSN ends; each tag starts where the previous one ends; tag 200 ends at 1881; no two tags overlap |
| RecordLayout.TagFieldOfOffsetUnique | Utilities/bulk_insert.js:116 | the tag whose field holds an offset is unique |
| RecordDecoder.RecordName | Utilities/bulk_insert.js:101 | the consumer name, `record.substr(0, 72).trim()`, is at most 72 characters |
| RecordDecoder.SsnResidual | Utilities/bulk_insert.js:107 | the string handed to `parseInt` for the SSN is at most 9 characters |
| RecordDecoder.TagField | Utilities/bulk_insert.js:116-117 | the trimmed field of tag `k` is at most 9 characters |
| RecordDecoder.NormalizeTag | Utilities/bulk_insert.js:118-125 | the sign-dependent normalisation never lengthens the field: it is "0" or the field with a prefix removed |
| RecordDecoder.TagValue | Utilities/bulk_insert.js:116-126 | tag `k`'s value is NaN when its field starts at or after the record's end |
| RecordDecoder.StripNegativeZeros | Utilities/bulk_insert.js:119 | `replace(/^-0{1,7}/, '')` removes a prefix and keeps the rest unchanged |
| RecordDecoder.StripNegativeZerosSpec | Utilities/bulk_insert.js:119 | the match is empty unless the value starts with "-0"; otherwise it is the sign and one to seven zeros, and all the zeros unless seven were taken |
| RecordDecoder.SubstrIsMinus | Utilities/bulk_insert.js:118 | `value.substr(0, 1) === '-'` holds exactly when the value is non-empty and starts with '-' |
| RecordDecoder.DecodeRecord | Utilities/bulk_insert.js:100-129 | one warning exactly when the trimmed name is empty; a fatal `MissingSsn` exactly when `parseInt` of the SSN residual is NaN, equivalently when no digit starts it; otherwise the record has the name, the SSN exactly as `parseInt` returned it (never NaN, -0 kept apart from 0), `null` in slot 0 and tag `k` decoded in slot `k` for every k in 1..200 |
| RecordDecoder.DecodeCreditTags | Utilities/bulk_insert.js:114-128 | the loop builds 201 slots, `null` first and then tag `k` trimmed, normalised and parsed in slot `k` |
| RecordDecoder.StripTagZeros | Utilities/bulk_insert.js:118-125 | the branches compute the sign-dependent normalisation `NormalizeTag` of the trimmed field |
| RecordDecoder.DigitFieldValue | Utilities/bulk_insert.js:107 | a digit field (SSN, or tag without a sign) decodes to its value, except that a field of at most eight zeros becomes "" and NaN |
| RecordDecoder.UnsignedDigitsValue | Utilities/bulk_insert.js:123-126 | an unsigned trimmed digit field takes the `/^0{1,8}/` branch and decodes as above |
| RecordDecoder.NegativeDigitFieldValue | Utilities/bulk_insert.js:118-126 | '-' and digits: NaN for no digits, the negative value when no zero follows the sign, else the non-negative value (or NaN for at most seven zeros); so '-' followed by digits alone never gives -0 |
| RecordDecoder.NormalizeNegativeDigits | Utilities/bulk_insert.js:118-122 | the sign survives the normalisation exactly when no zero follows it; otherwise sign and up to seven zeros are removed |
| RecordDecoder.ZeroFieldDecodesToZero | Utilities/bulk_insert.js:107-126 | nine zeros decode to 0, not NaN, as SSN and as tag |
| RecordDecoder.NegativeZeroFieldDecodesToZero | Utilities/bulk_insert.js:118-126 | '-' and eight zeros decodes to 0 |
| RecordDecoder.SignIgnoredAfterZero | Utilities/bulk_insert.js:118-126 | a negative tag whose digits start with zero decodes to the same non-negative value as the unsigned digits |
| RecordDecoder.TagPastEndIsNaN | Utilities/bulk_insert.js:116-126 | a tag whose field starts at or after the end of the record decodes to NaN |
| RecordDecoder.FieldsAreWindows | Utilities/bulk_insert.js:101-117 | on a record of at least 1881 characters each `substr` is exactly its window |
| RecordDecoder.SameWindow | Utilities/bulk_insert.js:101-117 | records agreeing on their first 1881 characters have equal fields |
| RecordDecoder.DecodeReadsOnlyLayout | Utilities/bulk_insert.js:100-129 | two records that agree on their first 1881 characters decode to the same name, SSN residual and tags |
| RecordEncoder.TagsTextField | Utilities/bulk_insert.js:116 | in the reference writer, field `j` of the tag text is tag `j` zero-padded to 9 digits |
| RecordEncoder.EncodedName | Utilities/bulk_insert.js:101 | the decoder's name window of an encoded record is the space-padded name |
| RecordEncoder.EncodedSsn | Utilities/bulk_insert.js:107 | the decoder's SSN window of an encoded record is the zero-padded SSN |
| RecordEncoder.EncodedTag | Utilities/bulk_insert.js:116-117 | the decoder's window for tag `k` of an encoded record is tag `k` zero-padded |
| RecordEncoder.NameRoundTrip | Utilities/bulk_insert.js:101-106 | a storable name comes back from the decoder unchanged |
| RecordEncoder.PaddedValueDecodes | Utilities/bulk_insert.js:107 | a nine-digit zero-padded value below 10^9 decodes to itself both as SSN and as tag |
| RecordEncoder.SsnRoundTrip | Utilities/bulk_insert.js:107-113 | an SSN below 10^9 comes back as that number, never as NaN |
| RecordEncoder.TagRoundTrip | Utilities/bulk_insert.js:115-126 | tag `k` below 10^9 comes back as tag `k` |
| RecordEncoder.RoundTrip | Utilities/bulk_insert.js:100-129 | decoding an encoded record returns its name, SSN and all 200 tags |
| RecordSlicing.RecordAt | Utilities/bulk_insert.js:136-138 | record `i` is at most one stride long: a full stride when it lies inside the buffer, "" when it starts past the buffer's end |
| RecordSlicing.Slices | Utilities/bulk_insert.js:135-138 | the records the loop is meant to produce: exactly `n` of them, record `i` being `RecordAt(i)` (`SlicesAt`) |
| RecordSlicing.StrideCount | Utilities/bulk_insert.js:135 | the number of strides is the least `n` whose strides reach `dataLength` |
| RecordSlicing.ExtractRecordsToInsert | Utilities/bulk_insert.js:131-140 | the loop yields `StrideCount(dataLength, fixedRowLength + 1)` records, record `i` being the stride at offset `i * (fixedRowLength + 1)`, clipped to the buffer, numbered `startingLineCount + i` |
| RecordSlicing.Offset | Utilities/bulk_insert.js:132-137 | the value of `startBufferIndex` after `i` iterations, built one stride at a time from 0; it has no contract of its own, and `OffsetIsProduct` proves it is `i * stride` |
| RecordSlicing.OffsetIsProduct | Utilities/bulk_insert.js:137 | the stride-by-stride offset is `i * (fixedRowLength + 1)` |
| RecordSlicing.OffsetsIncrease | Utilities/bulk_insert.js:137 | later records start at least one stride later |
| RecordSlicing.StrideCountUnique | Utilities/bulk_insert.js:135 | the record count is the only count with its two bounds |
| RecordSlicing.FullWindowStrides | Utilities/bulk_insert.js:135-137 | a buffer of exactly `count` strides yields exactly `count` records |
| RecordSlicing.SlicesAt | Utilities/bulk_insert.js:136-138 | record `i` is the stride at offset `i * stride`, numbered `startingLineCount + i` |
| RecordSlicing.LineNumbersConsecutive | Utilities/bulk_insert.js:133-136 | each record is numbered one more than the one before it |
| RecordSlicing.SlicesTile | Utilities/bulk_insert.js:135-138 | the records laid end to end are the buffer up to the end of the last stride |
| RecordSlicing.TextsLength | Utilities/bulk_insert.js:137-138 | the records together cover the buffer up to the end of the last stride, or all of the buffer when that stride runs past its end |
| RecordSlicing.LastRecordOverrunsData | Utilities/bulk_insert.js:137-138 | when the buffer holds more than `dataLength` characters and `dataLength` is not a multiple of the stride, the records cover more than `dataLength` characters |
| BulkInsert.Falsy | Utilities/bulk_insert.js:69-78 | the `!host`, `!user`, `!database` and `!password` tests: a parameter that is a string or absent is falsy when it is absent or empty; it has no contract of its own, and `FirstFalsy` and `ConnectionAttempt` are stated over it |
| BulkInsert.FirstFalsy | Utilities/bulk_insert.js:69-82 | the index of the first falsy parameter: all earlier ones are truthy and it is falsy |
| BulkInsert.ConnectionAttempt | Utilities/bulk_insert.js:69-90 | the connection is made exactly when no parameter is falsy; otherwise the error names the first falsy parameter in the order host, user, database, password; the password error carries user, host and database; the connection uses `utf8mb4` |
| BulkInsert.ReadCount | Utilities/bulk_insert.js:239-245 | `readSync` returns at most `length` bytes, 0 exactly at or past the end of file, and less than `length` only at the end of file |
| BulkInsert.ReadSync | Utilities/bulk_insert.js:239-245 | the bytes read are copied to the front of the buffer and the rest of the buffer is left as it was |
| BulkInsert.Chunks | Utilities/bulk_insert.js:238-254 | every window read is non-empty and at most a full window, and all but the last are full |
| BulkInsert.Loader.constructor | Utilities/bulk_insert.js:34-38 | the read window is `maxBulkInsertCount * (fixedRowLength + 1)`, the cursor is at 0 and there is no connection |
| BulkInsert.Loader.GetDbConnection | Utilities/bulk_insert.js:65-98 | an existing connection is returned unchanged whatever the arguments; otherwise the result is `ConnectionAttempt` and a successful connection becomes the singleton |
| BulkInsert.Loader.ReadInputFile | Utilities/bulk_insert.js:236-254 | the reads return the windows `Chunks` of the file from the cursor on and leave the cursor at end of file; a cursor past the end reads nothing |
| BulkInsert.WindowHoldsMaxBulkInsertCount | Utilities/bulk_insert.js:30-34 | the constant `MaxFileLengthToRead` (`maxFileLengthToRead` at :34) is exactly `MaxBulkInsertCount` strides of `FixedRowLength + 1`, and a full read window slices into exactly that many records |
| BulkInsert.ChunksTile | Utilities/bulk_insert.js:238-254 | the windows read, laid end to end, are the file from the cursor on: no byte is skipped or read twice |
| BulkInsert.ChunkCount | Utilities/bulk_insert.js:238-254 | the number of reads with data is the number of windows the remainder occupies |
| BulkInsert.StrideCutsLastTags | Utilities/bulk_insert.js:27-28 | a row of `fixedRowLength + 1` = 1801 characters ends before tag 193 starts (offset 1809, :116), so tags 193 to 200 of every sliced row decode to NaN |
| BulkInsert.StrideCutsTag192 | Utilities/bulk_insert.js:116-117 | tag 192 starts at 1800, so an 1801-character row gives it only its last character; when that is the newline (or any whitespace), `trim` leaves "" and tag 192 is NaN too |

## Left out

- Console, filesystem and database I/O are not modelled. `console.warn` becomes a returned list of warnings. A thrown `Error` becomes a `Result` error. `fs.readSync` is modelled on an in-memory file. `mysql.createConnection` is a value built from its parameters.
- The password prompt (:267-276), command-line option parsing (:40-63) and `main`'s input-file checks (:200-217) depend on the environment and are not modelled.
- Utilities/bulk_insert.py is not part of this model.
- The `max_allowed_packet` raise and restore and the INSERT statement are not in the source's code. Only the two packet-size constants are modelled.
- UTF-8 decoding in `buffer.toString('utf8', …)` is not modelled. Bytes are read as characters, one for one.
- JavaScript strings are UTF-16 code units and Dafny `char`s are Unicode scalar values. The two agree on the characters the layout uses.
- The read loop of `getBulkInsertFunction` (:162-192) duplicates the one in `main` (:224-254) and is modelled once, as `Loader.ReadInputFile`. The callback's `err` handling and debug logging (:151-160) are left out, as is the return of the misspelled `bulkInsertFunction` (:196).
- Opening the input file is not modelled; the file is a parameter of `Loader.ReadInputFile`. The source calls `openSync` (:167, :229) unqualified, which would throw at run time.
- BulkInsert.Loader.GetDbConnection: the `!dbConnection` check after `createConnection` (:92-95) is not modelled. The connection object is never falsy, so that branch cannot run.
- BulkInsert.Loader.ReadInputFile: advances `filePosition` by `bytesRead` and returns the windows. The source advances nothing. On a file at least one window long, every read at position 0 returns a full window, so the loop never ends.
- RecordSlicing.ExtractRecordsToInsert: advances `startBufferIndex` and returns the records. The source never advances it, so it loops forever whenever `dataLength > 0`. Its unused `inputFileName` parameter is dropped.
- RecordDecoder.DecodeRecord: treats `ssn.isNaN()` as `Number.isNaN(ssn)`. It stores tag `k` in slot `k` and returns the record, where the source computes the tags and drops them.
- RecordDecoder.NegativeDigitFieldValue: the claim that the result is never -0 covers only '-' followed by digits. A field whose residual after the strip is '-' then something else still parses to -0; for example `-0-000000` strips to `-000000`.
- JsText.ParseInt: reads radix 10 only, as the source always passes 10. The magnitude is unbounded, while JavaScript numbers lose precision above 2^53; fields of nine digits never reach that.
- RecordEncoder.EncodeRecord: writes only non-negative values. It is a reference for the round trip and has no counterpart in the repository.
- The asynchronous structure (the prompt callback and the connection callback) is not modelled. The steps are sequential methods.
