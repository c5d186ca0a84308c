# logging-tester: annotation extraction and standard comparison

logging-tester is a VS Code extension. It checks that the logging annotations
written in TypeScript sources match a declared list of standard records. A
source file marks an annotation block with `@loggingTester`, followed by
`@key: value` fields, one per line. The extension reads the blocks of every
file into records: one key/value map per block. It then compares these
observed records with the standard records. The verdict is success or failure.
An error is reported for each standard record that is not satisfied, and a
warning for each observed record that no standard record matched.

This project models the core of `src/extension.ts` in Dafny. It has four modules:

- `Wrappers` (wrappers.dfy): an `Option` type.
- `Scan` (scan.dfy): the two fixed regular expressions, written as scanners.
  - The block pattern is `testerContentListOfCurrentFile`.
  - The field pattern is line 69.
  - Each pattern is a greedy run over a character predicate, inside a global-match scan. The scan restarts at the end of each match, or one position further on where nothing matches.
  - In every character class the text ` -_` is the range 0x20..0x5F. Each field class is therefore 0x20..0x7A (`' '`..`'z'`). The block class is the same range plus CR and LF.
  - Without the `u` flag, the `i` flag never maps a non-ASCII character onto an ASCII one. Matching the marker case-insensitively is therefore ASCII lower-casing.
- `Decode` (decode.dfy): the decoding loop of `getTesterListFromFiles`.
  - It drops the leading `@` of a segment and splits the rest on `/[ ]*:[ ]*/`.
  - The split follows the scan of ECMAScript's RegExp split (`SplitScan`). It is proved equal to a declarative, piece-by-piece definition (`Split`).
  - The first two pieces are assigned into the block's record, so a later duplicate key overwrites an earlier one.
  - A record is pushed for each block that has a segment.
  - `BuildRecord` and `ExtractRecords` are the loops, proved against the functions `RecordOfBlock` and `RecordsOf`.
- `Compare` (compare.dfy): `compareWithStandard` and `compareWithStandardList`, as loops over an array of marks.
  - The `isInStandard` property set on each observed record becomes one `bool` per observed record.
  - Errors and warnings are returned as index sequences: standard indices for errors, observed indices for warnings. Errors are all reported before any warning.
  - A standard record is the list of its fields in `Object.keys` order.

Some behaviour of the code differs from what one might expect of the extension. The model follows the code:

- Keys and values are not trimmed on both sides.
  - A key loses only the spaces just before its colon. `@ event: x` gives the key `" event"`.
  - A value loses only the spaces just after the colon, and it ends at the next separator. `@a: b ` gives the value `"b "`.
- Keys and values can be empty: `@a: ` gives the value `""`.
- The first line of a block is itself a field segment when it holds a colon. `@loggingTester @event: login` gives the key `"loggingTester @event"`.
- Blocks written one after another with only block characters between them, such as line breaks, form one block and one record. The block class contains `@`, letters, spaces and line breaks.
- A standard record without fields always passes. So with no observed records, errors are reported only for the standard records that have at least one field (`NothingObserved`).
- A standard record's fields may be found in different observed records (`CrossRecordMatch`).

## Model

| member | source | states |
|---|---|---|
| Scan.BlockMatchAt | src/extension.ts:94 | the block pattern matches at i exactly when the marker, in any case, is at i and a block character follows it; the match ends beyond the marker |
| Scan.BlockSpansFrom | src/extension.ts:94 | every span the global match finds starts with the marker, continues with block characters only and cannot be extended; the spans are in increasing order and do not overlap |
| Scan.Blocks | src/extension.ts:93-95 | one block per span found; every block starts with the marker and all its other characters are block characters |
| Scan.BlocksAreMaximal | src/extension.ts:94 | each block is the text of its span, and the character after it is not a block character |
| Scan.BlockSpansComplete | src/extension.ts:94 | every position where the block pattern matches lies inside a block found from any earlier position: no occurrence is missed |
| Scan.BlocksExistIff | src/extension.ts:93-95 | a text has a block exactly when the marker occurs in it followed by a block character |
| Scan.FieldMatchAt | src/extension.ts:69 | a match starts with `@`, spans at least four characters and ends where the field characters end: the next character, if any, is not a field character |
| Scan.FieldMatchIsLongest | src/extension.ts:69 | the field scanner matches at i exactly when some match of `@`, field characters, `:`, field characters starts at i; it then ends at the longest such match |
| Scan.SegmentSpansFrom | src/extension.ts:69 | every segment span starts with `@`, has a colon with a field character on each side, holds only field characters and cannot be extended; the spans are ordered and disjoint |
| Scan.Segments | src/extension.ts:69 | every segment starts with `@`, holds a colon after it, and contains only field characters, so no CR or LF |
| Scan.SegmentsAreMaximal | src/extension.ts:69 | each segment is the text of its span, and the character after it is not a field character |
| Scan.SegmentSpansComplete | src/extension.ts:69 | every position where the field pattern matches lies inside a segment found from any earlier position |
| Scan.SegmentsOnePerLine | src/extension.ts:69 | in a text made of block characters only, a line break lies between any two segments: each line gives at most one key/value pair |
| Scan.BlocksAreBlockChars | src/extension.ts:94 | every character of every block is a block character, the case-folded marker included |
| Scan.BlockSegmentsOnePerLine | src/extension.ts:66-69 | within every block the extractor returns, a line break lies between any two segments |
| Decode.FindColon | src/extension.ts:73 | the result is the position of the first colon, or none when there is no colon |
| Decode.SplitScan | src/extension.ts:73 | the split built-in's scan always yields at least one piece |
| Decode.ScanWithColon | src/extension.ts:73 | when the text has a colon, the split gives at least two pieces, so key and value are both defined |
| Decode.SplitScanIsSplit | src/extension.ts:73 | the split built-in's scan yields exactly the pieces of the declarative split: the text up to the first separator, then the split of what follows it |
| Decode.DecodeSegment | src/extension.ts:73 | a segment without its `@` has a colon; the key is the text up to the first colon, without the spaces before that colon; the value is the text after the spaces that follow that colon, up to the next separator (the first two pieces of `Split`) |
| Decode.DecodeSegmentFields | src/extension.ts:73 | neither the key nor the value of a segment contains a colon |
| Decode.PieceHasNoColon | src/extension.ts:73 | a piece of the split never contains a colon |
| Decode.Collect | src/extension.ts:74-77 | the keys of the built record are exactly the keys of the segments |
| Decode.CollectLastWins | src/extension.ts:77 | a key maps to the value of its last segment: a later duplicate overwrites an earlier one |
| Decode.CollectDistinctSize | src/extension.ts:77 | n segments with distinct keys build a record of exactly n keys |
| Decode.BuildRecord | src/extension.ts:68-79 | the loop builds no record for a block without segments, and otherwise the record of all its segments' pairs |
| Decode.ExtractRecords | src/extension.ts:66-83 | the list the loop pushes equals the records of the file's blocks, in block order |
| Decode.RecordsOfAppend | src/extension.ts:80-82 | the records of consecutive groups of blocks are the records of each group, in the same order |
| Decode.RecordsOfOne | src/extension.ts:68-82 | a block gives exactly one record when it has at least one segment, and none otherwise |
| Decode.NoMarkerNoRecords | src/extension.ts:94 | a text without the marker gives no record |
| Compare.FalseAt | src/extension.ts:103-107 | the reported indices are positions of false entries, in strictly increasing order |
| Compare.FalseAtExactly | src/extension.ts:103-107 | an index is reported exactly when its entry is false |
| Compare.FalseAtAllFalse | src/extension.ts:103-107 | when every entry is false, every index is reported in order |
| Compare.MarkKey | src/extension.ts:114-121 | the flag is set exactly when some observed record has the key with the standard value; exactly those records get their mark set, and other marks are unchanged |
| Compare.CompareWithStandard | src/extension.ts:111-129 | the result is true for a record without fields and otherwise whether the last field is found; an observed record's mark becomes its old mark or whether it holds some field of the record, so marks are only ever set |
| Compare.CompareWithStandardList | src/extension.ts:97-109 | the result is false for an empty standard list and otherwise the last standard record's result; errors are exactly the standard records whose result is false, in order; warnings are exactly the observed records no standard record marks, in order |
| Compare.WarningsOf | src/extension.ts:103-107 | the warnings are exactly the unmarked observed records, in order |
| Compare.EmptyStandardList | src/extension.ts:97-109 | with no standard records there are no errors and every observed record is warned about |
| Compare.NothingObserved | src/extension.ts:97-129 | with no observed records there are no warnings, and errors are exactly the standard records with at least one field |
| Compare.AllKeysPassLastKey | src/extension.ts:112-124 | a record whose fields are all found passes the comparison as written |
| Compare.CrossRecordMatch | src/extension.ts:112-124 | fields found in two different observed records satisfy one standard record, with no error and no warning |
| Compare.LastKeyOverwrites | src/extension.ts:123 | a record passes although its first field is found nowhere |
| Compare.LastRecordOverwrites | src/extension.ts:101 | the list succeeds although an error is reported for its first record |
| Compare.CompareWithStandardAllKeys | src/extension.ts:112-124 | corrected: a record passes exactly when every field is found; marking is unchanged |
| Compare.CompareWithStandardListAll | src/extension.ts:97-109 | corrected: the list succeeds exactly when it is non-empty and every record passes; errors and warnings are as before, over the corrected results |
| Compare.SucceedsIffNoErrors | src/extension.ts:97-109 | corrected: every standard record passes exactly when no error is reported, so a non-empty list succeeds exactly when no error is reported |

## Left out

- VS Code integration: `activate`, `deactivate`, command registration, `findFiles`, `fs.readFile`, `TextDecoder` and the message calls (src/extension.ts:14-56, 105, 126). These are I/O and user interface. Diagnostics are returned as index sequences instead.
- The Promise and `forEach(async ...)` aggregation over files (src/extension.ts:58-61, 85-87). It is concurrency: it resolves when the last-indexed file finishes reading. The model decodes one file text; the order of records across files is not modelled.
- `JSON.parse` of `logging-tester.json` (src/extension.ts:32). Standard records arrive as string-valued field lists. Non-string JSON values are not modelled; they never equal a decoded value. The `Object.keys` rule that puts integer-like keys first is also not modelled: the field order is given.
- The path filter `/(spec.ts)|(module.ts)/` (src/extension.ts:38), which selects workspace files.
- The `isInStandard` property stored on the record object itself (src/extension.ts:104, 120). Marks live in a separate array, so the model does not capture the collision: an annotation with a literal `isInStandard` key can suppress its own warning or be matched by a standard field of that name.
- Plain-object property semantics of `testerJson[key] = value` (src/extension.ts:77). Records are maps, so a key such as `__proto__` is stored like any other.
- General regular-expression semantics: only the two fixed patterns are modelled, as scanners.
- Text is a sequence of `char`. UTF-16 surrogate pairs are not modelled; they lie outside every character class, so they only end a run.

## Findings

| source | as written | input that shows it | evidently intended | confidence | as-written member | corrected member |
|---|---|---|---|---|---|---|
| src/extension.ts:123 | `res = flag` overwrites the result for every key, so only the last key of a standard record decides it | standard `{event: "login", level: "info"}`, observed `[{level: "info"}]`: the record passes although `event` is found nowhere | the result starts true and is combined with each key's flag by "and": a record passes when every key is found | high; not executed | Compare.CompareWithStandard, Compare.LastKeyOverwrites | Compare.CompareWithStandardAllKeys |
| src/extension.ts:101 | `res = compareRes` overwrites the verdict for every standard record, so only the last record decides it | standards `[{event: "login"}, {level: "info"}]`, observed `[{level: "info"}]`: the run reports success and an error for the first record | a non-empty run succeeds when every standard record passes, which is when no error is reported; an empty standard list stays a failure, as `res` starts false at line 98 | high; not executed | Compare.CompareWithStandardList, Compare.LastRecordOverwrites | Compare.CompareWithStandardListAll, Compare.SucceedsIffNoErrors |
