# video-cleaner-gui: the trailer scanner and remover

video-cleaner-gui finds and removes bytes that have been appended to MP4,
MOV and WMV files. The cleaner sniffs the container family from the first
16 bytes. It then walks the top-level chunks from offset 0: ISO-BMFF boxes
for MP4 and MOV (ISO/IEC 14496-12, sections 4.2 and 4.3), ASF objects for
WMV. Whatever follows the last chunk it can account for is classified in
one of three ways:

- nothing left: the file is clean;
- at most 1000 bytes left: trailing garbage;
- more than 1000 bytes left: a false positive.

The remover rescans the file. When the scan found trailing garbage, it
copies that tail to `<path>.txt` if asked to, and then truncates the file.
The main process turns up to 100 extra bytes into a printable preview
(index.js:186-198). The renderer passes that preview through `escapeHtml`
before putting it in a status tooltip (renderer.js:221-222).

This project models those parts as pure functions over an immutable byte
sequence and proves properties about them.

- `wrappers.dfy`: `Result` and `Option`.
- `bytes.dfy`: zero-filled reads (every read lands in a zero-filled buffer, so bytes past the end of the file read as 0), big- and little-endian integers with their encoders, and Node's `ascii` and `hex` decodings.
- `formats.dfy`: the three formats, `CHUNK_MIN`, `MAX_EXTRA_BYTES` and the sniffer `getFileType`.
- `chunk_header.dfy`: `decodeChunkTypeLength`, plus header encoders as its partner.
- `scanner.dfy`: the loop of `findExtraBytes` as a recursive `Walk` over a `FileView`. A `FileView` is the file's format, size and decoded header at every offset. The scanner also has a declarative partner. `Run` is a contiguous sequence of accepted chunks. `Maximal` says a run cannot be extended. `Classify` is the verdict on the bytes after a run. The central theorem, `WalkFollowsRun`, says the loop returns `Classify` of the maximal run.
- `remover.dfy`: `removeExtraBytes` as a function from a disk state (the file and its sidecar) and the outcome of the two writes to the new disk state and the returned object.
- `escape_html.dfy`: `escapeHtml`, with a per-character reference definition, the set of escaped strings and an unescaper.

### Behaviour worth knowing

- **A false positive stays clean.** A false positive sets `falsePositive` and leaves `isClean` true and `extraBytes` 0 (cleaner.js:86-88). So the two flags can both be true. `Scanner.Walk` and `Scanner.FindExtraBytes` state `falsePositive ==> isClean`.
- **A short tail is never a false positive.** The short-tail branch (cleaner.js:72-76) records the remainder whatever its size. Such a remainder is shorter than `CHUNK_MIN`, so it is at most 23 bytes and always below the 1000-byte threshold.
- **The zero-length break is unreachable.** The `chunkLength === 0` break (cleaner.js:96) never fires, because a zero length has already failed the `< chunkMin` test. `Walk` keeps the branch. `Scanner.WalkStep` shows that every accepted chunk moves the walk on by its length.
- **The ASF prefix is not enough for WMV.** A file with the ASF prefix and `ftyp` at bytes 4..8 is not WMV (`Formats.AsfPrefixWithFtypIsNotWmv`).
- **The remover runs its own scan.** `removeExtraBytes` takes a path and a backup flag, not a scan result. It scans the file itself (cleaner.js:106) and returns that scan with `cleaned` and `backupPath` added.
- **Cleaning does not always leave a clean file.** A rescan after a successful removal finds the file clean when two conditions hold:
  - the run of chunks that is kept covers the first 12 bytes the sniffer reads;
  - every header of the run lies inside its own chunk.

  Under those conditions `Remover.RescanAfterClean` and `Remover.SecondRemovalIsNoOp` prove it. Two lemmas show what happens otherwise:
  - `Remover.CleaningCanLoseTheBrand`: a 12-byte file holding an 8-byte `ftyp` box and its brand has 4 extra bytes. Once they are cut, the brand is read as zero bytes and the file is unsupported.
  - `Remover.CleaningCanCutALargeSize`: a 32-byte file has a 16-byte `ftyp` box, then a box with size field 1 and largesize 12. Its last 4 bytes are extra. Cutting them also cuts the low half of the largesize, which then reads as 0. The rescan rejects the box and reports 12 extra bytes.

## Model

| member | source | states |
|---|---|---|
| Bytes.ReadPadded | cleaner.js:14-15 | a read of n bytes at pos yields exactly n bytes: the file's bytes where they exist, 0 past the end of the file |
| Bytes.BigEndian | cleaner.js:39 | the unsigned big-endian value of an n-byte field is below 256^n |
| Bytes.EncodeBigEndian | cleaner.js:39 | every value below 256^n has an n-byte big-endian encoding that reads back as that value |
| Bytes.EncodeDecodeBigEndian | cleaner.js:39 | a big-endian field is the encoding of its own value, so the reading is injective |
| Bytes.LittleEndian | cleaner.js:37 | the unsigned little-endian value of an n-byte field is below 256^n |
| Bytes.EncodeLittleEndian | cleaner.js:37 | every value below 256^n has an n-byte little-endian encoding that reads back as that value |
| Bytes.EncodeDecodeLittleEndian | cleaner.js:37 | a little-endian field is the encoding of its own value |
| Bytes.AsciiChar | cleaner.js:40 | Node's ascii decoding yields a 7-bit character and keeps every byte below 128 |
| Bytes.Hex | cleaner.js:36 | the hex rendering has two characters per byte |
| Bytes.HexRoundTrip | cleaner.js:36 | the hex rendering of a GUID can be read back, so distinct GUIDs give distinct chunk types |
| Formats.ChunkMin | cleaner.js:4-8 | the minimum chunk size lies between 8 and 24, and is 24 exactly for WMV |
| Formats.GetFileType | cleaner.js:12-30 | the only error is unsupported file type; `ftyp` at bytes 4..8 with an MP4 brand at 8..12 gives MP4 and with the QuickTime brand gives MOV, and MP4 and MOV arise in no other way; WMV means the ASF GUID prefix |
| Formats.SniffReadsTwelveBytes | cleaner.js:14-27 | the sniffer decides on the first 12 bytes only |
| Formats.AsfPrefixWithFtypIsNotWmv | cleaner.js:18-26 | `ftyp` at bytes 4..8 takes precedence over the ASF prefix |
| Formats.AsfPrefixWithoutFtypIsWmv | cleaner.js:25-26 | without `ftyp`, the ASF prefix alone makes a file WMV |
| Formats.UnknownBrandIsUnsupported | cleaner.js:18-29 | an `ftyp` box with an unknown brand is unsupported, even when the ASF prefix is present |
| ChunkHeader.DecodeChunkTypeLength | cleaner.js:32-50 | WMV yields a GUID type and every other format a box type, with the type taken from the right header bytes; lengths fit in 64 bits, and in 32 bits unless the size field is 1 |
| ChunkHeader.HeaderSpan | cleaner.js:35-47 | the decoder looks at between CHUNK_MIN and 24 bytes |
| ChunkHeader.BoxHeaderRoundTrip | cleaner.js:39-40 | a box header with a 32-bit size decodes to its name and size wherever it sits in a file |
| ChunkHeader.LargeBoxHeaderRoundTrip | cleaner.js:42-46 | a box header with size field 1 decodes to the 64-bit largesize at +8, not to 1 or 16 |
| ChunkHeader.ObjectHeaderRoundTrip | cleaner.js:35-37 | an ASF object header decodes to the hex of its GUID and its little-endian size |
| ChunkHeader.LargeSizePastEndReadsZero | cleaner.js:43-45 | a largesize past the end of the file reads as 0 |
| ChunkHeader.HeaderIsLocal | cleaner.js:35-47 | the decoded header depends only on the bytes of its span |
| Scanner.Walk | cleaner.js:69-98 | the loop terminates and keeps format and size; isClean holds exactly when extraBytes is 0; extraBytes is at most 1000 and at most what is left; a false positive keeps isClean |
| Scanner.FindExtraBytes | cleaner.js:52-103 | the scan fails exactly when sniffing fails; on success, isClean holds exactly when extraBytes is 0, extraBytes is at most 1000, and a false positive has 0 extra bytes and stays clean |
| Scanner.RunFacts | cleaner.js:83-98 | chunks of a run are contiguous from the start, each is accepted, and each lies inside the run |
| Scanner.WalkStep | cleaner.js:85-98 | an accepted header is recorded and the walk continues at pos plus its length, which stays within the file |
| Scanner.WalkStop | cleaner.js:69-96 | where no chunk is accepted, the loop returns the classifier's verdict |
| Scanner.WalkFollowsRun | cleaner.js:69-98 | from the head of a maximal run, the loop returns the classifier's verdict on that run |
| Scanner.MaximalRunExists | cleaner.js:69-98 | every file has a maximal run of accepted chunks from any position |
| Scanner.ScanIsClassifiedRun | cleaner.js:52-103 | a scan returns the classifier's verdict on the file's maximal run from offset 0 |
| Scanner.ScanOutcome | cleaner.js:57-98 | clean exactly when the run reaches the end; false positive exactly when more than 1000 bytes are left; otherwise fileSize minus extraBytes is the end of the run; the stopping header is recorded exactly when CHUNK_MIN bytes were left |
| Scanner.ClassifyInventory | cleaner.js:83-98 | the classifier's inventory for a run from offset 0 starts at 0, is contiguous, lies in the file, records the header at each offset, and all but the last entry were accepted |
| Scanner.ScanInventory | cleaner.js:83-98 | the inventory starts at offset 0, is contiguous, lies in the file, records the decoded header at each offset, and all but the last entry were accepted |
| Scanner.WellFormedIsClean | cleaner.js:57-64 | a file tiled exactly by well-formed chunks scans clean with those chunks |
| Scanner.LargeSizeAdvancesByLargeSize | cleaner.js:42-98 | a largesize header is accepted and recorded with the largesize as its length |
| Scanner.RunTransfers | cleaner.js:78-98 | a run depends only on the file size and the headers at its own offsets |
| Scanner.RunSurvivesChangeAfterEnd | cleaner.js:78-98 | a run whose headers fit inside its chunks survives truncation or extension of the file after it |
| Scanner.AppendedTrailer | cleaner.js:85-93 | a file tiled by accepted chunks whose headers lie inside them, with k bytes appended that do not begin an acceptable chunk, reports exactly k extra bytes when k is at most 1000, and a false positive otherwise |
| Remover.RemoveExtraBytes | cleaner.js:105-132 | the returned scan is the remover's own scan of the file; a failed scan is rethrown with nothing written, and any other failure is an I/O failure; any failure keeps the file; it cleans exactly when the scan found extra bytes that are not a false positive and neither write failed; the cleaned file is the old one minus exactly the extra bytes; with backup, file plus sidecar equals the original and the path is `<path>.txt`; without action nothing is written; a failed backup write leaves everything unchanged; once the backup is written the sidecar holds the tail, even if the truncation then fails |
| Remover.RescanAfterClean | cleaner.js:106-126 | when the kept run covers the sniffed prefix and its headers fit, the cleaned file is the run and rescans clean with the same inventory |
| Remover.SecondRemovalIsNoOp | cleaner.js:106-129 | under the same conditions, including a first scan that was a false positive, a second removal writes nothing and reports not cleaned |
| Remover.CleaningCanLoseTheBrand | cleaner.js:18-24 | a 12-byte file holding only an 8-byte `ftyp` header and its brand is cleaned to 8 bytes, which are unsupported |
| Remover.CleaningCanCutALargeSize | cleaner.js:42-45 | a 12-byte largesize box with a 16-byte header has its largesize cut by cleaning, so the rescan finds 12 extra bytes where the first scan found 4 |
| EscapeHtml.ReplaceAll | renderer.js:178 | a replacement with nothing to replace leaves the string unchanged |
| EscapeHtml.ReplaceAllOmits | renderer.js:178 | a character is absent from a replacement's result when the replacement text lacks it and it was the pattern or absent from the input |
| EscapeHtml.ReplaceAllAppend | renderer.js:178 | a global replacement distributes over concatenation |
| EscapeHtml.EscapeHtml | renderer.js:176-183 | the output contains none of `<`, `>`, `"`, `'` |
| EscapeHtml.EscapeChar | renderer.js:178-182 | each character becomes one character if it is not special and a longer entity if it is |
| EscapeHtml.EscapeHtmlOne | renderer.js:177-182 | on one character the chain writes that character's entity: `&` goes first, so later entities are not escaped again |
| EscapeHtml.EscapeHtmlIsEscapeEach | renderer.js:177-182 | the five chained replacements equal the per-character map |
| EscapeHtml.EscapeRoundTrip | renderer.js:177-182 | every output is escaped, with each `&` opening one of the five entities, and unescaping gives the input back |
| EscapeHtml.UnescapeRoundTrip | renderer.js:177-182 | every escaped string is the escaping of its unescaping, so escaping maps onto the escaped strings |
| EscapeHtml.EscapeLength | renderer.js:177-182 | output is never shorter than input; it has the same length, and is the input itself, exactly when nothing needs escaping |
| EscapeHtml.EscapeTwice | renderer.js:177-182 | escaping twice equals escaping once exactly when the input has nothing to escape |

## Left out

- File system effects: opening, reading, stat and closing the file (cleaner.js:13-16, 55, 66, 101) are not modelled. A scan reads an immutable byte sequence and cannot fail with an I/O error.
- Scanner.FindExtraBytes: does not model an I/O error during the scan; only the sniffer's error is reported.
- Remover.RemoveExtraBytes: the default `backupData = true` (cleaner.js:105) is not modelled; the flag is always passed, since the only caller (index.js:245) passes the checkbox value.
- Remover.RemoveExtraBytes: a failing backup write or truncation is a parameter. A failed backup write is modelled as leaving no partial sidecar. The read of the tail is not modelled as failing.
- ChunkHeader.DecodeChunkTypeLength: the length is exact. The source converts it with `Number()`, which rounds 64-bit values above 2^53 to a double.
- Everything else in renderer.js (DOM, drag and drop, `formatFileSize`, `debounce`, IPC) and all of index.js (the Electron shell) are not part of this model.
- Concurrency across files is not modelled; the per-file pipeline is sequential.
