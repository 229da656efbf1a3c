# File-record codec and incremental hashing run, modelled in Dafny

This project models the core of a small Rust tool that walks a directory and
prints one line per file with its size. With `-h` it also prints each file's
SHA-1 hash. It can load a previous run's output as a cache: a file whose cached
entry has a hash and the file's current size is not hashed again (equal size is
taken to mean unchanged; the content is not compared). A file the hasher cannot
open or read is reported by a message on standard output, and gets no hash.

Two parts of the tool are modelled.

- **The file-record line codec** (`src/fileinfo.rs`).
  - `Display` writes a record as `> <size> | <secs-or-None> | <hash-or-None> | <escaped path>`.
  - The path is written as its UTF-16 code units. `%` becomes `%0025`, and every other unit in `0x20..=0x7F` is written as itself. All remaining units become `%` followed by four lowercase hex digits.
  - `TryFrom<&str>` reads such a line back: `splitn(4, " | ")`, then the unescape loop.
  - A line that does not start with `>` is read in the legacy format `<size> bytes: [<hash> ]<path>`.
- **The hashing run** (`src/main.rs`).
  - `split_line` reads legacy lines.
  - `make_hashes` decides for each file whether a cached hash can be reused.
  - `collector_thread` counts bytes and files and prints each record with `println!` in the legacy layout `{:12} bytes: {hash} {path}`.
  - `load_from` cuts a previous run's output into lines (`BufRead::lines`) and folds `split_line` over them into the cache map.

Modules:

| file | module | what it holds |
|---|---|---|
| `wrappers.dfy` | `Wrappers` | `Option` and `Result` |
| `text.dfy` | `Text` | The string machinery both formats use: Unicode `White_Space` trimming, leftmost-match `split`/`splitn`, `u64` display and parsing (with the optional leading `+`), `{:12}` padding, UTF-16 encoding. `u64` and UTF-16 code units are subset types of `nat`/`int`. |
| `legacy.dfy` | `LegacyLine` | `split_line`, the collector's output line, and the conditions under which one reads back as the other |
| `fileinfo.dfy` | `FileInfoCodec` | The codec as written: the encoder as a function with its loop as a method, the decoder as a function with its loop as a method, and what the decoder does with hex letters, truncated escapes and characters below `'0'` |
| `corrected.dfy` | `CorrectedCodec` | The decoder with hex digits read as hex digits, and the full round trip proved for it |
| `pipeline.dfy` | `Pipeline` | The cache decision, the collector's counter loop and its standard output, `BufRead::lines`, the `load_from` fold, and the two-run property: loading one run's output as the next run's cache reuses every hash |

Modelling choices:

- **Hashing.** `hash_file` is a function parameter `string -> Option<string>`. The lemmas that claim the hasher is not consulted quantify over two different hashers.
- **Decoder failures.** Each failure is a `Result`. `Malformed` is the source's `Err(())`. `ArithmeticPanic` is the panic a debug build raises when `c as u8 - b'0'` goes below zero, or when the `u16` additions of the four nibbles overflow. The decoder has no precondition: every line gets an outcome.
- **Shifts.** The shifts `(n as u16) << k` silently drop the bits above 16, so the model reduces them modulo 2^16.
- **Paths.** A path is the sequence of its UTF-16 code units, and two paths are equal when those sequences are. Rust's `Path` equality compares components instead: `a//b` equals `a/b`, a trailing separator is ignored, and on Windows `\` and `/` separate alike. For the codec's round trips the model's equality is the stricter claim. For the cache keys it is a difference, listed under Left out. A legacy path, which is a Rust `String`, is converted with `Utf16`.
- **Standard output.** The collector's output is one text: each line followed by a newline. `load_from` reads it back through `BufRead::lines`, which also drops a carriage return before a newline.
- **Times and sizes.** Modification times are whole seconds since the Unix epoch, as a `u64`. Sizes are `u64` too.

Behaviour of the code that is easy to misread:

- **Field trimming.** Only the size and time fields are trimmed. The `None` sentinels are matched exactly, the hash is taken as it stands, and the path field is the whole remainder after the third separator, so it may contain `" | "`.
- **Non-hex escapes.** An escape with a character that is not a hex digit does not reliably fail. Depending on the character, the decoder misreads it or panics. Only an escape cut short by the end of the path is rejected.
- **Collector output.** The collector prints legacy-format lines, not current-format ones.
- **Reuse counter.** There is no counter of reused hashes. Hashed bytes are counted by the `previously_known` flag.
- **Cache hits.** A hit needs the cached entry to have a hash, not just a matching size.
- **Failure messages.** `hash_file` reports a file it cannot open or read with `print!` on standard output, with no newline. The message runs into the next line of the collector's output, and `split_line` rejects the joined line.

## Model

| member | source | states |
|---|---|---|
| `Text.TrimStart` | src/main.rs:210 | `trim` drops exactly a leading run of White_Space characters: the result is a suffix, everything dropped is whitespace, and the result does not start with whitespace |
| `Text.TrimEnd` | src/main.rs:210 | the same at the end: a prefix, the dropped tail is whitespace, the result does not end with whitespace |
| `Text.FindFrom` | src/main.rs:208 | the position found is an occurrence of the pattern and no earlier position from the start is one; no result means no occurrence at all |
| `Text.SplitOnce` | src/main.rs:208-213 | `split`/`splitn` at the leftmost separator: a result exists iff the separator occurs, the line is first piece + separator + rest, the first piece holds no separator, and the cut is at the first occurrence |
| `Text.FirstPiece` | src/main.rs:211 | the first piece of `split` is a prefix of the text with no separator in it: the whole text when there is no separator, and otherwise the text up to where the first separator starts (the leftmost occurrence) |
| `Text.Dec` | src/fileinfo.rs:19 | a `u64` is displayed as a non-empty string of decimal digits, denoting the number, with no leading zero |
| `Text.ParseDec` | src/fileinfo.rs:57 | `parse::<u64>` reads back every number that `Display` wrote |
| `Text.ParsePlusDec` | src/fileinfo.rs:57 | `parse::<u64>` also accepts a leading `+` |
| `Text.TrimPaddedDigits` | src/main.rs:210 | leading spaces before a number are removed by `trim`, which leaves the digits |
| `Text.PadLeftShape` | src/main.rs:88-89 | `{:12}` right-aligns: the number is preceded by as many spaces as make it 12 wide, and a longer number is left as it is |
| `Text.CharUnits` | src/fileinfo.rs:35 | a BMP character is one unit equal to its code point; any other character is a high and a low surrogate that together denote it |
| `Text.Utf16Shape` | src/fileinfo.rs:35 | every character yields at least one unit; a string without supplementary characters yields exactly its code points, one per character |
| `LegacyLine.SplitLineAccepts` | src/main.rs:207-211 | `split_line` gives a result iff the line contains " bytes: " and the trimmed text before the first one parses as a `u64` |
| `LegacyLine.SplitLineSound` | src/main.rs:207-217 | the size comes from the text before the first " bytes: ", and hash and path come only from the piece before any second one; so every result satisfies the read-back condition |
| `LegacyLine.PieceIsReadable` | src/main.rs:212-216 | the piece is split at its first space only: hash before it, path after it; with no space the whole piece is the path and there is no hash |
| `LegacyLine.ReadFormatLine` | src/main.rs:87-90 | a line the collector prints reads back through `split_line` as the same path, hash and size when the hash has no space, the path (after the hash's space) holds no " bytes: ", and a hashless path has no space |
| `LegacyLine.ReadPaddedLine` | src/main.rs:207-218 | the same read-back for any padding width of the size field |
| `LegacyLine.PaddedSize` | src/main.rs:88-89 | the padded size field has no `b`, so no separator can start in it, and trims and parses back to the size |
| `LegacyLine.PaddedSizeChars` | src/main.rs:88-89 | the padded size field holds only spaces and digits |
| `LegacyLine.TailReads` | src/main.rs:212-216 | a readable `<hash> <path>` or `<path>` has no " bytes: " and splits at its first space into exactly the hash and path written |
| `LegacyLine.SplitLineShape` | src/main.rs:208-217 | how `split_line` reads `<lead> bytes: <tail>` when the lead has no `b` and the tail no separator: the lead gives the size, and the tail is split at its first space |
| `LegacyLine.ReformatIsStable` | src/main.rs:207-218 | printing what `split_line` read and reading that line again gives the same result |
| `LegacyLine.SplitLineTestWithHash` | src/main.rs:222-223 | the test line with a hash gives the test path, that hash and size 556602 |
| `LegacyLine.SplitLineTestWithoutHash` | src/main.rs:225-226 | the test line without a hash gives the test path, no hash and size 556602 |
| `LegacyLine.SplitLineTestSpaceInPath` | src/main.rs:228-229 | the test line whose path contains a space keeps the space in the path |
| `FileInfoCodec.HexDigit` | src/fileinfo.rs:45 | `{:x}` writes 0-9 as `'0'..'9'` and 10-15 as `'a'..'f'` |
| `FileInfoCodec.Nibbles` | src/fileinfo.rs:45 | the four hex digits of a unit, most significant first, each below 16 and together denoting the unit |
| `FileInfoCodec.PercentHex` | src/fileinfo.rs:38-40 | `%` is written as `%0025`, the same text the general escape gives it |
| `FileInfoCodec.EscapeUnit` | src/fileinfo.rs:38-46 | a unit in `0x20..=0x7F` other than `%` is written as that one character; every other unit as `%` and its four hex digits; every character written is in `0x20..=0x7F` |
| `FileInfoCodec.Escape` | src/fileinfo.rs:37-47 | the escaped path is one character per literal unit and five per escaped unit, all in `0x20..=0x7F` |
| `FileInfoCodec.EscapeSnoc` | src/fileinfo.rs:37-47 | escaping one more unit appends its escape to what was written |
| `FileInfoCodec.WritePath` | src/fileinfo.rs:36-47 | the `for c in pathutf16` loop appends the escape of the whole path to what is already written |
| `FileInfoCodec.Display` | src/fileinfo.rs:17-50 | `fmt` writes `> size | secs-or-None | hash-or-None | ` and then the escaped path |
| `FileInfoCodec.EncodeShape` | src/fileinfo.rs:19-36 | a written line is `>` followed by the four fields, the first three each followed by `" | "` |
| `FileInfoCodec.DigitAsWritten` | src/fileinfo.rs:80 | `c as u8 - b'0'` takes the low byte of the character: it overflows (a debug-build panic) exactly when that byte is below `'0'`, and otherwise the value is below 208 |
| `FileInfoCodec.ReadDigits` | src/fileinfo.rs:80-83 | reading n escape characters succeeds only when n characters remain, and gives n values each below 208 |
| `FileInfoCodec.EscapeValue` | src/fileinfo.rs:80-84 | an escape decodes only when at least four characters follow the `%` |
| `FileInfoCodec.ReadPath` | src/fileinfo.rs:74-92 | the decoder's `loop` over the path characters pushes exactly the units the unescape defines, and stops at the first failing escape |
| `FileInfoCodec.TryFrom` | src/fileinfo.rs:52-127 | `try_from` gives the current-format reading for a line that starts with `>` and the legacy reading otherwise |
| `FileInfoCodec.Misread` | src/fileinfo.rs:80-84 | what the decoder reads back from a written unit: the unit itself when it is literal or its hex form has only decimal digits |
| `FileInfoCodec.DigitOfHexDigit` | src/fileinfo.rs:80 | a written hex digit is read as its value for `0-9` and as its value plus 39 for `a-f` |
| `FileInfoCodec.ReadHexDigits` | src/fileinfo.rs:80-83 | four written hex digits are read, whatever follows them, as their four readings |
| `FileInfoCodec.TopShift` | src/fileinfo.rs:84 | `(n1 as u16) << 12` of a letter's reading loses the bits above 16 |
| `FileInfoCodec.CombineReadings` | src/fileinfo.rs:84 | the checked `u16` sum of four digit readings never overflows |
| `FileInfoCodec.EscapeValueOfHex` | src/fileinfo.rs:79-85 | an escape the encoder wrote never makes the decoder fail or panic; it is read as `Misread` of the unit |
| `FileInfoCodec.UnescapeUnit` | src/fileinfo.rs:76-92 | one written unit followed by more text is read as `Misread` of the unit followed by the reading of the rest |
| `FileInfoCodec.UnescapeEscape` | src/fileinfo.rs:76-92 | every escaped path is read back without error, unit by unit, as `Misread` of each unit |
| `FileInfoCodec.MisreadExactly` | src/fileinfo.rs:80-84 | a unit is read back as itself iff it is literal or its hex form has no letter |
| `FileInfoCodec.BarFreeIsFieldSafe` | src/fileinfo.rs:56 | a field without `|` ends where it was written to end under `splitn(4, " | ")` |
| `FileInfoCodec.SplitAtField` | src/fileinfo.rs:56 | the first `" | "` after a safe field is the separator written after it |
| `FileInfoCodec.FieldsOfFour` | src/fileinfo.rs:56-72 | four fields, the first three safe and the first two valid, are split and parsed back to size, time, hash and the raw path |
| `FileInfoCodec.DecField` | src/fileinfo.rs:57-61 | a displayed number, with or without the space the encoder puts before the size, is a safe field that trims and parses back to itself and is not `None` |
| `FileInfoCodec.ModifiedFieldReads` | src/fileinfo.rs:58-68 | the time field reads back as the time, or as no time from the exact sentinel `None` |
| `FileInfoCodec.HashFieldReads` | src/fileinfo.rs:69-72 | the hash field reads back as the hash when the hash is safe and not `None` |
| `FileInfoCodec.FieldsOfEncoded` | src/fileinfo.rs:55-73 | a written line starts with `>` and its fields are read back as size, time, hash and the escaped path |
| `FileInfoCodec.FieldsSound` | src/fileinfo.rs:56-73 | an accepted line has three separator-free fields each followed by `" | "`, a trimmed `u64` size, an exact `None` or trimmed `u64` time, and an exact `None` or literal hash; the path keeps any later separators |
| `FileInfoCodec.DecodeEncodeAsWritten` | src/fileinfo.rs:52-102 | decoding a written line gives the record back, except that every path unit is replaced by its `Misread` |
| `FileInfoCodec.DecodeEncode` | src/fileinfo.rs:162-168 | the round trip the tests exercise: a record whose hash is safe and not `None` and whose escaped units have decimal-only hex forms is decoded back to itself |
| `FileInfoCodec.MisreadE9` | src/fileinfo.rs:80-84 | U+00E9 is written with hex digits `00e9` and read back as 0x359 |
| `FileInfoCodec.AsWrittenMisreadsLetters` | src/fileinfo.rs:80-84 | a record with path U+00E9 is written as `%00e9` and decoded with path U+0359 instead |
| `FileInfoCodec.HashNamedNoneIsLost` | src/fileinfo.rs:69-72 | a record whose hash is the text `None` is decoded without a hash |
| `FileInfoCodec.TruncatedEscapeRejected` | src/fileinfo.rs:80-83 | after any path prefix that decodes, a `%` followed by fewer than four characters, none with a low byte below `'0'`, at the end of the path is rejected (`ok_or(())?`); a lower character panics first (`EscapeBelowZeroPanics`) |
| `FileInfoCodec.EscapeBelowZeroPanics` | src/fileinfo.rs:80-83 | after any path prefix that decodes, an escape whose first, second, third or fourth character has a low byte below `'0'` (those before it being at or above `'0'`) makes the decoder panic |
| `FileInfoCodec.UnescapeConcat` | src/fileinfo.rs:76-92 | a path prefix that decodes without error is decoded the same whatever follows it |
| `FileInfoCodec.ReadDigitsExtend` | src/fileinfo.rs:80-83 | an escape reads only the four characters after its `%` |
| `FileInfoCodec.WideCharTruncated` | src/fileinfo.rs:87 | outside escapes a character is kept as its code point cut to 16 bits (`c as u16`), and the rest is decoded on its own |
| `FileInfoCodec.FormatChoice` | src/fileinfo.rs:55-104 | a line starting with `>` is read in the current format from its second character on; every other line is read in the legacy format and never carries a modification time |
| `FileInfoCodec.AsciiTestPath` | src/fileinfo.rs:156 | the test path `C:\%\123` is the eight code units of its ASCII characters |
| `FileInfoCodec.AsciiTestPathEscapes` | src/fileinfo.rs:156 | that path needs only the `%0025` escape, whose hex form is decimal |
| `FileInfoCodec.RoundTripTestAsciiPath` | src/fileinfo.rs:155-162 | the first round-trip test: path `C:\%\123`, hash `abcde`, time 10000 s, size 10000 |
| `FileInfoCodec.WideTestUnits` | src/fileinfo.rs:167 | the units 1234, 0001, 0000, 9999, 0034 (hex) have decimal-only hex forms |
| `FileInfoCodec.RoundTripTestWideUnits` | src/fileinfo.rs:164-168 | the second round-trip test: those units, no hash, no time |
| `FileInfoCodec.DecodeLegacyTestWithHash` | src/fileinfo.rs:131-136 | the first legacy test line gives the test path, the hash, size 556602 and no time |
| `FileInfoCodec.DecodeLegacyTestWithoutHash` | src/fileinfo.rs:138-146 | the second gives the test path, no hash, size 556602 and no time |
| `FileInfoCodec.DecodeLegacyTestSpaceInPath` | src/fileinfo.rs:148-152 | the third keeps the space in the path |
| `CorrectedCodec.HexValue` | src/fileinfo.rs:80-83 | a character is read as a hex digit exactly when it is `0-9`, `a-f` or `A-F`, with a value below 16 |
| `CorrectedCodec.ReadEscape` | src/fileinfo.rs:80-84 | a corrected escape needs four characters and can never panic |
| `CorrectedCodec.HexValueOfDigit` | src/fileinfo.rs:45 | every digit `{:x}` writes is read back as its value |
| `CorrectedCodec.ReadEscapeOfHex` | src/fileinfo.rs:80-84 | the four digits of `{:04x}` are read back as the unit they were written from |
| `CorrectedCodec.UnescapeFixedUnit` | src/fileinfo.rs:76-92 | one written unit followed by more text is read back as that unit followed by the rest |
| `CorrectedCodec.UnescapeFixedEscape` | src/fileinfo.rs:76-92 | the corrected unescape inverts the escape on every sequence of code units |
| `CorrectedCodec.DecodeFixedEncode` | src/fileinfo.rs:52-102 | with the correction, every record whose hash is safe and not `None` is decoded back to itself, whatever its path |
| `CorrectedCodec.EncodeInjective` | src/fileinfo.rs:17-50 | two such records written as the same line are the same record |
| `CorrectedCodec.FixedAgreesOnDecimal` | src/fileinfo.rs:80-84 | on the records the source decodes correctly, the corrected decoder agrees with it |
| `CorrectedCodec.FixedReadsLetters` | src/fileinfo.rs:80-84 | the record the source misreads is decoded correctly by the corrected decoder |
| `CorrectedCodec.UnescapeFixedNeverPanics` | src/fileinfo.rs:76-92 | the corrected unescape never panics, on any text |
| `CorrectedCodec.DecodeFixedNeverPanics` | src/fileinfo.rs:52-127 | the corrected decoder rejects bad lines with an error, never a panic |
| `CorrectedCodec.NonHexEscapeRejected` | src/fileinfo.rs:79-83 | after any path prefix the corrected decoder reads, an escape with a character that is not a hex digit is rejected |
| `CorrectedCodec.UnescapeFixedConcat` | src/fileinfo.rs:76-92 | a path prefix the corrected decoder reads without error is read the same whatever follows it |
| `Pipeline.HashOne` | src/main.rs:151-169 | the record keeps the file's path and size; it is previously known iff hashing is on and the cache holds a hash at the file's size; with hashing off it has no hash |
| `Pipeline.CacheHit` | src/main.rs:153-158 | a cache hit reuses the cached hash, and the result does not depend on the hasher |
| `Pipeline.CacheMiss` | src/main.rs:159-166 | no entry, an entry without a hash, or a different size: the file is hashed afresh and is not previously known |
| `Pipeline.MakeHashes` | src/main.rs:148-184 | every file yields one record, each by the same per-file decision |
| `Pipeline.PrefixSizeSum` | src/main.rs:81-83 | the byte counters never decrease as records arrive |
| `Pipeline.HashedAtMostTotal` | src/main.rs:81-84 | the hashed bytes are at most the bytes seen |
| `Pipeline.NothingKnownAllHashed` | src/main.rs:82-84 | when no record was previously known, every byte seen was hashed |
| `Pipeline.AllKnownNothingHashed` | src/main.rs:82-84 | when every record was previously known, no byte was hashed |
| `Pipeline.SizeSumRemove` | src/main.rs:81-83 | removing one record from anywhere in the stream removes exactly its bytes from a counter |
| `Pipeline.SizeSumPermutation` | src/main.rs:80-85 | the counters do not depend on the order in which the workers' records arrive |
| `Pipeline.CountStep` | src/main.rs:81-85 | one more record adds its size to the total and, unless previously known, to the hashed bytes; both stay within `u64` |
| `Pipeline.TranscriptStep` | src/main.rs:87-90 | one more record adds its line after everything printed before |
| `Pipeline.PrintRecord` | src/main.rs:87-90 | the `println!` of a record appends that record's line and a newline to the output |
| `Pipeline.LinesOfJoin` | src/main.rs:113-114 | `BufRead::lines` gives back, one for one, lines written by `println!` when none holds a newline or ends with a carriage return |
| `Pipeline.RecordLinePlain` | src/main.rs:87-90 | the line printed for a record whose path and hash hold no newline, and whose path does not end with a carriage return, has no newline and no final carriage return |
| `Pipeline.ReloadedLines` | src/main.rs:113-114 | reading the collector's output with `lines()` gives back exactly its lines, for such records |
| `Pipeline.CollectorThread` | src/main.rs:68-103 | after all records: the file count is their number, the byte total is the sum of their sizes, the hashed bytes are the sum over records not previously known, and standard output is one line per record in arrival order, each followed by a newline |
| `Pipeline.TranscriptReadsBack` | src/main.rs:87-90 | each printed line of a readable record reads back through `split_line` as its path, hash and size |
| `Pipeline.InsertKeys` | src/main.rs:115-119 | a path is in the loaded cache iff some line reads as an entry for it |
| `Pipeline.LastEntryWins` | src/main.rs:115-119 | the cache entry for a path comes from the last line that reads as an entry for it |
| `Pipeline.InsertStep` | src/main.rs:117-118 | reading one more line inserts its entry, if it has one, and changes no other key |
| `Pipeline.LoadFrom` | src/main.rs:108-124 | no `--load` gives an empty cache, an unreadable file gives an error, and otherwise the cache is the fold of `split_line` over the lines `BufRead::lines` cuts the text into |
| `Pipeline.ReloadedEntry` | src/main.rs:108-124 | loading a run's standard output holds, for each of its distinct paths (Readable, with no newline in path or hash and no carriage return ending the path), exactly the hash and size printed for it |
| `Pipeline.SecondRunReuses` | src/main.rs:148-169 | a second run over the same files, with the output of a first run in which every file got a hash loaded as the cache, reports every file as previously known with the same hash, whatever the hasher now says |
| `Pipeline.SecondRunHashesNothing` | src/main.rs:80-85 | after such a first run, the second run hashes no byte |
| `Pipeline.GluedLineRejected` | src/main.rs:186-200 | a failure message of `hash_file`, which starts with `Failed` and ends without a newline, makes `split_line` reject the line it runs into |
| `Pipeline.LeadNotNumber` | src/main.rs:209-210 | text starting with anything but whitespace, a digit or `+` does not trim and parse to a `u64` size |

## Left out

- Threads, the `crossbeam` channel, `thread::spawn`/`join` and the `par_iter` fan-out. The run is a single sequential pass over a given arrival order, and `SizeSumPermutation` shows the counters do not depend on that order.
- `hash_file` (file I/O and SHA-1) is a function parameter, not a model of hashing.
- `find_files` (the directory walk, `--follow-links`, the `--count` truncation) and the command line and `main` are not modelled: the files scanned are a given sequence of paths and sizes.
- Opening and reading the `--load` file: `LoadFrom` takes its text, or the fact that it could not be read, as its input. Text that is not valid UTF-8, which makes `lines()` fail the run, counts as unreadable.
- The progress status on stderr every `progress_every` files and the final total: floating-point throughput and formatting, including the division by a zero `progress_every`.
- `SystemTime` arithmetic: times are whole seconds since the epoch. The `fmt::Error` for a time before the epoch and the `checked_add` that can fail when a time is read back are not modelled.
- The Windows conversion between `OsString` and UTF-16 (`encode_wide`, `from_wide`) and `path.display()`. A path is its code units, and a legacy `String` path is converted with `Utf16`. Unpaired surrogates are taken as they are.
- Release builds: the overflows of `c as u8 - b'0'` and of the `u16` additions are modelled as the debug-build panic. Release builds wrap instead, and that is not modelled. The byte counters are not modelled as overflowing at all (see Pipeline.CollectorThread).
- Pipeline.CollectorThread: requires the total of the sizes to fit in a `u64`, where the source would panic (debug) or wrap (release) on overflow.
- Pipeline.MakeHashes: states one record per file in scan order; the order in which `par_iter` delivers them to the collector is arbitrary in the source.
- Pipeline.LoadFrom: cache keys are exact strings. Rust's `PathBuf` keys compare by components, so `a//b` and `a/b` (or a path with a trailing separator, or, on Windows, `\` and `/`) are one key there and two in the model.
- Pipeline.InsertKeys: the same exact-string key equality as Pipeline.LoadFrom.
- Pipeline.LastEntryWins: the same exact-string key equality; a later line for a path spelled differently replaces the entry in Rust but not in the model.
- Pipeline.ReloadedEntry: standard output is the collector's lines only. The failure messages that `hash_file` prints there, from the worker threads and at points the model does not fix, are not part of it.
- Pipeline.SecondRunReuses: covers only first runs in which every file got a hash, so that no failure message was printed. Pipeline.GluedLineRejected shows that each such message costs the entry of the line it runs into.
- Pipeline.SecondRunHashesNothing: the same restriction to first runs in which every file got a hash.

## Findings

| source | as written | input that shows it | evidently intended | confidence | as-written member | corrected member |
|---|---|---|---|---|---|---|
| src/fileinfo.rs:80-84 | each escape character is converted with `c as u8 - b'0'`, which is right only for `0-9`; the encoder writes lowercase `a-f`, which are read as their value plus 39, and the top nibble's excess is shifted out | a record whose path is the unit U+00E9 is written `%00e9` and decoded as U+0359 | read each character as a hex digit, so that every written record decodes back to itself | high, not executed | `FileInfoCodec.AsWrittenMisreadsLetters` | `CorrectedCodec.DecodeFixedEncode` |
