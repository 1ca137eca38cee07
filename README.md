# Spike.DataflowJournaler in Dafny

Spike.DataflowJournaler is an append-only journal. Each batch of
journalables becomes one JSON line, `{"t":<UtcTicks>,"c":[<payloads>]}`,
followed by the platform newline. The lines go into size-rotated files named
`<8-digit sequence>.<19-digit first timestamp>.journal`. A range read picks
files from a sorted index of those names and reads each chosen file line by
line. `ReadLatestTimestamp` scans the last file backwards to its last line.
`Journal.Replay` sends the records of a range, filtered by a predicate, to a
dataflow target block. A serialization binder maps payload types to short
`Id` names. The test suite folds replayed `Transaction`s into a balance.

This project models that core and proves properties of the model.

The model's conventions:

- A timestamp is a number of UTC ticks in `0 .. 3155378975999999999`
  (`DateTimeOffset.MinValue .. MaxValue`). `Common.Ticks` is that range.
- The directory is a map from file name to file content
  (`FileIndex.FileSystem`). One character stands for one byte: every line
  the modelled journal holds is ASCII, because its payloads are tagged
  integer lists.
- `Environment.NewLine` is a parameter `nl`, either `"\n"` or `"\r\n"`.
- `DateTimeOffset.Now` is a parameter `now` or `ts`. Nothing makes
  successive values increase: the clock can be set back.
- Exceptions become `Result`/`Option` values with an `Error` code:
  - `InvalidFilename` for `ArgumentException`;
  - `NumberOverflow` for `long.Parse`'s `OverflowException`;
  - `NumberFormat` for `long.Parse`'s `FormatException`;
  - `TicksOutOfRange` for the `DateTimeOffset` constructor;
  - `FileNotFound` for `File.Open`;
  - `SeekBeforeBegin` for `Stream.Seek`;
  - `MalformedRecord` for the JSON reader.
- A payload is an abstract tagged value, `Payload(typeId, fields)`. Its
  stand-in text `{"$type":<id>,"f":[<ints>]}` is self-delimiting and holds
  no line break. It is parsed back exactly (`Payloads.ParsePayloadsOfText`).

The modules, in source order:

| module | file | models |
|---|---|---|
| `Common` | common.dfy | errors, results, the tick range, the newline, generic sequence lemmas |
| `Decimal` | decimal.dfy | digit strings, zero padding, `TrimStart('0')`, ordinal string order |
| `JournalFiles` | journal_file.dfy | `JournalFile`: `Filename`, `Parse`, `TrimNumber`, `Successor` |
| `FileIndex` | file_index.dfy | the `_journalFiles` index build and the provisioning closure's choice of file |
| `Storage` | storage.dfy | the directory as a class with its lazy index; the rotating write step as a function |
| `Journalables` | journalable.dfy | a journalable as a one-shot timestamp cell |
| `Payloads` | payloads.dfy | the payload stand-in text and its parser |
| `RecordCodec` | record_codec.dfy | the record line, `JournalReader.Read` |
| `LatestTimestamp` | latest_timestamp.dfy | `JournalReader.ReadLatestTimestamp`'s backward scan |
| `FileSelection` | file_selection.dfy | the choice of files shared by `ReadAsync` and `Replay`, and what reading them yields |
| `Rotation` | rotation.dfy | the layout every rotating write keeps, and the time order it keeps when the clock does not step back |
| `WriteEffects` | write_effects.dfy | what a write does to later reads |
| `Persistor` | persistor.dfy | `JournalPersistor`, its nested reader and writer |
| `Writer` | journal_writer.dfy | the older standalone `JournalWriter` |
| `Journals` | journal.dfy | the `Journal` facade: index, provisioning, the latest-timestamp getter, `Replay` |
| `Binder` | binder.dfy | `CustomSerializationBinder` |
| `Transactions` | transactions.dfy | `Transaction.Execute`, `TransactionsHelper.ComputeTotal`, the tests' totals |

`Journal.cs` and `JournalWriter.cs` call an older persistor API:
`Write(stream, …)`, `Read(stream, …)` and `ReadLatestTimestamp(stream)`.
`JournalPersistor.cs` does not have these members. The model binds those
calls to the record writer and reader nested in `JournalPersistor.cs`.

## Model

| member | source | states |
|---|---|---|
| JournalFiles.Filename | Spike.DataflowJournaler/JournalFile.cs:21-28 | defines the name: the sequence number zero-padded to 8 digits, '.', the UTC ticks zero-padded to 19 digits, ".journal" |
| JournalFiles.NameOf | Spike.DataflowJournaler/JournalFile.cs:25-26 | defines the name with any two separators, the shapes the pattern's unescaped '.' accepts; `Filename` is the one with two dots |
| JournalFiles.IsRegexDigit | Spike.DataflowJournaler/JournalFile.cs:9 | defines `\d` as the .NET engine reads it: '0'..'9' or a decimal digit of another script |
| JournalFiles.MatchesPattern | Spike.DataflowJournaler/JournalFile.cs:8-9 | defines the match: 8 and 19 such digits, two separators that are each one UTF-16 code unit other than '\n' (`IsDotChar`), "journal", and an optional final '\n' |
| JournalFiles.FilenameIsNameOf | Spike.DataflowJournaler/JournalFile.cs:25-26 | the file name is the 8-digit sequence, '.', the 19-digit ticks, '.', "journal" |
| JournalFiles.NameOfLayout | Spike.DataflowJournaler/JournalFile.cs:25-26 | for a sequence number below 10^8 the name is 36 characters long, with the zero-padded fields at positions 0-7 and 9-27 |
| JournalFiles.Parse | Spike.DataflowJournaler/JournalFile.cs:30-41 | a name that does not match the pattern is `InvalidFilename`; one that matches with a digit other than '0'..'9' in a field is `long.Parse`'s `FormatException`; otherwise the result is the two decimal fields, or an overflow or out-of-range ticks error |
| JournalFiles.ParseRejectsOtherDigits | Spike.DataflowJournaler/JournalFile.cs:48-52 | a name whose sequence field ends in an Arabic-Indic digit matches the pattern, and `TrimNumber`'s `long.Parse` rejects it with a `FormatException` |
| JournalFiles.ParseNameOf | Spike.DataflowJournaler/JournalFile.cs:8-9 | the unescaped '.' matches any separator that is one UTF-16 code unit other than a newline, and `$` allows one final '\n': every such name parses back to its descriptor |
| JournalFiles.ParseRejectsWideSeparator | Spike.DataflowJournaler/JournalFile.cs:8-9 | for an in-range descriptor, a separator outside the Basic Multilingual Plane is a surrogate pair, so '.' takes one half, `\d` fails on the other, and the name, with or without a final '\n', is `InvalidFilename` |
| JournalFiles.ParseFilename | Spike.DataflowJournaler/JournalFile.cs:38-40 | round trip: `Parse(Filename(f)) == f` for every sequence number below 10^8 |
| JournalFiles.ParseRejectsWideSequence | Spike.DataflowJournaler/JournalFile.cs:25-36 | a sequence number of 10^8 or more makes a name the pattern rejects |
| JournalFiles.TrimNumber | Spike.DataflowJournaler/JournalFile.cs:48-52 | the decimal value of the digit string, 0 for all zeros, an overflow error above `long.MaxValue` |
| JournalFiles.Successor | Spike.DataflowJournaler/JournalFile.cs:43-46 | sequence number plus one and the given first timestamp |
| JournalFiles.FilenameOrder | Spike.DataflowJournaler/JournalFile.cs:25 | ordinal order of two names is exactly the lexicographic order of (sequence, ticks), both ways |
| JournalFiles.SuccessorSortsAfter | Spike.DataflowJournaler/JournalFile.cs:43-46 | a successor's name sorts after its predecessor's |
| JournalFiles.FilenameInjective | Spike.DataflowJournaler/JournalFile.cs:25-26 | distinct in-range descriptors have distinct names |
| Decimal.Padded | Spike.DataflowJournaler/JournalFile.cs:25 | the custom format "00000000": the digits of the number, zero-padded on the left to the width; the result is all digits |
| Decimal.PaddedRoundTrip | Spike.DataflowJournaler/JournalFile.cs:25 | zero padding to a width that fits the number has exactly that width and the number's value |
| Decimal.TrimLeadingZeros | Spike.DataflowJournaler/JournalFile.cs:50 | the result is a suffix that starts with no '0', and everything removed is '0' |
| Decimal.ValueOfTrimmed | Spike.DataflowJournaler/JournalFile.cs:50-51 | trimming leading zeros keeps the decimal value |
| Decimal.OrdinalLessIsNumericLess | Spike.DataflowJournaler/JournalFile.cs:25 | for digit strings of equal width, ordinal order is numeric order, both ways |
| Decimal.ValueInjective | Spike.DataflowJournaler/JournalFile.cs:25 | equal-width digit strings with equal values are equal |
| FileIndex.IndexOf | Spike.DataflowJournaler/JournalPersistor.cs:76-84 | defines the index build: every listed name parsed, then sorted by sequence number, or the error of the first name that fails |
| FileIndex.Insert | Spike.DataflowJournaler/JournalPersistor.cs:83 | one insertion step of the sort: the result is sorted by sequence number and holds the old entries plus the new one |
| FileIndex.ParseAll | Spike.DataflowJournaler/JournalPersistor.cs:76-81 | one parsed descriptor per name, in order, or the error of a name that fails to parse |
| FileIndex.ParseAllAbort | Spike.DataflowJournaler/JournalPersistor.cs:80 | the first name that fails to parse aborts the build with its error |
| FileIndex.SortBySequence | Spike.DataflowJournaler/JournalPersistor.cs:83 | sorted by sequence number and a permutation of the input |
| FileIndex.BuildIndex | Spike.DataflowJournaler/JournalPersistor.cs:69-85 | the add loop and the sort compute `IndexOf(listing)` |
| FileIndex.IndexOfListing | Spike.DataflowJournaler/JournalPersistor.cs:76-84 | the build succeeds exactly when every name parses, and then it is sorted, one entry per name, a permutation of the parsed names |
| FileIndex.OpenForAppend | Spike.DataflowJournaler/JournalPersistor.cs:66-67 | `FileMode.Append` creates a missing file empty and changes no other file |
| FileIndex.Provision | Spike.DataflowJournaler/JournalPersistor.cs:52-65 | the index only grows at its end, by at most one descriptor, and the file opened is its last; it grows exactly when it was empty or a cutoff is given |
| FileIndex.ProvisionFirst | Spike.DataflowJournaler/JournalPersistor.cs:55-59 | an empty index gets `(1, cutoff ?? MinValue)` |
| FileIndex.ProvisionReopens | Spike.DataflowJournaler/JournalPersistor.cs:54-60 | without a cutoff a non-empty index is unchanged and its last file is reopened |
| FileIndex.ProvisionRotates | Spike.DataflowJournaler/JournalPersistor.cs:60-65 | with a cutoff the new last file is `(last.seq + 1, cutoff)` |
| FileIndex.ProvisionKeepsSorted | Spike.DataflowJournaler/JournalPersistor.cs:54-65 | provisioning keeps the index sorted by sequence number |
| Storage.Forced | Spike.DataflowJournaler/JournalPersistor.cs:69-85 | defines the `Lazy<T>` value: built from the listing on first use, then the cached list or the cached exception |
| Storage.Provisioned | Spike.DataflowJournaler/JournalPersistor.cs:52-68 | defines the provisioning closure on the lazy index: the exception of the index build, or the file `Opened` chooses |
| Storage.Opened | Spike.DataflowJournaler/JournalPersistor.cs:54-67 | the new index and the name opened are those `Provision` chooses, and that file exists afterwards |
| Storage.Rotated | Spike.DataflowJournaler/JournalPersistor.cs:108-116 | defines the rotation check: at or past the size limit the stream moves to a new file starting at the write's timestamp, else nothing changes |
| Storage.WriteToIndex | Spike.DataflowJournaler/JournalPersistor.cs:103-121 | defines a write with the index at hand: open without a cutoff if no stream is open, rotate once, append the record's line; the stream's file exists afterwards |
| Storage.LatestIn | Spike.DataflowJournaler/JournalPersistor.cs:128-142 | defines `ReadLatestTimestampAsync` on the index value: `MinValue` for an empty index, a missing last file's `FileNotFoundException`, else that file's latest timestamp |
| Storage.WriteStep | Spike.DataflowJournaler/JournalPersistor.cs:103-121 | a write keeps the stream's file in the index and the directory, and succeeds exactly when a stream is open afterwards |
| Storage.JournalDirectory.Files | Spike.DataflowJournaler/Journal.cs:38-54 | the lazy index: built from the listing on first use, then the cached list or the cached exception |
| Storage.JournalDirectory.ProvisionStream | Spike.DataflowJournaler/Journal.cs:61-77 | the provisioning closure on the lazy index and the directory |
| Storage.JournalDirectory.Append | Spike.DataflowJournaler/JournalPersistor.cs:207-208 | the text goes at the end of the named file; nothing else changes |
| Storage.JournalDirectory.LatestTimestamp | Spike.DataflowJournaler/JournalPersistor.cs:128-142 | `MinValue` for an empty index, else the last timestamp in the last file |
| Journalables.Stamped | Spike.DataflowJournaler/Journalable.cs:28-31 | a `WriteOnceBlock` keeps the first value posted to it |
| Journalables.Journalable.constructor | Spike.DataflowJournaler/Journalable.cs:17-22 | a journalable starts with its target and no timestamp |
| Journalables.Journalable.SetTimestamp | Spike.DataflowJournaler/Journalable.cs:28-31 | the setter posts to the one-shot cell |
| Journalables.Targets | Spike.DataflowJournaler/JournalPersistor.cs:200-203 | the serialized targets, one per journalable, in array order |
| Journalables.StampAll | Spike.DataflowJournaler/JournalPersistor.cs:209-214 | every journalable receives the record's timestamp |
| Payloads.ParsePayloadsOfText | Spike.DataflowJournaler/JournalPersistor.cs:295-297 | deserializing the serialized payload array gives back the payloads and the rest of the line |
| Payloads.PayloadsNoLineBreak | Spike.DataflowJournaler/JournalPersistor.cs:200-205 | the serialized payloads hold no line break |
| RecordCodec.RecordText | Spike.DataflowJournaler/JournalPersistor.cs:195-205 | defines what the JSON writer emits: `{"t":` the UTC ticks `,"c":[` the serialized targets `]}` |
| RecordCodec.Line | Spike.DataflowJournaler/JournalPersistor.cs:206-207 | defines the characters one write appends: the record's text, then the newline |
| RecordCodec.RecordNoLineBreak | Spike.DataflowJournaler/JournalPersistor.cs:195-207 | a record is exactly one line |
| RecordCodec.FileTextSnoc | Spike.DataflowJournaler/JournalPersistor.cs:195-208 | writing one more record appends its line to the file |
| RecordCodec.SplitFileText | Spike.DataflowJournaler/JournalPersistor.cs:273-275 | reading a file line by line gives back the record texts in order |
| RecordCodec.SplitLines | Spike.DataflowJournaler/JournalPersistor.cs:273-275 | defines the lines `ReadLine` returns until `EndOfStream`: each ends at '\r', '\n' or "\r\n", and a final line need not end in a newline |
| RecordCodec.LineLength | Spike.DataflowJournaler/JournalPersistor.cs:275 | `ReadLine` ends a line at the first '\r' or '\n' |
| RecordCodec.DecodeTicks | Spike.DataflowJournaler/JournalPersistor.cs:281-285 | the "t" value is a `long` that the reader ended at a character a JSON number may be followed by, or the line is malformed |
| RecordCodec.DecodeTicksOfText | Spike.DataflowJournaler/JournalPersistor.cs:281-285 | written ticks followed by a character that ends a JSON number read back as those ticks, with the rest of the line after them |
| RecordCodec.DecodeTicksRejectsJunk | Spike.DataflowJournaler/JournalPersistor.cs:283 | ticks followed by any other character, as in `{"t":5x`, are a malformed record, as the reader's exception on that token is |
| RecordCodec.DecodeRecordText | Spike.DataflowJournaler/JournalPersistor.cs:281-297 | a record's line decodes to its timestamp and its payloads |
| RecordCodec.OfType | Spike.DataflowJournaler/JournalPersistor.cs:298-301 | each payload kept is of the target type, and a payload is in the result exactly when it is in the input and of that type |
| RecordCodec.OfTypeConcat | Spike.DataflowJournaler/JournalPersistor.cs:298-301 | the filter distributes over concatenation, so the payloads kept stay in input order |
| RecordCodec.OfTypeSingle | Spike.DataflowJournaler/JournalPersistor.cs:298-301 | one payload is kept exactly when it is of the target type |
| RecordCodec.OfTypeCount | Spike.DataflowJournaler/JournalPersistor.cs:298-301 | a payload of the target type is kept as often as it occurs in the input, any other never |
| RecordCodec.ReadLines | Spike.DataflowJournaler/JournalPersistor.cs:273-302 | defines the read of a file's lines: empty lines skipped, records before `first` skipped, a stop at the first record after `last`, the target payloads of the others, a malformed line ending the read |
| RecordCodec.Read | Spike.DataflowJournaler/JournalPersistor.cs:269-303 | the read loop computes `ReadLines` on the file's lines: empty lines skipped, early records skipped, a stop at the first late record, the target payloads yielded |
| RecordCodec.ReadRecordTexts | Spike.DataflowJournaler/JournalPersistor.cs:273-301 | reading written records never fails and yields what the records hold |
| RecordCodec.ReadFileText | Spike.DataflowJournaler/JournalPersistor.cs:269-303 | reading a file of written records yields their target payloads in the range |
| RecordCodec.RecordsInRange | Spike.DataflowJournaler/JournalPersistor.cs:286-293 | the records kept are exactly those with `first <= t <= last` |
| RecordCodec.SortedRead | Spike.DataflowJournaler/JournalPersistor.cs:286-293 | on records in time order, the early stop at the first late record reads exactly the records in range |
| RecordCodec.ReadAllRecords | Spike.DataflowJournaler/JournalPersistor.cs:286-293 | over `[MinValue, MaxValue]` every record is read, whatever their order |
| RecordCodec.CollectConcat | Spike.DataflowJournaler/JournalPersistor.cs:298-301 | collecting payloads distributes over concatenation of records |
| LatestTimestamp.ReadLatestTimestamp | Spike.DataflowJournaler/JournalPersistor.cs:227-267 | the seek loop computes `LatestTimestampOf`, and the seek fails exactly when the file is no longer than one newline |
| LatestTimestamp.LatestTimestampOf | Spike.DataflowJournaler/JournalPersistor.cs:227-267 | defines the result of the backward scan: a seek error for a file no longer than one newline, `MinValue` for an empty last line, else that line's "t" value, or a malformed-record or out-of-range ticks error |
| LatestTimestamp.LastLineStart | Spike.DataflowJournaler/JournalPersistor.cs:234-252 | the scan settles at 0 or just after the last newline before the trailing one |
| LatestTimestamp.LastLineStartUnique | Spike.DataflowJournaler/JournalPersistor.cs:234-250 | that position is unique |
| LatestTimestamp.LastLineNotEmpty | Spike.DataflowJournaler/JournalPersistor.cs:252-259 | on a file longer than one newline the last "line" is never empty |
| LatestTimestamp.LastLineAfter | Spike.DataflowJournaler/JournalPersistor.cs:234-250 | after a complete line, the last line starts where the appended line starts |
| LatestTimestamp.LastLineOfFileText | Spike.DataflowJournaler/JournalPersistor.cs:252-254 | in a file of records the last line is the last record's line |
| LatestTimestamp.LatestOfLastLine | Spike.DataflowJournaler/JournalPersistor.cs:261-266 | the "t" value of the last line is returned |
| LatestTimestamp.LatestOfFileText | Spike.DataflowJournaler/JournalPersistor.cs:227-267 | on a file of records the result is the last record's timestamp |
| FileSelection.Skips | Spike.DataflowJournaler/JournalPersistor.cs:162-166 | defines the skip test: the code's rule (the next file starts after `first`) or the corrected one (the next file starts before `first`), never on the last file |
| FileSelection.SelectFrom | Spike.DataflowJournaler/JournalPersistor.cs:150-166 | defines the files the loop reads from index i on: stop at the first file starting after `last`, drop the files the rule skips |
| FileSelection.SelectFiles | Spike.DataflowJournaler/JournalPersistor.cs:150-166 | defines the files a range read opens: `SelectFrom` from the first file |
| FileSelection.FileRead | Spike.DataflowJournaler/JournalPersistor.cs:168-177 | defines the read of one chosen file: `FileNotFound` when it is missing, else the read of its lines |
| FileSelection.ReadFiles | Spike.DataflowJournaler/JournalPersistor.cs:150-178 | defines the read of the chosen files in order: their items concatenated, or the items so far with the first file's exception |
| FileSelection.SelectEnds | Spike.DataflowJournaler/JournalPersistor.cs:157-160 | the first file that starts after `last` ends the choice |
| FileSelection.SelectSkipped | Spike.DataflowJournaler/JournalPersistor.cs:162-166 | a skipped file is not read and the choice goes on with the next |
| FileSelection.ReadStep | Spike.DataflowJournaler/JournalPersistor.cs:168-177 | reading a chosen file adds its items, or ends the read with its exception |
| FileSelection.SelectKeepsLast | Spike.DataflowJournaler/JournalPersistor.cs:162-163 | the skip test never skips the last file |
| FileSelection.SelectUnbounded | Spike.DataflowJournaler/Journal.cs:144-153 | with both bounds null the lifted comparisons are false: every file is chosen |
| FileSelection.InRangeConcat | Spike.DataflowJournaler/JournalPersistor.cs:176 | the range filter distributes over concatenation |
| FileSelection.ReadFrom | Spike.DataflowJournaler/JournalPersistor.cs:150-178 | under the corrected rule, or with no lower bound, the read from file i yields the target payloads in range of files i onward |
| FileSelection.AsWrittenReadsAllWithoutFirst | Spike.DataflowJournaler/Journal.cs:144-159 | a replay with a null first bound reads every record up to `last` |
| FileSelection.AsWrittenMissesFirstFile | Spike.DataflowJournaler/JournalPersistor.cs:162-166 | the skip test as written loses the first file's record on a full-range read (see Findings) |
| FileSelection.CorrectedReadsEveryRecord | Spike.DataflowJournaler/JournalPersistor.cs:146-180 | with the corrected skip test a range read yields every record in range, in order |
| Rotation.FilenameExtension | Spike.DataflowJournaler/JournalFile.cs:25-26 | every file name ends in ".journal", so the listing sees it |
| Rotation.NamesDistinct | Spike.DataflowJournaler/JournalFile.cs:25-26 | files of distinct sequence numbers have distinct names |
| Rotation.FreshName | Spike.DataflowJournaler/JournalPersistor.cs:62-63 | a successor's file does not exist yet |
| Rotation.SuccessorLater | Spike.DataflowJournaler/JournalPersistor.cs:62-63 | the successor has a larger sequence number than every file of the index |
| Rotation.AddEmptyFile | Spike.DataflowJournaler/JournalPersistor.cs:55-67 | adding a fresh empty file keeps the layout (files stored, sequence numbers increasing, only indexed files) whatever its start; when it starts no earlier than the journal's records and files, it keeps their time order too |
| Rotation.OpenFirstFile | Spike.DataflowJournaler/JournalPersistor.cs:55-59 | the first open creates file `(1, MinValue)`, keeps the layout, and leaves the journal in time order for any timestamp |
| Rotation.OpenKeeps | Spike.DataflowJournaler/JournalPersistor.cs:103-106 | opening without a cutoff keeps the layout and reopens or creates the last file; for a timestamp no earlier than the journal's records it keeps the time order |
| Rotation.RotateAddsFile | Spike.DataflowJournaler/JournalPersistor.cs:60-65 | rotating adds an empty successor file and keeps the layout; for a timestamp no earlier than the journal's records it keeps the time order |
| Rotation.RotateKeeps | Spike.DataflowJournaler/JournalPersistor.cs:108-116 | rotation fires exactly when the stream's length has reached the limit and keeps the layout; for a timestamp no earlier than the journal's records it keeps the time order |
| Rotation.AppendRecord | Spike.DataflowJournaler/JournalPersistor.cs:118-121 | appending a record to the last file keeps the layout; for a record no earlier than the journal's records and files it keeps the time order |
| Rotation.OpenStep | Spike.DataflowJournaler/JournalPersistor.cs:103-106 | the stream after the open step is on the last file, with the layout kept, and the time order kept for a timestamp no earlier than the journal's records |
| Rotation.WriteSteps | Spike.DataflowJournaler/JournalPersistor.cs:103-121 | a write is at most one open, at most one rotation, then one appended line |
| Rotation.WriteKeepsInvariant | Spike.DataflowJournaler/JournalPersistor.cs:101-121 | a write of any timestamp keeps the layout: names parse, the index is sorted and complete, each file holds its records; for a timestamp no earlier than the journal's records and files it keeps the whole invariant, records in time order within their files' spans |
| WriteEffects.FlattenRotated | Spike.DataflowJournaler/JournalPersistor.cs:108-116 | rotation moves no record |
| WriteEffects.WriteAppendsRecord | Spike.DataflowJournaler/JournalPersistor.cs:118-121 | the journal's records after a write are the old ones plus the new record, which is last in the last file |
| WriteEffects.LatestInLastFile | Spike.DataflowJournaler/JournalPersistor.cs:128-142 | the latest timestamp is read from the last file of the index |
| WriteEffects.LatestOfLastFile | Spike.DataflowJournaler/JournalPersistor.cs:252-266 | on a well-formed journal that is the last record's timestamp |
| WriteEffects.WriteThenLatest | Spike.DataflowJournaler/JournalPersistor.cs:118-142 | after a write of any timestamp the latest timestamp is the write's timestamp |
| WriteEffects.WriteThenRead | Spike.DataflowJournaler/JournalPersistor.cs:146-180 | for a timestamp no earlier than the journal's records and files, with the corrected skip test, a range read after a write yields the old records' payloads in range plus the new ones if the write's timestamp is in range |
| WriteEffects.WriteStepKeepsJournal | Spike.DataflowJournaler/JournalPersistor.cs:101-124 | a write of any timestamp succeeds, keeps the layout and makes its timestamp the latest; for a timestamp no earlier than the journal's records and files it keeps the whole invariant |
| WriteEffects.WriteStepOk | Spike.DataflowJournaler/JournalPersistor.cs:103-121 | with the index at hand a write never fails |
| WriteEffects.BackwardClockLosesRecord | Spike.DataflowJournaler/JournalPersistor.cs:286-293 | without that hypothesis the early stop loses records: after a record at tick 100, a write stamped 50 is appended behind it, and a read of [40, 60] yields nothing under either skip rule although the record at 50 is in range |
| Persistor.WriteRecord | Spike.DataflowJournaler/JournalPersistor.cs:191-215 | the record's line is appended to the stream's file, then every journalable is stamped |
| Persistor.WriteRotating | Spike.DataflowJournaler/JournalPersistor.cs:103-121 | the open, rotate and write steps compute `WriteStep`; journalables are stamped only when the record was written |
| Persistor.OpenAndRead | Spike.DataflowJournaler/JournalPersistor.cs:168-177 | `File.Open` fails on a missing file, else the file is read in full |
| Persistor.RangeRead | Spike.DataflowJournaler/JournalPersistor.cs:146-180 | defines what `ReadAsync` returns: the exception of the index build or of a file read, which loses the items read so far, or the chosen files' items in order |
| Persistor.ReadIndex | Spike.DataflowJournaler/JournalPersistor.cs:150-178 | the loop with its break and continue reads the files `SelectFiles` chooses |
| Persistor.ReadAt | Spike.DataflowJournaler/JournalPersistor.cs:157-177 | the loop body: skip, or read the file and add its items |
| Persistor.JournalPersistor.constructor | Spike.DataflowJournaler/JournalPersistor.cs:46-86 | no stream is open and the index is not built yet |
| Persistor.JournalPersistor.Dispose | Spike.DataflowJournaler/JournalPersistor.cs:88-99 | the stream is closed; a second call changes nothing |
| Persistor.JournalPersistor.WriteAsync | Spike.DataflowJournaler/JournalPersistor.cs:101-124 | the new stream, directory and index are `WriteStep` of the old ones |
| Persistor.JournalPersistor.ReadLatestTimestampAsync | Spike.DataflowJournaler/JournalPersistor.cs:126-144 | `MinValue` for an empty index, else the last file's latest timestamp |
| Persistor.JournalPersistor.ReadAsync | Spike.DataflowJournaler/JournalPersistor.cs:146-180 | the chosen files' items in order, or the exception that ends the read |
| Writer.JournalWriter.constructor | Spike.DataflowJournaler/JournalWriter.cs:15-21 | a writer starts with no stream |
| Writer.JournalWriter.Dispose | Spike.DataflowJournaler/JournalWriter.cs:23-34 | the stream is closed; a second call changes nothing |
| Writer.JournalWriter.Write | Spike.DataflowJournaler/JournalWriter.cs:36-57 | the same rotating step as `WriteAsync`: open with a null cutoff, rotate with the record's timestamp, write |
| Journals.Filter | Spike.DataflowJournaler/Journal.cs:160-168 | defines what is sent of one file's items: every item when the predicate is null, else those it accepts, in order |
| Journals.ReplayOf | Spike.DataflowJournaler/Journal.cs:134-179 | defines a replay: the filtered items of the chosen files in order, then `Complete`, or the items so far and `Fault` with the first exception |
| Journals.Journal.constructor | Spike.DataflowJournaler/Journal.cs:38-54 | the lazy index is not built at construction |
| Journals.Journal.JournalBatch | Spike.DataflowJournaler/Journal.cs:61-81 | one batch: a fresh writer writes the batch at `now` and is disposed |
| Journals.Journal.ReadLatestTimestamp | Spike.DataflowJournaler/Journal.cs:99-115 | `MinValue` when no file exists, else the last file's latest timestamp |
| Journals.Journal.Replay | Spike.DataflowJournaler/Journal.cs:134-179 | the items sent and the fault are `ReplayOf` the index |
| Journals.ReplayIndex | Spike.DataflowJournaler/Journal.cs:142-172 | the loop with its break and continue sends the filtered items of the chosen files, then completes |
| Journals.ReplayAt | Spike.DataflowJournaler/Journal.cs:149-170 | the loop body: skip, or read the file and send what passes the predicate |
| Journals.SendAll | Spike.DataflowJournaler/Journal.cs:160-169 | the items sent from one file are those that pass the predicate |
| Journals.FilterConcat | Spike.DataflowJournaler/Journal.cs:160-168 | filtering keeps the relative order of the items kept |
| Journals.FilterMembers | Spike.DataflowJournaler/Journal.cs:162-166 | an item is sent exactly when it was read and passes the predicate |
| Journals.FilterNone | Spike.DataflowJournaler/Journal.cs:162 | a null predicate sends every item |
| Journals.ReplayWithoutFirst | Spike.DataflowJournaler/Journal.cs:144-159 | a replay without a first bound sends every record's filtered payloads up to `last` and completes |
| Journals.ReplaySingleFile | Spike.DataflowJournaler/Journal.cs:149-159 | on a one-file journal a replay sends every record's filtered payloads in range, whatever the bounds |
| Binder.CustomSerializationBinder.constructor | Spike.DataflowJournaler/CustomSerializationBinder.cs:15-40 | the dictionaries are the registry of all types in order, and are exact inverses |
| Binder.CustomSerializationBinder.RegisterAll | Spike.DataflowJournaler/CustomSerializationBinder.cs:19-37 | the inner loop registers one assembly's types in order |
| Binder.CustomSerializationBinder.BindToName | Spike.DataflowJournaler/CustomSerializationBinder.cs:42-53 | a registered type gives (null, Id), others go to the base binder |
| Binder.CustomSerializationBinder.BindToType | Spike.DataflowJournaler/CustomSerializationBinder.cs:55-66 | the registry is used only when the assembly name is null or empty |
| Binder.TypeRoundTrip | Spike.DataflowJournaler/CustomSerializationBinder.cs:42-66 | `BindToType(BindToName(T)) == T` for a registered type |
| Binder.NameRoundTrip | Spike.DataflowJournaler/CustomSerializationBinder.cs:42-66 | `BindToName(BindToType(null, n)) == (null, n)` for a registered name |
| Binder.RegisterConsistent | Spike.DataflowJournaler/CustomSerializationBinder.cs:21-36 | one registration step keeps the dictionaries inverse |
| Binder.RegistryConsistent | Spike.DataflowJournaler/CustomSerializationBinder.cs:35-36 | after the build the dictionaries are exact inverses and hold no empty name |
| Binder.RegistryDeclared | Spike.DataflowJournaler/CustomSerializationBinder.cs:26-36 | every registered name is the `Id` some visited type declares |
| Binder.RegistryKeeps | Spike.DataflowJournaler/CustomSerializationBinder.cs:21-33 | first wins: later types never change an entry |
| Binder.FirstClaimWins | Spike.DataflowJournaler/CustomSerializationBinder.cs:29-36 | the first type to claim an unclaimed non-empty `Id` keeps it both ways |
| Binder.UndeclaredNeverRegistered | Spike.DataflowJournaler/CustomSerializationBinder.cs:29-33 | a type with a null or empty `Id` is never registered |
| Transactions.Wrap64 | Spike.DataflowJournaler.Tests/Transaction.cs:36-39 | unchecked `long` arithmetic: exact when the result fits |
| Transactions.Execute | Spike.DataflowJournaler.Tests/Transaction.cs:31-44 | `current + Value` for a deposit, `current - Value` for a withdrawal when no overflow, unchanged for any other operation |
| Transactions.ExecuteWraps | Spike.DataflowJournaler.Tests/Transaction.cs:33-40 | `Execute` is the wrapped exact sum in every case |
| Transactions.Decode | Spike.DataflowJournaler.Tests/Transaction.cs:16-29 | a payload decodes only to the transaction that encodes it |
| Transactions.DecodeEncode | Spike.DataflowJournaler.Tests/Transaction.cs:16-29 | an encoded transaction decodes back to itself |
| Transactions.DecodeAll | Spike.DataflowJournaler.Tests/Transaction.cs:49-57 | all payloads decode, one transaction each, or none does |
| Transactions.DecodeAllEncoded | Spike.DataflowJournaler.Tests/Transaction.cs:49-57 | encoded transactions decode back in order |
| Transactions.Total | Spike.DataflowJournaler.Tests/Transaction.cs:49-57 | defines the left fold of `Execute` from 0 over a transaction list |
| Transactions.TotalOf | Spike.DataflowJournaler.Tests/Transaction.cs:49-57 | defines the total of what a replay sends: `MalformedRecord` if an item is not a well-formed transaction, else the replay's fault, else the fold of the decoded transactions |
| Transactions.ExecuteAll | Spike.DataflowJournaler.Tests/Transaction.cs:53-55 | the action block's loop computes `TotalOf` the items sent and the fault |
| Transactions.ComputeTotal | Spike.DataflowJournaler.Tests/Transaction.cs:49-57 | the left fold of `Execute` from 0 over what the replay sends, or the replay's fault |
| Transactions.TotalIsWrappedSum | Spike.DataflowJournaler.Tests/Transaction.cs:49-57 | the fold is the exact sum wrapped to 64 bits |
| Transactions.TotalInRange | Spike.DataflowJournaler.Tests/Transaction.cs:49-57 | a fold that never needs wrapping is the exact sum |
| Transactions.TotalPermutation | Spike.DataflowJournaler.Tests/Transaction.cs:49-57 | the total does not depend on the order the transactions were journaled in |
| Transactions.SumPermutation | Spike.DataflowJournaler.Tests/Transaction.cs:31-44 | the exact sum is the same for any permutation |
| Transactions.FilterTotals | Spike.DataflowJournaler.Tests/SmokeTests.cs:47-60 | deposits 1, 2, withdrawal 1, deposit 3 over any well-formed journal total 5; deposits only 6; the withdrawal only -1 |
| Transactions.NoBatchTotals | Spike.DataflowJournaler.Tests/SmokeTests.cs:93-99 | deposits 1, 2, 3 at t1 < t2 < t3 in one file: 6, 3, 5, 2, 0, 0 for the six ranges |
| Transactions.SingleFileTotal | Spike.DataflowJournaler.Tests/SmokeTests.cs:85-99 | on that file every range totals the deposits whose timestamps fall in it |
| Transactions.SumDeposits | Spike.DataflowJournaler.Tests/PerformanceTests.cs:62-71 | the values 1..n, each k times, sum to Triangle(n) * k |
| Transactions.PerformanceTotal | Spike.DataflowJournaler.Tests/PerformanceTests.cs:53-71 | in any order, with no overflow, those deposits total `n * (n + 1) / 2 * k` |

## Left out

- Cancellation tokens and `TaskCanceledException`: the model has no cancellation.
- Concurrency: the dataflow blocks (`BatchBlock`, `ActionBlock`, the timer, `AddAsync`), `JournalActor.cs` and `Journal.Dispose`. Their point is scheduling, and none of them holds journal logic.
- `JournalStatistic.cs`, `StopWatchUtil.cs` and `JournalConfig.cs`: timing and statistics in floating point, and default constants.
- Real I/O: `Directory.GetFiles`, `FileStream`, `Seek`, `Flush` and `File.Open` act on an in-memory map from name to content.
- The directory listing is fixed when the directory object is built. Nothing changes the files before the lazy index is first built.
- `Directory.CreateDirectory` is not modelled: the directory always exists.
- Storage.JournalDirectory.Files: the lazy index caches an exception as `Lazy<T>` does by default. Only the cached result is modelled, not thread-safety.
- Stream buffering: a record reaches its file whole. `CanWrite` is taken as always true, so the record is always written.
- A torn write, a line cut off before its newline, is not modelled.
- Newtonsoft JSON and `TypeNameHandling`: a payload is a tagged list of integers with a stand-in text. It keeps the properties the reader needs: it is one line, self-delimiting and parsed back exactly.
- Payload parsing beyond that grammar: any other payload text is a malformed record.
- RecordCodec.DecodeTicks: the model reads the writer's exact spelling `{"t":` and `,"c":[`. The source's reader never checks the property names and skips white space between tokens, so `{"x":5,"y":[...]}` or `{ "t" : 5, ...}` read as records there and as `MalformedRecord` here. Newtonsoft's readings of a leading-zero number as octal and of `0x` as hexadecimal, and white space outside ASCII after the number, are not modelled either; the writer produces none of these.
- Only one `JsonObject` attribute per type is modelled.
- `BindToType` with a null `typeName` is not modelled: a type name is always a string.
- Text encodings: the modelled journal is ASCII, so one character is one byte and `GetByteCount(NewLine)` is the newline's length. Payload text outside ASCII is not modelled.
- RecordCodec.OfType: the target is `object` or one payload type, matched by its type id. .NET's `OfType<TTarget>` also keeps subtypes and implementers of an interface and drops null elements; the model has no type hierarchy and no null payload.
- Journals.Filter: the replay predicate is a total function: a predicate that throws inside the replay, which would fault the target block, is not modelled.
- JournalFiles.IsRegexDigit: the decimal-digit blocks are those of the Basic Multilingual Plane as of Unicode 7. A runtime with newer Unicode data may accept digits of blocks added later.
- Journalables.Journalable: the `Index` setter does nothing in the source, so the index numbering is not modelled.
- `DateTimeOffset.Now` is the parameter `now`, and nothing makes successive values increase. Offsets are not modelled, since only `UtcTicks` is stored.
- Rotation.WriteKeepsInvariant: keeps the time order of records (`RecordsFit`) only for a write whose timestamp is no earlier than every stored record and file start (`Rotation.NotBefore`), which the clock does not guarantee. The layout it keeps for any timestamp. `WriteEffects.BackwardClockLosesRecord` shows what a backward step costs a later read.
- Rotation.AddEmptyFile: keeps the time order only for a file that starts no earlier than every stored record and file start; the layout for any start.
- Rotation.AppendRecord: keeps the time order only for a record no earlier than every stored record and file start; the layout for any record.
- Rotation.OpenKeeps: keeps the time order only given that it held up to the write's timestamp; the layout always.
- Rotation.RotateAddsFile: keeps the time order only for a cutoff no earlier than every stored record and file start; the layout always.
- Rotation.RotateKeeps: keeps the time order only for a timestamp no earlier than every stored record and file start; the layout always.
- Rotation.OpenStep: keeps the time order only given that it held up to the write's timestamp; the layout always.
- WriteEffects.WriteStepKeepsJournal: keeps the whole invariant only for a timestamp no earlier than every stored record and file start; the layout and the latest timestamp for any timestamp.
- WriteEffects.WriteThenRead: holds only for a timestamp no earlier than every stored record and file start. Without it a range read can stop early and lose records (`WriteEffects.BackwardClockLosesRecord`).
- `List.Sort` is not stable. The model sorts with an insertion sort and promises only "sorted and a permutation". Among files with equal sequence numbers, the order matches no particular `Sort` result.
- Transactions.DecodeAll: a payload of the transaction type that is not a well-formed transaction fails the whole total with `MalformedRecord`. In the source the serializer would throw inside the replay.
- `Replay<string>` and the other smoke and performance tests use constructors and APIs the repository does not have. Only the transaction totals are modelled.
- The `break` of each read loop is the loop's condition, and each loop body is a helper method (Persistor.ReadAt, Journals.ReplayAt).
- Sequence numbers of 10^8 or more make names the index cannot parse (JournalFiles.ParseRejectsWideSequence). The write lemmas assume the next sequence number stays below 10^8.

## Findings

| source | as written | input that shows it | evidently intended | confidence | as-written member | corrected member |
|---|---|---|---|---|---|---|
| Spike.DataflowJournaler/JournalPersistor.cs:162-166 | file i is skipped when file i+1 starts *after* `firstTimestamp` (the same test is at Journal.cs:149-153) | two files, `(1, MinValue)` holding a record at `MinValue` and `(2, 100)` holding a record at 100, read over `[MinValue, MaxValue]`: only the second record's payload is returned | skip file i only when file i+1 starts *before* `firstTimestamp`, since only then can file i hold nothing in range | not executed | FileSelection.AsWrittenMissesFirstFile | FileSelection.CorrectedReadsEveryRecord |

The operations (`Persistor.ReadIndex`, `Journals.ReplayIndex`,
`Persistor.RangeRead`, `Journals.ReplayOf`) follow the code as written.
`FileSelection.SelectFrom` takes the skip rule as a parameter, and the
corrected rule is the one `FileSelection.CorrectedReadsEveryRecord` and
`WriteEffects.WriteThenRead` are proved about. The replay results the tests
check still hold as written, because they hold without a first bound
(`Journals.ReplayWithoutFirst`) or on one file (`Journals.ReplaySingleFile`).
