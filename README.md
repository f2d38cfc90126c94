# s3_unzip, modelled in Dafny

`development/s3_unzip.py` is a storage-notification handler. For every record of the
event it does five things:

1. It decodes the object key with `unquote_plus`.
2. It derives a destination prefix from the key (`split('.zip')[0] + '/'`).
3. It checks with `list_objects_v2(Prefix=key, MaxKeys=1)` that the key is stored. If it is, it copies the archive to `<backupfolder>/<capture>_<timestamp>.zip`, where the capture comes from `re.search('(?<=/)(.*)(?=.zip)', key)`.
4. It fetches and unzips the archive, keeping every entry that is not a directory (`parse_content`).
5. It uploads each kept entry under the destination prefix, with its guessed content type, `utf-8` and `public-read`.

An exception anywhere ends the whole handler.

The project has six modules:

- `Wrappers`: the `Option` type, and a lemma that regroups a concatenation of sequences.
- `Utf8`: `str.encode('utf-8')`, and `bytes.decode('utf-8', errors='replace')` with CPython's maximal-subpart replacement.
- `Decoding`: `unquote` and `unquote_plus` as CPython computes them. The string is split into ASCII runs and single non-ASCII characters. Each run is UTF-8 encoded, percent-decoded and decoded again, and `+` becomes a space first. `quote_plus(s, safe='')` is modelled too, as the encoder `unquote_plus` inverts.
- `KeyDerivation`:
  - The destination prefix.
  - The regular-expression search with Python's semantics. The look-behind `/` sets the start, and the leftmost start wins. The greedy `.*` stops at the last position before the end of the line that is followed by one non-newline character and `zip`.
  - The backup key built from the search.
- `Extraction`: the `parse_content` loop over the archive's name list.
  - `getinfo` reads the last record with a given name.
  - A name ending in `/` is a directory. `is_dir()` is `filename.endswith('/')`, as in CPython 3.12's `zipfile`, so a member with the empty name counts as a file.
  - `not mime` sends both `None` and `""` to `binary/octet-stream`.
- `S3Unzip`:
  - The object store is a class. Its fields are a map from (bucket, key) to objects and the log of copy and put requests.
  - Its methods are `ListFirst`, `CopyObject`, `GetObject` and `PutObject`.
  - The handler and its record loop are methods, proved against `Run`. `Run` is a function that folds `Next` over the records.

Seven behaviours of the code are easy to misread; the model follows the code:

- The backup capture starts after the FIRST `/` of the key, not the last. `a/b/c.zip` backs up as `<folder>/b/c_<timestamp>.zip` (`KeyDerivation.CaptureFromFirstSlash`).
- The greedy capture runs to the LAST `.zip` (`KeyDerivation.CaptureToLastZip`). The unescaped `.` accepts any character before `zip` (`KeyDerivation.CaptureBeforeAnyCharZip`).
- When the key is stored, a key without a `/` makes `.group(0)` raise. This ends the handler before the copy (`S3Unzip.NoBackupNameEndsHandler`). A key that is not stored never reaches the search and fails at `get_object` first.
- The existence check is exact. The first key listed under the prefix `key` is `key` exactly when `key` is stored (`S3Unzip.FirstListedIsKey`).
  - So when the check fails, the following `get_object` always raises `NoSuchKey`. Extraction never proceeds without the backup (`S3Unzip.BackupOnlyWhenPresent`).
- `is_dir()` is `endswith('/')`, so a member with the empty name is kept as a file. Its put goes to the destination prefix itself (`Extraction.FileIndicesSpec`, `S3Unzip.CompletedRecordWrites`).
- `unquote_plus` keeps an invalid escape as it is: `a%zzb` stays `a%zzb` (`Decoding.InvalidEscapeKept`). Only bytes that are not valid UTF-8 become U+FFFD (`Decoding.InvalidEscapeReplaced`).
- A key without `.zip` gets the whole key plus `/` as its destination (`KeyDerivation.DestinationWithoutZip`).

## Model

| member | source | states |
|---|---|---|
| Utf8.Decode | development/s3_unzip.py:55-59 | `bytes.decode('utf-8', errors='replace')` with maximal-subpart replacement. Its ensures says it yields at most one character per byte. `DecodeEncode`, `DecodeEncodePrefix`, `DecodeAscii` and `InvalidLeadReplaced` state its behaviour. |
| Utf8.Encode | development/s3_unzip.py:55-59 | `str.encode('utf-8')`. Its ensures says it yields at least one byte per character. `EncodeAppend`, `DecodeEncode` and `Decoding.EncodeAscii` state its behaviour. |
| Utf8.EncodeAppend | development/s3_unzip.py:55-59 | The UTF-8 encoding of a concatenation is the concatenation of the encodings. |
| Utf8.DecodeEncodeChar | development/s3_unzip.py:55-59 | Decoding reads the encoding of any one scalar value back as that value, and consumes exactly its bytes. |
| Utf8.DecodeEncodePrefix | development/s3_unzip.py:55-59 | Decoding the encoding of `s` followed by any bytes gives `s` followed by the decoding of those bytes. |
| Utf8.DecodeEncode | development/s3_unzip.py:55-59 | `decode('utf-8', 'replace')` inverts `encode('utf-8')` on every string. |
| Utf8.DecodeAscii | development/s3_unzip.py:55-59 | Bytes below 0x80 decode one-for-one to the characters with those codes. |
| Utf8.InvalidLeadReplaced | development/s3_unzip.py:55-59 | A byte that cannot start a UTF-8 sequence decodes to exactly one U+FFFD, and decoding resumes after it. |
| Decoding.PercentDecode | development/s3_unzip.py:55-59 | `unquote_to_bytes`: each `%` followed by two hex digits becomes that byte, and every other byte is kept. Its ensures says the result is never longer than the input. `PercentDecodeNoPercent`, `PercentDecodeOneEscape`, `PercentDecodeLiteralPercent` and `PercentDecodeQuoteBytes` state its behaviour. |
| Decoding.Unquote | development/s3_unzip.py:55-59 | `unquote(s, 'utf-8', 'replace')`: non-ASCII characters are kept, and each maximal ASCII run is UTF-8 encoded, percent-decoded and decoded again. No ensures of its own; `UnquoteWithoutPercent` and `UnquoteAscii` state its behaviour. |
| Decoding.PlusToSpace | development/s3_unzip.py:55-59 | `replace('+', ' ')`, the first step of `unquote_plus`. No ensures of its own; `PlusToSpaceAppend` and `PlusOnlyBecomesSpace` state its behaviour. |
| Decoding.UnquotePlus | development/s3_unzip.py:55-59 | `unquote_plus(key, encoding='utf-8', errors='replace')`, which gives the stored key. No ensures of its own; `UnquotePlusQuotePlus`, `PlusOnlyBecomesSpace`, `PlusIsSpace`, `PercentTwentyIsSpace`, `UnquoteEscapeBetween`, `InvalidEscapeKept` and `InvalidEscapeReplaced` state its behaviour. |
| Decoding.HexChar | development/s3_unzip.py:55-59 | The upper-case hex digit written for `v` is a hex digit whose value is `v`. |
| Decoding.AsciiRunLength | development/s3_unzip.py:55-59 | The run `unquote` splits off is the longest all-ASCII prefix. |
| Decoding.PercentDecodeNoPercent | development/s3_unzip.py:55-59 | Bytes without `%` are left unchanged by percent-decoding. |
| Decoding.EncodeNoPercent | development/s3_unzip.py:55-59 | A string without `%` has no `%` byte in its UTF-8 encoding. |
| Decoding.UnquoteWithoutPercent | development/s3_unzip.py:55-59 | `unquote` leaves every string without `%` unchanged, non-ASCII characters included. |
| Decoding.PlusOnlyBecomesSpace | development/s3_unzip.py:55-59 | Without `%`, `unquote_plus` changes exactly the `+` characters, each into a space, and nothing else. |
| Decoding.QuoteBytesAscii | development/s3_unzip.py:55-59 | `quote_plus` writes only ASCII. |
| Decoding.EncodeAscii | development/s3_unzip.py:55-59 | The UTF-8 bytes of an ASCII string are its character codes. |
| Decoding.PlusToSpaceAppend | development/s3_unzip.py:55-59 | Replacing `+` by a space distributes over concatenation. |
| Decoding.QuoteByteDecodes | development/s3_unzip.py:55-59 | The text `quote_plus` writes for one byte percent-decodes back to that byte, whatever follows it. |
| Decoding.PercentDecodeQuoteBytes | development/s3_unzip.py:55-59 | Turning `+` into a space and then percent-decoding gives back exactly the bytes `quote_plus` escaped. |
| Decoding.UnquotePlusQuotePlus | development/s3_unzip.py:55-59 | `unquote_plus(quote_plus(s)) == s` for every key `s`. |
| Decoding.UnquoteAscii | development/s3_unzip.py:55-59 | An all-ASCII key is one run: it is percent-decoded and UTF-8 decoded as a whole. |
| Decoding.PercentDecodeOneEscape | development/s3_unzip.py:55-59 | Between bytes without `%`, one `%XY` is replaced by the byte it spells and everything else is kept. |
| Decoding.PercentDecodeLiteralPercent | development/s3_unzip.py:55-59 | A `%` that is not followed by two hex digits is kept as it is, and decoding goes on right after it. |
| Decoding.PlusIsSpace | development/s3_unzip.py:55-59 | A `+` between plain ASCII text decodes to a space. |
| Decoding.EncodedEscape | development/s3_unzip.py:55-59 | Between text without `%`, the UTF-8 bytes of an escape percent-decode to the one byte it spells. |
| Decoding.UnquoteEscapeBetween | development/s3_unzip.py:55-59 | One escape between plain ASCII text keeps the text before it, and its byte is decoded together with what follows. |
| Decoding.EncodedInvalidEscape | development/s3_unzip.py:55-59 | Between text without `%`, the UTF-8 bytes of `%zz` percent-decode to themselves. |
| Decoding.InvalidEscapeKept | development/s3_unzip.py:55-59 | `%zz` between plain ASCII text is kept unchanged by `unquote_plus`, and so is the text around it. |
| Decoding.PercentTwentyIsSpace | development/s3_unzip.py:55-59 | `%20` between plain ASCII text decodes to a space. |
| Decoding.InvalidEscapeReplaced | development/s3_unzip.py:55-59 | `%FF` between plain ASCII text decodes to one U+FFFD (`errors='replace'`), and the text around it is kept. |
| KeyDerivation.FindFrom | development/s3_unzip.py:61 | The leftmost occurrence of the separator at or after a position, or none at all. |
| KeyDerivation.Destination | development/s3_unzip.py:61 | It ends with `/`. What precedes the `/` is a prefix of the key without `.zip`, and it ends where the key ends or where a `.zip` starts. |
| KeyDerivation.ZipSuffixNoOverlap | development/s3_unzip.py:61 | Two occurrences of `.zip` cannot overlap. |
| KeyDerivation.NoCutBefore | development/s3_unzip.py:61 | A prefix of that kind has no `.zip` of the key starting inside it. |
| KeyDerivation.DestinationUnique | development/s3_unzip.py:61 | The destination is the ONLY prefix with the properties `Destination` states, followed by `/`. |
| KeyDerivation.DestinationWithoutZip | development/s3_unzip.py:61 | A key without `.zip` gets the whole key followed by `/`. |
| KeyDerivation.ReportDestination | development/s3_unzip.py:61 | `uploads/report.zip` gets the destination `uploads/report/`. |
| KeyDerivation.LineEnd | development/s3_unzip.py:75 | The first newline at or after a position, or the end of the key, and no newline before it. |
| KeyDerivation.LastZipBefore | development/s3_unzip.py:75 | The last position before a bound that is followed by one character and `zip`, or none at all. |
| KeyDerivation.MatchInLine | development/s3_unzip.py:75 | A match ends before the end of the line it starts on, because `.` does not match a newline. |
| KeyDerivation.LongestAt | development/s3_unzip.py:75 | Where a match starts, the greedy end found is a match and no match from there is longer. |
| KeyDerivation.NoneAt | development/s3_unzip.py:75 | Where the search moves on, no match starts. |
| KeyDerivation.SearchFromSpec | development/s3_unzip.py:75 | The search result is a match. No match starts earlier, and none from its start is longer. `None` means no match at all. |
| KeyDerivation.BackupMatchSpec | development/s3_unzip.py:75 | `re.search` is the leftmost-then-longest match over the whole key, and `None` exactly when nothing matches. |
| KeyDerivation.BackupMatch | development/s3_unzip.py:75 | The span of `re.search('(?<=/)(.*)(?=.zip)', key)`. Its ensures says a span starts after position 0 and lies within the key. `BackupMatchSpec` proves it is the leftmost, then longest, match, and `None` exactly when there is none. |
| KeyDerivation.BackupBaseName | development/s3_unzip.py:75-77 | `.group(0)` of that search, or `None` where `.group(0)` raises. No ensures of its own; `FirstSlashCapture`, `NoMatchWhen` and the examples `ReportBaseName`, `CaptureFromFirstSlash`, `CaptureToLastZip` and `CaptureBeforeAnyCharZip` state its behaviour. |
| KeyDerivation.BackupKey | development/s3_unzip.py:76-79 | The backup key `folder/<capture>_<timestamp>.zip`, or `None` when the search fails. No ensures of its own; `BackupKeyShape` states its behaviour. |
| KeyDerivation.FirstSlashCapture | development/s3_unzip.py:75-77 | On a key without newlines, the capture runs from just after the first `/` to the last "any character + `zip`". |
| KeyDerivation.NoMatchWhen | development/s3_unzip.py:75-77 | A key with no `/`, or with no "any character + `zip`", gives no match, so `.group(0)` raises. |
| KeyDerivation.BackupKeyShape | development/s3_unzip.py:76-79 | A backup key is the folder, `/`, the capture, `_`, the timestamp and `.zip`. |
| KeyDerivation.NoDotNoZip | development/s3_unzip.py:61 | A key without `.` contains no `.zip`. |
| KeyDerivation.ReportBaseName | development/s3_unzip.py:75-77 | The capture of `uploads/report.zip` is `report`. |
| KeyDerivation.CaptureFromFirstSlash | development/s3_unzip.py:75-77 | The capture of `a/b/c.zip` is `b/c`. |
| KeyDerivation.CaptureToLastZip | development/s3_unzip.py:75-77 | The capture of `a/b.zip.zip` is `b.zip`. |
| KeyDerivation.CaptureBeforeAnyCharZip | development/s3_unzip.py:75-77 | The capture of `a/dataxzip` is `data`. |
| Extraction.LastIndex | development/s3_unzip.py:27-29 | `getinfo(name)` is a record with that name, and no later record has it. |
| Extraction.ContentType | development/s3_unzip.py:31-32 | It is the guessed type when that is non-empty, otherwise `binary/octet-stream`, and it is never empty. |
| Extraction.IsDir | development/s3_unzip.py:27 | `is_dir()`: the name ends with `/`. No ensures of its own; `FileIndicesSpec` and `ExtractedAreFiles` state which names it keeps. |
| Extraction.EntryAt | development/s3_unzip.py:27-37 | The entry built for the k-th listed name: `getinfo`'s record gives its name and bytes, and the guessed type gives its content type. No ensures of its own; `EntryAtSpec`, `UniqueNamesOwnBytes` and `RepeatedNameReadsLast` state its behaviour. |
| Extraction.ExtractedUpTo | development/s3_unzip.py:25-38 | What the `parse_content` loop has built after the first n names. No ensures of its own; `ParseContent` is proved equal to it, and `ExtractedAreFiles` states its behaviour. |
| Extraction.ParseContent | development/s3_unzip.py:25-38 | The loop builds exactly `ExtractedUpTo` over the whole name list. |
| Extraction.FileIndicesSpec | development/s3_unzip.py:26-27 | The kept positions are increasing, and they are exactly the names that are not directories. |
| Extraction.ExtractedAreFiles | development/s3_unzip.py:25-38 | One entry per non-directory name, in name-list order. The k-th entry is built from the k-th such name. |
| Extraction.EntryAtSpec | development/s3_unzip.py:27-36 | An entry keeps the name it was listed under and carries that name's non-empty content type. |
| Extraction.UniqueNamesOwnBytes | development/s3_unzip.py:28-29 | With no repeated names, each entry carries the bytes of its own record. |
| Extraction.RepeatedNameReadsLast | development/s3_unzip.py:27-29 | A repeated name yields the same entry at every position, with the bytes of its last record. |
| S3Unzip.Apply | development/s3_unzip.py:81-99 | The effect of one `copy_object` or `put_object` on the stored objects. No ensures of its own; `ObjectStore.CopyObject` and `ObjectStore.PutObject` are proved to produce it, and `CopyKeepsFetch` states a property of it. |
| S3Unzip.ApplyAll | development/s3_unzip.py:81-99 | The effect of a request log, applied in order. No ensures of its own; `ApplyAllAppend` and `RunStateIsLog` state its behaviour. |
| S3Unzip.ApplyAllAppend | development/s3_unzip.py:81-99 | Applying two request logs one after the other is applying their concatenation. |
| S3Unzip.KeyLessIrreflexive | development/s3_unzip.py:64-68 | Listing order is irreflexive. |
| S3Unzip.KeyLessTransitive | development/s3_unzip.py:64-68 | Listing order is transitive. |
| S3Unzip.KeyLessTotal | development/s3_unzip.py:64-68 | Listing order is total. |
| S3Unzip.PrefixKeyLess | development/s3_unzip.py:64-68 | A key is listed before every longer key it is a prefix of. |
| S3Unzip.FirstListedIsKey | development/s3_unzip.py:64-71 | The first key listed under the prefix `key` is `key` itself exactly when `key` is stored. |
| S3Unzip.FirstListedStep | development/s3_unzip.py:64-68 | Looking at one more stored location keeps "least key with the prefix". |
| S3Unzip.ObjectStore.ListFirst | development/s3_unzip.py:64-68 | It returns the least stored key with the prefix in the bucket, or `None` when there is none. |
| S3Unzip.ObjectStore.CopyObject | development/s3_unzip.py:81-85 | The target now holds the source object. Nothing else changes, and the copy is logged. |
| S3Unzip.ObjectStore.GetObject | development/s3_unzip.py:87-87 | It returns the stored bytes, or `None` (`NoSuchKey`) exactly when the key is absent. |
| S3Unzip.ObjectStore.PutObject | development/s3_unzip.py:92-99 | The key now holds the given object. Nothing else changes, and the put is logged. |
| S3Unzip.Uploads | development/s3_unzip.py:91-99 | The puts of the upload loop, one per entry, in order, under the destination. No ensures of its own; `Upload` is proved to make them, and `KeyStepPutsUnder` states their keys. |
| S3Unzip.KeyStep | development/s3_unzip.py:64-99 | The writes and failure of one record, given its decoded key, backup key and destination. No ensures of its own; `ProcessKey` is proved to make them, and `KeyStepCompleted`, `BackupOnlyWhenPresent` and `KeyStepPutsUnder` state its behaviour. |
| S3Unzip.FetchStep | development/s3_unzip.py:87-99 | The writes and failure of `get_object`, `parse_content` and the uploads. No ensures of its own; `Fetch` is proved to make them, and `CopyKeepsFetch` states that the backup copy does not change them. |
| S3Unzip.RecordStep | development/s3_unzip.py:52-99 | One record: decode the key, derive the destination and the backup key, then `KeyStep`. No ensures of its own; `ProcessRecord` is proved to make its writes, and `CompletedRecordWrites`, `StepPutsUnderDestination` and `BackupOnlyWhenPresent` state its behaviour. |
| S3Unzip.Next | development/s3_unzip.py:51-114 | The run state after one more record; nothing changes once an exception has ended the handler. No ensures of its own; `HandleRecord` is proved to make it, and `NextPuts` and `RunSnoc` state its behaviour. |
| S3Unzip.Run | development/s3_unzip.py:45-114 | The record loop folded over all records, stopping at the first failure. No ensures of its own; `Handler` is proved to make it, and `AbortIsFinal`, `RunStateIsLog`, `NoBackupNameEndsHandler` and `PutsUnderDestinations` state its behaviour. |
| S3Unzip.ProcessKey | development/s3_unzip.py:69-99 | The new store is `KeyStep` applied to the old one: existence check, backup copy, fetch, unzip, uploads, and the failure raised. |
| S3Unzip.Fetch | development/s3_unzip.py:87-99 | The fetch, the extraction and the uploads change the store as `FetchStep` says: `NoSuchKey` or an unreadable archive fail with no write, otherwise one put per entry. |
| S3Unzip.CopyKeepsFetch | development/s3_unzip.py:81-87 | The backup copy leaves the object at the source key unchanged, so the fetch after it reads the original archive. |
| S3Unzip.Upload | development/s3_unzip.py:91-99 | One put per extracted entry, in order, each under the destination, with `utf-8` and `public-read`. |
| S3Unzip.ProcessRecord | development/s3_unzip.py:52-99 | One record changes the store as `RecordStep` says, and returns the record's failure. |
| S3Unzip.HandleRecord | development/s3_unzip.py:51-99 | One loop pass takes the run state of the earlier records to `Next` of it. |
| S3Unzip.Handler | development/s3_unzip.py:45-114 | The final store, the request log and the outcome are those of `Run` over all records. |
| S3Unzip.RunSnoc | development/s3_unzip.py:51 | The run over one more record is one more `Next`. |
| S3Unzip.AbortIsFinal | development/s3_unzip.py:101-114 | After a failing record, the later records change nothing: neither the store, nor the log, nor the outcome. |
| S3Unzip.RunStateIsLog | development/s3_unzip.py:51-99 | The store after the handler is the initial store with the logged requests applied in order. |
| S3Unzip.KeyStepCompleted | development/s3_unzip.py:69-99 | A completed pass made the backup copy, then exactly one put per extracted entry, in order. |
| S3Unzip.CompletedRecordWrites | development/s3_unzip.py:52-99 | A completed record was stored and has a capture. It wrote the copy to `folder/<capture>_<timestamp>.zip`, then one put per entry under the destination, with the entry's bytes and type, `utf-8` and `public-read`. |
| S3Unzip.BackupOnlyWhenPresent | development/s3_unzip.py:69-87 | The copy is the first request exactly when the key is stored and has a capture; every later request is a put. A failing record writes at most the copy. A missing key writes nothing and fails with `NoSuchKey`. |
| S3Unzip.NoBackupNameEndsHandler | development/s3_unzip.py:75-77 | A stored key without a capture aborts the handler. Nothing of that record or of later records is written. |
| S3Unzip.KeyStepPutsUnder | development/s3_unzip.py:91-99 | Every put of a pass goes to the record's bucket, under the destination prefix. |
| S3Unzip.StepPutsUnderDestination | development/s3_unzip.py:61-99 | Every put of a record goes to its bucket, under the prefix derived from its decoded key. |
| S3Unzip.NextPuts | development/s3_unzip.py:51-99 | A put after one more record was made earlier, or lies under that record's destination. |
| S3Unzip.PutsUnderDestinations | development/s3_unzip.py:51-99 | Every put the handler makes lies under the destination prefix of one of the records, in that record's bucket. |

## Left out

- Object storage is a map with a request log. Network errors, permissions, eventual consistency and the other `ClientError`s of `list_objects_v2`, `copy_object`, `get_object` and `put_object` are not modelled. For `get_object` only `NoSuchKey` is modelled: access errors and a failed `Body.read()` are not.
- The zip reader is left out, because the model carries no zip format or DEFLATE. It is the parameter `unzip`, and `None` stands for an exception raised while the archive is read (`InvalidArchive`). That covers `ZipFile` rejecting the bytes. It also covers `zippedData.read(name)` raising inside the loop, for example on a bad CRC, an encrypted member or an unsupported compression method. Both happen before any put, and both end the handler, so the model does not tell them apart. The close calls of `parse_content` have no effect in the model.
- Older `zipfile` versions wrote `is_dir()` as `filename[-1] == '/'`, which raises `IndexError` on an empty name. The model follows the `endswith('/')` form and does not model that failure.
- The MIME table is left out. `mimetypes.guess_type` is the parameter `guess`.
- The clock is left out. `datetime.now().isoformat()` is the parameter `now`, one timestamp per record index.
- The environment is left out. The backup folder is the parameter `folder`. A missing `backupfoldername` variable raises `KeyError` in the source, and the model does not include that failure.
- Logging is left out. The four `except` branches only print, so the model keeps only that any exception ends the handler.
- The event's shape is left out: the records are given already parsed as (bucket, raw key). `KeyError`s from a malformed event are not modelled.
- S3Unzip.ObjectStore.CopyObject: requires the source object to be stored. The only caller copies right after the existence check has found the key.
- S3Unzip.ObjectStore.CopyObject: copies the stored object with its metadata and its ACL. S3 does not copy the ACL: unless the request sets one, the copy gets the bucket's default ACL (private). `copy_object` here sets none, so the backup's `acl` field in the model is the source's, not S3's default. Nothing in the handler reads the backup's ACL.
- S3Unzip.ObjectStore.ListFirst: assumes S3 lists keys in code-point order. That is the same as UTF-8 binary order.
- S3Unzip.ProcessRecord: passes the backup key to `ProcessKey` before the existence check, while the source computes it, and reads the clock, only after the check. This changes nothing, because the computation is pure and its result is not used when the check fails.
