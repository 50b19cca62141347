# ENCScanner classification core in Dafny

ENCScanner walks a drive or directory and looks for three things: BitLocker
recovery keys, encrypted containers and virtual disk images. This project
models the part of `main.py` that decides what a file is, and proves
properties of that decision:

- **`check(f, min_entropy)`**, the classification chain for one file
  (`Classifier.Check`). It tests, in order:
  1. whether the full path glob-matches one of the two recovery-key file
     names;
  2. a regular-expression search for recovery keys in `*.TXT` files of at
     most 1 MiB, read as UTF-16-LE and, on a decode error, as UTF-8;
  3. a container test with two gates: the size is a multiple of 512, and
     libmagic reports `application/octet-stream`. A file that passes both
     gates has its first 2048 bytes read. It gets ENTROPY_HIT when their
     Shannon entropy is above the threshold. It gets DISKIMG_HIT when they
     carry a GPT or MBR partition signature, whatever the score; this flag
     replaces ENTROPY_HIT.

  The two exception handlers map `PermissionError` to a dropped file and any
  other exception to an error record.
- **The helpers `check` relies on:**
  - `fnmatch` with `*` patterns under `os.path.normcase` (`Glob`);
  - `re.findall` with the fixed 55-character key pattern (`KeyScan`);
  - the byte-offset signature and sector-alignment tests (`Signature`);
  - `entropy` (`Entropy`).
- **The driver:**
  - the scan over the file list (`Coordinator.Scan`; `executor.map` keeps
    input order);
  - the five result lists KEY_FILES, TXT_FILES, ENTROPY_HITS, DISKIMG_HITS
    and ERRORS (`Coordinator.Partition`);
  - the validation of the entropy threshold at the prompt.

The pure library routines the decision relies on are modelled: `fnmatch`,
`os.path.normcase`, `re.findall`, `dict.fromkeys`, `count` and slicing.
Every call that touches the filesystem, and libmagic, is an input of the
model instead. A `FileObs` records, for one path:

- whether it is a regular file;
- the size, or the exception raised while reading it;
- the outcome of reading the file as text in each encoding: a text, a
  `UnicodeDecodeError`, or another exception;
- the MIME type;
- the first bytes.

The normcase rule and the base-2 logarithm are function parameters. Python
floats are modelled as exact reals.

Some behaviour of `main.py` is easy to misread. The model follows the code:

- A `*.TXT` file whose decoded text holds no key does not stop the chain.
  Only the `if any(k)` branches return (main.py:70-71, 80-81); otherwise the
  file goes on to the container test.
- A `*.TXT` file above the size limit is not skipped either. The test at
  main.py:63 only guards the text search, so the file also goes on to the
  container test. The comment there says 10 MB, but the constant is 1048576
  (1 MiB).
- A disk-image hit keeps its entropy score in the record and in the CSV row
  (main.py:107, 200).
- The MBR signature tested is 0x55 0xAA (`b'U\xaa'`, main.py:104). The
  comment at main.py:47 says "00 AA"; the comment at main.py:103 agrees with
  the code.

The file names are matched against the full path, not the base name, so a
key-file name in a directory name also counts (main.py:57).

## Model

| member | source | states |
|---|---|---|
| Classifier.Check | main.py:48-114 | Every record carries the file's own path. For a regular non-key file whose size call raises, the exception goes to the handlers. A non-file gives (None, f, 0). The result is a KEY record exactly when a regular file's path matches a key-file name. A dropped file is a regular file that either raised a PermissionError or whose text decoded in neither encoding. An ERROR record carries the description of an exception other than PermissionError. A TXT record needs a *.TXT name of at most 1048576 bytes and non-empty matches that are all keys, taken from the UTF-16-LE text, or from the UTF-8 text only after a UTF-16-LE decode error. A flag needs size divisible by 512, MIME application/octet-stream and the score of the head bytes. ENTROPY_HIT means score > threshold and no signature. DISKIMG_HIT means a signature. |
| Classifier.TextSearch | main.py:61-85 | A name that is not `*.TXT` falls through, and so does a file above 1048576 bytes. When the size call raises, its exception goes to the handlers. A returned record carries the path and is a TXT or an ERROR record. A dropped file raised a PermissionError or failed both decodes. |
| Classifier.ContainerCheck | main.py:90-107 | The one record carries the path and is a flag record or an ERROR record. When the size call raises, its exception goes to the handlers. Failing either gate gives (None, f, 0) and skips the later calls: a size that is not a multiple of 512, or an aligned size with a MIME label other than application/octet-stream. A flag needs size % 512 == 0, MIME application/octet-stream and the head bytes, and the score is their entropy. ENTROPY_HIT means score > threshold and no signature. DISKIMG_HIT means a signature. |
| Classifier.Caught | main.py:109-114 | The result is None exactly for PermissionError. Any other exception gives an ERROR record with its description. |
| Classifier.SearchKeys | main.py:69-71 | Returns a TXT record exactly when findall found something, carrying all the matches. Otherwise it falls through. |
| Classifier.NamesHoldNoWildcard | main.py:57-61 | The two key-file names and ".TXT" contain no `*`. |
| Classifier.KeyFileIffPathContainsName | main.py:57-58 | A file is classified KEY exactly when it is a regular file and its normalised full path contains one of the two normalised names. |
| Classifier.KeyNameAnywhereInPath | main.py:57-58 | A regular file whose path contains "BitLocker Recovery Key" anywhere is a KEY, whatever its size, content or extension. |
| Classifier.TextNameIsSuffix | main.py:61 | `*.TXT` holds exactly when the normalised path ends with the normalised ".TXT". |
| Classifier.Utf8OnlyAfterUtf16DecodeError | main.py:67-77 | When UTF-16-LE did not raise a decode error, the UTF-8 outcome cannot change the result. |
| Classifier.UndecodableTextIsDropped | main.py:83-85 | A small *.TXT file that decodes in neither encoding is dropped (None). |
| Classifier.TextWithoutKeyFallsThrough | main.py:61-90 | A *.TXT file above 1 MiB, or one whose decoded text has no key window, gets exactly the container-test result. |
| Classifier.Utf16KeyIsHit | main.py:67-71 | A *.TXT file of at most 1 MiB whose UTF-16-LE text holds a key yields TXT with all of findall's matches on that text. |
| Classifier.TextWithKeyIsHit | main.py:76-81 | A small *.TXT file that fails UTF-16-LE and has a key in its UTF-8 text yields TXT with all of findall's matches. |
| Classifier.SizeExceptionIsCaught | main.py:63 | For a regular non-key file whose size call raises (main.py:63 for `*.TXT`, main.py:90 otherwise): a PermissionError gives None, and any other exception gives ("ERROR", f, e). |
| Classifier.Utf16ExceptionIsCaught | main.py:67-68 | A non-decode exception from the UTF-16-LE read of a small *.TXT file ends check through the handlers. |
| Classifier.Utf8ExceptionIsCaught | main.py:77-78 | After a UTF-16-LE decode error, a non-decode exception from the UTF-8 read ends check through the handlers. |
| Classifier.UngatedFileIsUnflagged | main.py:90-107 | A regular non-key file that reaches the container test with an unaligned size, or an aligned size and a MIME label other than application/octet-stream, gets (None, f, 0). An exception the skipped calls would have raised plays no part. |
| Classifier.MimeExceptionIsCaught | main.py:92 | For a file that reaches the container test with an aligned size, an exception from the MIME sniff ends check through the handlers. |
| Classifier.HeadExceptionIsCaught | main.py:94-96 | For an aligned octet-stream, an exception from reading the first 2048 bytes ends check through the handlers. |
| Classifier.SignatureOverridesEntropy | main.py:99-107 | A file that reaches the container test is DISKIMG_HIT with its entropy score when it is an aligned octet-stream with a partition signature, whatever the entropy. That includes a *.TXT file above 1 MiB or one without a key. |
| Classifier.EntropyHitIffAboveThreshold | main.py:99-107 | For a file that reaches the container test (*.TXT files above 1 MiB or without a key included) and is an aligned octet-stream without a signature, the result is ENTROPY_HIT exactly when the score is strictly above the threshold. Either way the record keeps the score. |
| Classifier.Utf8KeyMissedWhenUtf16Decodes | main.py:65-81 | As written: a 56-byte *.TXT file whose UTF-16-LE reading (28 characters) decodes fine is never read as UTF-8. A key in its UTF-8 text is missed, and the file falls into no bucket. |
| Classifier.IntendedFindsKeyInEitherEncoding | main.py:65-81 | With the corrected text search, a small *.TXT file is a TXT hit when either its UTF-16-LE text or its UTF-8 text holds a key. UTF-16-LE matches take precedence. |
| Classifier.IntendedAgreesWhenUtf16Decisive | main.py:65-81 | The corrected search classifies exactly as written whenever the UTF-16-LE reading fails or holds a key. |
| Classifier.TextSearchIntended | main.py:65-85 | The corrected text search. A name that is not `*.TXT` falls through. A TXT record has non-empty matches, taken from the UTF-16-LE or the UTF-8 text. A dropped file raised a PermissionError or failed both decodes. |
| Classifier.CheckIntended | main.py:48-114 | check with the corrected text search. Every record carries the path. KEY is returned exactly for a regular file with a key-file name. A TXT record needs a `*.TXT` name and non-empty matches that are all keys. |
| Glob.GlobMatch | main.py:57 | A match against a pattern without `*` is equality. A match against a pattern that starts with a literal begins with that literal. |
| Glob.FnMatch | main.py:57 | Under the identity case rule (POSIX), fnmatch is exactly the case-sensitive glob match. |
| Glob.NormalizeByIdentity | main.py:57 | The identity case rule leaves every string unchanged. |
| Glob.StarMatchesAll | main.py:57 | A lone `*` matches every name. |
| Glob.LiteralStarIsPrefix | main.py:57 | `lit*` matches exactly the names that start with lit. |
| Glob.LiteralMatchesItself | main.py:57 | A star-free pattern matches only itself. |
| Glob.LeadingStarMatchesSomeSuffix | main.py:57 | `*pat` matches exactly when pat matches some suffix of the name. |
| Glob.StarLiteralStarIsSubstring | main.py:57 | `*lit*` is exactly a substring test. |
| Glob.StarLiteralIsSuffix | main.py:61 | `*lit` is exactly a suffix test. |
| Glob.Normalize | main.py:57 | normcase keeps the length and maps each character by the case rule. |
| Glob.FnMatchContains | main.py:57 | fnmatch with `*lit*` is a substring test on the normalised name and literal. |
| Glob.FnMatchEndsWith | main.py:61 | fnmatch with `*lit` is a suffix test on the normalised name and literal. |
| Glob.PosixNormCase | main.py:57 | On POSIX, normcase leaves every character unchanged. |
| Glob.WindowsNormCase | main.py:57 | On Windows, normcase maps `/` to `\`. It lowers A-Z and the Latin-1 capitals U+00C0 to U+00DE (except U+00D7) by 32. Every other character is unchanged. `*` and only `*` maps to `*`. |
| Glob.CaseRulesKeepWildcard | main.py:57 | Both case rules keep the wildcard. |
| Glob.WindowsTextSuffixIgnoresCase | main.py:61 | Under the Windows rule, a name matches `*.TXT` exactly when its last four characters lower-case to ".txt". |
| Glob.WindowsTextSuffixSpellings | main.py:61 | Under the Windows rule, names ending in ".txt", ".Txt", ".tXT" or ".TXT" all match `*.TXT`. |
| KeyScan.KeyIsEightGroups | main.py:18 | The per-offset definition of a key (a hyphen at offsets 6, 13, ..., 48, a digit elsewhere) is the pattern read as written: eight groups of six digits joined by hyphens. |
| KeyScan.MatchStarts | main.py:69 | Every reported start holds a key window and is at or after the scan position. Consecutive matches are at least 55 apart. |
| KeyScan.FindAll | main.py:18 | One string per reported start. The k-th string is the text at the k-th reported start, so it is a whole key: eight groups of six digits joined by hyphens. |
| KeyScan.MatchesDisjoint | main.py:69 | Reported matches never overlap. |
| KeyScan.MatchStartsComplete | main.py:69 | Every key window is reported or lies inside a reported match that starts earlier. |
| KeyScan.ReportedWindowsAreLeftmost | main.py:69 | A key window not covered by a reported match is itself reported. |
| KeyScan.NoMatchesIffNoKey | main.py:69-70 | findall returns nothing exactly when no 55-character window is a key. |
| KeyScan.AnyMatchesIffNonEmpty | main.py:70 | `any(k)` on findall's result holds exactly when the list is non-empty. |
| KeyScan.WholeKeyIsFound | main.py:18 | A text that is exactly one key yields that key alone. |
| Signature.Slice | main.py:104 | Python slicing clips past the end. The slice has full length exactly when the buffer reaches hi, and then it equals s[lo..hi]. |
| Signature.HasDiskImageSignature | main.py:104 | True exactly when the buffer is long enough and holds "EFI PART" at bytes 512-519, or 0x55 0xAA at bytes 510-511. |
| Signature.DivisionIsWhole | main.py:90 | size / 512 is a whole number exactly when 512 divides size. |
| Signature.SectorAligned | main.py:90 | The size test holds exactly when size is a multiple of 512. |
| Entropy.Count | main.py:36 | `s.count(c)` is the number of occurrences of c in s (its multiplicity in the multiset of s). It is at most len(s) and positive exactly when c occurs. |
| Entropy.Distinct | main.py:36 | `dict.fromkeys` lists every value of the buffer exactly once, and nothing else. |
| Entropy.FirstIndex | main.py:36 | The index of the first occurrence of a value. |
| Entropy.DistinctInFirstOccurrenceOrder | main.py:36 | The distinct values come in the order of their first occurrence. |
| Entropy.CountsSumToLength | main.py:36 | The counts of the distinct values add up to the buffer length. |
| Entropy.Probabilities | main.py:36 | One probability per distinct value. |
| Entropy.ProbabilityAt | main.py:36 | The k-th probability is count / len of the k-th distinct value. |
| Entropy.ProbabilitiesSumToOne | main.py:36 | For a non-empty buffer the probabilities sum to 1. |
| Entropy.ProbabilitiesInUnitInterval | main.py:36 | Each probability lies in (0, 1]. |
| Entropy.Shannon | main.py:35-38 | The empty buffer has entropy 0. Python's sum of an empty list is 0, so there is no division by zero. |
| Entropy.DistinctOfConstant | main.py:36 | A buffer of one repeated byte has just that byte as its distinct values. |
| Entropy.ConstantBufferHasZeroEntropy | main.py:35-38 | A non-empty buffer of one repeated byte has entropy 0. |
| Entropy.UniformBufferEntropy | main.py:35-38 | A buffer whose n distinct values occur equally often has entropy -log2(1/n). |
| Entropy.UniformProbabilities | main.py:36 | In such a buffer every probability is 1/n. |
| Entropy.EntropyNonNegative | main.py:37 | With a logarithm that is at most 0 on (0, 1], the entropy is never negative. |
| Entropy.SumPLogPNonPositive | main.py:37 | Under the same condition, the sum of p * log2(p) over probabilities is at most 0. |
| Coordinator.ThresholdAccepted | main.py:227-229 | The threshold is accepted exactly when 0 < e < 8. |
| Coordinator.Scan | main.py:132-133 | One result per file, in file order, each being check on that file. |
| Coordinator.PresentKeepsRecords | main.py:136 | Dropping the None results keeps exactly the records that were present. |
| Coordinator.SelectKeepsCategory | main.py:137-145 | Bucket selection keeps exactly the records of the given category. |
| Coordinator.StripAll | main.py:138-146 | `x[1:]` on every row: the length is kept and each element is stripped. |
| Coordinator.Positions | main.py:137-145 | The indices of the results of a category, strictly increasing, and all of them. |
| Coordinator.Partition | main.py:136-146 | For every category, the list for that category has exactly one row per result of that category. |
| Coordinator.RaisedFileIsDroppedOrError | main.py:136-146 | A file whose check ended in a PermissionError is in no list. One that ended in another exception is in ERRORS with its description. |
| Coordinator.BucketIsOrderedFilter | main.py:136-146 | Each bucket is the order-preserving filter: its k-th row is the stripped k-th result of that category. |
| Coordinator.BucketStep | main.py:136-146 | One more result adds at most one row, at the end of its own bucket. |
| Coordinator.BucketsPartitionResults | main.py:136-146 | The five bucket sizes plus the results with no bucket add up to the number of files. |
| Coordinator.BucketsDisjoint | main.py:137-145 | No result is in two buckets. |
| Coordinator.DroppedFileInNoBucket | main.py:136 | A file for which check returned None is in no bucket. |
| Coordinator.KeyFileIsListed | main.py:137-138 | Every regular file with a key-file name appears in KEY_FILES. |

## Findings

| source | as written | input that shows it | evidently intended | confidence | as-written member | corrected member |
|---|---|---|---|---|---|---|
| main.py:65-81 | UTF-8 is tried only when the UTF-16-LE read raises `UnicodeDecodeError`. A text that decodes as UTF-16-LE but holds no key falls through to the container test. | A UTF-8 file `x.TXT` holding one recovery key and a line feed (56 bytes). Pairs of ASCII bytes never form a surrogate, so the UTF-16-LE read succeeds with 28 characters, fewer than the 55 of a key. The size is not a multiple of 512, so the result is (None, f, 0) and the file appears in no list. | The comment at main.py:74-75 says a key saved by the user in a UTF-8 file should be a hit. UTF-8 should also be searched when the UTF-16-LE text holds no key. | medium; not executed | Classifier.Utf8KeyMissedWhenUtf16Decodes | Classifier.IntendedFindsKeyInEitherEncoding |

`Classifier.TextSearchIntended` and `Classifier.CheckIntended` state the
corrected search. `Classifier.IntendedAgreesWhenUtf16Decisive` proves they
differ from `main.py` only in the case above. The scan and the buckets use
`Classifier.Check`: they describe the scanner as it behaves.

## Left out

- `collect` (`os.walk`, `os.path.isfile`): the list of files is an input of `Coordinator.Scan`, because it depends on the filesystem.
- The thread pool and the tqdm progress bar are left out. `executor.map` returns results in input order, so the scan is modelled as a sequential map; concurrency does not affect the results.
- libmagic is an input: the MIME string is a field of `FileObs`, because what `magic.from_buffer` answers lies outside the program.
- The UTF-16-LE and UTF-8 codecs and the newline translation of text mode are inputs: each read is an outcome field of `FileObs`. Decoding itself is not modelled, so the 56-byte example under Findings is argued from how UTF-16-LE decodes, not proved from bytes.
- Entropy.Shannon: `math.log` is the parameter `log2`, and Python floats are exact reals. Rounding is not modelled, so a score within rounding of the threshold may compare differently in Python.
- Entropy.Shannon: the upper bound of 8 bits per byte is not proved. The model carries no facts about the logarithm beyond those a lemma assumes.
- Coordinator.ThresholdAccepted: `float(input(...) or "7.9")` is not modelled. That covers the default of 7.9, strings that do not parse, and NaN (which Python's range test lets through). The accepted values are stated on reals.
- Signature.SectorAligned: `(size / 512).is_integer()` is a float division. The model works on exact reals, which agree with floats for every file size below 2^53 bytes.
- KeyScan.IsDigit: `\d` also matches non-ASCII Unicode digits. The model accepts only 0-9.
- Glob.GlobMatch: fnmatch's `?` and `[...]` are not modelled, because the scanner's three patterns use only `*`.
- Glob.WindowsNormCase: Windows `normcase` lowercases all of Unicode. The model covers ASCII and the Latin-1 capitals.
- No concrete key literal is checked on its own. `KeyScan.WholeKeyIsFound` covers every key.
- The one `size` field of `FileObs` stands for both `os.path.getsize` calls (main.py:63 and main.py:90). The model therefore assumes the file does not change while `check` runs. A file that grows or shrinks between the two calls, or where only the second call raises, is not modelled. The same holds for the two binary opens at main.py:92 and main.py:94.
- The integer score 0 versus a float score is not distinguished: both are the real 0.0 in `Record`.
- The unclosed binary handle at main.py:92 is not modelled, because resources are not modelled.
- `write_csv`, `shutil.copy` of key files, every `print`, `input`, the banner, the timing and the results directory (main.py:117-205) are I/O with no decision in them.
- The `source_dir` checks at main.py:221-225 are filesystem I/O.
