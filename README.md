# Thai invoice OCR: intake utilities

A Dafny model of the utility layer of a Thai-invoice OCR tool (`src/utils.py`
with the constants it reads from `config.py`). It covers:

- `OCRException`, the domain error: a message and an optional code from the
  `ERROR_CODES` table;
- `validate_file`, the intake gate run before OCR: the path must exist, its
  pathlib suffix lowercased must be `.pdf`, and its size must be at most
  `PDF_CONFIG["max_file_size_mb"]` (100) MiB. The checks run in that order
  and the first one that fails raises E-001, E-002 or E-005. An `OSError`
  from either `stat()` call that pathlib does not turn into "missing"
  passes through with no code;
- `save_json`, reduced to how it reports a failed write (E-301);
- `generate_output_filename`: `{stem}_{suffix}_{YYYYmmdd_HHMMSS}.{extension}`;
- `calculate_confidence`: the mean of the scores that are not `None`, or 0.0.

Everything is pure, so the model is made of datatypes, functions and
lemmas. The filesystem and the clock are passed in as values:

- `ValidateFile` takes the path and a `Disk`: the answer to the `stat()`
  call that `Path.exists()` makes, and the answer to the later
  `Path.stat()`. Each answer is a `FileStat` or the errno of the `OSError`
  raised. `Exists` follows pathlib's `exists()` (Python 3.12): ENOENT,
  EBADF, ENOTDIR and ELOOP mean False, a path holding NUL is False, and any
  other errno is raised again. An `OSError` that leaves `validate_file` has
  no error code, so the error side of the result is `Raised`: an
  `OCRException` or a bare `OSError`.
- `GenerateOutputFilename` takes the `datetime.now()` reading as a
  `DateTime` record.

An exception is modelled as the `Failure` arm of a `Result`.

Modules, one file each:

- `Wrappers` (`wrappers.dfy`): `Option` and `Result`.
- `Config` (`config.dfy`): `PDF_CONFIG` and `ERROR_CODES` as constant maps.
- `PurePath` (`pure_path.dfy`): POSIX `pathlib` `name`, `suffix` and `stem`,
  with `str.rfind`.
- `PyFormat` (`py_format.dfy`): `str(int)`, the `:.2f` format of a size in
  MiB, `strftime("%Y%m%d_%H%M%S")`, and ASCII `str.lower()`. The first
  three come with a parser that reads the text back: `ParseDigits`,
  `ParseFixed2` and `ParseTimestamp`. Lowercasing loses information, so it
  has none.
- `RealSeq` (`real_seq.dfy`): sum, minimum and maximum of a sequence of reals.
- `Utils` (`utils.dfy`): the five pieces of `src/utils.py` listed above.

The size check keeps the source's form, `size / 2**20 > 100`, over reals.
`SizeLimitInBytes` proves that this is the same as `size > 104857600` bytes.
The E-005 message formats the size with Python's `:.2f` rule, which is
round-half-even on the exact quotient. That rule is modelled with integers.

## Model

| member | source | states |
|---|---|---|
| `Utils.NewOcrException` | src/utils.py:16-21 | the exception keeps its message and code unchanged; the code is absent unless one is passed |
| `Utils.Exists` | src/utils.py:39 | `exists()` is True exactly when `stat()` succeeds on a path without NUL, False exactly for a NUL in the path or an ENOENT, EBADF, ENOTDIR or ELOOP failure, and otherwise re-raises the `stat()` errno |
| `Utils.ValidateFile` | src/utils.py:24-59 | validation never yields `False`: it is `True` or an error; every `OCRException` carries E-001, E-002 or E-005, the code is a key of `ERROR_CODES`, and the message opens with that code's description; a bare `OSError` carries the errno of one of the two `stat()` calls |
| `Utils.ValidateRaisesIff` | src/utils.py:37-51 | a bare `OSError` leaves exactly when `exists()` re-raises one, or when the path exists, has a PDF name and the later `stat()` fails; every other failure is an `OCRException` |
| `Utils.ValidateRaisesUncoded` | src/utils.py:39 | for every path without NUL, a first `stat()` failing with an errno other than ENOENT, EBADF, ENOTDIR or ELOOP (EACCES, ENAMETOOLONG, ...) makes validation raise that errno as a bare `OSError`, not E-001, whatever the later `stat()` says |
| `Utils.ValidateVanishedFile` | src/utils.py:39-51 | "a.pdf" removed between `exists()` and `stat()` raises the later ENOENT |
| `Utils.ValidateVanishedText` | src/utils.py:39-51 | "a.txt" removed between `exists()` and `stat()` still fails with E-002: the format check runs first |
| `Utils.ValidateNulPath` | src/utils.py:39-43 | every path holding NUL fails with E-001 naming the path, whatever the filesystem says |
| `Utils.SizeMb` | src/utils.py:51 | the size in MiB is non-negative and times 2**20 gives back the byte count |
| `Utils.ValidateMissing` | src/utils.py:39-43 | a path `exists()` reports False for fails with E-001 and the message "File not found: " + path, whatever the name and whatever the later `stat()` would say |
| `Utils.ValidateFormatError` | src/utils.py:45-49 | an existing path fails with E-002 exactly when its name does not end in ".pdf" in any case (with a character before the dot); the message quotes the unlowered pathlib suffix |
| `Utils.ValidateSizeError` | src/utils.py:51-56 | an existing file with a PDF name, whose later `stat()` succeeds, fails with E-005 exactly when that `stat()` reports more than 104857600 bytes; the message is "File too large: {size:.2f}MB. Max: 100MB" |
| `Utils.PdfNameIsFormatCheck` | src/utils.py:45 | the format check passes exactly when the name ends in ".pdf" in any case, with at least one character before the dot |
| `Utils.PlainPdfName` | src/utils.py:45 | "a.pdf" passes the format check |
| `Utils.NotFoundError` | src/utils.py:40-43 | the E-001 error carries E-001, a key of `ERROR_CODES`, and its message opens with that code's description |
| `Utils.InvalidFormatError` | src/utils.py:46-49 | the E-002 error carries E-002, a key of `ERROR_CODES`, and its message opens with that code's description |
| `Utils.TooLargeError` | src/utils.py:53-56 | the E-005 error carries E-005, a key of `ERROR_CODES`, and its message opens with that code's description |
| `Utils.SizeLimitInBytes` | src/utils.py:51-52 | `size / 2**20 > 100` holds exactly when `size > 104857600` |
| `Utils.ValidateAcceptsIff` | src/utils.py:37-59 | validation returns `True` exactly for a path without NUL whose first `stat()` succeeds, with a PDF name, and whose later `stat()` reports at most 104857600 bytes; directories are not excluded |
| `Utils.ValidateAcceptsUpperCase` | src/utils.py:45-49 | "x.PDF" of any size within the limit passes: the suffix is compared lowercased |
| `Utils.ValidateAcceptsDirectory` | src/utils.py:39-49 | a directory named "scans/x.pdf" is accepted, because only `exists()` is asked |
| `Utils.ValidateRejectsInnerPdf` | src/utils.py:45-49 | once `exists()` succeeds, "report.pdf.bak" fails with E-002 and the message quotes the suffix ".bak" |
| `Utils.ValidateRejectsNoSuffix` | src/utils.py:45-49 | once `exists()` succeeds, ".pdf" and "pdf" fail with E-002 and the message quotes an empty suffix |
| `Utils.ValidateSizeBoundary` | src/utils.py:51-59 | exactly 104857600 bytes is accepted |
| `Utils.ValidateSizeOneOver` | src/utils.py:51-56 | 104857601 bytes fails with the E-005 error for that size |
| `Utils.TooLargeMessageExample` | src/utils.py:53-56 | 104857601 bytes is reported as "File too large: 100.00MB. Max: 100MB" |
| `Utils.SaveJson` | src/utils.py:63-70 | a successful write returns `True`; any failure becomes E-301 with "Cannot write output file: " + cause, and that code is in `ERROR_CODES` |
| `Utils.GenerateOutputFilename` | src/utils.py:72-76 | the filename is exactly 18 characters longer than the stem, suffix and extension together |
| `Utils.OutputFilenameParts` | src/utils.py:74-76 | the filename starts with stem + "_" + suffix + "_" and ends with "." + extension; the 15 characters between read back as the clock reading |
| `Utils.FilenameParts` | src/utils.py:76 | for any stem, `{stem}_{suffix}_{stamp}.{extension}` splits back into its head, a stamp that reads back as the clock reading, and the extension |
| `Utils.OutputFilenameDistinct` | src/utils.py:75-76 | two different clock readings give two different filenames for the same input, suffix and extension |
| `Utils.OutputFilenameIsBareName` | src/utils.py:74-76 | with no '/' in the suffix or the extension, the filename is one path component: no directory of the input reaches it |
| `Utils.OutputFilenameExample` | src/utils.py:72-76 | ("invoice.pdf", "extracted", "json") at 2024-01-02 03:04:05 gives "invoice_extracted_20240102_030405.json" |
| `Utils.OutputFilenameKeepsInnerSuffix` | src/utils.py:74-76 | "in/a.tar.gz" gives a name starting "a.tar_extracted_": the directory and only the last suffix are dropped |
| `Utils.Present` | src/utils.py:82 | the present scores are no more than the entries, and they are empty exactly when every entry is `None` |
| `Utils.PresentFromScores` | src/utils.py:82 | each present score occurs in the list as `Some` of it |
| `Utils.CalculateConfidence` | src/utils.py:78-83 | an empty list or one of only `None` gives 0.0 |
| `Utils.ConfidenceIsMean` | src/utils.py:82-83 | with a score present, the result is the sum of the present scores over their count, and lies between their minimum and maximum |
| `Utils.ConfidenceInPercentRange` | src/utils.py:78-83 | scores within 0-100 give a result within 0-100 |
| `Utils.ConfidenceOfPresent` | src/utils.py:80-83 | two lists with the same present scores have the same confidence |
| `Utils.PresentIgnoresNone` | src/utils.py:82 | inserting a `None` anywhere leaves the present scores unchanged |
| `Utils.ConfidenceIgnoresNone` | src/utils.py:80-83 | inserting or removing a `None` anywhere leaves the confidence unchanged |
| `Utils.ConfidencePermutation` | src/utils.py:82-83 | reordering the list leaves the confidence unchanged |
| `Utils.PresentConcat` | src/utils.py:82 | filtering distributes over concatenation |
| `Utils.PresentCount` | src/utils.py:82 | each value occurs among the present scores as often as `Some` of it occurs in the list |
| `Utils.ConfidenceExamples` | src/utils.py:80-83 | [] and [None, None] give 0.0; [80, None, 60] gives 70.0 |
| `PurePath.LastIndexOf` | src/utils.py:45 | `rfind`: the result is -1 or a position holding the character, and no later position holds it |
| `PurePath.Name` | src/utils.py:37 | the name has no '/', is never ".", and is no longer than the path |
| `PurePath.Suffix` | src/utils.py:45 | the suffix is empty, or a dot followed by at least one character, none of them a dot |
| `PurePath.Stem` | src/utils.py:74-76 | stem + suffix is the name; a non-empty name has a non-empty stem |
| `PurePath.SuffixAtLastDot` | src/utils.py:45-47 | when the name's last dot is neither its first nor its last character, the suffix is the name from that dot on and the stem (line 76) is the name before it |
| `PurePath.NoSuffixWithoutInnerLastDot` | src/utils.py:45-47 | when no such dot exists, the suffix is empty and the stem (line 76) is the whole name |
| `PurePath.NameOfBareName` | src/utils.py:37 | a single component other than "." is its own name |
| `PurePath.NameOfJoin` | src/utils.py:37 | `dir/file` has the name `file`, whatever the directories |
| `PurePath.NameIgnoresTrailingSlash` | src/utils.py:37 | a trailing '/' does not change the name |
| `PurePath.NameIgnoresTrailingDot` | src/utils.py:37 | a trailing "/." does not change the name ("x.pdf/." is named "x.pdf"), and "." has the empty name |
| `PurePath.PdfSuffixIff` | src/utils.py:45 | the lowercased suffix is ".pdf" exactly when the name has at least 5 characters and its last four, lowercased, are ".pdf" |
| `PurePath.PdfSuffixIsNameEnd` | src/utils.py:45 | a suffix that lowercases to ".pdf" is the last four characters of a name of at least five |
| `PurePath.PdfNameEndIsSuffix` | src/utils.py:45 | four final characters that lowercase to ".pdf", after at least one more, are the suffix |
| `PurePath.StemOfPlainName` | src/utils.py:74-76 | the stem of "invoice.pdf" is "invoice" |
| `PurePath.StemOfDoubleSuffix` | src/utils.py:74-76 | the stem of "in/a.tar.gz" is "a.tar": the directory and only the last suffix go |
| `PurePath.NameOfArchive` | src/utils.py:74 | the name of "in/a.tar.gz" is "a.tar.gz" |
| `PurePath.NameOfScan` | src/utils.py:37 | the name of "scans/x.pdf" is "x.pdf" |
| `PurePath.SuffixExamples` | src/utils.py:45-47 | the suffixes of "x.PDF", "report.pdf.bak", ".pdf", "pdf" and "scans/x.pdf" are ".PDF", ".bak", "", "" and ".pdf" |
| `PurePath.SuffixIsLastDot` | src/utils.py:45-47 | only the last dot starts the suffix: "x.PDF" has ".PDF", "report.pdf.bak" has ".bak" |
| `PurePath.SuffixNeedsStem` | src/utils.py:45-47 | a leading dot or no dot gives no suffix: ".pdf" and "pdf" have "" |
| `PurePath.SuffixAfterDirectory` | src/utils.py:45-47 | the directories play no part: "scans/x.pdf" has ".pdf" |
| `PyFormat.Lower` | src/utils.py:45 | lowercasing keeps the length and maps each ASCII capital to its small letter, leaving everything else alone |
| `PyFormat.Padded` | src/utils.py:75 | a strftime field is exactly its width in digits |
| `PyFormat.ParsePadded` | src/utils.py:75 | a zero-padded field reads back as the number written |
| `PyFormat.PaddedInjective` | src/utils.py:75 | different numbers give different fields of the same width |
| `PyFormat.DatePart` | src/utils.py:75 | `%Y%m%d` is eight digits |
| `PyFormat.ClockPart` | src/utils.py:75 | `%H%M%S` is six digits |
| `PyFormat.DatePartRoundTrip` | src/utils.py:75 | the year, month and day read back from their digits |
| `PyFormat.ClockPartRoundTrip` | src/utils.py:75 | the hour, minute and second read back from their digits |
| `PyFormat.Timestamp` | src/utils.py:75 | `%Y%m%d_%H%M%S` is 15 characters: eight digits, '_', six digits |
| `PyFormat.TimestampRoundTrip` | src/utils.py:75 | parsing the stamp gives back the clock reading |
| `PyFormat.TimestampDistinct` | src/utils.py:75 | two different clock readings never share a stamp |
| `PyFormat.TimestampExample` | src/utils.py:75 | 2024-01-02 03:04:05 is stamped "20240102_030405" |
| `PyFormat.Decimal` | src/utils.py:54 | `str(n)` is one or more digits with no leading zero |
| `PyFormat.ParseDecimal` | src/utils.py:54 | `str(n)` reads back as `n` |
| `PyFormat.RoundHalfEven` | src/utils.py:54 | the result is within half a unit of the exact quotient, and an exact tie goes to the even neighbour |
| `PyFormat.Fixed2` | src/utils.py:54 | two-decimal text has a point third from the end, and its integer part has no leading zero |
| `PyFormat.Fixed2RoundTrip` | src/utils.py:54 | two-decimal text reads back as the hundredths written |
| `PyFormat.MibText` | src/utils.py:54 | the `{file_size_mb:.2f}` text reads back under `ParseFixed2` as a count of hundredths |
| `PyFormat.MibTextAccurate` | src/utils.py:54 | the MiB figure in the E-005 message is within half a hundredth of the exact size in MiB |
| `RealSeq.Sum` | src/utils.py:83 | the sum taken from the front equals `sum()`'s left-to-right accumulation from 0 |
| `RealSeq.SumPermutation` | src/utils.py:83 | the sum depends only on the multiset of values |
| `RealSeq.SumConcat` | src/utils.py:83 | the sum distributes over concatenation |
| `RealSeq.SumRemove` | src/utils.py:83 | removing one element takes its value out of the sum |
| `RealSeq.SumBounds` | src/utils.py:83 | n values in [lo, hi] have a sum in [n*lo, n*hi] |
| `RealSeq.DivideBounds` | src/utils.py:83 | dividing by a positive count keeps bounds scaled by that count |
| `RealSeq.MeanWithin` | src/utils.py:83 | the mean of values in [lo, hi] lies in [lo, hi] |
| `RealSeq.MeanBetweenMinAndMax` | src/utils.py:83 | the mean lies between the minimum and the maximum |
| `RealSeq.Min` | src/utils.py:83 | the minimum is an element and no element is smaller |
| `RealSeq.Max` | src/utils.py:83 | the maximum is an element and no element is larger |

## Left out

- Logging: `setup_logging`, the logger, and every `logger.info` and `logger.error` call are side effects only. So the "one log entry per accepted file" is not modelled.
- `save_json`: opening the file and `json.dump` (UTF-8, `ensure_ascii=False`, two-space indent) are library I/O. Only the mapping of the write outcome to `True` or E-301 is modelled. The exception text is an opaque `cause` string.
- Filesystem: the answers of the two `stat()` calls are the `disk` parameter. Errno values use Linux numbering. Symbolic links, and the Windows `winerror` values pathlib also ignores, are not modelled.
- Clock: `datetime.now()` is the `now` parameter.
- GenerateOutputFilename: requires a valid date with a four-digit year (1000-9999). Outside that range `%Y` is platform-dependent.
- PyFormat.Lower: handles ASCII letters only. The source's `str.lower()` is full Unicode lowercasing. The error message quotes the suffix unlowered, so only the ".pdf" comparison depends on this.
- PurePath: models POSIX paths only, with the Python 3.12 rule for `suffix` and `stem` (a dot counts only when it is neither the first nor the last character of the name). Later Python releases treat a trailing '.' differently, which would change the E-002 message for a name like "x.". Windows separators and drives are not modelled.
- Floating point: `calculate_confidence` is modelled with exact reals, so float rounding of the sum and the quotient is not captured. Non-numeric list entries, which would raise in `sum`, are not modelled.
- PyFormat.MibText: takes the size in MiB as the exact quotient. Python's float equals it for sizes below 2**53 bytes; larger sizes may print differently. The comparison with 100 is exact for every size.
- `config.py`: creating the directories, reading the `TESSERACT_PATH` environment variable, and the OCR, image, table, extraction-regex, output and logging tables. Nothing in `src/utils.py` reads them.
- Error codes: `OCRException` keeps its code optional (`error_code=None`), and the model does the same with `Option<string>`. The `OCRException`s raised by the validator and by `save_json` are proved to always carry a code from `ERROR_CODES`; a bare `OSError` that passes through the validator carries none.
