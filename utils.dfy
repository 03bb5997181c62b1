/** The utilities of `src/utils.py`: the domain exception, the intake
    validator, the error mapping of the JSON writer, output filename
    generation and confidence averaging. The filesystem and the clock are
    not consulted: what `Path.exists()`/`Path.stat()` and `datetime.now()`
    report is passed in. */
module Utils {
  import opened Wrappers
  import Config
  import PurePath
  import PyFormat
  import RealSeq

  // ---------------------------------------------------------------------
  // OCRException
  // ---------------------------------------------------------------------

  /** `OCRException`: a message and an optional code from `ERROR_CODES`. */
  datatype OcrException = OcrException(message: string, errorCode: Option<string>)

  /** `OCRException(message, error_code=None)`: the message and the code are
      stored as given, and the code is absent unless one is passed. */
  function NewOcrException(message: string, errorCode: Option<string> := None): (e: OcrException)
    ensures e.message == message && e.errorCode == errorCode
  {
    OcrException(message, errorCode)
  }

  /** The error carries a code listed in `ERROR_CODES`, and its message opens
      with that code's description. */
  predicate Coded(e: OcrException) {
    && e.errorCode.Some?
    && e.errorCode.value in Config.ErrorCodes
    && Config.ErrorCodes[e.errorCode.value] <= e.message
  }

  // ---------------------------------------------------------------------
  // validate_file
  // ---------------------------------------------------------------------

  /** What `stat()` reports for an existing path. Whether it is a directory
      is recorded only to show that validation never asks. */
  datatype FileStat = FileStat(isDirectory: bool, sizeBytes: nat)

  /** What one `stat()` call on the path comes to: the path's status, or the
      `OSError` it raises, identified by its errno. */
  datatype StatAnswer = Stat(info: FileStat) | StatFailed(errno: nat)

  /** The filesystem as `validate_file` meets it: the answer to the `stat()`
      that `Path.exists()` makes, then the answer to the later `Path.stat()`.
      The two differ only when the path changes in between. */
  datatype Disk = Disk(atExists: StatAnswer, atStat: StatAnswer)

  /** A path whose status does not change during validation. */
  function Steady(info: FileStat): Disk {
    Disk(Stat(info), Stat(info))
  }

  /** The errno values that pathlib's `exists()` reports as False instead of
      raising (Linux numbering): ENOENT 2, EBADF 9, ENOTDIR 20, ELOOP 40. */
  const IgnoredErrnos: set<nat> := {2, 9, 20, 40}

  /** `Path.exists()`: it asks `stat()`. A path holding a NUL character
      cannot be passed to the system (`ValueError`) and does not exist; a
      failed `stat()` means False when its errno is one of `IgnoredErrnos`,
      and otherwise the `OSError` is raised again (the `Failure` arm). */
  function Exists(path: string, answer: StatAnswer): (r: Result<bool, nat>)
    ensures r == Success(true) <==> '\0' !in path && answer.Stat?
    ensures r == Success(false)
        <==> '\0' in path || (answer.StatFailed? && answer.errno in IgnoredErrnos)
    ensures r.Failure? ==> answer == StatFailed(r.error) && r.error !in IgnoredErrnos
  {
    if '\0' in path then Success(false)
    else match answer
      case Stat(_) => Success(true)
      case StatFailed(errno) => if errno in IgnoredErrnos then Success(false) else Failure(errno)
  }

  const MiB: nat := 1024 * 1024

  /** `PDF_CONFIG["max_file_size_mb"]` megabytes, in bytes: 104857600. */
  const MaxFileSizeBytes: nat := Config.MaxFileSizeMb * MiB

  /** `st_size / (1024 * 1024)`: the size in MiB, exactly. */
  function SizeMb(bytes: nat): (mb: real)
    ensures mb >= 0.0
    ensures mb * MiB as real == bytes as real
  {
    bytes as real / MiB as real
  }

  /** More text after a message keeps the message's opening. */
  lemma {:induction false} PrefixKept(opening: string, head: string, rest: string)
    requires opening <= head
    ensures opening <= head + rest
  {
    assert (head + rest)[..|head|] == head;
  }

  /** The E-001 error of `validate_file`. */
  function NotFoundError(filePath: string): (e: OcrException)
    ensures Coded(e) && e.errorCode == Some("E-001")
  {
    PrefixKept("File not found", "File not found: ", filePath);
    NewOcrException("File not found: " + filePath, Some("E-001"))
  }

  /** The E-002 error of `validate_file`, quoting the suffix. */
  function InvalidFormatError(suffix: string): (e: OcrException)
    ensures Coded(e) && e.errorCode == Some("E-002")
  {
    var rest := suffix + ". Only PDF supported.";
    PrefixKept("Invalid file format", "Invalid file format: ", rest);
    NewOcrException("Invalid file format: " + rest, Some("E-002"))
  }

  /** The E-005 error of `validate_file`, quoting the size in MiB and the limit. */
  function TooLargeError(bytes: nat): (e: OcrException)
    ensures Coded(e) && e.errorCode == Some("E-005")
  {
    var rest := PyFormat.MibText(bytes) + "MB. Max: " + PyFormat.Decimal(Config.MaxFileSizeMb) + "MB";
    PrefixKept("File too large", "File too large: ", rest);
    NewOcrException("File too large: " + rest, Some("E-005"))
  }

  /** The final component of the path ends in ".pdf" in any letter case, with
      at least one character before the dot. */
  predicate HasPdfName(filePath: string) {
    var name := PurePath.Name(filePath);
    |name| >= 5 && PyFormat.Lower(name[|name| - 4..]) == ".pdf"
  }

  /** What leaves `validate_file` when it does not return: an `OCRException`,
      or an `OSError` of the filesystem that passes through with no code. */
  datatype Raised = Ocr(exc: OcrException) | OsError(errno: nat)

  /** `validate_file(file_path)` on the filesystem `disk`. The three checks
      run in order and the first that fails decides the error; there is no
      `False` result. An `OSError` that `exists()` re-raises, or one from the
      later `stat()`, leaves uncaught. */
  function ValidateFile(filePath: string, disk: Disk): (r: Result<bool, Raised>)
    ensures r.Success? ==> r.value
    ensures r.Failure? && r.error.Ocr? ==>
      Coded(r.error.exc) && r.error.exc.errorCode.value in {"E-001", "E-002", "E-005"}
    ensures r.Failure? && r.error.OsError? ==>
      disk.atExists == StatFailed(r.error.errno) || disk.atStat == StatFailed(r.error.errno)
  {
    var suffix := PurePath.Suffix(filePath);
    var found := Exists(filePath, disk.atExists);
    if found.Failure? then
      Failure(OsError(found.error))
    else if !found.value then
      Failure(Ocr(NotFoundError(filePath)))
    else if PyFormat.Lower(suffix) !in [".pdf"] then
      Failure(Ocr(InvalidFormatError(suffix)))
    else if disk.atStat.StatFailed? then
      Failure(OsError(disk.atStat.errno))
    else if SizeMb(disk.atStat.info.sizeBytes) > Config.MaxFileSizeMb as real then
      Failure(Ocr(TooLargeError(disk.atStat.info.sizeBytes)))
    else
      Success(true)
  }

  /** The size check in whole bytes: dividing by 2**20 loses nothing, so
      "more than 100 MB" is "more than 104857600 bytes". */
  lemma {:induction false} SizeLimitInBytes(bytes: nat)
    ensures SizeMb(bytes) > Config.MaxFileSizeMb as real <==> bytes > 104857600
  {
    assert Config.MaxFileSizeMb == 100;
  }

  /** A path that does not exist fails with E-001 naming the path, whatever
      its name and whatever the later `stat()` would say. */
  lemma {:induction false} ValidateMissing(filePath: string, disk: Disk)
    requires '\0' in filePath || (disk.atExists.StatFailed? && disk.atExists.errno in IgnoredErrnos)
    ensures ValidateFile(filePath, disk)
         == Failure(Ocr(OcrException("File not found: " + filePath, Some("E-001"))))
  {
  }

  /** An `OSError` passes through `validate_file` exactly when `exists()`
      re-raises one, or when the path exists, has a PDF name, and the later
      `stat()` fails; in every other case a failure is an `OCRException`. */
  lemma {:induction false} ValidateRaisesIff(filePath: string, disk: Disk)
    ensures var r := ValidateFile(filePath, disk);
      (r.Failure? && r.error.OsError?)
        <==> '\0' !in filePath
             && ((disk.atExists.StatFailed? && disk.atExists.errno !in IgnoredErrnos)
                 || (disk.atExists.Stat? && HasPdfName(filePath) && disk.atStat.StatFailed?))
  {
    PdfNameIsFormatCheck(filePath);
  }

  /** An existing path fails with E-002 exactly when its name does not end
      in ".pdf" (any case); the message quotes the suffix as pathlib gives it. */
  lemma {:induction false} ValidateFormatError(filePath: string, disk: Disk)
    requires '\0' !in filePath && disk.atExists.Stat?
    ensures var r := ValidateFile(filePath, disk);
      (r.Failure? && r.error.Ocr? && r.error.exc.errorCode == Some("E-002")) <==> !HasPdfName(filePath)
    ensures var r := ValidateFile(filePath, disk);
      r.Failure? && r.error.Ocr? && r.error.exc.errorCode == Some("E-002") ==>
        r.error.exc.message == "Invalid file format: " + (PurePath.Suffix(filePath) + ". Only PDF supported.")
  {
    var suffix := PurePath.Suffix(filePath);
    var r := ValidateFile(filePath, disk);
    PdfNameIsFormatCheck(filePath);
    if HasPdfName(filePath) {
      assert r.Success? || r.error.OsError? || r == Failure(Ocr(TooLargeError(disk.atStat.info.sizeBytes)));
    } else {
      assert r == Failure(Ocr(InvalidFormatError(suffix)));
    }
  }

  /** `HasPdfName` is the format check of `validate_file`. */
  lemma {:induction false} PdfNameIsFormatCheck(filePath: string)
    ensures HasPdfName(filePath) <==> PyFormat.Lower(PurePath.Suffix(filePath)) in [".pdf"]
  {
    PurePath.PdfSuffixIff(filePath);
  }

  /** An existing file with a PDF name fails with E-005 exactly when the
      later `stat()` reports more than 104857600 bytes; exactly 100 MB is
      accepted. */
  lemma {:induction false} ValidateSizeError(filePath: string, disk: Disk)
    requires '\0' !in filePath && disk.atExists.Stat? && disk.atStat.Stat?
    requires HasPdfName(filePath)
    ensures var r := ValidateFile(filePath, disk);
      (r.Failure? && r.error.Ocr? && r.error.exc.errorCode == Some("E-005"))
        <==> disk.atStat.info.sizeBytes > 104857600
    ensures var r := ValidateFile(filePath, disk);
      r.Failure? && r.error.Ocr? && r.error.exc.errorCode == Some("E-005") ==>
        r.error.exc.message == "File too large: " + (PyFormat.MibText(disk.atStat.info.sizeBytes) + "MB. Max: "
                               + PyFormat.Decimal(Config.MaxFileSizeMb) + "MB")
  {
    assert Exists(filePath, disk.atExists) == Success(true);
    PdfNameIsFormatCheck(filePath);
    SizeLimitInBytes(disk.atStat.info.sizeBytes);
  }

  /** Validation accepts exactly the existing paths with a PDF name whose
      later `stat()` reports at most 104857600 bytes, directories included. */
  lemma {:induction false} ValidateAcceptsIff(filePath: string, disk: Disk)
    ensures ValidateFile(filePath, disk) == Success(true)
        <==> && '\0' !in filePath
             && disk.atExists.Stat?
             && HasPdfName(filePath)
             && disk.atStat.Stat?
             && disk.atStat.info.sizeBytes <= MaxFileSizeBytes
  {
    if '\0' !in filePath && disk.atExists.Stat? {
      ValidateFormatError(filePath, disk);
      if HasPdfName(filePath) && disk.atStat.Stat? {
        ValidateSizeError(filePath, disk);
      }
    }
  }

  /** "x.PDF" passes the format check: the suffix is compared lowercased. */
  lemma ValidateAcceptsUpperCase(info: FileStat)
    requires info.sizeBytes <= MaxFileSizeBytes
    ensures ValidateFile("x.PDF", Steady(info)) == Success(true)
  {
    var upper := "x.PDF";
    assert '\0' !in upper;
    assert HasPdfName(upper) by {
      PurePath.NameOfBareName(upper);
      assert upper[1..] == ".PDF";
      assert PyFormat.Lower(".PDF") == ".pdf";
    }
    ValidateAcceptsIff(upper, Steady(info));
  }

  /** A directory named "x.pdf" is accepted: only existence is asked for. */
  lemma ValidateAcceptsDirectory(sizeBytes: nat)
    requires sizeBytes <= MaxFileSizeBytes
    ensures ValidateFile("scans/x.pdf", Steady(FileStat(true, sizeBytes))) == Success(true)
  {
    var pdf, path := "x.pdf", "scans/x.pdf";
    assert '\0' !in path;
    assert HasPdfName(path) by {
      PurePath.NameOfScan();
      assert pdf[1..] == ".pdf";
      assert PyFormat.Lower(".pdf") == ".pdf";
    }
    ValidateAcceptsIff(path, Steady(FileStat(true, sizeBytes)));
  }

  /** "report.pdf.bak" fails the format check, quoting the suffix ".bak":
      only the last suffix counts. */
  lemma ValidateRejectsInnerPdf(disk: Disk)
    requires disk.atExists.Stat?
    ensures ValidateFile("report.pdf.bak", disk)
         == Failure(Ocr(OcrException("Invalid file format: " + (".bak" + ". Only PDF supported."), Some("E-002"))))
  {
    var path := "report.pdf.bak";
    assert '\0' !in path;
    PurePath.SuffixIsLastDot();
    assert !HasPdfName(path) by {
      PdfNameIsFormatCheck(path);
      assert PyFormat.Lower(".bak")[1] == 'b';
    }
    ValidateFormatError(path, disk);
  }

  /** ".pdf" and "pdf" have no suffix, so they fail the format check quoting
      an empty one. */
  lemma ValidateRejectsNoSuffix(disk: Disk)
    requires disk.atExists.Stat?
    ensures ValidateFile(".pdf", disk)
         == Failure(Ocr(OcrException("Invalid file format: " + ("" + ". Only PDF supported."), Some("E-002"))))
    ensures ValidateFile("pdf", disk)
         == Failure(Ocr(OcrException("Invalid file format: " + ("" + ". Only PDF supported."), Some("E-002"))))
  {
    var hidden, bare := ".pdf", "pdf";
    assert '\0' !in hidden && '\0' !in bare;
    PurePath.SuffixNeedsStem();
    assert PyFormat.Lower("") == "";
  }

  /** The size boundary: a file of exactly 104857600 bytes is accepted. */
  lemma ValidateSizeBoundary(info: FileStat)
    requires info.sizeBytes == 104857600
    ensures ValidateFile("a.pdf", Steady(info)) == Success(true)
  {
    var name := "a.pdf";
    assert '\0' !in name;
    PlainPdfName();
    ValidateAcceptsIff(name, Steady(info));
  }

  /** One byte over the limit is rejected with E-005. */
  lemma ValidateSizeOneOver(info: FileStat)
    requires info.sizeBytes == 104857601
    ensures ValidateFile("a.pdf", Steady(info)) == Failure(Ocr(TooLargeError(104857601)))
  {
    var name := "a.pdf";
    assert '\0' !in name;
    PlainPdfName();
    ValidateSizeError(name, Steady(info));
  }

  /** An `OSError` other than the four `exists()` swallows passes through
      uncoded, whatever the path and whatever the later `stat()` would say:
      EACCES (13) for a path under a directory that may not be searched,
      ENAMETOOLONG (36) for an over-long component, and so on. */
  lemma {:induction false} ValidateRaisesUncoded(filePath: string, errno: nat, later: StatAnswer)
    requires '\0' !in filePath && errno !in IgnoredErrnos
    ensures ValidateFile(filePath, Disk(StatFailed(errno), later)) == Failure(OsError(errno))
  {
  }

  /** A file that vanishes after `exists()` makes the later `stat()` raise
      its ENOENT (2) through `validate_file`. */
  lemma ValidateVanishedFile(info: FileStat)
    ensures ValidateFile("a.pdf", Disk(Stat(info), StatFailed(2))) == Failure(OsError(2))
  {
    var pdf := "a.pdf";
    assert '\0' !in pdf;
    PlainPdfName();
    ValidateRaisesIff(pdf, Disk(Stat(info), StatFailed(2)));
  }

  /** The format check comes before the later `stat()`: a vanished "a.txt"
      still fails with E-002. */
  lemma ValidateVanishedText(info: FileStat)
    ensures var r := ValidateFile("a.txt", Disk(Stat(info), StatFailed(2)));
      r.Failure? && r.error.Ocr? && r.error.exc.errorCode == Some("E-002")
  {
    var txt := "a.txt";
    assert '\0' !in txt;
    assert !HasPdfName(txt) by {
      PurePath.NameOfBareName(txt);
      assert txt[1..] == ".txt";
      assert PyFormat.Lower(".txt")[1] == 't';
    }
    ValidateFormatError(txt, Disk(Stat(info), StatFailed(2)));
  }

  /** A path holding NUL does not exist for pathlib, whatever the disk says:
      `exists()` catches the `ValueError`. */
  lemma {:induction false} ValidateNulPath(filePath: string, disk: Disk)
    requires '\0' in filePath
    ensures ValidateFile(filePath, disk) == Failure(Ocr(NotFoundError(filePath)))
  {
  }

  /** "a.pdf" is a PDF name. */
  lemma PlainPdfName()
    ensures HasPdfName("a.pdf")
  {
    var name := "a.pdf";
    PurePath.NameOfBareName(name);
    assert name[1..] == ".pdf";
  }

  /** One byte over the limit is reported as "100.00MB", rounded as `:.2f`
      rounds it. */
  lemma TooLargeMessageExample()
    ensures TooLargeError(104857601).message == "File too large: 100.00MB. Max: 100MB"
  {
    assert "File too large: " + ("100" + "." + "00" + "MB. Max: " + "100" + "MB")
        == "File too large: 100.00MB. Max: 100MB";
    assert PyFormat.RoundHalfEven(100 * 104857601, 1024 * 1024) == 10000;
    assert PyFormat.Decimal(100) == "100";
    assert PyFormat.Padded(0, 2) == "00";
    assert PyFormat.MibText(104857601) == "100" + "." + "00";
    assert Config.MaxFileSizeMb == 100;
  }

  // ---------------------------------------------------------------------
  // save_json
  // ---------------------------------------------------------------------

  /** What opening the output file and `json.dump` into it came to: done, or
      an exception whose text is `cause`. */
  datatype WriteOutcome = Written | WriteFailed(cause: string)

  /** `save_json(data, output_path)`, reduced to how it reports the write:
      `True` when it succeeded, E-301 wrapping the cause when it did not. */
  function SaveJson(attempt: WriteOutcome): (r: Result<bool, OcrException>)
    ensures r.Success? <==> attempt.Written?
    ensures r.Success? ==> r.value
    ensures r.Failure? ==> Coded(r.error) && r.error.errorCode == Some("E-301")
    ensures r.Failure? ==> r.error.message == "Cannot write output file: " + attempt.cause
  {
    match attempt
    case Written => Success(true)
    case WriteFailed(cause) =>
      Failure(NewOcrException("Cannot write output file: " + cause, Some("E-301")))
  }

  // ---------------------------------------------------------------------
  // generate_output_filename
  // ---------------------------------------------------------------------

  /** `generate_output_filename(input_path, suffix, extension)` at clock
      reading `now`: `{stem}_{suffix}_{%Y%m%d_%H%M%S}.{extension}`. */
  function GenerateOutputFilename(inputPath: string, suffix: string, extension: string,
                                  now: PyFormat.DateTime): (name: string)
    requires PyFormat.ValidDateTime(now)
    ensures |name| == |PurePath.Stem(inputPath)| + |suffix| + |extension| + 18
  {
    PurePath.Stem(inputPath) + "_" + suffix + "_" + PyFormat.Timestamp(now) + "." + extension
  }

  /** `name` is `head`, then a `%Y%m%d_%H%M%S` stamp that reads back as
      `now`, then "." and `extension`. */
  predicate StampedBetween(name: string, head: string, extension: string, now: PyFormat.DateTime) {
    && |head| + |extension| + 1 <= |name|
    && name[..|head|] == head
    && name[|name| - |extension| - 1] == '.'
    && name[|name| - |extension|..] == extension
    && PyFormat.ParseTimestamp(name[|head|..|name| - |extension| - 1]) == Some(now)
  }

  /** The filename can be taken apart again: it opens with the input's stem
      and the suffix, ends with the extension, and the fifteen characters
      before ".{extension}" read back as the clock reading. */
  lemma {:induction false} OutputFilenameParts(inputPath: string, suffix: string, extension: string,
                                               now: PyFormat.DateTime)
    requires PyFormat.ValidDateTime(now)
    ensures StampedBetween(GenerateOutputFilename(inputPath, suffix, extension, now),
                           PurePath.Stem(inputPath) + "_" + suffix + "_", extension, now)
  {
    FilenameParts(PurePath.Stem(inputPath), suffix, extension, now);
  }

  /** `OutputFilenameParts` for any stem. */
  lemma {:induction false} FilenameParts(stem: string, suffix: string, extension: string,
                                         now: PyFormat.DateTime)
    requires PyFormat.ValidDateTime(now)
    ensures StampedBetween(stem + "_" + suffix + "_" + PyFormat.Timestamp(now) + "." + extension,
                           stem + "_" + suffix + "_", extension, now)
  {
    var head := stem + "_" + suffix + "_";
    var ts := PyFormat.Timestamp(now);
    var name := head + ts + "." + extension;
    SplitAround(name, head, ts, extension);
    var stamp := name[|head|..|name| - |extension| - 1];
    assert stamp == ts;
    PyFormat.TimestampRoundTrip(now);
  }

  /** Where the pieces of `head + middle + "." + tail` sit. */
  lemma {:induction false} SplitAround(whole: string, head: string, middle: string, tail: string)
    requires whole == head + middle + "." + tail
    ensures var end := |whole| - |tail|;
      && whole[..|head|] == head
      && whole[|head|..end - 1] == middle
      && whole[end - 1] == '.'
      && whole[end..] == tail
  {
  }

  /** Two different clock readings give two different filenames for the same
      input path, suffix and extension. */
  lemma {:induction false} OutputFilenameDistinct(inputPath: string, suffix: string, extension: string,
                               t1: PyFormat.DateTime, t2: PyFormat.DateTime)
    requires PyFormat.ValidDateTime(t1) && PyFormat.ValidDateTime(t2)
    requires t1 != t2
    ensures GenerateOutputFilename(inputPath, suffix, extension, t1)
         != GenerateOutputFilename(inputPath, suffix, extension, t2)
  {
    var head := PurePath.Stem(inputPath) + "_" + suffix + "_";
    var ts1, ts2 := PyFormat.Timestamp(t1), PyFormat.Timestamp(t2);
    var n1 := GenerateOutputFilename(inputPath, suffix, extension, t1);
    var n2 := GenerateOutputFilename(inputPath, suffix, extension, t2);
    SplitAround(n1, head, ts1, extension);
    SplitAround(n2, head, ts2, extension);
    PyFormat.TimestampDistinct(t1, t2);
    assert n1[|head|..|head| + 15] != n2[|head|..|head| + 15];
  }

  /** With no '/' in the suffix or the extension the result is a single path
      component: the input's directories never reach it. */
  lemma {:induction false} OutputFilenameIsBareName(inputPath: string, suffix: string, extension: string,
                                 now: PyFormat.DateTime)
    requires PyFormat.ValidDateTime(now)
    requires '/' !in suffix && '/' !in extension
    ensures var name := GenerateOutputFilename(inputPath, suffix, extension, now);
      '/' !in name && PurePath.Name(name) == name
  {
    var name := GenerateOutputFilename(inputPath, suffix, extension, now);
    var stem := PurePath.Stem(inputPath);
    var ts := PyFormat.Timestamp(now);
    assert '/' !in stem by {
      assert stem == PurePath.Name(inputPath)[..|stem|];
    }
    assert '/' !in ts by {
      forall i | 0 <= i < |ts| ensures ts[i] != '/' {
        if i != 8 { assert PyFormat.IsDigit(ts[i]); }
      }
    }
    assert name == stem + "_" + suffix + "_" + ts + "." + extension;
    assert name[|stem|] == '_';
    PurePath.NameOfBareName(name);
  }

  /** The worked example: "invoice.pdf", "extracted", "json" at
      2024-01-02 03:04:05. */
  lemma OutputFilenameExample()
    ensures GenerateOutputFilename("invoice.pdf", "extracted", "json",
                                   PyFormat.DateTime(2024, 1, 2, 3, 4, 5))
         == "invoice_extracted_20240102_030405.json"
  {
    var now := PyFormat.DateTime(2024, 1, 2, 3, 4, 5);
    assert PurePath.Stem("invoice.pdf") == "invoice" by {
      PurePath.StemOfPlainName();
    }
    assert PyFormat.Timestamp(now) == "20240102_030405" by {
      PyFormat.TimestampExample();
    }
    ExampleSpellings();
  }

  /** Only the directories and the last suffix are dropped: "in/a.tar.gz"
      has the stem "a.tar". */
  lemma OutputFilenameKeepsInnerSuffix(now: PyFormat.DateTime)
    requires PyFormat.ValidDateTime(now)
    ensures GenerateOutputFilename("in/a.tar.gz", "extracted", "csv", now)
         == "a.tar_extracted_" + PyFormat.Timestamp(now) + ".csv"
  {
    assert PurePath.Stem("in/a.tar.gz") == "a.tar" by {
      PurePath.StemOfDoubleSuffix();
    }
    ExampleSpellings();
  }

  /** The literal concatenations the two filename examples spell out, kept
      apart from the examples' larger proof contexts. */
  lemma ExampleSpellings()
    ensures "invoice" + "_" + "extracted" + "_" + "20240102_030405" + "." + "json"
         == "invoice_extracted_20240102_030405.json"
    ensures "a.tar" + "_" + "extracted" + "_" == "a.tar_extracted_"
  {
  }

  // ---------------------------------------------------------------------
  // calculate_confidence
  // ---------------------------------------------------------------------

  /** `[s for s in scores if s is not None]`, keeping the order. */
  function Present(scores: seq<Option<real>>): (valid: seq<real>)
    ensures |valid| <= |scores|
    ensures valid == [] <==> forall i | 0 <= i < |scores| :: scores[i].None?
  {
    if scores == [] then []
    else
      var rest := Present(scores[1..]);
      if scores[0].Some? then [scores[0].value] + rest else rest
  }

  /** Every present score is a score of the list. */
  lemma {:induction false} PresentFromScores(scores: seq<Option<real>>, j: nat)
    requires j < |Present(scores)|
    ensures Some(Present(scores)[j]) in scores
  {
    var rest := Present(scores[1..]);
    if scores[0].Some? && j == 0 {
      assert scores[0] == Some(Present(scores)[0]);
    } else {
      var k := if scores[0].Some? then j - 1 else j;
      assert Present(scores)[j] == rest[k];
      PresentFromScores(scores[1..], k);
      assert Some(rest[k]) in scores[1..];
    }
  }

  /** `calculate_confidence(scores)`: the mean of the scores that are not
      None, and 0.0 when there are none. */
  function CalculateConfidence(scores: seq<Option<real>>): (r: real)
    ensures (forall i | 0 <= i < |scores| :: scores[i].None?) ==> r == 0.0
  {
    if scores == [] then 0.0
    else
      var valid := Present(scores);
      if valid != [] then RealSeq.Sum(valid) / |valid| as real else 0.0
  }

  lemma {:induction false} PresentConcat(a: seq<Option<real>>, b: seq<Option<real>>)
    ensures Present(a + b) == Present(a) + Present(b)
  {
    if a == [] {
      assert a + b == b;
    } else {
      assert (a + b)[1..] == a[1..] + b;
      PresentConcat(a[1..], b);
    }
  }

  /** Each value occurs among the present scores as often as `Some` of it
      occurs among all scores. */
  lemma {:induction false} PresentCount(scores: seq<Option<real>>, x: real)
    ensures multiset(Present(scores))[x] == multiset(scores)[Some(x)]
  {
    if scores != [] {
      var head, rest := scores[0], scores[1..];
      PresentCount(rest, x);
      assert scores == [head] + rest;
      assert multiset(scores) == multiset{head} + multiset(rest);
      if head.Some? {
        assert Present(scores) == [head.value] + Present(rest);
        assert multiset(Present(scores)) == multiset{head.value} + multiset(Present(rest));
      } else {
        assert Present(scores) == Present(rest);
      }
    }
  }

  /** With at least one score present, the result is the mean of the present
      scores and lies between their least and greatest. */
  lemma {:induction false} ConfidenceIsMean(scores: seq<Option<real>>)
    requires exists i | 0 <= i < |scores| :: scores[i].Some?
    ensures var valid := Present(scores);
      && valid != []
      && CalculateConfidence(scores) == RealSeq.Sum(valid) / |valid| as real
      && RealSeq.Min(valid) <= CalculateConfidence(scores) <= RealSeq.Max(valid)
  {
    RealSeq.MeanBetweenMinAndMax(Present(scores));
  }

  /** Scores between 0 and 100 give a confidence between 0 and 100. */
  lemma {:induction false} ConfidenceInPercentRange(scores: seq<Option<real>>)
    requires forall i | 0 <= i < |scores| && scores[i].Some? :: 0.0 <= scores[i].value <= 100.0
    ensures 0.0 <= CalculateConfidence(scores) <= 100.0
  {
    var valid := Present(scores);
    if valid != [] {
      forall j | 0 <= j < |valid| ensures 0.0 <= valid[j] <= 100.0 {
        PresentFromScores(scores, j);
        var i :| 0 <= i < |scores| && scores[i] == Some(valid[j]);
      }
      RealSeq.MeanWithin(valid, 0.0, 100.0);
    }
  }

  /** The confidence depends only on the present scores. */
  lemma {:induction false} ConfidenceOfPresent(a: seq<Option<real>>, b: seq<Option<real>>)
    requires Present(a) == Present(b)
    ensures CalculateConfidence(a) == CalculateConfidence(b)
  {
    if a == [] || b == [] {
      assert Present(a) == [];
    }
  }

  /** A None contributes nothing to the present scores, wherever it stands. */
  lemma {:induction false} PresentIgnoresNone(scores: seq<Option<real>>, k: nat)
    requires k <= |scores|
    ensures Present(scores[..k] + [None] + scores[k..]) == Present(scores)
  {
    var front, back := scores[..k], scores[k..];
    var none: seq<Option<real>> := [None];
    var pf, pb := Present(front), Present(back);
    PresentConcat(front, none);
    PresentOfNone();
    assert Present(front + none) == pf + [];
    assert pf + [] == pf;
    PresentConcat(front + none, back);
    assert Present(front + none + back) == pf + pb;
    assert front + back == scores;
    PresentConcat(front, back);
  }

  /** A lone None gives no present score. */
  lemma PresentOfNone()
    ensures Present([None]) == []
  {
    var none: seq<Option<real>> := [None];
    assert none[1..] == [];
  }

  /** Inserting a None anywhere leaves the confidence unchanged (so does
      removing one, read from right to left). */
  lemma {:induction false} ConfidenceIgnoresNone(scores: seq<Option<real>>, k: nat)
    requires k <= |scores|
    ensures CalculateConfidence(scores[..k] + [None] + scores[k..]) == CalculateConfidence(scores)
  {
    PresentIgnoresNone(scores, k);
    ConfidenceOfPresent(scores[..k] + [None] + scores[k..], scores);
  }

  /** Reordering the scores leaves the confidence unchanged. */
  lemma {:induction false} ConfidencePermutation(a: seq<Option<real>>, b: seq<Option<real>>)
    requires multiset(a) == multiset(b)
    ensures CalculateConfidence(a) == CalculateConfidence(b)
  {
    var pa, pb := Present(a), Present(b);
    forall x ensures multiset(pa)[x] == multiset(pb)[x] {
      PresentCount(a, x);
      PresentCount(b, x);
    }
    assert multiset(pa) == multiset(pb);
    assert |pa| == |multiset(pa)| == |multiset(pb)| == |pb|;
    RealSeq.SumPermutation(pa, pb);
    assert |a| == |multiset(a)| == |multiset(b)| == |b|;
  }

  /** The worked examples: no scores, only None, and [80, None, 60]. */
  lemma ConfidenceExamples()
    ensures CalculateConfidence([]) == 0.0
    ensures CalculateConfidence([None, None]) == 0.0
    ensures CalculateConfidence([Some(80.0), None, Some(60.0)]) == 70.0
  {
    assert Present([Some(80.0), None, Some(60.0)]) == [80.0, 60.0];
    assert RealSeq.Sum([80.0, 60.0]) == 140.0;
  }
}
