/** The parts of `pathlib.Path` (POSIX flavour) that `src/utils.py` reads:
    `name`, `suffix` and `stem`. A path is parsed into components separated
    by '/'; empty components and '.' are dropped, so `Path("a/b/")`,
    `Path("a/./b")` and `Path("a/b/.")` all have the name "b", and `Path(".")`
    and `Path("/")` have the empty name. */
module PurePath {
  import PyFormat

  /** `s.rfind(c)`: the last position of `c` in `s`, or -1. */
  function LastIndexOf(s: string, c: char): (i: int)
    ensures -1 <= i < |s|
    ensures 0 <= i ==> s[i] == c
    ensures forall k | i < k < |s| :: s[k] != c
  {
    if |s| == 0 then -1
    else if s[|s| - 1] == c then |s| - 1
    else LastIndexOf(s[..|s| - 1], c)
  }

  /** `Path(path).name`: the final component, or "" when there is none. */
  function Name(path: string): (name: string)
    ensures '/' !in name
    ensures name != "."
    ensures |name| <= |path|
    decreases |path|
  {
    var j := LastIndexOf(path, '/');
    if j == -1 then
      (if path == "." then "" else path)
    else
      var last := path[j + 1..];
      if last == "" || last == "." then Name(path[..j]) else last
  }

  /** The position of the dot that starts the suffix, when the name has one:
      the last dot, provided it is neither the first nor the last character. */
  function SuffixDot(name: string): (i: int)
  {
    var i := LastIndexOf(name, '.');
    if 0 < i < |name| - 1 then i else -1
  }

  /** `Path(path).suffix`: empty, or a dot followed by at least one
      character none of which is a dot. */
  function Suffix(path: string): (s: string)
    ensures s == "" || (|s| >= 2 && s[0] == '.' && '.' !in s[1..])
  {
    var name := Name(path);
    var i := SuffixDot(name);
    if i == -1 then "" else name[i..]
  }

  /** `Path(path).stem`: the name without its suffix, never empty for a
      non-empty name. */
  function Stem(path: string): (s: string)
    ensures s + Suffix(path) == Name(path)
    ensures Name(path) != "" ==> s != ""
  {
    var name := Name(path);
    var i := SuffixDot(name);
    if i == -1 then
      name
    else
      assert name[..i] + name[i..] == name;
      name[..i]
  }

  /** The general rule: when the last dot of the name sits at `i`, neither
      first nor last, the suffix is the name from `i` on and the stem is the
      name before `i`. */
  lemma {:induction false} SuffixAtLastDot(path: string, i: int)
    requires var name := Name(path); 0 < i < |name| - 1 && name[i] == '.' && '.' !in name[i + 1..]
    ensures Suffix(path) == Name(path)[i..]
    ensures Stem(path) == Name(path)[..i]
  {
    var name := Name(path);
    assert LastIndexOf(name, '.') == i;
  }

  /** Otherwise there is no suffix, and the stem is the whole name. */
  lemma {:induction false} NoSuffixWithoutInnerLastDot(path: string)
    requires forall i | 0 < i < |Name(path)| - 1 && Name(path)[i] == '.' :: '.' in Name(path)[i + 1..]
    ensures Suffix(path) == ""
    ensures Stem(path) == Name(path)
  {
    var name := Name(path);
    var j := LastIndexOf(name, '.');
    if 0 < j < |name| - 1 {
      assert false;
    }
  }

  /** A name made of one component is its own name. */
  lemma {:induction false} NameOfBareName(name: string)
    requires '/' !in name && name != "."
    ensures Name(name) == name
  {
  }

  /** A path ending in a plain component names that component, whatever
      directories precede it. */
  lemma {:induction false} NameOfJoin(dir: string, file: string)
    requires '/' !in file && file != "" && file != "."
    ensures Name(dir + "/" + file) == file
  {
    var p := dir + "/" + file;
    assert p[|dir|] == '/';
    assert p[|dir| + 1..] == file;
    assert forall k | |dir| < k < |p| :: p[k] == file[k - |dir| - 1];
  }

  /** A trailing separator does not change the name. */
  lemma {:induction false} NameIgnoresTrailingSlash(path: string)
    ensures Name(path + "/") == Name(path)
  {
    var p := path + "/";
    assert p[..|path|] == path;
    assert p[|path| + 1..] == "";
  }

  /** A trailing "." component does not change the name, and "." alone has
      the empty name. */
  lemma {:induction false} NameIgnoresTrailingDot(path: string)
    ensures Name(path + "/.") == Name(path)
    ensures Name(".") == ""
  {
    var p := path + "/.";
    assert p[..|path|] == path;
    assert p[|path| + 1..] == ".";
    assert p[|path|] == '/';
  }

  /** A suffix that lowercases to ".pdf" is the last four characters of a
      name of at least five. */
  lemma {:induction false} PdfSuffixIsNameEnd(path: string)
    requires PyFormat.Lower(Suffix(path)) == ".pdf"
    ensures |Name(path)| >= 5 && Name(path)[|Name(path)| - 4..] == Suffix(path)
  {
    var name, suffix := Name(path), Suffix(path);
    var i := SuffixDot(name);
    assert |suffix| == 4;
    assert i != -1;
    assert suffix == name[i..];
    assert i == |name| - 4;
  }

  /** Four final characters that lowercase to ".pdf", after at least one
      more, are the suffix. */
  lemma {:induction false} PdfNameEndIsSuffix(path: string)
    requires |Name(path)| >= 5
    requires PyFormat.Lower(Name(path)[|Name(path)| - 4..]) == ".pdf"
    ensures Suffix(path) == Name(path)[|Name(path)| - 4..]
  {
    var name := Name(path);
    var n := |name|;
    var tail := name[n - 4..];
    var lowered := PyFormat.Lower(tail);
    assert lowered[0] == '.' && lowered[1] == 'p' && lowered[2] == 'd' && lowered[3] == 'f';
    assert name[n - 4] == '.' && name[n - 3] != '.' && name[n - 2] != '.' && name[n - 1] != '.' by {
      assert tail[0] == name[n - 4] && tail[1] == name[n - 3];
      assert tail[2] == name[n - 2] && tail[3] == name[n - 1];
    }
    assert LastIndexOf(name, '.') == n - 4;
  }

  /** The suffix, lowercased, is ".pdf" exactly when the name is longer than
      four characters and its last four characters, lowercased, are ".pdf". */
  lemma {:induction false} PdfSuffixIff(path: string)
    ensures PyFormat.Lower(Suffix(path)) == ".pdf"
        <==> |Name(path)| >= 5 && PyFormat.Lower(Name(path)[|Name(path)| - 4..]) == ".pdf"
  {
    var name, suffix := Name(path), Suffix(path);
    var pdfEnd := |name| >= 5 && PyFormat.Lower(name[|name| - 4..]) == ".pdf";
    if PyFormat.Lower(suffix) == ".pdf" {
      PdfSuffixIsNameEnd(path);
      assert pdfEnd;
    }
    if pdfEnd {
      PdfNameEndIsSuffix(path);
      assert suffix == name[|name| - 4..];
    }
  }

  /** pathlib's stem of "invoice.pdf" is "invoice". */
  lemma StemOfPlainName()
    ensures Stem("invoice.pdf") == "invoice"
  {
    var invoice := "invoice.pdf";
    NameOfBareName(invoice);
    assert invoice[7] == '.' && invoice[8] != '.' && invoice[9] != '.' && invoice[10] != '.';
    assert LastIndexOf(invoice, '.') == 7;
  }

  /** pathlib's stem of "in/a.tar.gz" is "a.tar": only the directory and
      the last suffix go. */
  lemma StemOfDoubleSuffix()
    ensures Stem("in/a.tar.gz") == "a.tar"
  {
    var archive := "a.tar.gz";
    NameOfArchive();
    assert SuffixDot(archive) == 5 by {
      assert archive[5] == '.' && archive[6] != '.' && archive[7] != '.';
      assert LastIndexOf(archive, '.') == 5;
    }
    assert archive[..5] == "a.tar";
  }

  /** The name of "in/a.tar.gz" is "a.tar.gz". */
  lemma NameOfArchive()
    ensures Name("in/a.tar.gz") == "a.tar.gz"
  {
    var archive := "a.tar.gz";
    assert "in" + "/" + archive == "in/a.tar.gz";
    NameOfJoin("in", archive);
  }

  /** The name of "scans/x.pdf" is "x.pdf". */
  lemma NameOfScan()
    ensures Name("scans/x.pdf") == "x.pdf"
  {
    var pdf := "x.pdf";
    assert "scans" + "/" + pdf == "scans/x.pdf";
    NameOfJoin("scans", pdf);
  }

  /** pathlib's suffixes: only the last one counts, and a leading or
      trailing dot does not start one. */
  lemma SuffixExamples()
    ensures Suffix("x.PDF") == ".PDF"
    ensures Suffix("report.pdf.bak") == ".bak"
    ensures Suffix(".pdf") == ""
    ensures Suffix("pdf") == ""
    ensures Suffix("scans/x.pdf") == ".pdf"
  {
    SuffixIsLastDot();
    SuffixNeedsStem();
    SuffixAfterDirectory();
  }

  /** Only the last dot of a name starts its suffix. */
  lemma SuffixIsLastDot()
    ensures Suffix("x.PDF") == ".PDF"
    ensures Suffix("report.pdf.bak") == ".bak"
  {
    var upper, bak := "x.PDF", "report.pdf.bak";
    NameOfBareName(upper);
    NameOfBareName(bak);
    assert SuffixDot(upper) == 1 by {
      assert upper[1] == '.' && upper[2] != '.' && upper[3] != '.' && upper[4] != '.';
      assert LastIndexOf(upper, '.') == 1;
    }
    assert SuffixDot(bak) == 10 by {
      assert bak[10] == '.' && bak[11] != '.' && bak[12] != '.' && bak[13] != '.';
      assert LastIndexOf(bak, '.') == 10;
    }
  }

  /** A dot at the start of a name, or no dot at all, gives no suffix. */
  lemma SuffixNeedsStem()
    ensures Suffix(".pdf") == ""
    ensures Suffix("pdf") == ""
  {
    var hidden, bare := ".pdf", "pdf";
    NameOfBareName(hidden);
    NameOfBareName(bare);
    assert SuffixDot(hidden) == -1 by {
      assert hidden[0] == '.' && hidden[1] != '.' && hidden[2] != '.' && hidden[3] != '.';
      assert LastIndexOf(hidden, '.') == 0;
    }
    assert SuffixDot(bare) == -1 by {
      assert bare[0] != '.' && bare[1] != '.' && bare[2] != '.';
      assert LastIndexOf(bare, '.') == -1;
    }
  }

  /** The directories before the name play no part in the suffix. */
  lemma SuffixAfterDirectory()
    ensures Suffix("scans/x.pdf") == ".pdf"
  {
    var pdf := "x.pdf";
    NameOfScan();
    assert SuffixDot(pdf) == 1 by {
      assert pdf[1] == '.' && pdf[2] != '.' && pdf[3] != '.' && pdf[4] != '.';
      assert LastIndexOf(pdf, '.') == 1;
    }
  }
}
