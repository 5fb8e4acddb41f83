/** File-name handling: `has_extension`, built on `strrchr` and `strcmp`,
    and the extension dispatch of `process_file` as a pure classifier.
    C strings are `string` values (they hold no NUL). */
module FileTypes {

  datatype Option<T> = None | Some(value: T)

  /** `strrchr(s, c)`: the index of the last occurrence of `c`, if any. */
  function LastIndexOf(s: string, c: char): (r: Option<nat>)
    ensures r.None? <==> c !in s
    ensures r.Some? ==> r.value < |s| && s[r.value] == c && c !in s[r.value + 1..]
  {
    if |s| == 0 then None
    else if s[|s| - 1] == c then Some(|s| - 1)
    else
      var r := LastIndexOf(s[..|s| - 1], c);
      assert r.Some? ==> s[r.value + 1..] == s[..|s| - 1][r.value + 1..] + [s[|s| - 1]];
      r
  }

  /** `has_extension`: find the last '.'; a name without one, or whose last
      '.' is its first character, has no extension; otherwise compare the
      text after the dot with `ext`, case-sensitively. */
  function HasExtension(filename: string, ext: string): (b: bool)
    ensures b ==> '.' !in ext && |ext| + 2 <= |filename|
    ensures b ==> filename[|filename| - |ext| - 1] == '.' && filename[|filename| - |ext|..] == ext
  {
    match LastIndexOf(filename, '.')
    case None => false
    case Some(dot) => dot != 0 && filename[dot + 1..] == ext
  }

  /** The text after the last '.', when that '.' is not the first character. */
  function Extension(filename: string): (e: Option<string>)
    ensures e.Some? ==> '.' !in e.value && |e.value| < |filename|
  {
    match LastIndexOf(filename, '.')
    case None => None
    case Some(dot) => if dot == 0 then None else Some(filename[dot + 1..])
  }

  /** `has_extension` holds exactly when the name ends in '.' followed by
      `ext`, `ext` holds no '.', and something precedes that '.'. */
  lemma HasExtensionIff(filename: string, ext: string)
    ensures HasExtension(filename, ext) <==>
      '.' !in ext && |ext| + 2 <= |filename| &&
      filename[|filename| - |ext| - 1] == '.' && filename[|filename| - |ext|..] == ext
  {
    var n, k := |filename|, |ext|;
    if HasExtension(filename, ext) {
      var dot := LastIndexOf(filename, '.').value;
      assert filename[dot + 1..] == ext;
    }
    if '.' !in ext && k + 2 <= n && filename[n - k - 1] == '.' && filename[n - k..] == ext {
      assert LastIndexOf(filename, '.') == Some(n - k - 1);
    }
  }

  /** `has_extension(f, e)` tests whether the extension of f is e. */
  lemma HasExtensionMeansExtension(filename: string, ext: string)
    ensures HasExtension(filename, ext) <==> Extension(filename) == Some(ext)
  {
  }

  /** A name whose last '.' is its first character (".pdf") has no
      extension, whatever follows. */
  lemma HiddenNameHasNoExtension(filename: string, ext: string)
    requires 0 < |filename| && filename[0] == '.' && '.' !in filename[1..]
    ensures !HasExtension(filename, ext)
  {
    assert LastIndexOf(filename, '.') == Some(0);
  }

  lemma HasExtensionExamples()
    ensures HasExtension("report.pdf", "pdf")
    ensures !HasExtension("report.PDF", "pdf")
    ensures !HasExtension(".pdf", "pdf")
    ensures !HasExtension("report.pdf.bak", "pdf")
    ensures !HasExtension("README", "txt")
    ensures HasExtension("notes.v2.txt", "txt")
  {
    HasExtensionIff("report.pdf", "pdf");
    HasExtensionIff("report.PDF", "pdf");
    HasExtensionIff(".pdf", "pdf");
    HasExtensionIff("report.pdf.bak", "pdf");
    HasExtensionIff("README", "txt");
    HasExtensionIff("notes.v2.txt", "txt");
    assert "report.PDF"[7] != "pdf"[0];
    assert "report.pdf.bak"[11] != "pdf"[0];
  }

  // ---------------------------------------------------------------------
  // The dispatch of process_file

  /** What `process_file` does with an input: convert a PDF, convert a Word
      document, copy plain text, or report an unsupported type. */
  datatype FileKind = Pdf | Word | PlainText | Unsupported

  /** The extension tests of `process_file`, in its order. */
  function Classify(filename: string): (k: FileKind)
    ensures k == Pdf ==> HasExtension(filename, "pdf")
    ensures k == Word ==> HasExtension(filename, "doc") || HasExtension(filename, "docx")
    ensures k == PlainText ==> HasExtension(filename, "txt")
  {
    if HasExtension(filename, "pdf") then Pdf
    else if HasExtension(filename, "doc") || HasExtension(filename, "docx") then Word
    else if HasExtension(filename, "txt") then PlainText
    else Unsupported
  }

  /** The kind an extension selects; no extension, or any other, is
      unsupported. */
  function KindOf(ext: Option<string>): (k: FileKind)
    ensures k == Pdf <==> ext == Some("pdf")
    ensures k == Word <==> ext == Some("doc") || ext == Some("docx")
    ensures k == PlainText <==> ext == Some("txt")
  {
    match ext
    case Some(e) =>
      if e == "pdf" then Pdf
      else if e == "doc" || e == "docx" then Word
      else if e == "txt" then PlainText
      else Unsupported
    case None => Unsupported
  }

  /** The chain of tests depends only on the text after the last '.': the
      order of the tests does not matter, since at most one can hold. */
  lemma ClassifyByExtension(filename: string)
    ensures Classify(filename) == KindOf(Extension(filename))
  {
    HasExtensionMeansExtension(filename, "pdf");
    HasExtensionMeansExtension(filename, "doc");
    HasExtensionMeansExtension(filename, "docx");
    HasExtensionMeansExtension(filename, "txt");
  }
}
