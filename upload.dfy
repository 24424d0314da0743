/**
 * Upload validation and résumé acceptance: FileProcessor.validate_file and
 * the checks of FileProcessor.process_resume_file. Text extraction itself is
 * a parameter: `extract` gives, for a document format, the text the format's
 * reader produced (before the reader's final strip) or the text of the
 * exception it raised.
 */
module Upload {
  import opened Wrappers
  import opened PyText

  /** What the uploader reports of a file: its name and its size in bytes. */
  datatype UploadedFile = UploadedFile(name: string, size: nat)

  /** The four document formats with a reader. */
  datatype DocKind = Pdf | Docx | Doc | Txt

  /** 10 MiB: the largest accepted size, in bytes. */
  const MaxSize: nat := 10 * 1024 * 1024

  /** The accepted extensions, lower-case, in the order the error message lists them. */
  const AllowedExtensions: seq<string> := [".pdf", ".doc", ".docx", ".txt"]

  /** The fewest characters a stripped résumé text may have. */
  const MinResumeLength: nat := 50

  const NoFileMessage := "No file uploaded"
  const ValidatedMessage := "File validated successfully"
  const NoReaderMessage := "Unsupported file format"
  const TooShortMessage := "Resume appears to be empty or too short. Please upload a valid resume."

  /** n / d rounded to the nearest integer, ties to the even one. */
  function RoundHalfEven(n: nat, d: nat): (q: nat)
    requires d > 0
    ensures 2 * n <= 2 * q * d + d && 2 * q * d <= 2 * n + d
    ensures 2 * (n % d) == d ==> q % 2 == 0
  {
    var q0 := n / d;
    var r := n % d;
    assert n == q0 * d + r;
    assert 2 * q0 * d == 2 * (q0 * d);
    assert 2 * (q0 + 1) * d == 2 * (q0 * d) + 2 * d;
    if 2 * r < d then q0
    else if 2 * r > d then q0 + 1
    else if q0 % 2 == 0 then q0
    else q0 + 1
  }

  /**
   * The text `%.1f` gives for size / 1024 / 1024. The quotient is a binary
   * fraction that a double holds exactly, and the formatting rounds it
   * correctly with ties to even, so the tenths are computed on integers.
   */
  function FormatMegabytes(size: nat): string {
    var tenths := RoundHalfEven(size * 10, 1024 * 1024);
    NatToString(tenths / 10) + "." + [DigitChar(tenths % 10)]
  }

  /**
   * Read back, the megabytes text is digits, a point and one digit, and the
   * number of tenths it denotes is a nearest one to size / 2^20.
   */
  lemma FormatMegabytesReadsBack(size: nat)
    ensures var s := FormatMegabytes(size);
      |s| >= 3 && s[|s| - 2] == '.' && IsDigits(s[..|s| - 2]) && '0' <= s[|s| - 1] <= '9' &&
      var tenths := 10 * DigitsValue(s[..|s| - 2]) + (s[|s| - 1] as int - '0' as int);
      20 * size <= (2 * tenths + 1) * 0x10_0000 && 2 * tenths * 0x10_0000 <= 20 * size + 0x10_0000
  {
    var t := RoundHalfEven(size * 10, 1024 * 1024);
    var w := NatToString(t / 10);
    var s := FormatMegabytes(size);
    assert s == w + "." + [DigitChar(t % 10)];
    assert s[..|s| - 2] == w;
    NatToStringValue(t / 10);
    assert 10 * (t / 10) + t % 10 == t;
  }

  function SizeMessage(size: nat): string {
    "File size (" + FormatMegabytes(size) + "MB) exceeds maximum allowed size (10MB)"
  }

  function UnsupportedMessage(): string {
    "Unsupported file format. Please upload: " + Join(AllowedExtensions, ", ")
  }

  /** The extension the validator and the reader dispatch look at. */
  function NormalizedExtension(name: string): string {
    Lower(Extension(name))
  }

  /**
   * FileProcessor.validate_file: no file, then the size bound, then the
   * extension; the first failing check gives the message.
   */
  function ValidateFile(file: Option<UploadedFile>): (r: (bool, string))
    ensures r.0 <==> file.Some? && file.value.size <= MaxSize && NormalizedExtension(file.value.name) in AllowedExtensions
    ensures file.None? ==> r.1 == NoFileMessage
    ensures file.Some? && file.value.size > MaxSize ==> r.1 == SizeMessage(file.value.size)
    ensures file.Some? && file.value.size <= MaxSize && !r.0 ==> r.1 == UnsupportedMessage()
    ensures r.0 ==> r.1 == ValidatedMessage
  {
    if file.None? then (false, NoFileMessage)
    else if file.value.size > MaxSize then (false, SizeMessage(file.value.size))
    else if NormalizedExtension(file.value.name) !in AllowedExtensions then (false, UnsupportedMessage())
    else (true, ValidatedMessage)
  }

  /** The reader process_resume_file picks for a lower-cased extension. */
  function FormatOf(ext: string): (k: Option<DocKind>)
    ensures k.Some? <==> ext in AllowedExtensions
  {
    if ext == ".pdf" then Some(Pdf)
    else if ext == ".docx" then Some(Docx)
    else if ext == ".doc" then Some(Doc)
    else if ext == ".txt" then Some(Txt)
    else None
  }

  /** The prefix each reader puts before the text of the exception it re-raises. */
  function ReadErrorPrefix(k: DocKind): string {
    match k
    case Pdf => "Error reading PDF: "
    case Docx => "Error reading DOCX: "
    case Doc => "Error reading DOC: "
    case Txt => "Error reading TXT: "
  }

  /** A résumé text long enough once stripped. */
  predicate ResumeAccepted(text: string) {
    |Strip(text)| >= MinResumeLength
  }

  /** The reader for a file whose extension passed validation, applied to the file. */
  function ReaderOutput(file: UploadedFile, extract: DocKind -> Result<string, string>): Result<string, string>
    requires NormalizedExtension(file.name) in AllowedExtensions
  {
    extract(FormatOf(NormalizedExtension(file.name)).value)
  }

  /**
   * FileProcessor.process_resume_file: validation, then the reader for the
   * extension, then the length check. On success the second component is
   * the résumé text, on failure the message shown.
   */
  function ProcessResume(file: Option<UploadedFile>, extract: DocKind -> Result<string, string>): (bool, string) {
    var v := ValidateFile(file);
    if !v.0 then v
    else
      match FormatOf(NormalizedExtension(file.value.name))
      case None => (false, NoReaderMessage)
      case Some(kind) =>
        match extract(kind)
        case Failure(e) => (false, "Error processing file: " + ReadErrorPrefix(kind) + e)
        case Success(raw) =>
          var text := Strip(raw);
          if |Strip(text)| < MinResumeLength then (false, TooShortMessage) else (true, text)
  }

  /**
   * What processing promises: validation's result when it fails; success
   * exactly when the reader returns and the stripped text is long enough,
   * with that text; the reader's message when it raises.
   */
  lemma ProcessResumeOutcome(file: Option<UploadedFile>, extract: DocKind -> Result<string, string>)
    ensures var r := ProcessResume(file, extract);
      && (!ValidateFile(file).0 ==> r == ValidateFile(file))
      && (r.0 <==> (ValidateFile(file).0 && ReaderOutput(file.value, extract).Success? &&
                    ResumeAccepted(Strip(ReaderOutput(file.value, extract).value))))
      && (r.0 ==> (ResumeAccepted(r.1) && r.1 == Strip(r.1) &&
                   r.1 == Strip(ReaderOutput(file.value, extract).value)))
      && (ValidateFile(file).0 && ReaderOutput(file.value, extract).Failure? ==>
            (!r.0 && r.1 == "Error processing file: " +
              ReadErrorPrefix(FormatOf(NormalizedExtension(file.value.name)).value) +
              ReaderOutput(file.value, extract).error))
      && (ValidateFile(file).0 && ReaderOutput(file.value, extract).Success? &&
            !ResumeAccepted(Strip(ReaderOutput(file.value, extract).value))
          ==> r == (false, TooShortMessage))
  {
    if ValidateFile(file).0 && ReaderOutput(file.value, extract).Success? {
      StripIdempotent(ReaderOutput(file.value, extract).value);
    }
  }

  /** Every accepted extension is a dot followed by lower-case letters. */
  lemma AllowedExtensionShape(e: string)
    requires e in AllowedExtensions
    ensures |e| >= 2 && e[0] == '.'
    ensures forall j :: 1 <= j < |e| ==> 'a' <= e[j] <= 'z'
  {
  }

  /** The part of a path after its last slash holds a character other than a dot. */
  predicate StemHasNameChar(stem: string) {
    exists k :: RFind(stem, '/') < k < |stem| && stem[k] != '.'
  }

  /** A name of this shape: an accepted extension, in any letter case, after a real file name. */
  predicate EndsWithAcceptedExtension(name: string) {
    exists e :: e in AllowedExtensions && |e| <= |name| &&
      Lower(name[|name| - |e|..]) == e && StemHasNameChar(name[..|name| - |e|])
  }

  /**
   * The names the validator accepts are exactly those that end, in any
   * letter case, with an accepted extension preceded by a file name that is
   * not made of dots only (so ".pdf" and "dir/..pdf" are refused).
   */
  lemma AcceptedNameIff(name: string)
    ensures NormalizedExtension(name) in AllowedExtensions <==> EndsWithAcceptedExtension(name)
  {
    if NormalizedExtension(name) in AllowedExtensions { AcceptedNameHasShape(name); }
    if EndsWithAcceptedExtension(name) { ShapedNameIsAccepted(name); }
  }

  lemma AcceptedNameHasShape(name: string)
    requires NormalizedExtension(name) in AllowedExtensions
    ensures EndsWithAcceptedExtension(name)
  {
    var ext := Extension(name);
    var e := Lower(ext);
    assert ext != [];
    ExtensionFollowsStem(name);
    assert name[|name| - |e|..] == ext;
  }

  /** A non-empty extension follows a part of the name that holds a character other than a dot. */
  lemma ExtensionFollowsStem(name: string)
    requires Extension(name) != []
    ensures StemHasNameChar(name[..|name| - |Extension(name)|])
  {
    var ext := Extension(name);
    var stem := name[..|name| - |ext|];
    assert name == stem + ext;
    assert '/' !in ext;
    RFindAppend(stem, ext, '/');
    var slash := RFind(name, '/');
    var dot := RFind(name, '.');
    assert name[dot..] == ext;
    assert dot == |stem|;
    var k :| slash < k < dot && name[k] != '.';
    assert stem[k] == name[k];
  }

  lemma ShapedNameIsAccepted(name: string)
    requires EndsWithAcceptedExtension(name)
    ensures NormalizedExtension(name) in AllowedExtensions
  {
    var e :| e in AllowedExtensions && |e| <= |name| &&
      Lower(name[|name| - |e|..]) == e && StemHasNameChar(name[..|name| - |e|]);
    var stem, suffix := name[..|name| - |e|], name[|name| - |e|..];
    assert name == stem + suffix;
    ShapedNameAccepted(name, stem, suffix, e);
    assert NormalizedExtension(name) == e;
  }

  lemma ShapedNameAccepted(name: string, stem: string, suffix: string, e: string)
    requires name == stem + suffix
    requires e in AllowedExtensions && Lower(suffix) == e && StemHasNameChar(stem)
    ensures Extension(name) == suffix
  {
    SuffixShape(suffix, e);
    RFindAppend(stem, suffix, '/');
    RFindAppend(stem, suffix, '.');
    RFindUnique(suffix, '.', 0);
    var slash := RFind(name, '/');
    var dot := RFind(name, '.');
    assert slash == RFind(stem, '/');
    assert dot == |stem|;
    var k :| slash < k < |stem| && stem[k] != '.';
    assert name[k] == stem[k];
    assert name[dot..] == suffix;
  }

  /** A string that lower-cases to an accepted extension is a dot followed by letters. */
  lemma SuffixShape(suffix: string, e: string)
    requires e in AllowedExtensions && Lower(suffix) == e
    ensures |suffix| >= 2 && suffix[0] == '.' && '/' !in suffix
    ensures forall j :: 1 <= j < |suffix| ==> suffix[j] != '.'
  {
    AllowedExtensionShape(e);
    LowerChars(suffix);
    assert LowerChar(suffix[0]) == '.';
    forall j | 1 <= j < |suffix| ensures suffix[j] != '.' && suffix[j] != '/' {
      assert 'a' <= LowerChar(suffix[j]) <= 'z';
    }
  }
}
