/** Upload acceptance rules of the web front end (app.py): the extension
    filter `allowed_file` and the order in which the `/predict` handler
    rejects a request before it touches the file system. */
module Upload {

  datatype Option<T> = None | Some(value: T)

  /** The extensions the application accepts (app.py:14). */
  const AllowedExtensions: set<string> := {"png", "jpg", "jpeg"}

  /** Lower-cases one character. Only ASCII letters are mapped. */
  function LowerChar(c: char): (r: char)
    ensures 'A' <= c <= 'Z' ==> 'a' <= r <= 'z' && r as int == c as int + 32
    ensures !('A' <= c <= 'Z') ==> r == c
    ensures r == '.' <==> c == '.'
  {
    if 'A' <= c <= 'Z' then (c - 'A' + 'a') as char else c
  }

  /** `str.lower()`, character by character. */
  function Lower(s: string): (r: string)
    ensures |r| == |s|
    ensures forall i :: 0 <= i < |s| ==> r[i] == LowerChar(s[i])
  {
    seq(|s|, i requires 0 <= i < |s| => LowerChar(s[i]))
  }

  /** The position of the last occurrence of `c` in `s`, if any. */
  function LastIndexOf(s: string, c: char): (r: Option<nat>)
    ensures r.Some? <==> c in s
    ensures r.Some? ==> r.value < |s| && s[r.value] == c && c !in s[r.value + 1..]
  {
    if |s| == 0 then None
    else if s[|s| - 1] == c then Some(|s| - 1)
    else
      assert s == s[..|s| - 1] + [s[|s| - 1]];
      LastIndexOf(s[..|s| - 1], c)
  }

  /** `filename.rsplit('.', 1)[1]`: the text after the last dot, or None
      when there is no dot (where Python's indexing would fail, a case the
      `'.' in filename` guard keeps from being reached). */
  function Extension(filename: string): (r: Option<string>)
    ensures r.Some? <==> '.' in filename
  {
    match LastIndexOf(filename, '.')
    case None => None
    case Some(i) => Some(filename[i + 1..])
  }

  /** `allowed_file` (app.py:27-29). */
  predicate AllowedFile(filename: string)
  {
    '.' in filename && Lower(Extension(filename).value) in AllowedExtensions
  }

  // ---------------------------------------------------------------------
  // Properties of the extension filter

  /** The last occurrence is the only position holding `c` with no `c`
      after it. */
  lemma LastIndexOfUnique(s: string, c: char, i: nat)
    requires i < |s| && s[i] == c && c !in s[i + 1..]
    ensures LastIndexOf(s, c) == Some(i)
  {
    assert c in s;
  }

  /** Reference definition: a filename is allowed exactly when it has a
      dot whose following text contains no dot and lower-cases to an
      allowed extension. */
  lemma AllowedFileIff(filename: string)
    ensures AllowedFile(filename) <==>
      exists i :: 0 <= i < |filename| && filename[i] == '.' && '.' !in filename[i + 1..]
        && Lower(filename[i + 1..]) in AllowedExtensions
  {
    if AllowedFile(filename) {
      var i := LastIndexOf(filename, '.').value;
      assert Extension(filename) == Some(filename[i + 1..]);
      assert filename[i] == '.' && '.' !in filename[i + 1..];
    } else {
      forall i | 0 <= i < |filename| && filename[i] == '.' && '.' !in filename[i + 1..]
        ensures Lower(filename[i + 1..]) !in AllowedExtensions
      {
        LastIndexOfUnique(filename, '.', i);
        assert Extension(filename) == Some(filename[i + 1..]);
      }
    }
  }

  /** A filename without a dot is rejected (app.py:28). */
  lemma NoDotRejected(filename: string)
    requires '.' !in filename
    ensures !AllowedFile(filename)
  {
  }

  /** The extension is exactly the text after the last dot: whatever
      stands before that dot is ignored. */
  lemma ExtensionAfterLastDot(prefix: string, ext: string)
    requires '.' !in ext
    ensures Extension(prefix + "." + ext) == Some(ext)
    ensures AllowedFile(prefix + "." + ext) <==> Lower(ext) in AllowedExtensions
  {
    var s := prefix + "." + ext;
    assert s[|prefix| + 1..] == ext;
    LastIndexOfUnique(s, '.', |prefix|);
  }

  /** Changing the part of the filename before the last dot never changes
      the verdict. */
  lemma PrefixIrrelevant(prefix1: string, prefix2: string, ext: string)
    requires '.' !in ext
    ensures AllowedFile(prefix1 + "." + ext) == AllowedFile(prefix2 + "." + ext)
  {
    ExtensionAfterLastDot(prefix1, ext);
    ExtensionAfterLastDot(prefix2, ext);
  }

  /** A filename ending in a dot has an empty extension and is rejected. */
  lemma TrailingDotRejected(prefix: string)
    ensures !AllowedFile(prefix + ".")
  {
    ExtensionAfterLastDot(prefix, "");
    assert prefix + "." + "" == prefix + ".";
  }

  /** Lower-casing is idempotent. */
  lemma LowerIdempotent(s: string)
    ensures Lower(Lower(s)) == Lower(s)
  {
  }

  /** Lower-casing commutes with taking the extension. */
  lemma ExtensionOfLower(filename: string)
    ensures LastIndexOf(Lower(filename), '.') == LastIndexOf(filename, '.')
    ensures Extension(Lower(filename)).Some? ==>
      Extension(Lower(filename)).value == Lower(Extension(filename).value)
  {
    var low := Lower(filename);
    match LastIndexOf(filename, '.')
    case None =>
    case Some(i) =>
      LastIndexOfUnique(low, '.', i);
  }

  /** Matching is case-insensitive: a filename and its lower-cased form get
      the same verdict. */
  lemma CaseInsensitive(filename: string)
    ensures AllowedFile(Lower(filename)) == AllowedFile(filename)
  {
    ExtensionOfLower(filename);
    if '.' in filename {
      LowerIdempotent(Extension(filename).value);
    }
  }

  /** Two filenames that differ only in letter case get the same verdict. */
  lemma SameLowerSameVerdict(f1: string, f2: string)
    requires Lower(f1) == Lower(f2)
    ensures AllowedFile(f1) == AllowedFile(f2)
  {
    CaseInsensitive(f1);
    CaseInsensitive(f2);
  }

  /** Worked case: with two dots, the last one decides, so `a.b.png`
      is accepted. */
  lemma ExampleNestedDots()
    ensures AllowedFile("a.b.png")
  {
    ExtensionAfterLastDot("a.b", "png");
    assert "a.b" + "." + "png" == "a.b.png";
    assert Lower("png") == "png";
  }

  /** Worked case: an allowed extension followed by another one does not
      count, so `a.png.exe` is rejected. */
  lemma ExampleHiddenExtension()
    ensures !AllowedFile("a.png.exe")
  {
    ExtensionAfterLastDot("a.png", "exe");
    assert "a.png" + "." + "exe" == "a.png.exe";
    assert Lower("exe") == "exe";
  }

  /** Worked case: upper-case extensions are accepted. */
  lemma ExampleUpperCase()
    ensures AllowedFile("X.PNG")
  {
    ExtensionAfterLastDot("X", "PNG");
    assert "X" + "." + "PNG" == "X.PNG";
    assert Lower("PNG") == "png";
  }

  // ---------------------------------------------------------------------
  // Request validation in the `/predict` handler

  /** An uploaded file part; only its client-supplied filename matters
      before the file is saved. */
  datatype FileStorage = FileStorage(filename: string)

  /** The multipart parts of a request, by field name. */
  datatype Request = Request(files: map<string, FileStorage>)

  /** The field the handler reads the upload from. */
  const FileField: string := "file"

  const NoFileUploaded: string := "No file uploaded"
  const NoFileSelected: string := "No file selected"
  const InvalidFileType: string := "Invalid file type"
  const BadRequest: int := 400

  /** Either a JSON error with its HTTP status, or the upload handed on
      to saving and inference. */
  datatype Outcome = Rejected(error: string, status: int) | Accepted(file: FileStorage)

  /** Truth value of an uploaded file part: it is true when the part has
      a non-empty filename. */
  predicate FilePresent(file: FileStorage)
  {
    file.filename != ""
  }

  /** The early-return chain of `predict()` (app.py:62-69, 129). */
  function Validate(req: Request): (r: Outcome)
    ensures r.Rejected? ==> r.status == BadRequest
    ensures r.Rejected? ==> r.error in {NoFileUploaded, NoFileSelected, InvalidFileType}
    ensures r.Accepted? ==> FileField in req.files && r.file == req.files[FileField]
  {
    if FileField !in req.files then Rejected(NoFileUploaded, BadRequest)
    else
      var file := req.files[FileField];
      if file.filename == "" then Rejected(NoFileSelected, BadRequest)
      else if FilePresent(file) && AllowedFile(file.filename) then Accepted(file)
      else Rejected(InvalidFileType, BadRequest)
  }

  /** A missing file part is reported first, whatever else the request
      holds. */
  lemma MissingPartFirst(req: Request)
    requires FileField !in req.files
    ensures Validate(req) == Rejected(NoFileUploaded, BadRequest)
  {
  }

  /** An empty filename is reported before the extension is looked at. */
  lemma EmptyNameBeforeExtension(req: Request)
    requires FileField in req.files && req.files[FileField].filename == ""
    ensures Validate(req) == Rejected(NoFileSelected, BadRequest)
  {
  }

  /** Otherwise a disallowed extension is reported. */
  lemma BadExtensionLast(req: Request)
    requires FileField in req.files && req.files[FileField].filename != ""
    requires !AllowedFile(req.files[FileField].filename)
    ensures Validate(req) == Rejected(InvalidFileType, BadRequest)
  {
  }

  /** A request is accepted exactly when the file part is present, its
      name is non-empty and its extension is allowed; each error message
      corresponds to exactly one failed check. */
  lemma AcceptedIff(req: Request)
    ensures Validate(req).Accepted? <==>
      FileField in req.files && req.files[FileField].filename != ""
      && AllowedFile(req.files[FileField].filename)
    ensures Validate(req) == Rejected(NoFileUploaded, BadRequest) <==> FileField !in req.files
    ensures Validate(req) == Rejected(NoFileSelected, BadRequest) <==>
      FileField in req.files && req.files[FileField].filename == ""
  {
  }

  /** An accepted upload has a dot in its name and an allowed extension. */
  lemma AcceptedHasAllowedExtension(req: Request)
    requires Validate(req).Accepted?
    ensures '.' in Validate(req).file.filename
    ensures Lower(Extension(Validate(req).file.filename).value) in AllowedExtensions
  {
  }

  /** Parts under other field names never affect the outcome. */
  lemma OtherPartsIgnored(req1: Request, req2: Request)
    requires FileField in req1.files <==> FileField in req2.files
    requires FileField in req1.files ==> req1.files[FileField] == req2.files[FileField]
    ensures Validate(req1) == Validate(req2)
  {
  }

  /** The handler as it would read without the truth test on the file
      part: the same chain with only the extension check at app.py:69. */
  function ValidateWithoutTruthTest(req: Request): Outcome
  {
    if FileField !in req.files then Rejected(NoFileUploaded, BadRequest)
    else
      var file := req.files[FileField];
      if file.filename == "" then Rejected(NoFileSelected, BadRequest)
      else if AllowedFile(file.filename) then Accepted(file)
      else Rejected(InvalidFileType, BadRequest)
  }

  /** The truth test on the file part in app.py:69 never decides anything:
      dropping it gives the same outcome for every request, because the
      empty filename has already been turned away at app.py:66. */
  lemma TruthTestRedundant(req: Request)
    ensures Validate(req) == ValidateWithoutTruthTest(req)
  {
  }
}
