/** `ResumeAnalysisService`: the deterministic code around the two
    language-model calls and the storage read. The model's replies, the
    storage disks, the host's files and the PDF-to-text tool are inputs. */
module ResumeAnalysis {
  import opened Php
  import opened PhpValue
  import opened Flattening

  /** What a chat-completion call hands back to the service: the call itself
      threw, its content was not valid JSON, or it decoded to a value. */
  datatype Reply = CallFailed | NotJson | Decoded(value: Value)

  // ===========================================================================
  // Text extraction (extractTextFromPdf)
  // ===========================================================================

  datatype ExtractError =
    | InvalidFileUrl
    | FileNotInStorage
    | FailedToRead
    | PdfToTextNotInstalled
    | ExtractionFailed   // the PDF-to-text library itself threw

  /** The exception message of each check the service performs itself. */
  function Message(e: ExtractError): string
    requires !e.ExtractionFailed?
  {
    match e
    case InvalidFileUrl => "Invalid file URL"
    case FileNotInStorage => "File does not exist in storage"
    case FailedToRead => "Failed to read file"
    case PdfToTextNotInstalled => "pdftotext is not installed"
  }

  /** Everything `extractTextFromPdf` consults besides its own code. */
  datatype Environment = Environment(
    urlPath: Option<string>,           // parse_url($fileUrl, PHP_URL_PATH); None for null or false
    defaultDisk: set<string>,          // the keys Storage::exists finds on the default disk
    cloudDisk: map<string, string>,    // what the 'cloud' disk's get returns; a missing key reads as null
    installed: set<string>,            // the host paths file_exists reports
    pdfToText: string -> Option<string>) // the tool's text for given PDF bytes; None when it throws

  const ResumesPrefix := "resumes/"

  const PdfToTextPaths: seq<string> := ["/usr/bin/pdftotext", "/usr/local/bin/pdftotext", "/opt/homebrew/bin/pdftotext"]

  /** The storage key for a URL path: the namespace prefix and the basename. */
  function StorageKey(path: string): (key: string)
    ensures |key| >= |ResumesPrefix| && key[..|ResumesPrefix|] == ResumesPrefix
    ensures '/' !in key[|ResumesPrefix|..]
  {
    BasenameShape(path);
    assert (ResumesPrefix + Basename(path))[|ResumesPrefix|..] == Basename(path);
    ResumesPrefix + Basename(path)
  }

  /** The position of the first path in `paths` that exists on the host. */
  function FirstInstalled(paths: seq<string>, installed: set<string>): (r: Option<nat>)
    ensures r.Some? ==> r.value < |paths| && paths[r.value] in installed
    ensures r.Some? ==> forall k :: 0 <= k < r.value ==> paths[k] !in installed
    ensures r.None? <==> forall k :: 0 <= k < |paths| ==> paths[k] !in installed
  {
    if paths == [] then None
    else if paths[0] in installed then Some(0)
    else match FirstInstalled(paths[1..], installed)
      case None => None
      case Some(i) => Some(i + 1)
  }

  /** The probe for the PDF-to-text binary: tries the well-known locations in
      order and stops at the first that exists. `probed` counts the
      `file_exists` calls made. */
  method ProbePdfToText(installed: set<string>) returns (available: bool, probed: nat)
    ensures available <==> exists k :: 0 <= k < |PdfToTextPaths| && PdfToTextPaths[k] in installed
    ensures available == FirstInstalled(PdfToTextPaths, installed).Some?
    ensures probed == if available then FirstInstalled(PdfToTextPaths, installed).value + 1 else |PdfToTextPaths|
  {
    var paths := PdfToTextPaths;
    available := false;
    probed := 0;
    for i := 0 to |paths|
      invariant !available && probed == i
      invariant forall k :: 0 <= k < i ==> paths[k] !in installed
    {
      probed := probed + 1;
      if paths[i] in installed {
        available := true;
        break;
      }
    }
  }

  /** One of the checks `extractTextFromPdf` makes before it runs the tool:
      whether it passes, and the error it throws when it does not. */
  datatype Check = Check(passes: bool, error: ExtractError)

  /** The error of the first check that fails, if any. */
  function FirstFailure(checks: seq<Check>): (r: Option<ExtractError>)
    ensures r.None? <==> forall k :: 0 <= k < |checks| ==> checks[k].passes
    ensures r.Some? ==> exists i :: (0 <= i < |checks| && !checks[i].passes && checks[i].error == r.value
      && forall k :: 0 <= k < i ==> checks[k].passes)
  {
    if checks == [] then None
    else if !checks[0].passes then Some(checks[0].error)
    else FirstFailure(checks[1..])
  }

  lemma FirstFailureOfFour(c0: Check, c1: Check, c2: Check, c3: Check)
    ensures FirstFailure([c0, c1, c2, c3]) ==
      if !c0.passes then Some(c0.error)
      else if !c1.passes then Some(c1.error)
      else if !c2.passes then Some(c2.error)
      else if !c3.passes then Some(c3.error)
      else None
  {
    assert [c3][1..] == [];
    assert FirstFailure([c3]) == if !c3.passes then Some(c3.error) else None;
    assert [c2, c3][1..] == [c3];
    assert FirstFailure([c2, c3]) == if !c2.passes then Some(c2.error) else FirstFailure([c3]);
    assert [c1, c2, c3][1..] == [c2, c3];
    assert FirstFailure([c1, c2, c3]) == if !c1.passes then Some(c1.error) else FirstFailure([c2, c3]);
    assert [c0, c1, c2, c3][1..] == [c1, c2, c3];
  }

  function PathOf(env: Environment): string {
    match env.urlPath
    case Some(p) => p
    case None => ""
  }

  /** `parse_url` found a path, and it is not falsy. */
  predicate PathValid(env: Environment) {
    env.urlPath.Some? && !IsFalsy(env.urlPath.value)
  }

  function KeyOf(env: Environment): string {
    StorageKey(PathOf(env))
  }

  /** The cloud disk returns something truthy for the key. */
  predicate Readable(env: Environment) {
    KeyOf(env) in env.cloudDisk && !IsFalsy(env.cloudDisk[KeyOf(env)])
  }

  function ContentOf(env: Environment): string {
    if KeyOf(env) in env.cloudDisk then env.cloudDisk[KeyOf(env)] else ""
  }

  /** The four checks, in the order the service makes them. */
  function Checks(env: Environment): seq<Check> {
    [ Check(PathValid(env), InvalidFileUrl),
      Check(KeyOf(env) in env.defaultDisk, FileNotInStorage),
      Check(Readable(env), FailedToRead),
      Check(FirstInstalled(PdfToTextPaths, env.installed).Some?, PdfToTextNotInstalled) ]
  }

  /** What `extractTextFromPdf` yields: the first failing check's error, or
      else the tool's text for the stored bytes. */
  function Extraction(env: Environment): Result<string, ExtractError> {
    match FirstFailure(Checks(env))
    case Some(e) => Failure(e)
    case None =>
      match env.pdfToText(ContentOf(env))
      case None => Failure(ExtractionFailed)
      case Some(text) => Success(text)
  }

  /** `extractTextFromPdf($fileUrl)`. The temporary file is not modelled. */
  method ExtractTextFromPdf(env: Environment) returns (result: Result<string, ExtractError>)
    ensures result == Extraction(env)
  {
    if env.urlPath.None? || IsFalsy(env.urlPath.value) {
      ExtractionCases(env);
      return Failure(InvalidFileUrl);
    }
    var filePath := env.urlPath.value;
    var filename := Basename(filePath);
    var storagePath := ResumesPrefix + filename;
    assert storagePath == KeyOf(env);
    ExtractionCases(env);
    if storagePath !in env.defaultDisk {
      return Failure(FileNotInStorage);
    }
    if storagePath !in env.cloudDisk || IsFalsy(env.cloudDisk[storagePath]) {
      return Failure(FailedToRead);
    }
    var pdfContent := env.cloudDisk[storagePath];
    var available, _ := ProbePdfToText(env.installed);
    if !available {
      return Failure(PdfToTextNotInstalled);
    }
    match env.pdfToText(pdfContent) {
      case None => return Failure(ExtractionFailed);
      case Some(text) => return Success(text);
    }
  }

  /** The storage object read for `…/dir/name` (any trailing slashes) is
      `resumes/name`: only the last path component names the object. */
  lemma StorageKeyOfPath(dir: string, name: string, trailing: nat)
    requires name != [] && '/' !in name
    ensures StorageKey(dir + "/" + name + Slashes(trailing)) == ResumesPrefix + name
  {
    BasenameOfJoin(dir, name, trailing);
  }

  /** Each error is thrown exactly when every earlier check passed and its
      own check failed; the text comes back only when all four passed and the
      tool produced it from the stored bytes. */
  lemma ExtractionOrder(env: Environment)
    ensures Extraction(env) == Failure(InvalidFileUrl) <==> !PathValid(env)
    ensures Extraction(env) == Failure(FileNotInStorage) <==>
      PathValid(env) && KeyOf(env) !in env.defaultDisk
    ensures Extraction(env) == Failure(FailedToRead) <==>
      PathValid(env) && KeyOf(env) in env.defaultDisk && !Readable(env)
    ensures Extraction(env) == Failure(PdfToTextNotInstalled) <==>
      PathValid(env) && KeyOf(env) in env.defaultDisk && Readable(env)
      && "/usr/bin/pdftotext" !in env.installed && "/usr/local/bin/pdftotext" !in env.installed
      && "/opt/homebrew/bin/pdftotext" !in env.installed
    ensures Extraction(env).Success? <==>
      PathValid(env) && KeyOf(env) in env.defaultDisk && Readable(env)
      && FirstInstalled(PdfToTextPaths, env.installed).Some? && env.pdfToText(ContentOf(env)).Some?
  {
    ExtractionCases(env);
    PdfToTextProbe(env.installed);
  }

  lemma ExtractionCases(env: Environment)
    ensures Extraction(env) ==
      if !PathValid(env) then Failure(InvalidFileUrl)
      else if KeyOf(env) !in env.defaultDisk then Failure(FileNotInStorage)
      else if !Readable(env) then Failure(FailedToRead)
      else if FirstInstalled(PdfToTextPaths, env.installed).None? then Failure(PdfToTextNotInstalled)
      else if env.pdfToText(ContentOf(env)).None? then Failure(ExtractionFailed)
      else Success(env.pdfToText(ContentOf(env)).value)
  {
    var c := Checks(env);
    FirstFailureOfFour(c[0], c[1], c[2], c[3]);
    assert c == [c[0], c[1], c[2], c[3]];
  }

  /** The probe finds the tool exactly when one of the three locations exists. */
  lemma PdfToTextProbe(installed: set<string>)
    ensures FirstInstalled(PdfToTextPaths, installed).Some? <==>
      "/usr/bin/pdftotext" in installed || "/usr/local/bin/pdftotext" in installed
      || "/opt/homebrew/bin/pdftotext" in installed
  {
    if "/usr/bin/pdftotext" in installed {
      assert PdfToTextPaths[0] in installed;
    } else if "/usr/local/bin/pdftotext" in installed {
      assert PdfToTextPaths[1] in installed;
    } else if "/opt/homebrew/bin/pdftotext" in installed {
      assert PdfToTextPaths[2] in installed;
    }
  }

  // ===========================================================================
  // Resume normalisation (extractResumeInformation)
  // ===========================================================================

  /** The record the service returns: always exactly these four string fields. */
  datatype ResumeRecord = ResumeRecord(summary: string, skills: string, experience: string, education: string)

  const EmptyRecord := ResumeRecord("", "", "", "")

  const RequiredKeys: seq<string> := ["summary", "skills", "experience", "education"]

  /** `extractResumeInformation` either returns a record or lets a TypeError
      escape: `array_keys` throws one on a decoded value that is not an
      array, and `catch (\Exception)` does not catch it. */
  datatype Outcome = Returned(record: ResumeRecord) | TypeErrorRaised

  /** `array_diff($requiredKeys, array_keys($entries))`, in the order of
      `names`. */
  function MissingKeys(names: seq<string>, entries: seq<Entry>): (r: seq<string>)
    ensures forall name :: name in r <==> name in names && !HasKey(entries, name)
  {
    if names == [] then []
    else if HasKey(entries, names[0]) then MissingKeys(names[1..], entries)
    else [names[0]] + MissingKeys(names[1..], entries)
  }

  /** `$flattened[$name] ?? ''` on the flattened array. */
  function TextOr(v: Option<Value>): string {
    match v
    case Some(Str(text)) => text
    case _ => ""
  }

  function Project(flattened: seq<Entry>): ResumeRecord {
    ResumeRecord(
      TextOr(Lookup(flattened, StrKey("summary"))),
      TextOr(Lookup(flattened, StrKey("skills"))),
      TextOr(Lookup(flattened, StrKey("experience"))),
      TextOr(Lookup(flattened, StrKey("education"))))
  }

  /** What `extractResumeInformation` makes of the model's reply once the
      text has been extracted. */
  function NormalizeReply(reply: Reply): Outcome {
    match reply
    case CallFailed => Returned(EmptyRecord)
    case NotJson => Returned(EmptyRecord)
    case Decoded(parsed) =>
      if !parsed.Arr? then TypeErrorRaised
      else if |MissingKeys(RequiredKeys, parsed.entries)| > 0 then Returned(EmptyRecord)
      else Returned(Project(FlattenEntries(parsed.entries)))
  }

  /** `extractResumeInformation($fileUrl)`, given what the chat call replies
      for the extracted text. */
  method ExtractResumeInformation(env: Environment, reply: Reply) returns (outcome: Outcome)
    ensures Extraction(env).Failure? ==> outcome == Returned(EmptyRecord)
    ensures Extraction(env).Success? ==> outcome == NormalizeReply(reply)
  {
    var extracted := ExtractTextFromPdf(env);
    if extracted.Failure? {
      return Returned(EmptyRecord);
    }
    match reply {
      case CallFailed => return Returned(EmptyRecord);
      case NotJson => return Returned(EmptyRecord);
      case Decoded(parsed) =>
        if !parsed.Arr? {
          return TypeErrorRaised;
        }
        var missing := MissingKeys(RequiredKeys, parsed.entries);
        if |missing| > 0 {
          return Returned(EmptyRecord);
        }
        var flattened := FlattenArray(parsed.entries);
        return Returned(Project(flattened));
    }
  }

  /** A TypeError escapes exactly when the reply decodes to something that is
      not an array (JSON null, a boolean, a number or a string). */
  lemma NormalizeReplyRaisesIff(reply: Reply)
    ensures NormalizeReply(reply).TypeErrorRaised? <==> reply.Decoded? && !reply.value.Arr?
  {
  }

  /** Fail-open: a failed call, invalid JSON, or an array lacking any required
      key yields the all-empty record. */
  lemma NormalizeReplyFailOpen(reply: Reply)
    requires reply.CallFailed? || reply.NotJson?
      || (reply.Decoded? && reply.value.Arr?
          && exists name :: name in RequiredKeys && !HasKey(reply.value.entries, name))
    ensures NormalizeReply(reply) == Returned(EmptyRecord)
  {
    if reply.Decoded? {
      var name :| name in RequiredKeys && !HasKey(reply.value.entries, name);
      assert name in MissingKeys(RequiredKeys, reply.value.entries);
    }
  }

  /** When the reply is an array with all four keys, each field of the record
      is the flattening of the value under that key, and the default '' is
      never used. */
  lemma NormalizeReplyProjects(entries: seq<Entry>)
    requires forall name :: name in RequiredKeys ==> HasKey(entries, name)
    ensures forall name :: name in RequiredKeys ==> Lookup(entries, StrKey(name)).Some?
    ensures NormalizeReply(Decoded(Arr(entries))) == Returned(ResumeRecord(
      Flatten(Lookup(entries, StrKey("summary")).value),
      Flatten(Lookup(entries, StrKey("skills")).value),
      Flatten(Lookup(entries, StrKey("experience")).value),
      Flatten(Lookup(entries, StrKey("education")).value)))
  {
    forall name | name in RequiredKeys
      ensures Lookup(entries, StrKey(name)).Some?
    {
      HasKeyIffLookup(entries, name);
    }
    NoneMissing(RequiredKeys, entries);
    NormalizeReplyComplete(entries);
    assert "summary" in RequiredKeys && "skills" in RequiredKeys;
    assert "experience" in RequiredKeys && "education" in RequiredKeys;
    ProjectFlattened(entries);
  }

  lemma NormalizeReplyComplete(entries: seq<Entry>)
    requires MissingKeys(RequiredKeys, entries) == []
    ensures NormalizeReply(Decoded(Arr(entries))) == Returned(Project(FlattenEntries(entries)))
  {
  }

  lemma {:induction false} NoneMissing(names: seq<string>, entries: seq<Entry>)
    requires forall name :: name in names ==> HasKey(entries, name)
    ensures MissingKeys(names, entries) == []
  {
    if names != [] {
      assert names[0] in names;
      NoneMissing(names[1..], entries);
    }
  }

  lemma ProjectFlattened(entries: seq<Entry>)
    requires Lookup(entries, StrKey("summary")).Some? && Lookup(entries, StrKey("skills")).Some?
    requires Lookup(entries, StrKey("experience")).Some? && Lookup(entries, StrKey("education")).Some?
    ensures Project(FlattenEntries(entries)) == ResumeRecord(
      Flatten(Lookup(entries, StrKey("summary")).value),
      Flatten(Lookup(entries, StrKey("skills")).value),
      Flatten(Lookup(entries, StrKey("experience")).value),
      Flatten(Lookup(entries, StrKey("education")).value))
  {
    FieldOfFlattened(entries, "summary");
    FieldOfFlattened(entries, "skills");
    FieldOfFlattened(entries, "experience");
    FieldOfFlattened(entries, "education");
  }

  lemma FieldOfFlattened(entries: seq<Entry>, name: string)
    requires Lookup(entries, StrKey(name)).Some?
    ensures TextOr(Lookup(FlattenEntries(entries), StrKey(name))) == Flatten(Lookup(entries, StrKey(name)).value)
  {
    FlattenEntriesLookup(entries, StrKey(name));
  }

  /** Only the four required keys matter: two arrays that agree on them give
      the same outcome, whatever other keys either one carries. */
  lemma NormalizeReplyIgnoresExtraKeys(a: seq<Entry>, b: seq<Entry>)
    requires forall name :: name in RequiredKeys ==> Lookup(a, StrKey(name)) == Lookup(b, StrKey(name))
    ensures NormalizeReply(Decoded(Arr(a))) == NormalizeReply(Decoded(Arr(b)))
  {
    if forall name :: name in RequiredKeys ==> HasKey(a, name) {
      SameKeysPresent(a, b);
      NormalizeReplyProjects(a);
      NormalizeReplyProjects(b);
      assert "summary" in RequiredKeys && "skills" in RequiredKeys;
      assert "experience" in RequiredKeys && "education" in RequiredKeys;
    } else {
      var name :| name in RequiredKeys && !HasKey(a, name);
      SameKeysPresent(a, b);
      NormalizeReplyFailOpen(Decoded(Arr(a)));
      NormalizeReplyFailOpen(Decoded(Arr(b)));
    }
  }

  lemma SameKeysPresent(a: seq<Entry>, b: seq<Entry>)
    requires forall name :: name in RequiredKeys ==> Lookup(a, StrKey(name)) == Lookup(b, StrKey(name))
    ensures forall name :: name in RequiredKeys ==> (HasKey(a, name) <==> HasKey(b, name))
  {
    forall name | name in RequiredKeys
      ensures HasKey(a, name) <==> HasKey(b, name)
    {
      HasKeyIffLookup(a, name);
      HasKeyIffLookup(b, name);
    }
  }

  /** {"summary": "Dev", "skills": ["Go", "SQL"], "experience": [],
      "education": "BSc CS", "extra": 1}, as decoded. */
  const ExampleResume: seq<Entry> := [
    Entry(StrKey("summary"), Str("Dev")),
    Entry(StrKey("skills"), Arr([Entry(IntKey(0), Str("Go")), Entry(IntKey(1), Str("SQL"))])),
    Entry(StrKey("experience"), Arr([])),
    Entry(StrKey("education"), Str("BSc CS")),
    Entry(StrKey("extra"), Int(1))]

  /** The example reply becomes the record ("Dev", "Go, SQL", "", "BSc CS"):
      the skills list is joined, the empty list gives "", "extra" is dropped. */
  lemma NormalizeReplyExample()
    ensures NormalizeReply(Decoded(Arr(ExampleResume))) == Returned(ResumeRecord("Dev", "Go, SQL", "", "BSc CS"))
  {
    ExampleProjects();
    FlattenExampleList();
    FlattenArrayEmptyIff(Arr([]));
  }

  lemma ExampleProjects()
    ensures NormalizeReply(Decoded(Arr(ExampleResume))) == Returned(ResumeRecord(
      Flatten(Str("Dev")),
      Flatten(Arr([Entry(IntKey(0), Str("Go")), Entry(IntKey(1), Str("SQL"))])),
      Flatten(Arr([])),
      Flatten(Str("BSc CS"))))
  {
    ExampleLookups();
    ProjectsFromLookups(ExampleResume, Str("Dev"), Arr([Entry(IntKey(0), Str("Go")), Entry(IntKey(1), Str("SQL"))]),
      Arr([]), Str("BSc CS"));
  }

  lemma ProjectsFromLookups(entries: seq<Entry>, summary: Value, skills: Value, experience: Value, education: Value)
    requires Lookup(entries, StrKey("summary")) == Some(summary)
    requires Lookup(entries, StrKey("skills")) == Some(skills)
    requires Lookup(entries, StrKey("experience")) == Some(experience)
    requires Lookup(entries, StrKey("education")) == Some(education)
    ensures NormalizeReply(Decoded(Arr(entries))) ==
      Returned(ResumeRecord(Flatten(summary), Flatten(skills), Flatten(experience), Flatten(education)))
  {
    forall name | name in RequiredKeys
      ensures HasKey(entries, name)
    {
      HasKeyIffLookup(entries, name);
    }
    NormalizeReplyProjects(entries);
  }

  lemma ExampleLookups()
    ensures Lookup(ExampleResume, StrKey("summary")) == Some(Str("Dev"))
    ensures Lookup(ExampleResume, StrKey("skills")) == Some(Arr([Entry(IntKey(0), Str("Go")), Entry(IntKey(1), Str("SQL"))]))
    ensures Lookup(ExampleResume, StrKey("experience")) == Some(Arr([]))
    ensures Lookup(ExampleResume, StrKey("education")) == Some(Str("BSc CS"))
  {
    var e := ExampleResume;
    assert e[1..] == [e[1], e[2], e[3], e[4]];
    assert e[1..][1..] == [e[2], e[3], e[4]];
    assert e[1..][1..][1..] == [e[3], e[4]];
  }

  // ===========================================================================
  // Fit evaluation (analyzeResume)
  // ===========================================================================

  const ScoreKey := "aiGeneratedScore"
  const FeedbackKey := "aiGeneratedFeedback"
  const FallbackFeedback := "An error occurred during resume analysis. Please try again later."

  const FallbackEvaluation: Value :=
    Arr([Entry(StrKey(ScoreKey), Int(0)), Entry(StrKey(FeedbackKey), Str(FallbackFeedback))])

  /** The fallback record holds score 0 and the apology under its two keys. */
  lemma FallbackEvaluationFields()
    ensures Lookup(FallbackEvaluation.entries, StrKey(ScoreKey)) == Some(Int(0))
    ensures Lookup(FallbackEvaluation.entries, StrKey(FeedbackKey)) == Some(Str(FallbackFeedback))
  {
    var entries := FallbackEvaluation.entries;
    assert entries[0].key == StrKey(ScoreKey) != StrKey(FeedbackKey);
    assert entries[1..] == [Entry(StrKey(FeedbackKey), Str(FallbackFeedback))];
  }

  /** `analyzeResume($jobVacancy, $resumeData)`, given what the chat call
      replies. It never throws: every failure becomes the fallback record. */
  function AnalyzeResume(reply: Reply): (evaluation: Value)
    ensures IsSet(evaluation, ScoreKey) && IsSet(evaluation, FeedbackKey)
  {
    FallbackEvaluationFields();
    match reply
    case Decoded(parsed) =>
      if IsSet(parsed, ScoreKey) && IsSet(parsed, FeedbackKey) then parsed else FallbackEvaluation
    case _ => FallbackEvaluation
  }

  /** The decoded reply comes back unchanged exactly when both keys are set
      (present and non-null); otherwise the fallback score 0 and apology come
      back. */
  lemma AnalyzeResumeUnchangedIff(parsed: Value)
    ensures AnalyzeResume(Decoded(parsed)) == parsed <==> IsSet(parsed, ScoreKey) && IsSet(parsed, FeedbackKey)
    ensures !(IsSet(parsed, ScoreKey) && IsSet(parsed, FeedbackKey)) ==> AnalyzeResume(Decoded(parsed)) == FallbackEvaluation
  {
    var fallback := AnalyzeResume(CallFailed);
    assert IsSet(fallback, ScoreKey);
  }

  /** The fallback record carries score 0 and the fixed apology, and it is
      what a failed call or invalid JSON yields. */
  lemma AnalyzeResumeFallback(reply: Reply)
    requires !reply.Decoded?
    ensures AnalyzeResume(reply) == FallbackEvaluation
    ensures Lookup(AnalyzeResume(reply).entries, StrKey(ScoreKey)) == Some(Int(0))
    ensures Lookup(AnalyzeResume(reply).entries, StrKey(FeedbackKey)) == Some(Str(FallbackFeedback))
  {
    FallbackEvaluationFields();
  }
}
