# Resume analysis service, modelled in Dafny

This project models `ResumeAnalysisService`, the one component of the job-board
application with logic of its own. The service has two public entry points,
`extractResumeInformation` and `analyzeResume`, and one private helper,
`extractTextFromPdf`, which only `extractResumeInformation` calls (line 17):

- **Text extraction** (private `extractTextFromPdf`) turns a resume URL into a storage
  key, `resumes/<basename of the URL path>`. It then checks, in a fixed order,
  that the path is usable, that the object exists and that it reads back
  truthy content (neither `""` nor `"0"`). Next it probes three well-known
  locations for the `pdftotext` binary, and finally hands the bytes to the PDF-to-text library.
- **Resume normalisation** (`extractResumeInformation`) decodes the language
  model's JSON reply. It requires the keys `summary`, `skills`, `experience`
  and `education`, flattens every value to a string and projects the result
  onto those four keys. Any caught failure gives the all-empty record.
- **Fit evaluation** (`analyzeResume`) decodes the second reply. It returns
  that reply unchanged when both `aiGeneratedScore` and `aiGeneratedFeedback`
  are set. Otherwise it returns score 0 with a fixed apology.

Flattening (`recursiveFlatten`) turns a scalar into its PHP `(string)` cast.
It turns an array into the `", "`-join of its items' flattenings after
`array_filter` has dropped the falsy ones (`""` and `"0"`).

Every external party is an input to the model:

- the chat-completion service, as a `Reply`: the call failed, the content was
  not JSON, or it decoded to a value;
- the two storage disks, as a set of keys and a map from key to content;
- the host's file system, as the set of paths that exist;
- the PDF-to-text library, as a function from bytes to text, or to nothing
  when it throws.

Files:

- `php.dfy` (module `Php`): the PHP built-ins the service relies on, written
  out. These are string truthiness, the integer-to-string cast and its decimal
  reading, `array_filter`, `implode` and `basename`.
- `value.dfy` (module `PhpValue`): what `json_decode($s, true)` yields. JSON
  lists and objects both become ordered arrays of key/value entries, because
  `is_array` holds for both. The module also has `array_keys`/`array_diff`
  key presence, `$a[$k]` lookup and `isset`.
- `flattening.dfy` (module `Flattening`): `recursiveFlatten` and
  `flattenArray` as methods with loops. They are proved equal to the
  reference functions `Flatten` and `FlattenEntries`. The main theorem
  says that an array flattens to the `", "`-join of all its truthy leaves, in
  depth-first order, however deeply they are nested.
- `resume_analysis.dfy` (module `ResumeAnalysis`): the two entry points, the
  extraction helper with its probe loop, and the check order. It also holds
  the lemmas on fail-open behaviour, projection and the fit-evaluation record.

Three points about the code:

- The temporary file is created before the URL check (line 151) and is
  unlinked only on the success path (line 193). The model leaves the
  temporary file out.
- A reply that decodes to JSON `null`, a boolean, a number or a string makes
  `array_keys` (line 55) throw a `TypeError`, which `catch (\Exception)`
  (line 74) does not catch. The model returns `TypeErrorRaised` for these
  replies.
- `Storage::exists` (line 162) checks the default disk, while the read
  (line 166) goes to the `cloud` disk. The model keeps the two disks apart.

## Model

| member | source | states |
|---|---|---|
| `Php.IntToString` | app/Services/ResumeAnalysisService.php:216 | the cast of an integer is a '-' exactly for negative numbers followed by decimal digits in canonical form: it starts with '0' exactly for zero, zero gives "0", and there is no "-0" or other leading zero |
| `Php.IsFalsy` | app/Services/ResumeAnalysisService.php:154-214 | defines PHP string truthiness: exactly "" and "0" are false, which decides `!$filePath` (line 154), `!$pdfContent` (line 167) and what `array_filter` drops (line 214) |
| `Php.Implode` | app/Services/ResumeAnalysisService.php:214 | defines `implode`: the pieces in order with the glue between neighbours; its properties are the `Implode*` lemmas |
| `Php.IntToStringValue` | app/Services/ResumeAnalysisService.php:216 | the text the cast produces reads back, as decimal, as exactly the integer cast |
| `Php.IntToStringFalsy` | app/Services/ResumeAnalysisService.php:214-216 | an integer's string form is falsy exactly when the integer is 0, so 0 leaves are filtered out |
| `Php.ArrayFilter` | app/Services/ResumeAnalysisService.php:214 | `array_filter` keeps exactly the truthy pieces and never grows the list |
| `Php.ArrayFilterAppend` | app/Services/ResumeAnalysisService.php:214 | filtering distributes over concatenation and keeps left-to-right order |
| `Php.ImplodeEmpty` | app/Services/ResumeAnalysisService.php:214 | imploding non-empty pieces yields "" exactly when there are no pieces |
| `Php.ImplodeTruthy` | app/Services/ResumeAnalysisService.php:214 | imploding truthy pieces yields "" for none and a truthy string otherwise, never "0" |
| `Php.ImplodeAppend` | app/Services/ResumeAnalysisService.php:214 | imploding a concatenation joins the two implosions with the glue, omitting empty sides |
| `Php.Basename` | app/Services/ResumeAnalysisService.php:158 | the basename has no '/' and is no longer than the path; `BasenameShape` pins it down |
| `Php.BasenameShape` | app/Services/ResumeAnalysisService.php:158 | the basename is a slash-free piece of the path, preceded by '/' or the start and followed only by slashes; it is "" exactly for all-slash paths |
| `Php.BasenameOfJoin` | app/Services/ResumeAnalysisService.php:158 | `basename("dir/name///")` is `name` for any directory part and any number of trailing slashes |
| `Php.BasenameIdempotent` | app/Services/ResumeAnalysisService.php:158 | taking the basename twice changes nothing |
| `PhpValue.CastToString` | app/Services/ResumeAnalysisService.php:216 | defines the `(string)` cast of a scalar: null and false give "", true "1", an integer `IntToString`, a string itself |
| `PhpValue.HasKey` | app/Services/ResumeAnalysisService.php:55 | defines key presence as `array_diff` over `array_keys` sees it: some key's string form equals the name |
| `PhpValue.Lookup` | app/Services/ResumeAnalysisService.php:69-72 | defines `$a[$k]`: the value of the entry with key `k`; `LookupFinds` states what it finds |
| `PhpValue.IsSet` | app/Services/ResumeAnalysisService.php:133 | defines `isset($v[$name])`: `v` is an array holding a non-null value under the key, and false on a non-array |
| `PhpValue.LookupFinds` | app/Services/ResumeAnalysisService.php:69-72 | `$a[$k]` finds a value exactly when an entry has key `k`, and the value found is stored under `k` |
| `PhpValue.CastToStringFalsy` | app/Services/ResumeAnalysisService.php:214-216 | a scalar's `(string)` cast is dropped by `array_filter` exactly for null, false, 0, "" and "0" |
| `PhpValue.HasKeyIffLookup` | app/Services/ResumeAnalysisService.php:54-55 | for a non-numeric key name, `array_diff` over `array_keys` finds it exactly when `$a[$name]` holds a value |
| `Flattening.Flatten` | app/Services/ResumeAnalysisService.php:207-218 | defines the flattening of a value; `RecursiveFlatten` computes it and `VisibleFlattenIsLeaves` characterises it |
| `Flattening.FlattenEntries` | app/Services/ResumeAnalysisService.php:198-205 | the output has one entry per input entry, holding the same key and the flattening of its value, in the same order |
| `Flattening.RecursiveFlatten` | app/Services/ResumeAnalysisService.php:207-218 | the loop that collects each item's flattening and implodes the filtered list computes `Flatten` |
| `Flattening.FlattenArray` | app/Services/ResumeAnalysisService.php:198-205 | the loop over the input builds exactly `FlattenEntries`: same keys in the same order, each value replaced by its flattening |
| `Flattening.FlattenEntriesKeys` | app/Services/ResumeAnalysisService.php:198-205 | `flattenArray` keeps exactly the input's key sequence |
| `Flattening.FlattenEntriesLookup` | app/Services/ResumeAnalysisService.php:198-205 | under every key the output holds the flattening of the input's value there, and nothing where the input has nothing |
| `Flattening.VisibleFlattenIsLeaves` | app/Services/ResumeAnalysisService.php:207-218 | for any value, its flattening (a falsy one read as "") is the ", "-join of its truthy leaves in depth-first order |
| `Flattening.FlattenArrayIsJoinOfLeaves` | app/Services/ResumeAnalysisService.php:209-214 | an array flattens to the ", "-join, in order, of all its truthy leaves at any depth; nesting adds no separators and no "0" |
| `Flattening.FlattenArrayEmptyIff` | app/Services/ResumeAnalysisService.php:209-214 | an array flattens to "" exactly when every leaf is falsy, including the empty array |
| `Flattening.ArrayFilterConcat` | app/Services/ResumeAnalysisService.php:214 | filtering a concatenation of lists is the concatenation of the filtered lists |
| `Flattening.ImplodeFilterConcat` | app/Services/ResumeAnalysisService.php:211-214 | filtering then imploding item flattenings equals imploding the concatenation of the items' truthy parts |
| `Flattening.ImplodeFilterOne` | app/Services/ResumeAnalysisService.php:214 | filtering a single string keeps it exactly when it is truthy |
| `Flattening.FlattenSingle` | app/Services/ResumeAnalysisService.php:209-214 | a one-item array flattens to its item's flattening, or "" when that is falsy |
| `Flattening.FlattenPair` | app/Services/ResumeAnalysisService.php:209-214 | a two-item array flattens to the items' truthy flattenings joined by ", " |
| `Flattening.FlattenExampleList` | app/Services/ResumeAnalysisService.php:209-214 | `["Go","SQL"]` flattens to `"Go, SQL"` |
| `Flattening.FlattenExampleNested` | app/Services/ResumeAnalysisService.php:209-214 | `[["Go",""],["Docker"]]` flattens to `"Go, Docker"` |
| `ResumeAnalysis.Message` | app/Services/ResumeAnalysisService.php:155-184 | defines the messages of the four checks the service throws itself, as written at lines 155, 163, 168 and 184 |
| `ResumeAnalysis.StorageKey` | app/Services/ResumeAnalysisService.php:158-160 | the storage key starts with `resumes/` and has no further slash |
| `ResumeAnalysis.StorageKeyOfPath` | app/Services/ResumeAnalysisService.php:153-160 | the key for a path `dir/name` (with any trailing slashes) is `resumes/name` |
| `ResumeAnalysis.FirstInstalled` | app/Services/ResumeAnalysisService.php:175-182 | the index found is that of the first existing path; none is found exactly when no path exists |
| `ResumeAnalysis.ProbePdfToText` | app/Services/ResumeAnalysisService.php:175-182 | the probe loop reports the tool available exactly when one of the three paths exists; it stops after the first hit, or probes all three |
| `ResumeAnalysis.PdfToTextProbe` | app/Services/ResumeAnalysisService.php:175-182 | the tool counts as installed exactly when `/usr/bin`, `/usr/local/bin` or `/opt/homebrew/bin` holds `pdftotext` |
| `ResumeAnalysis.FirstFailure` | app/Services/ResumeAnalysisService.php:153-185 | the error reported is that of the earliest failing check, and none is reported exactly when all checks pass |
| `ResumeAnalysis.FirstFailureOfFour` | app/Services/ResumeAnalysisService.php:153-185 | for four checks, the first failing one in order decides the error |
| `ResumeAnalysis.PathValid` | app/Services/ResumeAnalysisService.php:153-154 | defines the URL check: `parse_url` gave a path and it is truthy |
| `ResumeAnalysis.Readable` | app/Services/ResumeAnalysisService.php:166-167 | defines the read check: the `cloud` disk holds the key and its content is truthy, so "" and "0" both fail |
| `ResumeAnalysis.Checks` | app/Services/ResumeAnalysisService.php:153-185 | defines the four checks in the order the service makes them: URL, existence on the default disk, read, probe |
| `ResumeAnalysis.Extraction` | app/Services/ResumeAnalysisService.php:153-195 | defines the extraction result: the first failing check's error, else the tool's text for the stored bytes; `ExtractionOrder` states it per error |
| `ResumeAnalysis.ExtractTextFromPdf` | app/Services/ResumeAnalysisService.php:148-196 | the method's sequence of checks and early throws yields exactly the first failing check's error, or the tool's text for the stored bytes |
| `ResumeAnalysis.ExtractionCases` | app/Services/ResumeAnalysisService.php:153-190 | the extraction outcome as the ordered cascade: URL, existence, read, probe, then the tool |
| `ResumeAnalysis.ExtractionOrder` | app/Services/ResumeAnalysisService.php:153-185 | each of the four errors occurs exactly when all earlier checks pass and its own fails; text comes back only when all pass and the tool succeeds |
| `ResumeAnalysis.MissingKeys` | app/Services/ResumeAnalysisService.php:54-55 | the missing list holds exactly the required names the reply lacks |
| `ResumeAnalysis.NoneMissing` | app/Services/ResumeAnalysisService.php:55-57 | when every required name is present, nothing is reported missing |
| `ResumeAnalysis.TextOr` | app/Services/ResumeAnalysisService.php:69-72 | defines `?? ''`: the string found under the key, or "" when there is none |
| `ResumeAnalysis.Project` | app/Services/ResumeAnalysisService.php:68-73 | defines the returned record: each field is the string under its key in the flattened array, or "" |
| `ResumeAnalysis.NormalizeReply` | app/Services/ResumeAnalysisService.php:45-73 | defines what the reply becomes once text was extracted; the `NormalizeReply*` lemmas state its fail-open, TypeError and projection behaviour |
| `ResumeAnalysis.ExtractResumeInformation` | app/Services/ResumeAnalysisService.php:13-84 | any extraction failure gives the all-empty record; otherwise the outcome is the normalisation of the reply |
| `ResumeAnalysis.NormalizeReplyRaisesIff` | app/Services/ResumeAnalysisService.php:45-55 | a TypeError escapes exactly when the reply decodes to something that is not an array |
| `ResumeAnalysis.NormalizeReplyFailOpen` | app/Services/ResumeAnalysisService.php:48-60 | a failed call, invalid JSON, or an array missing any required key gives the all-empty record |
| `ResumeAnalysis.NormalizeReplyComplete` | app/Services/ResumeAnalysisService.php:57-73 | proof step for `NormalizeReplyProjects`: unfolds the no-key-missing branch, where the outcome is the projection of the flattened array |
| `ResumeAnalysis.NormalizeReplyProjects` | app/Services/ResumeAnalysisService.php:63-73 | with all four keys present, each field is the flattening of that key's value and the `?? ''` default never applies |
| `ResumeAnalysis.ProjectFlattened` | app/Services/ResumeAnalysisService.php:68-73 | projecting the flattened array gives, per field, the flattening of the input's value under that key |
| `ResumeAnalysis.FieldOfFlattened` | app/Services/ResumeAnalysisService.php:69-72 | `$flattened[$name] ?? ''` is the flattening of the input's value under `$name` when present |
| `ResumeAnalysis.SameKeysPresent` | app/Services/ResumeAnalysisService.php:54-55 | arrays that agree on the four required keys agree on which of them are present |
| `ResumeAnalysis.NormalizeReplyIgnoresExtraKeys` | app/Services/ResumeAnalysisService.php:63-73 | only the four required keys matter: arrays that agree on them give the same outcome, extra keys are discarded |
| `ResumeAnalysis.ProjectsFromLookups` | app/Services/ResumeAnalysisService.php:63-73 | given the values under the four keys, the record holds their flattenings |
| `ResumeAnalysis.ExampleLookups` | app/Services/ResumeAnalysisService.php:69-72 | the example reply holds the expected value under each required key |
| `ResumeAnalysis.ExampleProjects` | app/Services/ResumeAnalysisService.php:63-73 | the example reply normalises to the flattenings of its four values |
| `ResumeAnalysis.NormalizeReplyExample` | app/Services/ResumeAnalysisService.php:63-73 | `{"summary":"Dev","skills":["Go","SQL"],"experience":[],"education":"BSc CS","extra":1}` becomes `("Dev","Go, SQL","","BSc CS")` |
| `ResumeAnalysis.FallbackEvaluationFields` | app/Services/ResumeAnalysisService.php:141-144 | the fallback record holds score 0 and the fixed apology |
| `ResumeAnalysis.AnalyzeResume` | app/Services/ResumeAnalysisService.php:125-145 | every returned evaluation has both `aiGeneratedScore` and `aiGeneratedFeedback` set |
| `ResumeAnalysis.AnalyzeResumeUnchangedIff` | app/Services/ResumeAnalysisService.php:133-138 | the decoded reply comes back unchanged exactly when both keys are set and non-null; otherwise the fallback comes back |
| `ResumeAnalysis.AnalyzeResumeFallback` | app/Services/ResumeAnalysisService.php:128-145 | a failed call or invalid JSON yields the fallback: score 0 and the fixed apology |

## Left out

- Chat-completion calls, prompt text, model name and temperature (lines 22-41, 89-122): a remote, non-deterministic service. Each call's result is the `Reply` input. The job vacancy and resume serialisation (lines 89-97) only feed the prompt, so they are not modelled.
- `json_decode`, `json_last_error`: the library parser. Its outcome is `NotJson` or `Decoded(value)`. The decoder's own rules are not modelled: nesting depth limit, large integers becoming floats, numeric-string object keys becoming integer keys, and duplicate keys.
- Float values: PHP's float-to-string formatting is floating-point behaviour. Decoded values hold null, booleans, integers, strings and arrays only.
- `parse_url`: the URL's path component is an input (`urlPath`, with `None` for null or false).
- The `Storage` facade, `tempnam`, `file_put_contents`, `unlink` and the `Spatie\PdfToText\Pdf` binary invocation: file and process I/O. The disks, the host's files and the tool's output are inputs. The temporary file is not modelled, so nothing is claimed about its cleanup. Exceptions thrown by the storage driver itself are not modelled.
- The exception messages are modelled by `Message` but are only logged by the callers. No lemma states more about them.
- Logging calls: no observable behaviour.
- `ResumeAnalysis.ExtractResumeInformation`: a failed chat call counts as an `\Exception` and so gives the empty record. This assumes the client library throws only `\Exception` subclasses.
- The score's range (0-100) and the feedback's content: the code does not check them, so the model makes no claim about them.
- The dashboard and job-application views: server-rendered presentation only.
