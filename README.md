# CV extractor — a verified model of its core

`cv_extractor.py` reads every CV in a folder. It extracts each CV's text with a
reader chosen by file extension and sends that text to a chat-completion service.
It turns the service's reply into a record of personal data (a CV Record) and
appends that record to the object's Run Result, `extraction_results`. Finally it
exports the Run Result as a CSV table with thirteen fixed columns.

This project models the original logic between those library calls and proves
what it promises:

- **User message** (`ResponseParsing.UserMessage`). The message holds the file
  name and the first 4000 characters of the CV text.
- **Reply cleaning and JSON location** (`ResponseParsing`). The reply is
  stripped. A reply that starts with a markdown fence is reduced to the piece
  after the first fence, without a `json` tag, and stripped again. An empty
  text is refused. The slice from the first `{` to the last `}` goes to the
  JSON parser, and the record gets `filename` set.
- **Dispatch and folder globbing** (`FileDispatch`). The lower-cased suffix
  picks the reader. The folder is searched for each supported extension in
  lower and in upper case.
- **Row projection of the export** (`CsvExport`). Every record becomes a
  thirteen-column row, with `''` for missing keys.
- **The extractor object** (`CvExtractorModel.CvExtractor`). A class whose
  field `extractionResults` is the Run Result. `ProcessCvFolder` appends to it
  in a loop, and `SaveToCsv` reads it in a loop.

Supporting modules:

- `CvValues` holds the JSON values, records and `Option`.
- `PyStr` holds the Python string operations the source relies on:
  `isspace`, `startswith` and `endswith` as predicates, and `strip`, `find`,
  `rfind`, `split`, slicing, `lower` and `upper` as functions with contracts.

Everything outside the program is a parameter:

- the completion service is `respond: string -> string`;
- `json.loads` is `parse: string -> Option<Record>`;
- the PDF, DOCX and TXT readers are `read: (Format, string) -> Option<string>`;
- the folder is whether it exists plus the names it lists, in listing order;
- the iteration order of the extension set is a sequence `order`;
- whether the CSV file can be opened is a boolean.

## Model

| member | source | states |
|---|---|---|
| CvValues.Get | cv_extractor.py:262 | `result.get(field, '')`: the stored value when the key is present, the default otherwise |
| PyStr.LStrip | cv_extractor.py:155 | the result is a suffix of the input, everything removed is whitespace, and the result does not start with whitespace |
| PyStr.RStrip | cv_extractor.py:155 | the result is a prefix of the input, everything removed is whitespace, and the result does not end with whitespace |
| PyStr.Strip | cv_extractor.py:155 | `str.strip()`: the result has no surrounding whitespace, is no longer than the input, and is empty exactly when the input is all whitespace |
| PyStr.StripParts | cv_extractor.py:155 | right-stripping the left-stripped text leaves no whitespace at either end, and nothing exactly when the text is all whitespace |
| PyStr.StripChars | cv_extractor.py:155 | stripping only removes characters: every character of the result is in the input |
| PyStr.LStripPadded | cv_extractor.py:155 | left-stripping whitespace followed by text that does not start with whitespace gives that text |
| PyStr.RStripPadded | cv_extractor.py:155 | right-stripping text that does not end with whitespace, followed by whitespace, gives that text |
| PyStr.StripPadded | cv_extractor.py:155 | stripping whitespace, trimmed text and whitespace gives exactly the trimmed text |
| PyStr.StripIdempotent | cv_extractor.py:155 | stripping twice is stripping once |
| PyStr.IsSpace | cv_extractor.py:155 | `str.isspace` for one character: the whitespace set that `strip()` removes at lines 110, 121, 131 and 155 |
| PyStr.StartsWith | cv_extractor.py:158 | `s.startswith(p)`: `p` is a prefix of `s`, as tested at lines 158 and 161 |
| PyStr.EndsWith | cv_extractor.py:204-205 | `s.endswith(p)`: `p` is a suffix of `s`, which is how the pattern `*ext` selects a name |
| PyStr.Find | cv_extractor.py:170 | `str.find(c)`: -1 exactly when `c` is absent; otherwise an index holding `c` with no earlier `c` |
| PyStr.RFind | cv_extractor.py:171 | `str.rfind(c)`: -1 exactly when `c` is absent; otherwise an index holding `c` with no later `c` |
| PyStr.FindIs | cv_extractor.py:170 | an index holding `c`, with no `c` before it, is what `find` returns |
| PyStr.RFindIs | cv_extractor.py:171 | an index holding `c`, with no `c` after it, is what `rfind` returns |
| PyStr.FindFrom | cv_extractor.py:160 | substring search from a start index: the first occurrence at or after it, or -1 when there is none |
| PyStr.FindSub | cv_extractor.py:160 | substring search: -1 exactly when the pattern is absent; otherwise the first occurrence |
| PyStr.Split | cv_extractor.py:160 | `str.split(sep)` has at least one piece; text starting with `sep` has at least two, the first empty |
| PyStr.SplitAt | cv_extractor.py:160 | with an occurrence of `sep`, split gives the text before the first occurrence followed by the split of the rest |
| PyStr.SplitJoin | cv_extractor.py:160 | joining the pieces of a split with the separator gives back the text |
| PyStr.SplitPiecesFree | cv_extractor.py:160 | no piece of a split contains the separator |
| PyStr.Slice | cv_extractor.py:177 | Python slicing `s[i:j]`: the characters from `i` to `j`, empty when `j <= i` |
| PyStr.Prefix | cv_extractor.py:150 | `s[:n]`: the first `min(n, len(s))` characters |
| PyStr.Upper | cv_extractor.py:205 | `str.upper()` on ASCII: same length, no small letter left, every small letter becomes its capital and every other character is kept |
| PyStr.Lower | cv_extractor.py:88 | `str.lower()` on ASCII: same length, no capital left, every capital becomes its small letter and every other character is kept |
| PyStr.LowerUpper | cv_extractor.py:88-93 | lower-casing after upper-casing is lower-casing: the upper-case patterns of line 205 dispatch like the lower-case ones |
| PyStr.LowerNoCapitals | cv_extractor.py:88 | text without capitals is its own lower case |
| ResponseParsing.UserMessage | cv_extractor.py:150 | the message is the header with the file name, followed by at most the first 4000 characters of the CV text |
| ResponseParsing.MessageHeader | cv_extractor.py:150 | the header is `CV Filename: `, then the file name, then `\n\nCV Content:\n`, and nothing else |
| ResponseParsing.UserMessageTruncates | cv_extractor.py:150 | texts that agree on the first 4000 characters give the same message; the message is at most 4000 characters longer than the header; a short text is sent whole |
| ResponseParsing.CleanResponse | cv_extractor.py:155-163 | the cleaned reply has no surrounding whitespace |
| ResponseParsing.DropJsonTag | cv_extractor.py:161-162 | a text starting with `json` loses exactly that tag; any other text is kept |
| ResponseParsing.FencePiece | cv_extractor.py:158-160 | a reply starting with a fence splits into at least two pieces; piece 1 runs from the first fence to the next one or to the end |
| ResponseParsing.FencedClean | cv_extractor.py:155-163 | a fenced reply cleans to the stripped piece between the first two fences, minus one leading `json`; that piece holds no fence |
| ResponseParsing.UnfencedClean | cv_extractor.py:155-158 | a reply not starting with a fence is only stripped |
| ResponseParsing.CleanBare | cv_extractor.py:155-158 | cleaning leaves a trimmed, unfenced reply unchanged |
| ResponseParsing.CleanKeepsCharacters | cv_extractor.py:155-163 | every character of the cleaned reply occurs in the raw reply |
| ResponseParsing.FencedPieceChars | cv_extractor.py:158-162 | piece 1 of a fenced text, with an exact leading `json` removed, holds only characters of that text |
| ResponseParsing.JoinChars | cv_extractor.py:160 | the characters of one piece occur in the joined text |
| ResponseParsing.JsonCandidate | cv_extractor.py:170-177 | there is no candidate exactly when the text lacks `{` or lacks `}` |
| ResponseParsing.CandidateSpan | cv_extractor.py:170-177 | when the last `}` lies after the first `{`, the candidate is the piece from the first `{` to the last `}` inclusive |
| ResponseParsing.CandidateReversed | cv_extractor.py:170-177 | when the last `}` lies before the first `{`, the candidate is empty |
| ResponseParsing.CandidateWhole | cv_extractor.py:170-177 | text that starts with `{` and ends with `}` is its own candidate |
| ResponseParsing.CandidateIsSlice | cv_extractor.py:170-177 | every candidate occurs in the text; a non-empty one starts with `{` and ends with `}` |
| ResponseParsing.CandidateInProse | cv_extractor.py:170-177 | one object between prose with no `{` before it and no `}` after it is the candidate |
| ResponseParsing.RecordOfCleaned | cv_extractor.py:165-181 | a record from a cleaned reply always carries the file name under `filename` |
| ResponseParsing.ExtractPersonalData | cv_extractor.py:155-181 | a record from a reply always carries the file name under `filename` |
| ResponseParsing.ServiceRecord | cv_extractor.py:139-181 | a record extracted through the service carries the file name under `filename` |
| ResponseParsing.NoCandidateNoRecord | cv_extractor.py:165-175 | an empty cleaned reply, or one lacking `{` or `}`, gives None whatever the parser does |
| ResponseParsing.RecordIsParsedCandidate | cv_extractor.py:170-181 | there is a record exactly when the candidate exists and parses; the record is the parsed object with `filename` overwritten and every other key kept |
| ResponseParsing.CleanedRecordIsParsedCandidate | cv_extractor.py:165-181 | the same, stated for the cleaned reply |
| ResponseParsing.NoOpenBraceNoRecord | cv_extractor.py:170-175 | a reply without `{` gives None |
| ResponseParsing.ReversedBracesNoRecord | cv_extractor.py:170-178 | with a parser that rejects the empty document, reversed braces give None |
| ResponseParsing.BareObjectParsedWhole | cv_extractor.py:155-181 | a bare object with whitespace around it is parsed whole and tagged with the file name |
| ResponseParsing.NotFenced | cv_extractor.py:158 | text whose first character is not a backtick does not start with a fence |
| ResponseParsing.NoBacktickFree | cv_extractor.py:160 | text without backticks holds no fence |
| ResponseParsing.SpaceNoBacktick | cv_extractor.py:155 | whitespace holds no backtick |
| ResponseParsing.FirstFenceAfter | cv_extractor.py:160 | in backtick-free text followed by a fence, the first fence is that one |
| ResponseParsing.DropTagBeforeObject | cv_extractor.py:161-162 | dropping an optional `json` tag in front of whitespace and an object leaves them intact |
| ResponseParsing.FencedPieceOf | cv_extractor.py:158-160 | backtick-free text between two fences is the piece taken |
| ResponseParsing.TaggedObjectClean | cv_extractor.py:161-163 | the piece, with its tag dropped and stripped, is the object |
| ResponseParsing.FencedObjectClean | cv_extractor.py:155-163 | a reply of the form (whitespace, fence, optional `json`, object, fence, whitespace) cleans to the object |
| ResponseParsing.FencedObjectParsed | cv_extractor.py:155-181 | such a fenced reply hands exactly the object to the parser |
| ResponseParsing.FencedReplyExample | cv_extractor.py:155-181 | worked reply: a ```json-fenced object is parsed |
| ResponseParsing.ObjectInProse | cv_extractor.py:155-181 | an object wrapped in prose without braces is handed to the parser whole |
| ResponseParsing.ProseReplyExample | cv_extractor.py:155-181 | worked reply: "Sure! Here is the data: {...}  Hope that helps!" parses the object |
| ResponseParsing.NoBraceReplyExample | cv_extractor.py:165-175 | worked reply: prose without braces gives None |
| FileDispatch.Suffix | cv_extractor.py:88 | `Path.suffix` is empty, or a dot followed by at least one non-dot character, ending the name |
| FileDispatch.FormatOf | cv_extractor.py:88-96 | there is a reader exactly for the four supported extensions |
| FileDispatch.Classify | cv_extractor.py:88-96 | a file goes to a reader exactly when its lower-cased suffix is in `SUPPORTED_EXTENSIONS` |
| FileDispatch.NonBlank | cv_extractor.py:131 | `text if text.strip() else None`: text is kept exactly when it is not all whitespace |
| FileDispatch.ExtractText | cv_extractor.py:85-99 | an unsupported file yields None; otherwise there is text exactly when the format's reader returns text that is not blank, and then it is that text, never empty |
| FileDispatch.SuffixOf | cv_extractor.py:88 | the suffix of a stem followed by `.xyz` is `.xyz` |
| FileDispatch.ClassifyByExtension | cv_extractor.py:88-93 | a supported extension in any case goes to that extension's reader |
| FileDispatch.ClassifyPdfExample | cv_extractor.py:88-89 | `cv.PDF` goes to the PDF reader |
| FileDispatch.ClassifyDocExample | cv_extractor.py:90-91 | `resume.Doc` goes to the DOCX reader |
| FileDispatch.ClassifyTxtExample | cv_extractor.py:92-93 | `notes.txt` goes to the TXT reader |
| FileDispatch.ClassifyDotFileExample | cv_extractor.py:88-96 | a file named `.pdf` has no suffix and is unsupported |
| FileDispatch.ClassifyDoubleExtensionExample | cv_extractor.py:88-96 | `cv.pdf.zip` is unsupported: only the last extension counts |
| FileDispatch.ClassifyNoExtensionExample | cv_extractor.py:88-96 | `README` is unsupported |
| FileDispatch.SupportedPlain | cv_extractor.py:36 | each supported extension is a dot followed by dot-free small letters |
| FileDispatch.ExtensionForms | cv_extractor.py:88-93 | such an extension and its upper-case form are dot-prefixed and dot-free after the dot, and both lower-case to the extension |
| FileDispatch.BareUnsupported | cv_extractor.py:88-96 | a name that is a dot followed by dot-free text has no suffix and reaches no reader |
| FileDispatch.ClassifyMatch | cv_extractor.py:88-96 | a name longer than the extension it matches, in either case, goes to that extension's reader |
| FileDispatch.LongerThanPattern | cv_extractor.py:204-205 | a collected name that is not a bare pattern is longer than its extension |
| FileDispatch.CollectedFilesRead | cv_extractor.py:202-217 | every collected file reaches the reader of the extension it matches, except a file named exactly after one of the eight patterns, which has no suffix |
| FileDispatch.DotFileCollected | cv_extractor.py:202-217 | a file named `.pdf` is collected but no reader takes it |
| FileDispatch.Glob | cv_extractor.py:204-205 | the matches are exactly the listed names ending with the pattern |
| FileDispatch.CvFiles | cv_extractor.py:202-205 | every collected name is a listed name |
| FileDispatch.GlobCvFiles | cv_extractor.py:202-205 | the collecting loop builds, for each extension in iteration order, its lower-case then its upper-case matches |
| FileDispatch.CvFilesMembers | cv_extractor.py:202-205 | a name is collected exactly when it is listed and ends with an iterated extension in lower or upper case |
| FileDispatch.MatchesSomeLast | cv_extractor.py:203-205 | a name matches an iterated extension exactly when it matches one before the last or the last one |
| FileDispatch.CvFilesSelects | cv_extractor.py:202-205 | whatever the set's iteration order, a listed name is collected exactly when it ends with one of the eight all-lower or all-upper patterns |
| FileDispatch.SupportedPatternMatches | cv_extractor.py:202-205 | the eight patterns are the lower- and upper-case forms of the four extensions |
| FileDispatch.UpperSupported | cv_extractor.py:205 | the upper-case forms of the four extensions |
| FileDispatch.LowerLiterals | cv_extractor.py:88 | the lower-case forms of the worked extensions |
| FileDispatch.LastCharOfEnding | cv_extractor.py:204-205 | a name ending with a pattern ends with the pattern's last character |
| FileDispatch.LastCharOfMatch | cv_extractor.py:204-205 | a match of an extension's pattern ends with that extension's last letter, in lower case exactly for the lower-case pattern |
| FileDispatch.PatternsDisjoint | cv_extractor.py:204-205 | a name matches the patterns of at most one extension, and only one case of it |
| FileDispatch.GlobNoDuplicates | cv_extractor.py:204-205 | globbing a duplicate-free listing gives no duplicates |
| FileDispatch.ConcatNoDuplicates | cv_extractor.py:204-205 | disjoint, duplicate-free lists stay duplicate-free when concatenated |
| FileDispatch.EarlierMatchesOtherExtension | cv_extractor.py:203-205 | names collected for earlier extensions match no later one |
| FileDispatch.CaseMatchesDisjoint | cv_extractor.py:204-205 | the lower- and upper-case matches of one extension share no name |
| FileDispatch.CvFilesNoDuplicates | cv_extractor.py:202-205 | with pathlib's POSIX matching, which is case-sensitive, no file is collected twice |
| CsvExport.FieldnamesShape | cv_extractor.py:240-254 | thirteen distinct columns, starting with `filename` |
| CsvExport.ProjectRow | cv_extractor.py:262 | every row has exactly the thirteen columns in the fixed order; a column the record has is copied unchanged and a missing one holds `''` |
| CsvExport.ExportRows | cv_extractor.py:260-263 | one row per record |
| CsvExport.ExportRowsConcat | cv_extractor.py:260-263 | rows follow the record order: the export of two lists in turn is the first list's rows, then the second's |
| CsvExport.ExtraKeyDropped | cv_extractor.py:262 | a key that is not a column does not affect the row |
| CsvExport.RowDependsOnColumns | cv_extractor.py:262 | records that agree on the columns give the same row |
| CsvExport.RowRecordLookup | cv_extractor.py:262-263 | in the dictionary of a row, a column maps to the value of its last pair |
| CsvExport.RowRecordKeys | cv_extractor.py:262-263 | the keys of a row's dictionary are its columns |
| CsvExport.RowRoundTrip | cv_extractor.py:240-263 | the dictionary of a row has exactly the thirteen columns, present values unchanged and missing ones `''`; projecting it again gives the same row |
| CvExtractorModel.FileRecord | cv_extractor.py:217-228 | a file contributes a record exactly when its text is non-empty and the extractor gives a non-empty record, and then it is that record |
| CvExtractorModel.PerFile | cv_extractor.py:217-228 | a file's step gives only the extractor's non-empty record for the file's text |
| CvExtractorModel.PerFileApplied | cv_extractor.py:217-228 | the step of a file is that file's contribution |
| CvExtractorModel.Dispatched | cv_extractor.py:217 | text comes only from supported files and is never blank |
| CvExtractorModel.ServiceExtractor | cv_extractor.py:223 | every record it gives names the file it was asked about |
| CvExtractorModel.Harvest | cv_extractor.py:213-228 | a run appends at most one record per file |
| CvExtractorModel.CvExtractor.constructor | cv_extractor.py:83 | a new extractor starts with an empty Run Result |
| CvExtractorModel.CvExtractor.ProcessCvFolder | cv_extractor.py:194-230 | for an iteration order of `SUPPORTED_EXTENSIONS`: a missing folder, or one with no matching file, returns `[]` with the Run Result unchanged; otherwise the records of the collected files are appended in file order after the old Run Result, and the whole Run Result is returned |
| CvExtractorModel.CvExtractor.ProcessFiles | cv_extractor.py:213-228 | the loop appends the contributed records in file order, after the old Run Result |
| CvExtractorModel.CvExtractor.SaveToCsv | cv_extractor.py:232-271 | succeeds exactly when the Run Result is non-empty and the file opens; then it writes the thirteen-column header and one projected row per record, in order; otherwise it writes nothing |
| CvExtractorModel.KeptIndicesSpec | cv_extractor.py:213-228 | the kept positions are in range and ascending, and are exactly the files that contribute |
| CvExtractorModel.HarvestByIndices | cv_extractor.py:213-228 | the k-th record comes from the k-th kept file, so the order of the records follows the file order |
| CvExtractorModel.HarvestStep | cv_extractor.py:213-228 | one more file appends its record, if any, at the end |
| CvExtractorModel.HarvestSkip | cv_extractor.py:217-228 | a file without text (`continue`), or whose record is missing or empty, adds nothing to the run |
| CvExtractorModel.HarvestKeep | cv_extractor.py:217-225 | a file with non-empty text and a non-empty record appends that record to the run, after whatever the Run Result held before |
| CvExtractorModel.HarvestOne | cv_extractor.py:213-228 | a run over one file gives that file's record, if any |
| CvExtractorModel.HarvestConcat | cv_extractor.py:213-230 | running over two lists in turn appends the first list's records, then the second's, so results accumulate across calls |
| CvExtractorModel.UnsupportedContributesNothing | cv_extractor.py:213-220 | an unsupported file contributes nothing, wherever it is in the list |
| CvExtractorModel.ServiceRecordKept | cv_extractor.py:217-225 | a service-extracted record is never empty, so `if personal_data` keeps it |
| CvExtractorModel.ServiceRunFilenames | cv_extractor.py:179-225 | the k-th record of a run names the k-th kept file in `filename` |
| CvExtractorModel.RunFilenamesDistinct | cv_extractor.py:202-225 | with pathlib's POSIX matching and a listing without repeats, the records of one run name pairwise different files |
| CvExtractorModel.OneTxtOneUnsupported | cv_extractor.py:213-228 | one readable `.txt` CV and one unsupported file give exactly the CV's record, in either order |
| CvExtractorModel.HarvestPair | cv_extractor.py:213-228 | a run over two files is the run over the first followed by the run over the second |
| CvExtractorModel.PairSteps | cv_extractor.py:213-228 | in that folder the CV contributes its record and the other file nothing |

## Left out

- The remote completion call, the API-key lookup, the client setup and the `ValueError` for a missing key (cv_extractor.py:72-82, 139-153). These are network and environment I/O. The reply is the function `respond`, and the model's constructor only starts the Run Result empty.
- The internals of `json.loads` (cv_extractor.py:178). It is the abstract `parse`. A non-empty candidate starts with `{`, so a successful parse is a JSON object, which is what `Record` models. `ReversedBracesNoRecord` takes the parser's rejection of the empty document as a hypothesis.
- ExtractPersonalData: the generic-exception branch (cv_extractor.py:186-192) is not modelled. It calls the undefined `Noner`, so it raises `NameError` instead of returning None, and lines 189-192 are unreachable. The collaborators in this model are total functions, so no exception reaches that branch, and the model never turns one into None.
- The PDF, DOCX and TXT readers (cv_extractor.py:101-134) are the abstract `read`. Only their shared rule, that whitespace-only text becomes None, is modelled (`NonBlank`). Exceptions inside `extract_text_from_file` that become None (cv_extractor.py:97-99) are a reader returning None.
- CvExtractor.ProcessCvFolder takes the text extractor and the record extractor as functions. `Dispatched` and `ServiceExtractor` instantiate them with the dispatch and the reply parsing of this model, and the lemmas about the pipeline use those instances.
- The file system is reduced to whether the folder exists and the names it lists, in listing order. Directories whose names match a pattern are not modelled, and neither is the order of `glob`'s results (the listing order stands in for it).
- FileDispatch.Glob models pathlib's POSIX matching, which is case-sensitive even on a case-insensitive file system. With Windows paths `glob` ignores case, so `cv.pdf` matches both `*.pdf` and `*.PDF` and is processed twice. This is why `CvFilesNoDuplicates` and `RunFilenamesDistinct` are stated for POSIX matching only.
- The iteration order of `SUPPORTED_EXTENSIONS` is the parameter `order`. `CvFilesSelects` holds for every order that lists the set once.
- PyStr.Lower and PyStr.Upper change ASCII letters only, while Python's `str.lower` and `str.upper` cover all of Unicode. The dispatch comparisons are unaffected. The only non-ASCII characters that lower-case to ASCII letters are U+0130 (to `i` plus a combining dot) and U+212A (to `k`), and neither `i` nor `k` occurs in `.pdf`, `.docx`, `.doc` or `.txt`.
- FileDispatch.Suffix follows `PurePath.suffix` of CPython up to 3.13. A trailing dot gives no suffix there.
- CSV quoting, encoding and line endings of `csv.DictWriter` (cv_extractor.py:256-263) are not modelled. A written row is its list of (column, value) pairs. An I/O failure in the middle of writing, after which `save_to_csv` returns False with part of the file written, is not modelled. Only a file that cannot be opened is (`canOpen`).
- Logging and its module-level configuration (cv_extractor.py:19-28), `load_dotenv` (cv_extractor.py:31), `main` (cv_extractor.py:274 onwards) and `examples.py`. Logging is a side effect that changes no value the model computes. `load_dotenv` reads the environment. `main` and `examples.py` are interactive input, printing and process exit.
- CvExtractor.ProcessCvFolder returns a copy of the Run Result. In the source the returned list is `self.extraction_results` itself (cv_extractor.py:230), so a caller that changes it changes the object's field. The model does not capture that aliasing.
