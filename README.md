# Text-to-speech pipeline: text normaliser, document dispatch and voice selection

This project models the deterministic core of a small text-to-speech application and
proves properties of it in Dafny.

- **Text normaliser** (`TextProcessing`, over the string operations in `Strings`). It
  collapses whitespace and filters characters against a fixed class. It expands a fixed
  abbreviation table and then a fixed, order-sensitive contraction table, each entry as a
  replace-all in table order. It puts a space after each pause mark, collapses whitespace
  again and strips the result.
- **Document dispatch** (`DocumentProcessing`). The file type is the lowercased text after
  the last `.` of the path or the given filename. It must be `txt`, `pdf` or `docx`. The
  matching extractor produces the text. Every rejection has its own fixed error message.
  Blank text is reported as an error.
- **Voice selection and classification** (`TtsPipeline`, and its second copy
  `TestPipeline`). The selector returns the id of the first voice whose lowercased name
  passes a substring test for the requested gender. Otherwise it returns the first
  voice's id. The classifier splits the voice list into a male and a female bucket. The
  two copies run their bucket tests in opposite orders. In the second copy, every name
  containing "female" lands in the male bucket.

Supporting modules:

- `Wrappers` holds `Option`.
- `Seqs` holds the order-keeping filter `Where`, subsequences, `Join` and `Flatten`.
- `Strings` models the Python string built-ins the core uses: `isspace`, `lower`, `in`,
  `replace`, `split()`, `split(sep)`, `' '.join` and `strip`.

The speech engine becomes the list of `(id, name)` voices it reports. The PDF and DOCX
parsers become the page or paragraph texts they would produce, or a failure. UTF-8
decoding becomes its outcome. The file system becomes a boolean saying whether the path
exists.

## Model

| member | source | states |
|---|---|---|
| Strings.SpaceClasses | utils/text_processor.py:31-34 | the whitespace set of `str.split()`, `str.strip()` and regex `\s` holds the ASCII blanks and no character of `\w` |
| Strings.Words | utils/text_processor.py:31 | `str.split()` yields non-empty pieces without whitespace, the maximal runs of non-whitespace in order |
| Strings.WordsOfJoin | utils/text_processor.py:55 | splitting words joined by single spaces gives back exactly those words |
| Strings.WellSpacedIsJoin | utils/text_processor.py:55 | a string with no leading, trailing or doubled whitespace (only single spaces) is its own words joined by single spaces |
| Strings.NormalizeWhitespace | utils/text_processor.py:31 | `' '.join(s.split())` has the same words as `s`, no leading, trailing or doubled whitespace, keeps the non-whitespace characters in order, and is no longer than `s` |
| Strings.NormalizeWhitespaceMarks | utils/text_processor.py:47-55 | a mark followed by whitespace in the input is followed by a space after the collapse |
| Strings.ReplaceAll | utils/text_processor.py:41 | `str.replace` leaves text that does not contain the (non-empty) pattern unchanged |
| Strings.ReplaceAfterPrefix | utils/text_processor.py:41 | `str.replace` leaves a prefix in which no occurrence of the pattern starts untouched, and rewrites only the rest |
| Strings.Lower | core/document_processor.py:66 | lowercasing keeps the length and maps each character on its own |
| Strings.ContainsIffOccurs | core/tts_pipeline.py:32-35 | `p in s` holds exactly when `p` occurs in `s` at some index |
| Strings.FemaleHoldsMale | core/tts_pipeline.py:35-37 | a string containing "female" contains "male" |
| Strings.Strip | utils/text_processor.py:89 | `strip()` returns the slice of the input between its leading and trailing whitespace; the slice is empty exactly when the input is blank |
| Strings.StripIdempotent | core/tts_pipeline.py:9-10 | stripping twice gives the same result as stripping once |
| Strings.StripWellSpaced | utils/text_processor.py:89 | stripping a string with no leading or trailing whitespace changes nothing |
| Strings.SplitOn | core/document_processor.py:66 | `split(sep)` gives at least one piece, no piece holds `sep`, and joining the pieces with `sep` gives back the input |
| Strings.LastPiece | core/document_processor.py:66 | the last piece of `split(sep)` is a suffix of the input, preceded by `sep` unless it is the whole input |
| TextProcessing.IsKept | utils/text_processor.py:34 | the class `[\w\s.,!?;:'"()-]`; the pause marks and the apostrophe are in it |
| TextProcessing.CleanText | utils/text_processor.py:28-36 | every output character is a word character, whitespace or one of `. , ! ? ; : ' " ( ) -`; the output is no longer than the input; it is a subsequence of the whitespace-collapsed input that keeps every kept character as often as it occurs |
| TextProcessing.ApplyTable | utils/text_processor.py:40-41 | replacing every entry of a table in turn leaves text holding no key unchanged |
| TextProcessing.ExpandAbbreviations | utils/text_processor.py:38-42 | the loop applies every abbreviation as a replace-all in table order; text without an abbreviation is unchanged |
| TextProcessing.HandleSpecialCases | utils/text_processor.py:59-76 | the loop applies every contraction as a replace-all in table order; text without a contraction is unchanged |
| TextProcessing.ApplyTableConcat | utils/text_processor.py:73-74 | applying two tables in turn equals applying their concatenation |
| TextProcessing.ApplyTableSplit | utils/text_processor.py:73-74 | the first `k` entries of a table act before the rest |
| TextProcessing.WontExpands | utils/text_processor.py:62-74 | "won't" becomes "will not" |
| TextProcessing.CantExpands | utils/text_processor.py:62-74 | "can't" becomes "cannot" |
| TextProcessing.ReplaceMiddleKey | utils/text_processor.py:73-74 | in apostrophe-free surroundings, replacing a key whose only apostrophe is its fourth character rewrites just that key |
| TextProcessing.WontExpandsAnywhere | utils/text_processor.py:62-74 | for any apostrophe-free `a` and `b`, `a + "won't" + b` becomes `a + "will not" + b` |
| TextProcessing.CantExpandsAnywhere | utils/text_processor.py:62-74 | for any apostrophe-free `a` and `b`, `a + "can't" + b` becomes `a + "cannot" + b` |
| TextProcessing.GenericRuleFirstSplitsWont | utils/text_processor.py:62-74 | with the generic "n't" rule placed first, "won't" would become "wo not", so the table order matters |
| TextProcessing.LaterEntriesKeep | utils/text_processor.py:62-71 | text without an apostrophe passes any tail of the contraction table unchanged |
| TextProcessing.ApostropheFreeUnchanged | utils/text_processor.py:73-74 | text without an apostrophe passes unchanged through a table whose keys all hold one |
| TextProcessing.PadIsSpaceAfter | utils/text_processor.py:47-52 | `s.replace(d, d + ' ')` is the one pass over `s` that puts a space after each `d` and changes nothing else |
| TextProcessing.SpaceAfterAgain | utils/text_processor.py:47-52 | padding after a new mark once other marks are padded is the one pass padding after all of them |
| TextProcessing.PadFirstThree | utils/text_processor.py:47-49 | the comma, period and exclamation replacements are the one pass over `, . !`; each of those marks is then followed by whitespace and the non-whitespace characters are unchanged |
| TextProcessing.PadLastThree | utils/text_processor.py:50-52 | continuing with the question-mark, semicolon and colon replacements gives the one pass over all six marks, with the same two guarantees |
| TextProcessing.PadPausesOnePass | utils/text_processor.py:47-52 | the six replacements, in source order, are the one pass that puts a space after each of `, . ! ? ; :` |
| TextProcessing.PadPauses | utils/text_processor.py:47-52 | the result is the input with exactly one space inserted after each pause mark and nothing else changed; so each pause mark is followed by whitespace and the non-whitespace characters are unchanged |
| TextProcessing.SingleSpaceAfterMarks | utils/text_processor.py:47-55 | in collapsed text in which marks are followed by a space, each mark is last or is followed by exactly one space and then a non-space character |
| TextProcessing.ProcessPunctuation | utils/text_processor.py:44-57 | the output has the words of the input padded after each pause mark and no leading, trailing or doubled whitespace, so it is those words one space apart; each of `, . ! ? ; :` is last or is followed by exactly one space; the non-whitespace characters are the input's, in order |
| TextProcessing.ProcessText | utils/text_processor.py:78-89 | "" for a missing, non-string or empty argument; otherwise clean, abbreviations, contractions, punctuation in that order; the final strip changes nothing; the output is well spaced, with the pause-mark spacing |
| DocumentProcessing.UnsupportedFormat | core/document_processor.py:81-82 | the message lists the whitelist: "Error: Unsupported file format. Supported: txt, pdf, docx" |
| DocumentProcessing.LinesHaveText | core/document_processor.py:20-24 | the concatenated text holds a non-whitespace character exactly when some page or paragraph does |
| DocumentProcessing.Lines | core/document_processor.py:20-24 | the text the `+=` loops build is the parts joined by "\n", with a final "\n" when there are parts |
| DocumentProcessing.AppendLines | core/document_processor.py:20-24 | the loop produces each part followed by "\n", in order; the result is blank exactly when every part is |
| DocumentProcessing.ExtractTextFromPdf | core/document_processor.py:10-27 | a reader failure yields ""; otherwise the pages' texts, each followed by "\n" |
| DocumentProcessing.ExtractTextFromDocx | core/document_processor.py:29-46 | a reader failure yields ""; otherwise the paragraphs' texts, each followed by "\n" |
| DocumentProcessing.ExtractTextFromTxt | core/document_processor.py:48-62 | the decoded text, or "" when reading or decoding fails |
| DocumentProcessing.GetFileType | core/document_processor.py:64-66 | the lowercased text after the last `.`, or the whole lowercased name without one; the result never holds `.` |
| DocumentProcessing.TextOrError | core/document_processor.py:92 | the text itself when it holds a non-whitespace character, "Error: No text found in document" when it is blank; never blank |
| DocumentProcessing.DocumentOutcome | core/document_processor.py:68-92 | the result of process_document; whatever the input, it is non-blank text or an error message |
| DocumentProcessing.OutcomeErrors | core/document_processor.py:70-82 | a missing path gives "Error: File not found"; bytes with a missing or empty filename give "Error: Filename required for bytes input"; a type outside txt, pdf, docx gives the unsupported-format message |
| DocumentProcessing.OutcomeDispatch | core/document_processor.py:84-92 | pdf, docx and txt each go to their own extractor and to no other; its text is returned when not blank, and the no-text error otherwise |
| DocumentProcessing.BlankPdfHasNoText | core/document_processor.py:85-92 | a PDF whose pages are all blank gives "Error: No text found in document" |
| DocumentProcessing.ExtractSupported | core/document_processor.py:84-90 | the branch calls exactly the extractor matching the supported type |
| DocumentProcessing.ProcessDocument | core/document_processor.py:68-92 | the method returns what the dispatch above describes |
| TtsPipeline.ProcessText | core/tts_pipeline.py:9-10 | the placeholder returns the input stripped, which a further strip leaves unchanged |
| TtsPipeline.ProcessDocument | core/tts_pipeline.py:12-18 | undecodable bytes give "Error: Could not decode file content"; text or decoded bytes come back stripped |
| TtsPipeline.Wanted | core/tts_pipeline.py:32-35 | the selector's test for one voice: "female" wants female or zira names, "male" wants male or david names, and no other gender wants any |
| TtsPipeline.FirstWanted | core/tts_pipeline.py:30-37 | the index of the first voice passing the gender's test; no voice before it passes; None when no voice passes |
| TtsPipeline.FemaleNameIsMale | core/tts_pipeline.py:35-37 | a name containing "female" also passes the male test |
| TtsPipeline.OtherGenderWantsNone | core/tts_pipeline.py:28-39 | a lowercased gender other than "male" and "female" accepts no voice, so the fallback applies |
| TtsPipeline.SelectVoice | core/tts_pipeline.py:27-40 | the gender is lowercased; the result is the first accepted voice's id, or `voices[0].id` when none passes or that id is empty; no result exactly when the list is empty |
| TtsPipeline.AvailableVoices | core/tts_pipeline.py:71-81 | female: names with female or zira; male: the rest with male or david; every such voice is placed, the buckets are disjoint, keep input order and together hold at most the input's size |
| TtsPipeline.BucketFacts | core/tts_pipeline.py:74-80 | for two filters no voice passes together: each bucket holds exactly the passing voices, in order, and the sizes add up to at most the input's |
| TestPipeline.EffectiveGender | test_pipeline.py:13 | a missing or empty gender counts as "male"; any other is lowercased |
| TestPipeline.SelectVoice | test_pipeline.py:12-25 | after defaulting the gender: the first accepted voice's id, or `voices[0].id` when none passes or that id is empty; no result exactly when the list is empty |
| TestPipeline.FemaleBucketIsZira | test_pipeline.py:62-65 | a voice that reaches the female bucket names "zira" and neither "male", "david" nor "female" |
| TestPipeline.AvailableVoices | test_pipeline.py:58-66 | male test first: every "female" name is in the male bucket and never in the female one; the female bucket holds only zira names without male or david; disjoint, order kept, at most the input's size |

## Left out

- The speech engine is not modelled: `pyttsx3.init`, `getProperty`, `setProperty`, `save_to_file` and `runAndWait`. The selectors return the id they would pass to `setProperty`.
- `generate_speech` and `generate_speech_from_document` are not modelled. They only wire the modelled steps to the engine and to the file system (`makedirs`, `exists`).
- `get_model_info` returns constant dictionaries, so it states nothing to prove.
- PDF and DOCX parsing are not modelled. Their outcome is an input: the page or paragraph texts, or a failure standing for any exception.
- UTF-8 decoding and file reading are not modelled. Their outcome is an input: the decoded text, or a failure.
- Whether a path exists is an input boolean.
- The error messages the extractors print before returning "" are not modelled (console output).
- For bytes input, the extractors also receive the bytes. The model passes only the parsed outcome, because the bytes matter only to the parsers.
- Strings.ReplaceAll: the contract states only that text without the pattern is unchanged. The full behaviour of `str.replace` is its definition, and the table lemmas reason from that.
- Strings.IsWordChar: the regex class `\w` is modelled as ASCII letters, digits and `_`. Non-ASCII letters and digits that Python also counts are not covered.
- Strings.Lower: lowercasing is modelled for ASCII letters only. Other characters are left unchanged.
- TtsPipeline.SelectVoice: a `None` gender raises `AttributeError` in this copy. It is not modelled, because the gender is a string here.
- TtsPipeline.ProcessDocument: the unused `filename` parameter is dropped.
- TtsPipeline.ProcessText: a non-string argument, which would raise, is not modelled.
- The process_text method of the normaliser takes an argument that may be missing or of another type. Both are modelled as `None`.
- The Streamlit interface (`app.py`) and the environment set-up script (`setup.py`) are not part of this model. Both are I/O.
