# OCR transcription checks and manual review tool, in Dafny

This project models the two pieces of string logic at the heart of the PDF
transcription tool.

- `processor.py`:
  - the OCR anomaly detector (`detect_anomalies`);
  - the confidence scorer (`calculate_confidence_score`);
  - the part of `transcribe_and_translate` that runs after the model call. It
    extracts the transcript between the `--- TRANSCRIPCIÓN ---` and
    `--- TRADUCCIÓN ---` markers of the service response, then appends one
    `--- AUTOMATED ANALYSIS ---` block with the score, the issues and a
    severity banner.
- `review_tool.py`:
  - the section parser of `load_processed_file`, applied to the file's text;
  - the three-pass Markdown highlighter `highlight_suspicious_text`;
  - the line assembly of `generate_review_report`.

## Files

- `text.dfy` (module `Text`): the Python string built-ins the tools use, on
  `string == seq<char>`: `find`, slicing, `strip`, `split("\n")`,
  `"\n".join`, `split()` on whitespace, and decimal rendering of an integer.
- `patterns.dfy` (module `Patterns`): each regular expression as a predicate
  saying where a match can start: `(.)\1{3,}`, `[a-z][A-Z]`, `[^\w\s]{3,}`,
  `\d{10,}` and `[|@#$%^&*]{2,}`.
- `processor.dfy` (module `Processor`): the detector, the scorer, the
  marker extraction and the analysis block. The detector, the scorer and the
  analysis block are imperative methods proved against specification
  functions, with lemmas about those functions. The marker extraction has no
  loop and is a function.
- `review.dfy` (module `ReviewTool`):
  - the parser, as a line loop that updates `current_section`,
    `current_content` and the `sections` map, proved equal to a grouping of
    the lines into sections;
  - the highlighter, as three left-to-right rewriting scans;
  - the report, as a method of appends proved equal to a function of the
    sections.
- `pipeline.dfy` (module `Pipeline`): how the two programs meet. Its lemmas
  parse the string `transcribe_and_translate` returns. The file written in
  text mode and read back with universal newlines holds exactly that string
  only when the response has no '\r' (see "## Left out").

## The marker names do not match

`processor.py` asks for, and extracts between, markers with Spanish names
(`TRANSCRIPCIÓN`, `TRADUCCIÓN`; processor.py:127-130, 144-145). The report
looks up the English keys `TRANSCRIPTION` and `TRANSLATION`
(review_tool.py:60, 67).

The model keeps this mismatch as written:
- `Pipeline.MarkerNamesNotLookedUp` shows the two markers parse as headers
  whose names are not the looked-up keys;
- `Pipeline.SectionsOfProcessedFile` shows that a processed file holds neither
  key unless the response itself contains a line `--- TRANSCRIPTION ---` or
  `--- TRANSLATION ---`;
- `ReviewTool.ReportOfAnalysisOnly` then gives the shape of such a report.

No round trip is claimed for the transcript or the translation. The
`AUTOMATED ANALYSIS` section does round-trip (`Pipeline.AnalysisSectionReadBack`).

## Modelling choices

- The 10% fragmentation test `len(short_words) > len(words) * 0.1` is the
  integer comparison `10 * short > words`. For integer counts the two agree.
- Each `re.search` is an existential over start positions. Each `re.sub` is a
  recursive scan that replaces leftmost, greedy, non-overlapping matches, as
  Python's regex engine does for these patterns.
- `str.find` returns the first occurrence or -1. A Python slice whose start
  lies past its stop is empty (`Text.Slice`).

## Model

| member | source | states |
|---|---|---|
| Processor.DetectAnomalies | processor.py:38-72 | The issues are the descriptions of the checks that fire, appended in run order. The loop over `unusual_patterns` appends one "Unusual character pattern detected: <regex>" per matching pattern, in list order. |
| Processor.ChecksInOrder | processor.py:46-70 | The checks run as: repeated characters, missing spaces, the three unusual patterns in list order, fragmentation. |
| Processor.AnomaliesInOrder | processor.py:43-72 | The issue list is the concatenation, in that fixed order, of each check's description if it fires and nothing otherwise. |
| Processor.AnomaliesReportFiredChecks | processor.py:46-70 | Each check's description is in the list iff that check fires. The list is empty iff no check fires. It has at most 6 entries. |
| Processor.DescriptionsDiffer | processor.py:47-69 | The six issue descriptions differ pairwise. |
| Processor.UnusualIssueInjective | processor.py:62 | Two unusual-pattern descriptions are equal only for the same regex text. |
| Processor.SingleLetterWords | processor.py:66 | The filtered list holds words of `ws` that are one alphabetic character, and every such word. |
| Processor.SingleLetterWordsCount | processor.py:66 | The filtered list holds each one-letter alphabetic word exactly as often as `ws` does, and no other word. |
| Processor.FragmentationReported | processor.py:64-70 | The fragmentation issue is present iff 10 × the number of one-letter alphabetic words > the number of whitespace-split words (the test `Processor.IsFragmented`). |
| Processor.EmptyTextHasNoAnomalies | processor.py:65-70 | Empty text yields no issues; the word test compares 0 with 0. |
| Processor.FiredIssuesMembership | processor.py:46-70 | A check whose description no other check shares is reported iff it fires. |
| Processor.FiredIssuesEmpty | processor.py:46-70 | Nothing is reported iff no check fires. |
| Processor.CalculateConfidenceScore | processor.py:75-97 | The nested loops with `break` compute `Score(issues)`: 85 less, per issue, the points of the first table key the issue contains, clamped. The result lies in [0, 85]. `text` plays no part. |
| Processor.FirstMatch | processor.py:90-94 | The rule index chosen is the first whose key is a substring of the issue; no earlier key occurs; `|table|` means none matched. |
| Processor.DeductionByRule | processor.py:90-94 | First match wins: the first table key contained in the issue decides its deduction. |
| Processor.UnmatchedIssueCostsNothing | processor.py:90-94 | An issue containing no table key deducts 0. |
| Processor.IssueDeductions | processor.py:47-88 | Each detector issue costs 15, 10, 8 (each unusual pattern) and 12. |
| Processor.Clamp | processor.py:97 | `max(0, min(100, x))` lies in [0, 100]. It is 0 below the range, 100 above it, and leaves values in range unchanged. |
| Processor.ScoreBounds | processor.py:80-97 | The score lies in [0, 85]. It is 0 once the deductions reach 85; otherwise it is 85 less the deductions. |
| Processor.TotalDeductionAppend | processor.py:90-94 | The deductions of two issue lists add up. |
| Processor.TotalDeductionIgnoresOrder | processor.py:90-94 | Two issue lists with the same multiset of issues deduct the same total. |
| Processor.ScoreIgnoresOrder | processor.py:90-97 | Permuting the issues leaves the score unchanged. |
| Processor.TotalDeductionOfAnomalies | processor.py:46-94 | On the detector's output the deductions are 15·[repeated] + 10·[missing] + 8·(number of matching unusual patterns) + 12·[fragment]. |
| Processor.ScoreOfAnomalies | processor.py:46-97 | On the detector's output the score is 85 − 15·[repeated] − 10·[missing] − 8·k − 12·[fragment], with k ≤ 3. So it is at least 24, and it is 85 iff no issue was found. |
| Processor.ExtractTranscription | processor.py:144-152 | If either marker is missing, the transcript is exactly "Error: Could not extract transcription from response". |
| Processor.TranscriptionBetweenMarkers | processor.py:144-150 | With both markers present, the transcript is the stripped slice from the end of the first TRANSCRIPCIÓN marker to the start of the first TRADUCCIÓN marker. |
| Processor.MarkersOutOfOrder | processor.py:148-150 | A TRADUCCIÓN marker that starts before the TRANSCRIPCIÓN marker ends gives an empty transcript. |
| Processor.AppendAnalysis | processor.py:159-171 | The `+=` steps append exactly one block to the unchanged response: a blank line, `--- AUTOMATED ANALYSIS ---`, then the analysis lines, each ended by a newline. |
| Processor.AnalysisLinesShape | processor.py:160-171 | The first line is "Confidence Score: N%". A "Detected Issues" line appears iff there are issues. The last line is LOW CONFIDENCE iff issues and score < 70, POTENTIAL ISSUES iff issues and score ≥ 70, and "No obvious issues detected" iff no issues. |
| Processor.TranscribeAndTranslate | processor.py:143-173 | The returned text is the annotated response. Its first `|response|` characters are the response unchanged. |
| Processor.AnomaliesLackNewline | processor.py:47-69 | No issue description holds a newline. |
| Processor.AnalysisLinesLackNewline | processor.py:161-171 | With single-line issues, every analysis line is a single line. |
| Processor.AnalysisLinesInitials | processor.py:162-171 | Every analysis line is non-empty and does not start with '-', so none reads as a section header. |
| ReviewTool.LoadProcessedFile | review_tool.py:18-35 | The line loop builds exactly `Sections(content)`. The loop invariant says `sections`, `current_section` and `current_content` track the grouping of the lines read so far. |
| ReviewTool.Groups | review_tool.py:23-30 | Every section starts at a header line and its body holds no header. There are no sections iff the text has no header line. |
| ReviewTool.ExtendGroupsWithHeader | review_tool.py:24-28 | A header line opens a new, empty section after the existing ones. |
| ReviewTool.ExtendGroupsWithLine | review_tool.py:29-30 | A non-header line joins the last open section, or is dropped before the first header. |
| ReviewTool.StepHeader | review_tool.py:24-28 | At a header, flushing the current section and opening the new one keeps the loop invariant. |
| ReviewTool.StepLine | review_tool.py:29-30 | Appending a body line to `current_content` keeps the loop invariant. |
| ReviewTool.StepEnd | review_tool.py:32-33 | The final flush yields the dictionary of all sections. |
| ReviewTool.FirstHeaderBounds | review_tool.py:23-30 | The lines before the first header hold no header. |
| ReviewTool.GroupsPartition | review_tool.py:23-30 | The lines are the discarded preamble followed by each section's header and body, in order. No other line is lost. |
| ReviewTool.FlattenHeaders | review_tool.py:24-30 | A line of the sections is a header iff it opens one of them: header lines never appear in a body. |
| ReviewTool.ToMap | review_tool.py:25-33 | A section whose name is empty is never stored. |
| ReviewTool.ToMapKeys | review_tool.py:25-33 | A key is stored iff it is non-empty and some section has that name. |
| ReviewTool.ToMapLast | review_tool.py:25-33 | When a name repeats, the last section of that name wins. Its value is the body joined by "\n" and stripped. |
| ReviewTool.SectionKeys | review_tool.py:18-35 | `key` is in the parsed dictionary iff it is non-empty and some line `l` starts with "--- " and ends with " ---" and has `l[4:-4] == key`. |
| ReviewTool.GroupsOfLastSection | review_tool.py:23-30 | A header followed only by non-header lines forms the last section, whatever precedes it. |
| ReviewTool.LastSectionWins | review_tool.py:23-33 | The name of the file's last section maps to its body, joined and stripped. |
| ReviewTool.RunLengthMaximal | review_tool.py:43 | The repeat scan takes the whole run of one character (greedy `\1{3,}`). |
| ReviewTool.SymbolRunLengthMaximal | review_tool.py:49 | The symbol scan takes the whole run of `[^\w\s]` characters (greedy `{3,}`). |
| ReviewTool.MarkRepeatsIdentity | review_tool.py:43 | `ReviewTool.MarkRepeats`, the first `re.sub`: text without a run of four equal non-newline characters passes the first rewrite unchanged. |
| ReviewTool.MarkCaseJoinsIdentity | review_tool.py:46 | `ReviewTool.MarkCaseJoins`, the second `re.sub`: text without a lowercase letter followed by an uppercase letter passes the second rewrite unchanged. |
| ReviewTool.MarkSymbolRunsIdentity | review_tool.py:49 | `ReviewTool.MarkSymbolRuns`, the third `re.sub`: text without a run of three `[^\w\s]` characters passes the third rewrite unchanged. |
| ReviewTool.HighlightUnchanged | review_tool.py:38-51 | `ReviewTool.Highlight` is the three passes in source order. Text with none of the three patterns comes out of `highlight_suspicious_text` unchanged. |
| ReviewTool.MarkRepeatsAppend | review_tool.py:43 | The first rewrite works piecewise across a boundary that no run crosses. |
| ReviewTool.MarkCaseJoinsAppend | review_tool.py:46 | The second rewrite works piecewise across a boundary that is not a lower→upper pair. |
| ReviewTool.MarkSymbolRunsAppend | review_tool.py:49 | The third rewrite works piecewise across a boundary that no symbol run crosses. |
| ReviewTool.RepeatRunMarked | review_tool.py:43 | A run of n ≥ 4 copies of a non-newline c becomes `**cccc+**`, whatever n. |
| ReviewTool.RunBecomesMarker | review_tool.py:43 | A maximal run of n ≥ 4 copies of c becomes `**cccc+**` in context; the text around it is rewritten on its own. |
| ReviewTool.JoinBecomesMarker | review_tool.py:46 | A lowercase x followed by an uppercase Y becomes `x**xY**Y` in context. |
| ReviewTool.SymbolRunMarked | review_tool.py:49 | A run of three or more `[^\w\s]` characters is wrapped as `***run***`. |
| ReviewTool.SymbolRunBecomesMarker | review_tool.py:49 | A maximal symbol run is wrapped as `***run***` in context. |
| ReviewTool.PairMarked | review_tool.py:43-46 | The first two passes turn a lone pair xY into `x**xY**Y`. |
| ReviewTool.JoinMarkerUnmarked | review_tool.py:49 | The third pass leaves `x**xY**Y` alone: its `**` runs are only two long. |
| ReviewTool.JoinHighlighted | review_tool.py:38-51 | `ReviewTool.Highlight("xY")`, i.e. `highlight_suspicious_text("xY")`, is `x**xY**Y`. |
| ReviewTool.RepeatMarkerHasNoJoin | review_tool.py:46 | The second pass leaves the repeat marker `**cccc+**` alone. |
| ReviewTool.RepeatMarkerSymbols | review_tool.py:49 | The third pass re-wraps the `+**` that ends a repeat marker of a word character: `**cccc***+*****`. |
| ReviewTool.RepeatMarkerRewrapped | review_tool.py:38-51 | For a word character c and n ≥ 4, `ReviewTool.Highlight` turns c repeated n times into `**cccc***+*****`. |
| ReviewTool.GenerateReviewReport | review_tool.py:54-92 | The appends build `ReportLines(sections)`, and the text written is those lines joined by "\n". |
| ReviewTool.ReportFrame | review_tool.py:56-89 | The report starts with the title and a rule of 50 "=". It ends with the six-item checklist under its heading and the corrections stub. It has 3 more lines for a transcript and 2 for each other section shown. |
| ReviewTool.TranscriptionShown | review_tool.py:60-65 | With a TRANSCRIPTION section, lines 3-5 are its heading, the legend and "\n" + the highlighted text. |
| ReviewTool.TranslationShown | review_tool.py:67-69 | A TRANSLATION section shows its heading and text right after the transcript part. |
| ReviewTool.QualityShown | review_tool.py:71-73 | A QUALITY ASSESSMENT section shows its heading and text after the transcript and translation parts. |
| ReviewTool.AnalysisShown | review_tool.py:75-80 | An AUTOMATED ANALYSIS section shows its heading and text after the other three parts, right before the checklist heading. |
| ReviewTool.ReportTextEnds | review_tool.py:56-92 | The written text starts with the title and the rule, each followed by a newline. It ends with the corrections stub. |
| ReviewTool.ReportOfAnalysisOnly | review_tool.py:56-89 | Without transcript or translation but with an analysis, the report has 13 lines (15 with a quality assessment). The analysis heading and text sit just before the nine closing lines. |
| Pipeline.HeaderNamed | review_tool.py:24-27 | A line is a header named `name` (non-empty) iff it is exactly "--- " + name + " ---". |
| Pipeline.ProcessedLines | processor.py:159-171 | Split at newlines, the processed file is the response's lines, an empty line, the analysis header, the analysis lines and a final empty piece. |
| Pipeline.AnalysisBodyHasNoHeaders | processor.py:161-171 | No line after the analysis header is itself a header. |
| Pipeline.AnalysisBodyStored | review_tool.py:33 | Stripping the joined analysis body removes only the trailing newline. |
| Pipeline.BlockReadBack | review_tool.py:18-35 | For any response and any single-line issues, the parsed AUTOMATED ANALYSIS section is exactly the block's lines joined by "\n". It starts with "Confidence Score: N%". |
| Pipeline.AnalysisSectionReadBack | processor.py:159-171 | Parsing `transcribe_and_translate`'s output gives an AUTOMATED ANALYSIS section equal to the appended block's body, starting with the score line. |
| Pipeline.MarkerNamesNotLookedUp | review_tool.py:60-67 | The TRANSCRIPCIÓN and TRADUCCIÓN markers are headers, but their names are not "TRANSCRIPTION" or "TRANSLATION". |
| Pipeline.HeaderNamedIn | review_tool.py:24-27 | A header named `key` is among the lines iff the line "--- key ---" is. |
| Pipeline.BlockSectionKeys | review_tool.py:18-35 | In a processed file, a section other than the analysis exists iff the response has its header line. |
| Pipeline.SectionsOfProcessedFile | review_tool.py:60-77 | Unless the response itself has a "--- TRANSCRIPTION ---" or "--- TRANSLATION ---" line, the parsed processor output lacks both keys the report looks up. It holds the analysis as appended. |
| Text.Find | processor.py:144-145 | `str.find`: -1 iff the pattern is absent, else the first index where it occurs. |
| Text.Slice | processor.py:148-150 | A Python slice `s[a:b]` has `b - a` characters when a ≤ b and none when the start lies past the stop; its k-th character is `s[a + k]`. |
| Text.Strip | processor.py:150 | `str.strip()`: the result neither starts nor ends with whitespace and is `s` with whitespace trimmed from both ends. |
| Text.Split | review_tool.py:23 | `split("\n")` gives at least one piece, and no piece holds the separator. |
| Text.SplitJoin | review_tool.py:23 | Splitting at "\n" a join of lines without "\n" gives those lines back. |
| Text.JoinSplit | review_tool.py:23-26 | Joining the pieces of `split("\n")` with "\n" gives the text back. |
| Text.Words | processor.py:65 | `split()` with no argument: every word is non-empty and holds no whitespace. |
| Text.WordsOfWord | processor.py:65 | A non-empty run without whitespace splits into exactly itself. |
| Text.WordsSplitAtSpace | processor.py:65 | Words never cross whitespace: at any whitespace character, the words of the text are the words before it followed by the words after it. |
| Text.WordsCoverText | processor.py:65 | Laid end to end, the words of `split()` are the text with its whitespace removed: no character is lost, added or reordered. |
| Text.WordsJoin | processor.py:65 | `split()` of words joined by single spaces gives the words back. |
| Text.NatToStringRoundTrip | processor.py:162 | The decimal rendering of the score in the f-string reads back as the same number. |

## Left out

- Network and model calls (`genai.configure`, `upload_file`, `wait_for_files_active`, `generate_content`, processor.py:10-35, 105-140). The service response is an input string.
- File reads and writes and the `print` calls: `LoadProcessedFile` takes the file's text; `GenerateReviewReport` returns the lines and the text to write.
- `save_to_file` (processor.py:177-269), python-docx and reportlab output. The only logic of note is that a format other than "docx" or "pdf" raises `ValueError`.
- `gui.py`, `rasterize.py`, `main.py`, `build_gui.py`, `test_export.py` and `main` in review_tool.py: user interface, argument parsing and packaging, with no logic of the core.
- Unicode character classes. `\s`, `\w`, `\d`, `str.isalpha` and `str.isspace` are modelled on ASCII. Every other character counts as neither a letter, a digit nor whitespace, so a non-ASCII letter counts as a symbol for `[^\w\s]`.
- The float product at processor.py:67 is replaced by the integer comparison it is equivalent to.
- Processor.AppendAnalysis: the score is a `nat`. The callers pass `calculate_confidence_score`'s result, which lies in [0, 100].
- ReviewTool.GenerateReviewReport: returns the text that `f.write` receives instead of writing the file.
- Newline translation between the two programs. The processed file is written in text mode (main.py:33-34, gui.py:125-126) and read with universal newlines (review_tool.py:15), so a "\r\n" or lone "\r" in the service response reaches the parser as "\n". The `Pipeline` lemmas parse the returned string itself, which is what is read back only when the response holds no '\r'.
