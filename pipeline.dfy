/** How the two programs meet: the review tool parses the string
    `transcribe_and_translate` returns. That string is the service's response with
    the analysis block appended; the review tool splits it into sections at
    its header lines and builds its report from four section names.
 */
module Pipeline {
  import opened Text
  import opened Patterns
  import Processor
  import ReviewTool

  /** Every issue fits on one line. */
  predicate SingleLines(issues: seq<string>) {
    forall i :: 0 <= i < |issues| ==> '\n' !in issues[i]
  }

  /** `"--- " + name + " ---"` is a header line, and its name is `name`. */
  lemma HeaderOfName(name: string)
    ensures ReviewTool.IsHeader("--- " + name + " ---")
    ensures ReviewTool.HeaderName("--- " + name + " ---") == name
  {
    var line := "--- " + name + " ---";
    assert line[..4] == "--- ";
    assert line[|line| - 4..] == " ---";
    assert line[4..|line| - 4] == name;
  }

  /** A header line carries a given non-empty name exactly when it is that
      name between "--- " and " ---". */
  lemma HeaderNamed(line: string, name: string)
    requires name != []
    ensures ReviewTool.IsHeader(line) && ReviewTool.HeaderName(line) == name
            <==> line == "--- " + name + " ---"
  {
    HeaderOfName(name);
    if ReviewTool.IsHeader(line) && ReviewTool.HeaderName(line) == name {
      assert 4 <= |line| - 4;
      assert line == line[..4] + line[4..|line| - 4] + line[|line| - 4..];
    }
  }

  /** The processed file's lines: the response's lines, the blank line, the
      analysis header, the analysis lines, and the empty piece after the
      final newline. */
  lemma ProcessedLines(responseText: string, score: nat, issues: seq<string>)
    requires SingleLines(issues)
    ensures Split(responseText + Processor.AnalysisBlock(score, issues), '\n')
            == Split(responseText, '\n') + [[]] + [Processor.AnalysisHeader]
               + (Processor.AnalysisLines(score, issues) + [[]])
  {
    var lines := Processor.AnalysisLines(score, issues);
    var j := Join(lines, "\n");
    TerminatedIsJoin(lines);
    Processor.AnalysisLinesLackNewline(score, issues);
    SplitJoin(lines, '\n');
    Processor.AnalysisHeaderLacksNewline();
    SplitFramed(responseText, Processor.AnalysisHeader, j);
    AppendFramed(responseText, Processor.AnalysisHeader, j + "\n");
    RightNested(Split(responseText, '\n') + [[]], [Processor.AnalysisHeader], lines, [[]], []);
  }

  /** No analysis line, nor the empty piece after them, is a header. */
  lemma AnalysisBodyHasNoHeaders(score: nat, issues: seq<string>)
    ensures ReviewTool.NoHeaders(Processor.AnalysisLines(score, issues) + [[]])
  {
    var body := Processor.AnalysisLines(score, issues) + [[]];
    Processor.AnalysisLinesInitials(score, issues);
    forall k | 0 <= k < |body| ensures !ReviewTool.IsHeader(body[k]) {
      if k < |body| - 1 {
        assert body[k] == Processor.AnalysisLines(score, issues)[k];
        assert body[k][0] != '-';
      }
    }
  }

  /** The analysis block's text, as the review tool stores it, is its lines
      joined by newlines: the trailing newline is stripped and nothing else. */
  lemma AnalysisBodyStored(score: nat, issues: seq<string>)
    ensures Strip(Join(Processor.AnalysisLines(score, issues) + [[]], "\n"))
            == Join(Processor.AnalysisLines(score, issues), "\n")
  {
    Processor.AnalysisTextEnds(score, issues);
    StripJoinedWithEmpty(Processor.AnalysisLines(score, issues));
  }

  /** Reading back a response with an analysis block appended: whatever the
      response holds, the AUTOMATED ANALYSIS section is exactly the block's
      lines, score line first. */
  lemma BlockReadBack(responseText: string, score: nat, issues: seq<string>)
    requires SingleLines(issues)
    ensures var sections := ReviewTool.Sections(responseText + Processor.AnalysisBlock(score, issues));
      ReviewTool.AnalysisKey in sections
      && sections[ReviewTool.AnalysisKey] == Join(Processor.AnalysisLines(score, issues), "\n")
      && StartsWith(sections[ReviewTool.AnalysisKey], Processor.ScoreLine(score) + "\n")
  {
    var lines := Processor.AnalysisLines(score, issues);
    var pre := Split(responseText, '\n') + [[]];
    var body := lines + [[]];
    ProcessedLines(responseText, score, issues);
    HeaderOfName(Processor.AnalysisName);
    AnalysisBodyHasNoHeaders(score, issues);
    ReviewTool.LastSectionWins(pre, Processor.AnalysisHeader, body);
    AnalysisBodyStored(score, issues);
    assert ReviewTool.AnalysisKey == Processor.AnalysisName;
    ScoreLineLeads(score, issues);
  }

  /** What `transcribe_and_translate` returns is the response with the block
      for the detector's single-line issues and their score appended. */
  lemma AnnotatedIsBlock(responseText: string)
    ensures var issues := Processor.Anomalies(Processor.ExtractTranscription(responseText));
      SingleLines(issues)
      && Processor.Annotated(responseText) == responseText + Processor.AnalysisBlock(Processor.Score(issues), issues)
  {
    Processor.AnomaliesLackNewline(Processor.ExtractTranscription(responseText));
  }

  /** Reading back the string `transcribe_and_translate` returns: the review tool's
      AUTOMATED ANALYSIS section is exactly the appended block's lines. */
  lemma AnalysisSectionReadBack(responseText: string)
    ensures var issues := Processor.Anomalies(Processor.ExtractTranscription(responseText));
      var sections := ReviewTool.Sections(Processor.Annotated(responseText));
      ReviewTool.AnalysisKey in sections
      && sections[ReviewTool.AnalysisKey]
         == Join(Processor.AnalysisLines(Processor.Score(issues), issues), "\n")
      && StartsWith(sections[ReviewTool.AnalysisKey],
                    Processor.ScoreLine(Processor.Score(issues)) + "\n")
  {
    var issues := Processor.Anomalies(Processor.ExtractTranscription(responseText));
    AnnotatedIsBlock(responseText);
    BlockReadBack(responseText, Processor.Score(issues), issues);
  }

  /** The analysis text starts with the score line when more lines follow it. */
  lemma ScoreLineLeads(score: nat, issues: seq<string>)
    ensures StartsWith(Join(Processor.AnalysisLines(score, issues), "\n"), Processor.ScoreLine(score) + "\n")
  {
    var lines := Processor.AnalysisLines(score, issues);
    assert lines == [lines[0]] + lines[1..];
    JoinAppend([lines[0]], lines[1..], "\n");
    assert Join([lines[0]], "\n") == Processor.ScoreLine(score);
    StartsWithPrefix(Processor.ScoreLine(score) + "\n", Join(lines[1..], "\n"));
  }

  /** The processor's markers are headers, but their Spanish names are not
      the English names the report looks up. */
  lemma MarkerNamesNotLookedUp()
    ensures ReviewTool.IsHeader(Processor.TranscriptionMarker)
    ensures ReviewTool.HeaderName(Processor.TranscriptionMarker) != ReviewTool.TranscriptionKey
    ensures ReviewTool.IsHeader(Processor.TranslationMarker)
    ensures ReviewTool.HeaderName(Processor.TranslationMarker) != ReviewTool.TranslationKey
  {
    HeaderOfName(Processor.TranscriptionName);
    HeaderOfName(Processor.TranslationName);
    assert '\U{D3}' in Processor.TranscriptionName && '\U{D3}' !in ReviewTool.TranscriptionKey;
    assert '\U{D3}' in Processor.TranslationName && '\U{D3}' !in ReviewTool.TranslationKey;
  }

  /** Of the lines the processor appends, none is a header named `key`
      unless `key` is the analysis block's name. */
  lemma AppendedHeaders(score: nat, issues: seq<string>, key: string)
    requires key != Processor.AnalysisName
    ensures forall line :: line in [[], Processor.AnalysisHeader] + (Processor.AnalysisLines(score, issues) + [[]])
              ==> !(ReviewTool.IsHeader(line) && ReviewTool.HeaderName(line) == key)
  {
    HeaderOfName(Processor.AnalysisName);
    AnalysisBodyHasNoHeaders(score, issues);
    var body := Processor.AnalysisLines(score, issues) + [[]];
    forall line | line in body ensures !ReviewTool.IsHeader(line) {
      var k :| 0 <= k < |body| && body[k] == line;
    }
  }

  /** When no line of `rest` is a header named `key`, a header line named
      `key` is among `lines + rest` exactly when "--- " + key + " ---" is in `lines`. */
  lemma HeaderNamedIn(lines: seq<string>, rest: seq<string>, key: string)
    requires key != []
    requires forall line :: line in rest ==> !(ReviewTool.IsHeader(line) && ReviewTool.HeaderName(line) == key)
    ensures (exists line :: line in lines + rest && ReviewTool.IsHeader(line) && ReviewTool.HeaderName(line) == key)
            <==> "--- " + key + " ---" in lines
  {
    var named := "--- " + key + " ---";
    HeaderNamed(named, key);
    if named in lines {
      assert named in lines + rest;
    }
    forall line | line in lines + rest && ReviewTool.IsHeader(line) && ReviewTool.HeaderName(line) == key
      ensures line == named && line in lines
    {
      HeaderNamed(line, key);
    }
  }

  /** A section other than the analysis is in the file exactly when the
      response has its header line: a line "--- " + key + " ---". */
  lemma BlockSectionKeys(responseText: string, score: nat, issues: seq<string>, key: string)
    requires SingleLines(issues)
    requires key != [] && key != Processor.AnalysisName
    ensures key in ReviewTool.Sections(responseText + Processor.AnalysisBlock(score, issues))
            <==> "--- " + key + " ---" in Split(responseText, '\n')
  {
    var rest := [[], Processor.AnalysisHeader] + (Processor.AnalysisLines(score, issues) + [[]]);
    ProcessedLines(responseText, score, issues);
    RightNested(Split(responseText, '\n'), [[]], [Processor.AnalysisHeader],
                Processor.AnalysisLines(score, issues) + [[]], []);
    AppendedHeaders(score, issues, key);
    HeaderNamedIn(Split(responseText, '\n'), rest, key);
    ReviewTool.SectionKeys(responseText + Processor.AnalysisBlock(score, issues), key);
  }

  /** The names the report looks up, as header lines, and none is the analysis block's. */
  lemma LookedUpNames()
    ensures ReviewTool.TranscriptionKey != [] && ReviewTool.TranscriptionKey != Processor.AnalysisName
    ensures ReviewTool.TranslationKey != [] && ReviewTool.TranslationKey != Processor.AnalysisName
    ensures "--- " + ReviewTool.TranscriptionKey + " ---" == "--- TRANSCRIPTION ---"
    ensures "--- " + ReviewTool.TranslationKey + " ---" == "--- TRANSLATION ---"
  {
    assert |ReviewTool.TranscriptionKey| != |Processor.AnalysisName|;
    assert |ReviewTool.TranslationKey| != |Processor.AnalysisName|;
  }

  /** Unless the response itself has a "--- TRANSCRIPTION ---" or
      "--- TRANSLATION ---" line, a response with a block appended has
      neither section the report looks up. */
  lemma BlockLacksLookedUp(content: string, responseText: string, score: nat, issues: seq<string>)
    requires SingleLines(issues)
    requires content == responseText + Processor.AnalysisBlock(score, issues)
    requires "--- TRANSCRIPTION ---" !in Split(responseText, '\n')
    requires "--- TRANSLATION ---" !in Split(responseText, '\n')
    ensures ReviewTool.TranscriptionKey !in ReviewTool.Sections(content)
    ensures ReviewTool.TranslationKey !in ReviewTool.Sections(content)
  {
    LookedUpNames();
    BlockSectionKeys(responseText, score, issues, ReviewTool.TranscriptionKey);
    BlockSectionKeys(responseText, score, issues, ReviewTool.TranslationKey);
  }

  /** The sections the report reads from a response with a block appended:
      the analysis is there, as the block's lines, and unless the response
      itself has a "--- TRANSCRIPTION ---" or "--- TRANSLATION ---" line,
      neither the transcript nor the translation is. */
  lemma BlockSections(content: string, responseText: string, score: nat, issues: seq<string>)
    requires SingleLines(issues)
    requires content == responseText + Processor.AnalysisBlock(score, issues)
    requires "--- TRANSCRIPTION ---" !in Split(responseText, '\n')
    requires "--- TRANSLATION ---" !in Split(responseText, '\n')
    ensures var sections := ReviewTool.Sections(content);
      ReviewTool.TranscriptionKey !in sections && ReviewTool.TranslationKey !in sections
      && ReviewTool.AnalysisKey in sections
      && sections[ReviewTool.AnalysisKey] == Join(Processor.AnalysisLines(score, issues), "\n")
  {
    BlockLacksLookedUp(content, responseText, score, issues);
    BlockReadBack(responseText, score, issues);
  }

  /** The sections the review tool reads from the string
      `transcribe_and_translate` returns,
      when the response has no "--- TRANSCRIPTION ---" or "--- TRANSLATION ---"
      line: the analysis, but neither the transcript nor the translation. */
  lemma SectionsOfProcessedFile(responseText: string)
    requires "--- TRANSCRIPTION ---" !in Split(responseText, '\n')
    requires "--- TRANSLATION ---" !in Split(responseText, '\n')
    ensures var issues := Processor.Anomalies(Processor.ExtractTranscription(responseText));
      var sections := ReviewTool.Sections(Processor.Annotated(responseText));
      ReviewTool.TranscriptionKey !in sections && ReviewTool.TranslationKey !in sections
      && ReviewTool.AnalysisKey in sections
      && sections[ReviewTool.AnalysisKey] == Join(Processor.AnalysisLines(Processor.Score(issues), issues), "\n")
  {
    var issues := Processor.Anomalies(Processor.ExtractTranscription(responseText));
    AnnotatedIsBlock(responseText);
    BlockSections(Processor.Annotated(responseText), responseText, Processor.Score(issues), issues);
  }
}
