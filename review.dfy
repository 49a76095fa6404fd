/** The manual review tool of review_tool.py: the parser that splits a
    processed file into named sections, the Markdown highlighting of
    suspicious text, and the review report built from the sections.

    Reading the file and writing the report are left to the caller: the
    parser takes the file's text and the report is returned as its lines
    and as the text that would be written.
 */
module ReviewTool {
  import opened Text
  import opened Patterns

  datatype Option<T> = None | Some(value: T)

  // ---------------------------------------------------------------------------
  // Sections of a processed file

  /** A line that opens a section: it starts with "--- " and ends with " ---". */
  predicate IsHeader(line: string) {
    StartsWith(line, "--- ") && EndsWith(line, " ---")
  }

  /** `line[4:-4]`; empty for the headers of seven or eight characters,
      whose two markers overlap. */
  function HeaderName(line: string): string
    requires IsHeader(line)
  {
    Slice(line, 4, |line| - 4)
  }

  /** A header line and the lines under it, up to the next header. */
  datatype Section = Section(header: string, body: seq<string>)

  predicate NoHeaders(lines: seq<string>) {
    forall k :: 0 <= k < |lines| ==> !IsHeader(lines[k])
  }

  predicate WellFormed(gs: seq<Section>) {
    forall i :: 0 <= i < |gs| ==> IsHeader(gs[i].header) && NoHeaders(gs[i].body)
  }

  /** The sections of `lines`, in file order. Lines before the first header
      belong to no section; every other line joins the section opened by
      the nearest header above it. */
  function Groups(lines: seq<string>): (gs: seq<Section>)
    ensures WellFormed(gs)
    ensures gs == [] <==> NoHeaders(lines)
  {
    if lines == [] then []
    else
      var gs := Groups(lines[..|lines| - 1]);
      var line := lines[|lines| - 1];
      if IsHeader(line) then gs + [Section(line, [])]
      else if gs == [] then []
      else gs[..|gs| - 1] + [Section(gs[|gs| - 1].header, gs[|gs| - 1].body + [line])]
  }

  /** The value stored for a section: its lines joined by newlines, stripped. */
  function Stored(g: Section): string {
    Strip(Join(g.body, "\n"))
  }

  /** The dictionary built from the sections: a section with an empty name
      is dropped, and a later section overrides an earlier one of the same name. */
  function ToMap(gs: seq<Section>): (m: map<string, string>)
    requires WellFormed(gs)
    ensures "" !in m
  {
    if gs == [] then map[]
    else
      var m := ToMap(gs[..|gs| - 1]);
      var g := gs[|gs| - 1];
      var name := HeaderName(g.header);
      if name != "" then m[name := Stored(g)] else m
  }

  /** The dictionary `load_processed_file` returns for a file whose text is `content`. */
  function Sections(content: string): map<string, string> {
    ToMap(Groups(Split(content, '\n')))
  }

  /** What the parsing loop has built after the lines that gave sections `gs`:
      the sections before the last are stored, the last is still open. */
  predicate Tracks(gs: seq<Section>, sections: map<string, string>,
                   currentSection: Option<string>, currentContent: seq<string>)
    requires WellFormed(gs)
  {
    if gs == [] then currentSection == None && sections == map[]
    else currentSection == Some(HeaderName(gs[|gs| - 1].header))
         && currentContent == gs[|gs| - 1].body
         && sections == ToMap(gs[..|gs| - 1])
  }

  /** `if current_section: sections[current_section] = ...`: store the open
      section unless its name is None or empty. */
  function Flush(sections: map<string, string>, currentSection: Option<string>,
                 currentContent: seq<string>): map<string, string> {
    if currentSection.Some? && currentSection.value != "" then
      sections[currentSection.value := Strip(Join(currentContent, "\n"))]
    else sections
  }

  /** `load_processed_file` after reading the file: one pass over the lines. */
  method LoadProcessedFile(content: string) returns (sections: map<string, string>)
    ensures sections == Sections(content)
  {
    sections := map[];
    var currentSection: Option<string> := None;
    var currentContent: seq<string> := [];
    var lines := Split(content, '\n');
    for i := 0 to |lines|
      invariant Tracks(Groups(lines[..i]), sections, currentSection, currentContent)
    {
      var line := lines[i];
      if StartsWith(line, "--- ") && EndsWith(line, " ---") {
        StepHeader(lines, i, sections, currentSection, currentContent);
        ghost var flushed := Flush(sections, currentSection, currentContent);
        if currentSection.Some? && currentSection.value != "" {
          sections := sections[currentSection.value := Strip(Join(currentContent, "\n"))];
        }
        assert sections == flushed;
        currentSection := Some(Slice(line, 4, |line| - 4));
        assert currentSection == Some(HeaderName(lines[i]));
        currentContent := [];
      } else {
        StepLine(lines, i, sections, currentSection, currentContent);
        currentContent := currentContent + [line];
      }
    }
    assert lines[..|lines|] == lines;
    StepEnd(lines, sections, currentSection, currentContent);
    if currentSection.Some? && currentSection.value != "" {
      sections := sections[currentSection.value := Strip(Join(currentContent, "\n"))];
    }
  }

  lemma ExtendGroupsWithHeader(lines: seq<string>, line: string)
    requires IsHeader(line)
    ensures var gs := Groups(lines); var gs' := Groups(lines + [line]);
      gs' == gs + [Section(line, [])] && gs'[..|gs'| - 1] == gs
  {
    assert (lines + [line])[..|lines|] == lines;
  }

  lemma ExtendGroupsWithLine(lines: seq<string>, line: string)
    requires !IsHeader(line)
    ensures var gs := Groups(lines); var gs' := Groups(lines + [line]);
      (gs == [] ==> gs' == [])
      && (gs != [] ==> gs' == gs[..|gs| - 1] + [Section(gs[|gs| - 1].header, gs[|gs| - 1].body + [line])]
                       && gs'[..|gs'| - 1] == gs[..|gs| - 1])
  {
    assert (lines + [line])[..|lines|] == lines;
  }

  /** Storing the open section is the last step of building the dictionary. */
  lemma FlushIsToMap(gs: seq<Section>, sections: map<string, string>,
                     currentSection: Option<string>, currentContent: seq<string>)
    requires WellFormed(gs) && gs != []
    requires Tracks(gs, sections, currentSection, currentContent)
    ensures Flush(sections, currentSection, currentContent) == ToMap(gs)
  {
    var n := |gs| - 1;
    assert gs[n] == Section(gs[n].header, currentContent);
    assert Stored(gs[n]) == Strip(Join(currentContent, "\n"));
  }

  /** A header line closes the open section and opens a new, empty one. */
  lemma StepHeader(lines: seq<string>, i: nat, sections: map<string, string>,
                   currentSection: Option<string>, currentContent: seq<string>)
    requires i < |lines| && IsHeader(lines[i])
    requires Tracks(Groups(lines[..i]), sections, currentSection, currentContent)
    ensures Tracks(Groups(lines[..i + 1]), Flush(sections, currentSection, currentContent),
                   Some(HeaderName(lines[i])), [])
  {
    assert lines[..i + 1] == lines[..i] + [lines[i]];
    ExtendGroupsWithHeader(lines[..i], lines[i]);
    var gs := Groups(lines[..i]);
    if gs != [] {
      FlushIsToMap(gs, sections, currentSection, currentContent);
    }
  }

  /** Any other line joins the open section, if there is one. */
  lemma StepLine(lines: seq<string>, i: nat, sections: map<string, string>,
                 currentSection: Option<string>, currentContent: seq<string>)
    requires i < |lines| && !IsHeader(lines[i])
    requires Tracks(Groups(lines[..i]), sections, currentSection, currentContent)
    ensures Tracks(Groups(lines[..i + 1]), sections, currentSection, currentContent + [lines[i]])
  {
    assert lines[..i + 1] == lines[..i] + [lines[i]];
    ExtendGroupsWithLine(lines[..i], lines[i]);
  }

  /** At the end of the file the open section is stored too. */
  lemma StepEnd(lines: seq<string>, sections: map<string, string>,
                currentSection: Option<string>, currentContent: seq<string>)
    requires Tracks(Groups(lines), sections, currentSection, currentContent)
    ensures Flush(sections, currentSection, currentContent) == ToMap(Groups(lines))
  {
    if Groups(lines) != [] {
      FlushIsToMap(Groups(lines), sections, currentSection, currentContent);
    }
  }

  /** The number of lines before the first header. */
  function FirstHeader(lines: seq<string>): (n: nat)
    ensures n <= |lines|
  {
    if lines == [] || IsHeader(lines[0]) then 0 else 1 + FirstHeader(lines[1..])
  }

  /** The lines before the first header, which no section keeps. */
  function Preamble(lines: seq<string>): seq<string> {
    lines[..FirstHeader(lines)]
  }

  lemma {:induction false} FirstHeaderBounds(lines: seq<string>)
    ensures NoHeaders(lines[..FirstHeader(lines)])
    ensures FirstHeader(lines) < |lines| ==> IsHeader(lines[FirstHeader(lines)])
  {
    if lines != [] && !IsHeader(lines[0]) {
      FirstHeaderBounds(lines[1..]);
      var n := FirstHeader(lines);
      assert forall k :: 1 <= k < n ==> lines[..n][k] == lines[1..][..n - 1][k - 1];
    }
  }

  lemma {:induction false} FirstHeaderOfHeaderless(a: seq<string>, b: seq<string>)
    requires NoHeaders(a)
    ensures FirstHeader(a + b) == |a| + FirstHeader(b)
  {
    if a != [] {
      assert (a + b)[0] == a[0];
      assert (a + b)[1..] == a[1..] + b;
      FirstHeaderOfHeaderless(a[1..], b);
    } else {
      assert a + b == b;
    }
  }

  lemma {:induction false} FirstHeaderExtends(a: seq<string>, b: seq<string>, k: nat)
    requires k < |a| && IsHeader(a[k])
    ensures FirstHeader(a + b) == FirstHeader(a)
  {
    assert (a + b)[0] == a[0];
    if !IsHeader(a[0]) {
      assert (a + b)[1..] == a[1..] + b;
      assert a[1..][k - 1] == a[k];
      FirstHeaderExtends(a[1..], b, k - 1);
    }
  }

  /** The sections' lines in order, each header followed by its body. */
  function Flatten(gs: seq<Section>): seq<string> {
    if gs == [] then [] else Flatten(gs[..|gs| - 1]) + [gs[|gs| - 1].header] + gs[|gs| - 1].body
  }

  lemma FlattenSnoc(gs: seq<Section>, g: Section)
    ensures Flatten(gs + [g]) == Flatten(gs) + [g.header] + g.body
  {
    assert (gs + [g])[..|gs|] == gs;
  }

  /** Every line of the file is either in the preamble or in exactly one
      section, in order: the header lines open sections and the others
      are section bodies, so a header never appears inside a body. */
  lemma {:induction false} GroupsPartition(lines: seq<string>)
    ensures lines == Preamble(lines) + Flatten(Groups(lines))
  {
    if lines != [] {
      var init := lines[..|lines| - 1];
      assert lines == init + [lines[|lines| - 1]];
      GroupsPartition(init);
      if Groups(init) == [] {
        PartitionFirstSection(init, lines[|lines| - 1]);
      } else {
        PartitionLaterLine(init, lines[|lines| - 1]);
      }
    }
  }

  /** Before the first header, a line extends the preamble or opens the first section. */
  lemma PartitionFirstSection(init: seq<string>, line: string)
    requires Groups(init) == []
    ensures init + [line] == Preamble(init + [line]) + Flatten(Groups(init + [line]))
  {
    FirstHeaderOfHeaderless(init, [line]);
    if IsHeader(line) {
      ExtendGroupsWithHeader(init, line);
      FlattenSnoc([], Section(line, []));
      assert Preamble(init + [line]) == init;
    } else {
      ExtendGroupsWithLine(init, line);
      assert Preamble(init + [line]) == init + [line];
    }
  }

  /** After the first header, the preamble is fixed and a line goes to the sections. */
  lemma PartitionLaterLine(init: seq<string>, line: string)
    requires Groups(init) != []
    requires init == Preamble(init) + Flatten(Groups(init))
    ensures init + [line] == Preamble(init + [line]) + Flatten(Groups(init + [line]))
  {
    PreambleFixed(init, line);
    FlattenGrows(init, line);
    assert init + [line] == Preamble(init) + (Flatten(Groups(init)) + [line]);
  }

  lemma PreambleFixed(init: seq<string>, line: string)
    requires Groups(init) != []
    ensures Preamble(init + [line]) == Preamble(init)
  {
    FirstHeaderBounds(init);
    FirstHeaderExtends(init, [line], FirstHeader(init));
    assert (init + [line])[..FirstHeader(init)] == init[..FirstHeader(init)];
  }

  /** Once a section is open, a line adds itself to the sections' lines. */
  lemma FlattenGrows(init: seq<string>, line: string)
    requires Groups(init) != []
    ensures Flatten(Groups(init + [line])) == Flatten(Groups(init)) + [line]
  {
    var gs := Groups(init);
    if IsHeader(line) {
      ExtendGroupsWithHeader(init, line);
      FlattenSnoc(gs, Section(line, []));
    } else {
      ExtendGroupsWithLine(init, line);
      var last := gs[|gs| - 1];
      var front := gs[..|gs| - 1];
      FlattenSnoc(front, Section(last.header, last.body + [line]));
      assert gs == front + [last];
      FlattenSnoc(front, last);
      assert Flatten(front) + [last.header] + (last.body + [line])
          == (Flatten(front) + [last.header] + last.body) + [line];
    }
  }

  lemma WellFormedPrefix(gs: seq<Section>, n: nat)
    requires WellFormed(gs) && n <= |gs|
    ensures WellFormed(gs[..n])
  {
    assert forall i :: 0 <= i < n ==> gs[..n][i] == gs[i];
  }

  /** The headers of the sections are exactly the header lines among their lines. */
  lemma {:induction false} FlattenHeaders(gs: seq<Section>, line: string)
    requires WellFormed(gs)
    ensures line in Flatten(gs) && IsHeader(line) <==> exists i :: 0 <= i < |gs| && gs[i].header == line
  {
    if gs != [] {
      var init := gs[..|gs| - 1];
      var last := gs[|gs| - 1];
      WellFormedPrefix(gs, |gs| - 1);
      FlattenHeaders(init, line);
      assert Flatten(gs) == Flatten(init) + [last.header] + last.body;
      assert NoHeaders(last.body);
      assert line in last.body ==> !IsHeader(line);
      assert forall i :: 0 <= i < |init| ==> init[i] == gs[i];
    }
  }

  /** Some section of `gs` is named `key`. */
  predicate Named(gs: seq<Section>, key: string)
    requires WellFormed(gs)
  {
    exists i :: 0 <= i < |gs| && HeaderName(gs[i].header) == key
  }

  /** A name occurs among the sections exactly when it occurs before the last or is the last's. */
  lemma NamedSnoc(gs: seq<Section>, key: string)
    requires WellFormed(gs) && gs != []
    ensures WellFormed(gs[..|gs| - 1])
    ensures Named(gs, key) <==> Named(gs[..|gs| - 1], key) || HeaderName(gs[|gs| - 1].header) == key
  {
    var init := gs[..|gs| - 1];
    WellFormedPrefix(gs, |gs| - 1);
    if Named(gs, key) {
      var i :| 0 <= i < |gs| && HeaderName(gs[i].header) == key;
      if i < |init| {
        assert init[i] == gs[i];
      }
    }
    if Named(init, key) {
      var i :| 0 <= i < |init| && HeaderName(init[i].header) == key;
      assert gs[i] == init[i];
    }
  }

  /** A key is stored exactly when it is the non-empty name of some section. */
  lemma {:induction false} ToMapKeys(gs: seq<Section>, key: string)
    requires WellFormed(gs)
    ensures key in ToMap(gs) <==> key != "" && Named(gs, key)
  {
    if gs != [] {
      NamedSnoc(gs, key);
      ToMapKeys(gs[..|gs| - 1], key);
    }
  }

  /** A key is in the parsed dictionary exactly when it is the non-empty
      name of some header line of the file. */
  lemma SectionKeys(content: string, key: string)
    ensures key in Sections(content)
            <==> key != "" && exists line :: line in Split(content, '\n') && IsHeader(line) && HeaderName(line) == key
  {
    var lines := Split(content, '\n');
    var gs := Groups(lines);
    GroupsPartition(lines);
    FirstHeaderBounds(lines);
    ToMapKeys(gs, key);
    var p := Preamble(lines);
    assert forall line :: line in lines ==> line in p || line in Flatten(gs);
    assert forall line :: line in p ==> !IsHeader(line);
    forall line | line in lines && IsHeader(line) && HeaderName(line) == key
      ensures exists i :: 0 <= i < |gs| && HeaderName(gs[i].header) == key
    {
      FlattenHeaders(gs, line);
    }
    forall i | 0 <= i < |gs|
      ensures gs[i].header in lines
    {
      FlattenHeaders(gs, gs[i].header);
    }
  }

  /** The value of a key comes from the last section of that name. */
  lemma {:induction false} ToMapLast(gs: seq<Section>, i: nat)
    requires WellFormed(gs) && i < |gs| && HeaderName(gs[i].header) != ""
    requires forall j :: i < j < |gs| ==> HeaderName(gs[j].header) != HeaderName(gs[i].header)
    ensures HeaderName(gs[i].header) in ToMap(gs)
    ensures ToMap(gs)[HeaderName(gs[i].header)] == Stored(gs[i])
  {
    if i < |gs| - 1 {
      var init := gs[..|gs| - 1];
      WellFormedPrefix(gs, |gs| - 1);
      assert forall j :: 0 <= j < |init| ==> init[j] == gs[j];
      ToMapLast(init, i);
    }
  }

  lemma NoHeadersPrefix(lines: seq<string>, n: nat)
    requires NoHeaders(lines) && n <= |lines|
    ensures NoHeaders(lines[..n])
  {
    assert forall k :: 0 <= k < n ==> lines[..n][k] == lines[k];
  }

  /** Adding a line to the body of the last section. */
  lemma AddToLastSection(front: seq<Section>, header: string, body: seq<string>, line: string)
    ensures var gs := front + [Section(header, body)];
      gs[..|gs| - 1] + [Section(gs[|gs| - 1].header, gs[|gs| - 1].body + [line])]
        == front + [Section(header, body + [line])]
  {
    var gs := front + [Section(header, body)];
    assert gs[..|gs| - 1] == front;
  }

  /** A non-header line after the last section's lines joins its body. */
  lemma LastSectionStep(pre: seq<string>, header: string, init: seq<string>, line: string)
    requires !IsHeader(line)
    requires Groups(pre + [header] + init) == Groups(pre) + [Section(header, init)]
    ensures Groups(pre + [header] + (init + [line])) == Groups(pre) + [Section(header, init + [line])]
  {
    var xs := pre + [header] + init;
    assert pre + [header] + (init + [line]) == xs + [line];
    ExtendGroupsWithLine(xs, line);
    AddToLastSection(Groups(pre), header, init, line);
  }

  /** Lines appended to a file whose last header opened the final section
      become that section's body. */
  lemma {:induction false} GroupsOfLastSection(pre: seq<string>, header: string, body: seq<string>)
    requires IsHeader(header) && NoHeaders(body)
    ensures Groups(pre + [header] + body) == Groups(pre) + [Section(header, body)]
  {
    if body == [] {
      assert pre + [header] + body == pre + [header];
      ExtendGroupsWithHeader(pre, header);
    } else {
      var n := |body| - 1;
      NoHeadersPrefix(body, n);
      GroupsOfLastSection(pre, header, body[..n]);
      LastSectionStep(pre, header, body[..n], body[n]);
      assert body[..n] + [body[n]] == body;
    }
  }

  /** The section opened by the file's last header: its name maps to its
      body, joined and stripped, whatever came before it. */
  lemma LastSectionWins(pre: seq<string>, header: string, body: seq<string>)
    requires IsHeader(header) && HeaderName(header) != "" && NoHeaders(body)
    ensures var m := ToMap(Groups(pre + [header] + body));
      HeaderName(header) in m && m[HeaderName(header)] == Strip(Join(body, "\n"))
  {
    GroupsOfLastSection(pre, header, body);
    var gs := Groups(pre) + [Section(header, body)];
    assert gs[..|gs| - 1] == Groups(pre);
  }

  // ---------------------------------------------------------------------------
  // highlight_suspicious_text: three `re.sub` passes. Each scans left to
  // right; where its pattern matches it writes the replacement for the
  // longest match and moves past it, elsewhere it copies one character.

  /** How many copies of `s[0]` start `s`. */
  function RunLength(s: string): (n: nat)
    requires s != []
    ensures 1 <= n <= |s|
  {
    if |s| == 1 || s[1] != s[0] then 1 else 1 + RunLength(s[1..])
  }

  /** The run is maximal: `RunLength(s)` copies of `s[0]`, then another character. */
  lemma {:induction false} RunLengthMaximal(s: string)
    requires s != []
    ensures forall k :: 0 <= k < RunLength(s) ==> s[k] == s[0]
    ensures RunLength(s) < |s| ==> s[RunLength(s)] != s[0]
  {
    if |s| > 1 && s[1] == s[0] {
      RunLengthMaximal(s[1..]);
    }
  }

  /** How many characters that are neither word characters nor whitespace start `s`. */
  function SymbolRunLength(s: string): (n: nat)
    ensures n <= |s|
  {
    if s == [] || !InClass(NonWordNonSpace, s[0]) then 0 else 1 + SymbolRunLength(s[1..])
  }

  /** The symbol run is maximal: `SymbolRunLength(s)` symbols, then something else. */
  lemma {:induction false} SymbolRunLengthMaximal(s: string)
    ensures forall k :: 0 <= k < SymbolRunLength(s) ==> InClass(NonWordNonSpace, s[k])
    ensures SymbolRunLength(s) < |s| ==> !InClass(NonWordNonSpace, s[SymbolRunLength(s)])
  {
    if s != [] && InClass(NonWordNonSpace, s[0]) {
      SymbolRunLengthMaximal(s[1..]);
    }
  }

  /** The replacement `**\1\1\1\1+**` for a run of `c`. */
  function RepeatMarker(c: char): string {
    "**" + [c, c, c, c] + "+**"
  }

  /** The replacement `\1**\1\2**\2` for the pair `xy`. */
  function JoinMarker(x: char, y: char): string {
    [x] + "**" + [x, y] + "**" + [y]
  }

  /** The replacement `***\g<0>***` for the run `run`. */
  function SymbolMarker(run: string): string {
    "***" + run + "***"
  }

  /** Where `(.)\1{3,}` matches at the start of `s`, the length of the match. */
  function RepeatStep(s: string): (k: nat)
    requires s != []
    ensures 1 <= k <= |s|
  {
    if s[0] != '\n' && RunLength(s) >= 4 then RunLength(s) else 1
  }

  function RepeatHead(s: string): string
    requires s != []
  {
    if s[0] != '\n' && RunLength(s) >= 4 then RepeatMarker(s[0]) else [s[0]]
  }

  /** `re.sub(r"(.)\1{3,}", r"**\1\1\1\1+**", s)`: a run of four or more
      copies of one character other than a newline becomes four copies and a
      "+" between double asterisks. */
  function MarkRepeats(s: string): string
    decreases |s|
  {
    if s == [] then [] else RepeatHead(s) + MarkRepeats(s[RepeatStep(s)..])
  }

  function JoinStep(s: string): (k: nat)
    requires s != []
    ensures 1 <= k <= |s|
  {
    if CaseJoinAt(s, 0) then 2 else 1
  }

  function JoinHead(s: string): string
    requires s != []
  {
    if CaseJoinAt(s, 0) then JoinMarker(s[0], s[1]) else [s[0]]
  }

  /** `re.sub(r"([a-z])([A-Z])", r"\1**\1\2**\2", s)`: a lower-case letter
      followed by an upper-case one, `xY`, becomes `x**xY**Y`. */
  function MarkCaseJoins(s: string): string
    decreases |s|
  {
    if s == [] then [] else JoinHead(s) + MarkCaseJoins(s[JoinStep(s)..])
  }

  function SymbolStep(s: string): (k: nat)
    requires s != []
    ensures 1 <= k <= |s|
  {
    if SymbolRunLength(s) >= 3 then SymbolRunLength(s) else 1
  }

  function SymbolHead(s: string): string
    requires s != []
  {
    if SymbolRunLength(s) >= 3 then SymbolMarker(s[..SymbolRunLength(s)]) else [s[0]]
  }

  /** `re.sub(r"[^\w\s]{3,}", r"***\g<0>***", s)`: a run of three or more
      characters that are neither word characters nor whitespace is put
      between triple asterisks. */
  function MarkSymbolRuns(s: string): string
    decreases |s|
  {
    if s == [] then [] else SymbolHead(s) + MarkSymbolRuns(s[SymbolStep(s)..])
  }

  /** `highlight_suspicious_text`: the three passes in order, each over the
      previous one's output. */
  function Highlight(text: string): string {
    MarkSymbolRuns(MarkCaseJoins(MarkRepeats(text)))
  }

  // Each pass leaves text without a match of its pattern unchanged.

  /** Text without a run of four copies starts with a character the first pass copies. */
  lemma RepeatHeadCopied(s: string)
    requires s != [] && !HasRepeatedRun(s)
    ensures RepeatStep(s) == 1 && RepeatHead(s) == [s[0]]
  {
    RunLengthMaximal(s);
    assert !RepeatedAt(s, 0);
  }

  /** Dropping the first character keeps the text free of runs of four copies. */
  lemma NoRepeatedRunInTail(s: string)
    requires s != [] && !HasRepeatedRun(s)
    ensures !HasRepeatedRun(s[1..])
  {
    forall i | 0 <= i <= |s[1..]| - 4 ensures !RepeatedAt(s[1..], i) {
      assert !RepeatedAt(s, i + 1);
    }
  }

  lemma {:induction false} MarkRepeatsIdentity(s: string)
    requires !HasRepeatedRun(s)
    ensures MarkRepeats(s) == s
  {
    if s != [] {
      RepeatHeadCopied(s);
      NoRepeatedRunInTail(s);
      MarkRepeatsIdentity(s[1..]);
      assert s == [s[0]] + s[1..];
    }
  }

  lemma {:induction false} MarkCaseJoinsIdentity(s: string)
    requires !HasCaseJoin(s)
    ensures MarkCaseJoins(s) == s
  {
    if s != [] {
      assert !CaseJoinAt(s, 0);
      forall i | 0 <= i <= |s[1..]| - 2 ensures !CaseJoinAt(s[1..], i) {
        assert !CaseJoinAt(s, i + 1);
      }
      MarkCaseJoinsIdentity(s[1..]);
      assert s == [s[0]] + s[1..];
    }
  }

  lemma {:induction false} MarkSymbolRunsIdentity(s: string)
    requires !HasRun(s, NonWordNonSpace, 3)
    ensures MarkSymbolRuns(s) == s
  {
    if s != [] {
      SymbolRunLengthMaximal(s);
      assert 3 <= |s| ==> !RunAt(s, NonWordNonSpace, 0, 3);
      assert SymbolStep(s) == 1 && SymbolHead(s) == [s[0]];
      forall i | 0 <= i <= |s[1..]| - 3 ensures !RunAt(s[1..], NonWordNonSpace, i, 3) {
        assert !RunAt(s, NonWordNonSpace, i + 1, 3);
        assert forall j :: i <= j < i + 3 ==> s[1..][j] == s[j + 1];
      }
      MarkSymbolRunsIdentity(s[1..]);
      assert s == [s[0]] + s[1..];
    }
  }

  /** Text none of the three patterns matches is reported exactly as it is. */
  lemma HighlightUnchanged(text: string)
    requires !HasRepeatedRun(text) && !HasCaseJoin(text) && !HasRun(text, NonWordNonSpace, 3)
    ensures Highlight(text) == text
  {
    MarkRepeatsIdentity(text);
    MarkCaseJoinsIdentity(text);
    MarkSymbolRunsIdentity(text);
  }

  // Each pass treats the two sides of a boundary no match can cross on their own.

  /** A run never crosses a boundary between two different characters. */
  lemma {:induction false} RunLengthAppend(a: string, t: string)
    requires a != [] && (t == [] || t[0] != a[|a| - 1])
    ensures RunLength(a + t) == RunLength(a)
  {
    assert (a + t)[0] == a[0];
    if |a| > 1 && a[1] == a[0] {
      assert (a + t)[1..] == a[1..] + t;
      RunLengthAppend(a[1..], t);
    }
  }

  lemma RepeatShift(a: string, t: string)
    requires a != [] && t != [] && t[0] != a[|a| - 1]
    ensures MarkRepeats(a + t) == RepeatHead(a) + MarkRepeats(a[RepeatStep(a)..] + t)
  {
    RunLengthAppend(a, t);
    assert (a + t)[0] == a[0];
    assert RepeatStep(a + t) == RepeatStep(a) && RepeatHead(a + t) == RepeatHead(a);
    CutAppend(a, t, RepeatStep(a));
  }

  lemma {:induction false} MarkRepeatsAppend(a: string, t: string)
    requires a == [] || t == [] || t[0] != a[|a| - 1]
    ensures MarkRepeats(a + t) == MarkRepeats(a) + MarkRepeats(t)
    decreases |a|
  {
    if a == [] {
      assert a + t == t;
    } else if t == [] {
      assert a + t == a;
    } else {
      var k := RepeatStep(a);
      assert a[k..] == [] || a[k..][|a[k..]| - 1] == a[|a| - 1];
      MarkRepeatsAppend(a[k..], t);
      RepeatShift(a, t);
      ConcatAssoc(RepeatHead(a), MarkRepeats(a[k..]), MarkRepeats(t));
    }
  }

  lemma JoinShift(a: string, t: string)
    requires a != [] && t != [] && !(IsLower(a[|a| - 1]) && IsUpper(t[0]))
    ensures MarkCaseJoins(a + t) == JoinHead(a) + MarkCaseJoins(a[JoinStep(a)..] + t)
  {
    assert (a + t)[0] == a[0];
    if |a| == 1 {
      assert (a + t)[1] == t[0];
    } else {
      assert (a + t)[1] == a[1];
    }
    assert JoinStep(a + t) == JoinStep(a) && JoinHead(a + t) == JoinHead(a);
    CutAppend(a, t, JoinStep(a));
  }

  lemma {:induction false} MarkCaseJoinsAppend(a: string, t: string)
    requires a == [] || t == [] || !(IsLower(a[|a| - 1]) && IsUpper(t[0]))
    ensures MarkCaseJoins(a + t) == MarkCaseJoins(a) + MarkCaseJoins(t)
    decreases |a|
  {
    if a == [] {
      assert a + t == t;
    } else if t == [] {
      assert a + t == a;
    } else {
      var k := JoinStep(a);
      assert a[k..] == [] || a[k..][|a[k..]| - 1] == a[|a| - 1];
      MarkCaseJoinsAppend(a[k..], t);
      JoinShift(a, t);
      ConcatAssoc(JoinHead(a), MarkCaseJoins(a[k..]), MarkCaseJoins(t));
    }
  }

  /** A run of symbols never crosses a boundary next to a non-symbol. */
  lemma {:induction false} SymbolRunLengthAppend(a: string, t: string)
    requires a != [] && (t == [] || !InClass(NonWordNonSpace, a[|a| - 1]) || !InClass(NonWordNonSpace, t[0]))
    ensures SymbolRunLength(a + t) == SymbolRunLength(a)
  {
    assert (a + t)[0] == a[0];
    if InClass(NonWordNonSpace, a[0]) {
      if |a| == 1 {
        assert (a + t)[1..] == t;
      } else {
        assert (a + t)[1..] == a[1..] + t;
        SymbolRunLengthAppend(a[1..], t);
      }
    }
  }

  lemma SymbolShift(a: string, t: string)
    requires a != [] && t != []
    requires !InClass(NonWordNonSpace, a[|a| - 1]) || !InClass(NonWordNonSpace, t[0])
    ensures MarkSymbolRuns(a + t) == SymbolHead(a) + MarkSymbolRuns(a[SymbolStep(a)..] + t)
  {
    SymbolRunLengthAppend(a, t);
    assert (a + t)[0] == a[0];
    CutAppend(a, t, SymbolRunLength(a));
    assert SymbolStep(a + t) == SymbolStep(a) && SymbolHead(a + t) == SymbolHead(a);
    CutAppend(a, t, SymbolStep(a));
  }

  lemma {:induction false} MarkSymbolRunsAppend(a: string, t: string)
    requires a == [] || t == [] || !InClass(NonWordNonSpace, a[|a| - 1]) || !InClass(NonWordNonSpace, t[0])
    ensures MarkSymbolRuns(a + t) == MarkSymbolRuns(a) + MarkSymbolRuns(t)
    decreases |a|
  {
    if a == [] {
      assert a + t == t;
    } else if t == [] {
      assert a + t == a;
    } else {
      var k := SymbolStep(a);
      assert a[k..] == [] || a[k..][|a[k..]| - 1] == a[|a| - 1];
      MarkSymbolRunsAppend(a[k..], t);
      SymbolShift(a, t);
      ConcatAssoc(SymbolHead(a), MarkSymbolRuns(a[k..]), MarkSymbolRuns(t));
    }
  }

  // What each pass makes of a match.

  /** A run of `n >= 4` copies of `c` (not a newline) on its own becomes `**cccc+**`. */
  lemma RepeatRunMarked(c: char, n: nat)
    requires n >= 4 && c != '\n'
    ensures MarkRepeats(Repeat(c, n)) == RepeatMarker(c)
  {
    var run := Repeat(c, n);
    RunLengthMaximal(run);
    assert RunLength(run) == n;
    assert run[n..] == [];
    assert MarkRepeats(run) == RepeatMarker(c) + MarkRepeats([]);
  }

  /** A maximal run of `n >= 4` copies of `c` (not a newline) becomes
      `**cccc+**`, and the text around it is treated on its own. */
  lemma RunBecomesMarker(before: string, c: char, n: nat, after: string)
    requires n >= 4 && c != '\n'
    requires before == [] || before[|before| - 1] != c
    requires after == [] || after[0] != c
    ensures MarkRepeats(before + Repeat(c, n) + after)
            == MarkRepeats(before) + RepeatMarker(c) + MarkRepeats(after)
  {
    var run := Repeat(c, n);
    ConcatAssoc(before, run, after);
    assert (run + after)[0] == run[0] == c;
    MarkRepeatsAppend(before, run + after);
    MarkRepeatsAppend(run, after);
    RepeatRunMarked(c, n);
    ConcatAssoc(MarkRepeats(before), RepeatMarker(c), MarkRepeats(after));
  }

  /** A lower-case letter `x` followed by an upper-case letter `y` becomes
      `x**xy**y`, and the text around them is treated on its own. */
  lemma JoinBecomesMarker(before: string, x: char, y: char, after: string)
    requires IsLower(x) && IsUpper(y)
    ensures MarkCaseJoins(before + [x, y] + after)
            == MarkCaseJoins(before) + JoinMarker(x, y) + MarkCaseJoins(after)
  {
    var join := [x, y] + after;
    assert before + [x, y] + after == before + join;
    MarkCaseJoinsAppend(before, join);
    assert CaseJoinAt(join, 0);
    assert join[2..] == after;
    assert MarkCaseJoins(join) == JoinMarker(x, y) + MarkCaseJoins(after);
    ConcatAssoc(MarkCaseJoins(before), JoinMarker(x, y), MarkCaseJoins(after));
  }

  /** A run of three or more symbols on its own is wrapped in `***`. */
  lemma SymbolRunMarked(run: string)
    requires |run| >= 3 && forall k :: 0 <= k < |run| ==> InClass(NonWordNonSpace, run[k])
    ensures MarkSymbolRuns(run) == SymbolMarker(run)
  {
    SymbolRunLengthMaximal(run);
    assert SymbolRunLength(run) == |run|;
    assert run[..|run|] == run && run[|run|..] == [];
    assert MarkSymbolRuns(run) == SymbolMarker(run) + MarkSymbolRuns([]);
  }

  /** A maximal run of three or more symbols is wrapped in `***`, and the
      text around it is treated on its own. */
  lemma SymbolRunBecomesMarker(before: string, run: string, after: string)
    requires |run| >= 3 && forall k :: 0 <= k < |run| ==> InClass(NonWordNonSpace, run[k])
    requires before == [] || !InClass(NonWordNonSpace, before[|before| - 1])
    requires after == [] || !InClass(NonWordNonSpace, after[0])
    ensures MarkSymbolRuns(before + run + after)
            == MarkSymbolRuns(before) + SymbolMarker(run) + MarkSymbolRuns(after)
  {
    assert before + run + after == before + (run + after);
    MarkSymbolRunsAppend(before, run + after);
    MarkSymbolRunsAppend(run, after);
    SymbolRunMarked(run);
    ConcatAssoc(MarkSymbolRuns(before), SymbolMarker(run), MarkSymbolRuns(after));
  }

  // How the passes compose.

  /** A missing-space pair on its own comes out of all three passes as
      `x**xY**Y`: the third pass finds no run of three symbols in it. */
  lemma JoinHighlighted(x: char, y: char)
    requires IsLower(x) && IsUpper(y)
    ensures Highlight([x, y]) == JoinMarker(x, y)
  {
    PairMarked(x, y);
    JoinMarkerUnmarked(x, y);
  }

  /** The first two passes turn a missing-space pair into its marker. */
  lemma PairMarked(x: char, y: char)
    requires IsLower(x) && IsUpper(y)
    ensures MarkCaseJoins(MarkRepeats([x, y])) == JoinMarker(x, y)
  {
    assert !HasRepeatedRun([x, y]);
    MarkRepeatsIdentity([x, y]);
    JoinBecomesMarker([], x, y, []);
    assert [] + [x, y] + [] == [x, y];
    var m := JoinMarker(x, y);
    assert MarkCaseJoins([x, y]) == [] + m + [];
    assert [] + m + [] == m;
  }

  /** The third pass leaves a missing-space marker as it is. */
  lemma JoinMarkerUnmarked(x: char, y: char)
    requires IsLower(x) && IsUpper(y)
    ensures MarkSymbolRuns(JoinMarker(x, y)) == JoinMarker(x, y)
  {
    var m := JoinMarker(x, y);
    assert m == [x, '*', '*', x, y, '*', '*', y];
    assert !InClass(NonWordNonSpace, x) && !InClass(NonWordNonSpace, y);
    forall i | 0 <= i <= |m| - 3 ensures !RunAt(m, NonWordNonSpace, i, 3) {
      if i == 0 {
        assert !InClass(NonWordNonSpace, m[0]);
      } else if i <= 3 {
        assert !InClass(NonWordNonSpace, m[3]);
      } else if i == 4 {
        assert !InClass(NonWordNonSpace, m[4]);
      } else {
        assert !InClass(NonWordNonSpace, m[7]);
      }
    }
    MarkSymbolRunsIdentity(m);
  }

  /** The first pass's marker has no lower-case letter before an upper-case one. */
  lemma RepeatMarkerHasNoJoin(c: char)
    ensures MarkCaseJoins(RepeatMarker(c)) == RepeatMarker(c)
  {
    var m := RepeatMarker(c);
    assert m == ['*', '*', c, c, c, c, '+', '*', '*'];
    forall i | 0 <= i <= |m| - 2 ensures !CaseJoinAt(m, i) {
    }
    MarkCaseJoinsIdentity(m);
  }

  /** Four copies of a word character hold no run of symbols. */
  lemma WordRunUnmarked(c: char)
    requires IsWordChar(c)
    ensures MarkSymbolRuns([c, c, c, c]) == [c, c, c, c]
  {
    var cs := [c, c, c, c];
    assert !InClass(NonWordNonSpace, c);
    forall i | 0 <= i <= |cs| - 3 ensures !RunAt(cs, NonWordNonSpace, i, 3) {
      assert cs[i] == c;
    }
    MarkSymbolRunsIdentity(cs);
  }

  /** Two asterisks are too short a run to be wrapped. */
  lemma StarsUnmarked()
    ensures MarkSymbolRuns("**") == "**"
  {
    MarkSymbolRunsIdentity("**");
  }

  /** The closing "+**" of the first pass's marker is a run of three symbols. */
  lemma PlusStarsMarked()
    ensures MarkSymbolRuns("+**") == SymbolMarker("+**")
  {
    var t := "+**";
    assert t == ['+', '*', '*'];
    assert InClass(NonWordNonSpace, '+') && InClass(NonWordNonSpace, '*');
    SymbolRunMarked(t);
  }

  /** In the first pass's marker for a word character, only the closing
      "+**" is a run of three symbols. */
  lemma RepeatMarkerSymbols(c: char)
    requires IsWordChar(c)
    ensures MarkSymbolRuns(RepeatMarker(c)) == "**" + [c, c, c, c] + SymbolMarker("+**")
  {
    var cs := [c, c, c, c];
    assert RepeatMarker(c) == "**" + (cs + "+**");
    assert !InClass(NonWordNonSpace, c);
    MarkSymbolRunsAppend("**", cs + "+**");
    MarkSymbolRunsAppend(cs, "+**");
    StarsUnmarked();
    WordRunUnmarked(c);
    PlusStarsMarked();
    ConcatAssoc("**", cs, SymbolMarker("+**"));
  }

  /** The passes are not independent: the "+**" that the first pass writes
      after a run of a word character is itself a run of three symbols, so
      the third pass wraps it again, giving `**cccc***+*****`. */
  lemma RepeatMarkerRewrapped(c: char, n: nat)
    requires n >= 4 && IsWordChar(c)
    ensures Highlight(Repeat(c, n)) == "**" + [c, c, c, c] + SymbolMarker("+**")
  {
    RepeatRunMarked(c, n);
    RepeatMarkerHasNoJoin(c);
    RepeatMarkerSymbols(c);
  }

  // ---------------------------------------------------------------------------
  // generate_review_report: the report as a list of lines, joined by newlines

  const ReportTitle := "# OCR Review Report"
  const Underline := Repeat('=', 50)
  const Legend := "**Legend:** ***unusual chars***, **missing space**, ****repeated chars****"

  /** The section names the report looks up. */
  const TranscriptionKey := "TRANSCRIPTION"
  const TranslationKey := "TRANSLATION"
  const QualityKey := "QUALITY ASSESSMENT"
  const AnalysisKey := "AUTOMATED ANALYSIS"

  const TranscriptionHeading := "\n## Original Transcription"
  const TranslationHeading := "\n## Spanish Translation"
  const QualityHeading := "\n## Quality Assessment"
  const AnalysisHeading := "\n## Automated Analysis"

  /** The review checklist, always present. */
  const Checklist: seq<string> := [
    "\n## Review Checklist",
    "- [ ] Check highlighted sections for errors",
    "- [ ] Verify proper spacing between words",
    "- [ ] Confirm special characters are correct",
    "- [ ] Check for missing or garbled text",
    "- [ ] Validate translation accuracy",
    "- [ ] Review confidence score and issues"
  ]

  /** The corrections stub that closes every report. */
  const Corrections: seq<string> := ["\n## Quick Corrections Needed", "(Add corrections here)"]

  /** The transcript's part: heading, legend, and the highlighted transcript
      after a blank line; nothing without a TRANSCRIPTION section. */
  function TranscriptionPart(sections: map<string, string>): seq<string> {
    if TranscriptionKey in sections
    then [TranscriptionHeading, Legend, "\n" + Highlight(sections[TranscriptionKey])]
    else []
  }

  /** A heading and the section's text as stored; nothing without the section. */
  function SectionPart(sections: map<string, string>, key: string, heading: string): seq<string> {
    if key in sections then [heading, sections[key]] else []
  }

  /** The report's lines for the parsed sections. */
  function ReportLines(sections: map<string, string>): seq<string> {
    [ReportTitle, Underline]
    + TranscriptionPart(sections)
    + SectionPart(sections, TranslationKey, TranslationHeading)
    + SectionPart(sections, QualityKey, QualityHeading)
    + SectionPart(sections, AnalysisKey, AnalysisHeading)
    + Checklist + Corrections
  }

  /** Appending seven lines one at a time appends the list of them. */
  lemma SevenAppends<T>(a: seq<T>, xs: seq<T>)
    requires |xs| == 7
    ensures a + [xs[0]] + [xs[1]] + [xs[2]] + [xs[3]] + [xs[4]] + [xs[5]] + [xs[6]] == a + xs
  {
  }

  lemma TwoAppends<T>(a: seq<T>, xs: seq<T>)
    requires |xs| == 2
    ensures a + [xs[0]] + [xs[1]] == a + xs
  {
  }

  /** `generate_review_report`: the list of lines built by appends, and the
      text written to the output file. */
  method GenerateReviewReport(sections: map<string, string>) returns (report: seq<string>, written: string)
    ensures report == ReportLines(sections)
    ensures written == Join(report, "\n")
  {
    report := [];
    report := report + [ReportTitle];
    report := report + [Repeat('=', 50)];
    ghost var built := [ReportTitle, Underline];
    assert report == built;

    if TranscriptionKey in sections {
      report := report + [TranscriptionHeading];
      report := report + [Legend];
      report := report + ["\n" + Highlight(sections[TranscriptionKey])];
    }
    built := built + TranscriptionPart(sections);
    assert report == built;

    if TranslationKey in sections {
      report := report + [TranslationHeading];
      report := report + [sections[TranslationKey]];
    }
    built := built + SectionPart(sections, TranslationKey, TranslationHeading);
    assert report == built;

    if QualityKey in sections {
      report := report + [QualityHeading];
      report := report + [sections[QualityKey]];
    }
    built := built + SectionPart(sections, QualityKey, QualityHeading);
    assert report == built;

    if AnalysisKey in sections {
      report := report + [AnalysisHeading];
      report := report + [sections[AnalysisKey]];
    }
    built := built + SectionPart(sections, AnalysisKey, AnalysisHeading);
    assert report == built;

    ghost var before := report;
    report := report + ["\n## Review Checklist"];
    report := report + ["- [ ] Check highlighted sections for errors"];
    report := report + ["- [ ] Verify proper spacing between words"];
    report := report + ["- [ ] Confirm special characters are correct"];
    report := report + ["- [ ] Check for missing or garbled text"];
    report := report + ["- [ ] Validate translation accuracy"];
    report := report + ["- [ ] Review confidence score and issues"];
    SevenAppends(before, Checklist);
    assert report == built + Checklist;

    before := report;
    report := report + ["\n## Quick Corrections Needed"];
    report := report + ["(Add corrections here)"];
    TwoAppends(before, Corrections);
    ConcatAssoc(built, Checklist, Corrections);
    written := Join(report, "\n");
  }

  function PartSize(present: bool, size: nat): nat {
    if present then size else 0
  }

  /** Every report opens with the title and the rule of 50 "=", closes with
      the checklist and the corrections stub, and holds 3 more lines for a
      TRANSCRIPTION section and 2 more for each other section it shows. */
  lemma ReportFrame(sections: map<string, string>)
    ensures var r := ReportLines(sections);
      |r| == 11 + PartSize(TranscriptionKey in sections, 3) + PartSize(TranslationKey in sections, 2)
                + PartSize(QualityKey in sections, 2) + PartSize(AnalysisKey in sections, 2)
      && r[0] == ReportTitle && r[1] == Underline
      && r[|r| - 9..] == Checklist + Corrections
  {
    var r := ReportLines(sections);
    var front := [ReportTitle, Underline] + TranscriptionPart(sections)
      + SectionPart(sections, TranslationKey, TranslationHeading)
      + SectionPart(sections, QualityKey, QualityHeading)
      + SectionPart(sections, AnalysisKey, AnalysisHeading);
    assert r == front + (Checklist + Corrections);
    assert r[|r| - 9..] == Checklist + Corrections;
  }

  /** The report's lines as its six parts. */
  lemma ReportParts(sections: map<string, string>)
    ensures ReportLines(sections)
      == [ReportTitle, Underline] + TranscriptionPart(sections)
         + SectionPart(sections, TranslationKey, TranslationHeading)
         + SectionPart(sections, QualityKey, QualityHeading)
         + SectionPart(sections, AnalysisKey, AnalysisHeading)
         + (Checklist + Corrections)
  {
  }

  /** The optional parts come in a fixed order: transcript, translation,
      quality assessment, automated analysis. A TRANSCRIPTION section is
      shown right after the title and the rule, as its heading, the legend
      and the highlighted text. */
  lemma TranscriptionShown(sections: map<string, string>)
    requires TranscriptionKey in sections
    ensures var r := ReportLines(sections);
      5 <= |r| && r[2..5] == [TranscriptionHeading, Legend, "\n" + Highlight(sections[TranscriptionKey])]
  {
    var t := TranscriptionPart(sections);
    var s1 := SectionPart(sections, TranslationKey, TranslationHeading);
    var s2 := SectionPart(sections, QualityKey, QualityHeading);
    var s3 := SectionPart(sections, AnalysisKey, AnalysisHeading);
    ReportParts(sections);
    Layout([ReportTitle, Underline], t, s1, s2, s3, Checklist + Corrections);
  }

  /** A TRANSLATION section is shown, heading and text, after the transcript part. */
  lemma TranslationShown(sections: map<string, string>)
    requires TranslationKey in sections
    ensures var r := ReportLines(sections);
      var a := 2 + PartSize(TranscriptionKey in sections, 3);
      a + 2 <= |r| && r[a..a + 2] == [TranslationHeading, sections[TranslationKey]]
  {
    var t := TranscriptionPart(sections);
    var s1 := SectionPart(sections, TranslationKey, TranslationHeading);
    var s2 := SectionPart(sections, QualityKey, QualityHeading);
    var s3 := SectionPart(sections, AnalysisKey, AnalysisHeading);
    ReportParts(sections);
    Layout([ReportTitle, Underline], t, s1, s2, s3, Checklist + Corrections);
    assert |t| == PartSize(TranscriptionKey in sections, 3);
  }

  /** A QUALITY ASSESSMENT section is shown, heading and text, after the
      transcript and translation parts. */
  lemma QualityShown(sections: map<string, string>)
    requires QualityKey in sections
    ensures var r := ReportLines(sections);
      var b := 2 + PartSize(TranscriptionKey in sections, 3) + PartSize(TranslationKey in sections, 2);
      b + 2 <= |r| && r[b..b + 2] == [QualityHeading, sections[QualityKey]]
  {
    var t := TranscriptionPart(sections);
    var s1 := SectionPart(sections, TranslationKey, TranslationHeading);
    var s2 := SectionPart(sections, QualityKey, QualityHeading);
    var s3 := SectionPart(sections, AnalysisKey, AnalysisHeading);
    ReportParts(sections);
    Layout([ReportTitle, Underline], t, s1, s2, s3, Checklist + Corrections);
    assert |t| == PartSize(TranscriptionKey in sections, 3);
    assert |s1| == PartSize(TranslationKey in sections, 2);
  }

  /** An AUTOMATED ANALYSIS section is shown, heading and text, after the
      other three parts and right before the checklist. */
  lemma AnalysisShown(sections: map<string, string>)
    requires AnalysisKey in sections
    ensures var r := ReportLines(sections);
      var c := 2 + PartSize(TranscriptionKey in sections, 3) + PartSize(TranslationKey in sections, 2)
                 + PartSize(QualityKey in sections, 2);
      c + 2 < |r| && r[c..c + 2] == [AnalysisHeading, sections[AnalysisKey]] && r[c + 2] == Checklist[0]
  {
    var t := TranscriptionPart(sections);
    var s1 := SectionPart(sections, TranslationKey, TranslationHeading);
    var s2 := SectionPart(sections, QualityKey, QualityHeading);
    var s3 := SectionPart(sections, AnalysisKey, AnalysisHeading);
    ReportParts(sections);
    Layout([ReportTitle, Underline], t, s1, s2, s3, Checklist + Corrections);
    assert |t| == PartSize(TranscriptionKey in sections, 3);
    assert |s1| == PartSize(TranslationKey in sections, 2);
    assert |s2| == PartSize(QualityKey in sections, 2);
  }

  /** Where each part of a concatenation of six parts sits. */
  lemma Layout<T>(p0: seq<T>, t: seq<T>, s1: seq<T>, s2: seq<T>, s3: seq<T>, tail: seq<T>)
    requires tail != []
    ensures var r := p0 + t + s1 + s2 + s3 + tail;
      var a := |p0| + |t|;
      var b := a + |s1|;
      var c := b + |s2|;
      c + |s3| < |r|
      && r[|p0|..a] == t && r[a..b] == s1 && r[b..c] == s2 && r[c..c + |s3|] == s3
      && r[c + |s3|] == tail[0]
  {
  }

  /** The written text starts with the title line and the rule, and ends
      with the corrections stub. */
  lemma ReportTextEnds(sections: map<string, string>)
    ensures var text := Join(ReportLines(sections), "\n");
      StartsWith(text, ReportTitle + "\n" + Underline + "\n")
      && EndsWith(text, "\n" + Corrections[0] + "\n" + Corrections[1])
  {
    var r := ReportLines(sections);
    var middle := r[2..|r| - 2];
    ReportFrame(sections);
    assert r == [ReportTitle, Underline] + middle + [Corrections[0], Corrections[1]];
    JoinEnds(ReportTitle, Underline, middle, Corrections[0], Corrections[1], "\n");
  }


  /** Without a transcript or a translation but with the automated analysis,
      the report is 13 lines, or 15 with a quality assessment, and the
      analysis sits just before the nine closing lines. */
  lemma ReportOfAnalysisOnly(sections: map<string, string>, analysis: string)
    requires TranscriptionKey !in sections && TranslationKey !in sections
    requires AnalysisKey in sections && sections[AnalysisKey] == analysis
    ensures var r := ReportLines(sections);
      |r| == 13 + PartSize(QualityKey in sections, 2)
      && r[|r| - 11..|r| - 9] == [AnalysisHeading, analysis]
  {
    var s2 := SectionPart(sections, QualityKey, QualityHeading);
    var s3 := [AnalysisHeading, analysis];
    var r := ReportLines(sections);
    assert r == [ReportTitle, Underline] + [] + [] + s2 + s3 + (Checklist + Corrections);
    Layout([ReportTitle, Underline], [], [], s2, s3, Checklist + Corrections);
  }
}
