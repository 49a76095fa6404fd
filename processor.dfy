/** The OCR quality heuristics of processor.py: the anomaly detector, the
    confidence scorer, the transcript extraction from the service response
    and the appended "AUTOMATED ANALYSIS" block.

    The service response is an input string; the upload and the model call
    that produce it are not modelled.
 */
module Processor {
  import opened Text
  import opened Patterns

  // ---------------------------------------------------------------------------
  // Issue descriptions

  const RepeatedKey := "Repeated characters detected"
  const MissingSpacesKey := "Missing spaces between words detected"
  const UnusualKey := "Unusual character pattern detected"
  const FragmentKey := "High frequency of single-letter words"

  const RepeatedIssue := RepeatedKey + " (possible OCR garble)"
  const MissingSpacesIssue := MissingSpacesKey
  const FragmentIssue := FragmentKey + " (possible word fragmentation)"

  /** A regex of the form `[class]{min,}`, with its source text. */
  datatype RunPattern = RunPattern(regex: string, cls: CharClass, min: nat)

  const NonWordRun := RunPattern(@"[^\w\s]{3,}", NonWordNonSpace, 3)
  const LongNumber := RunPattern(@"\d{10,}", Digit, 10)
  const SymbolRun := RunPattern("[|@#$%^&*]{2,}", Symbol, 2)

  /** `unusual_patterns`, in the order they are tried. */
  const UnusualPatterns: seq<RunPattern> := [NonWordRun, LongNumber, SymbolRun]

  function UnusualIssue(p: RunPattern): string {
    UnusualKey + ": " + p.regex
  }

  // ---------------------------------------------------------------------------
  /** `re.search(p.regex, text)` finds a match. */
  predicate Matches(text: string, p: RunPattern) {
    HasRun(text, p.cls, p.min)
  }

  /** The words of `ws` that are one alphabetic character. */
  function SingleLetterWords(ws: seq<string>): (r: seq<string>)
    ensures |r| <= |ws|
    ensures forall i :: 0 <= i < |r| ==> |r[i]| == 1 && IsAlpha(r[i][0]) && r[i] in ws
    ensures forall w :: w in ws && |w| == 1 && IsAlpha(w[0]) ==> w in r
  {
    if ws == [] then []
    else if |ws[0]| == 1 && IsAlpha(ws[0][0]) then [ws[0]] + SingleLetterWords(ws[1..])
    else SingleLetterWords(ws[1..])
  }

  /** The filter keeps each one-letter alphabetic word as often as it occurs,
      and nothing else. */
  lemma {:induction false} SingleLetterWordsCount(ws: seq<string>)
    ensures forall w :: multiset(SingleLetterWords(ws))[w] == if |w| == 1 && IsAlpha(w[0]) then multiset(ws)[w] else 0
  {
    if ws != [] {
      SingleLetterWordsCount(ws[1..]);
      assert ws == [ws[0]] + ws[1..];
    }
  }

  /** More than 10% of the whitespace-separated words are single letters
      (the integer form of `len(short_words) > len(words) * 0.1`). */
  predicate IsFragmented(text: string) {
    10 * |SingleLetterWords(Words(text))| > |Words(text)|
  }

  // ---------------------------------------------------------------------------
  // The detector's specification: a fixed, ordered list of checks

  datatype Check = Repeated | MissingSpaces | Unusual(p: RunPattern) | Fragmented

  /** One check per pattern, in the order of the patterns. */
  function PatternChecks(ps: seq<RunPattern>): (cs: seq<Check>)
    ensures |cs| == |ps|
  {
    if ps == [] then [] else PatternChecks(ps[..|ps| - 1]) + [Unusual(ps[|ps| - 1])]
  }

  lemma PatternChecksSnoc(ps: seq<RunPattern>, k: nat)
    requires k < |ps|
    ensures PatternChecks(ps[..k + 1]) == PatternChecks(ps[..k]) + [Unusual(ps[k])]
  {
    assert ps[..k + 1][..k] == ps[..k];
  }

  /** The checks in the order `detect_anomalies` runs them. */
  const Checks: seq<Check> := [Repeated, MissingSpaces] + PatternChecks(UnusualPatterns) + [Fragmented]

  predicate Fires(text: string, c: Check) {
    match c
    case Repeated => HasRepeatedRun(text)
    case MissingSpaces => HasCaseJoin(text)
    case Unusual(p) => Matches(text, p)
    case Fragmented => IsFragmented(text)
  }

  function Describe(c: Check): string {
    match c
    case Repeated => RepeatedIssue
    case MissingSpaces => MissingSpacesIssue
    case Unusual(p) => UnusualIssue(p)
    case Fragmented => FragmentIssue
  }

  /** The descriptions of the checks in `cs` that fire, in the order of `cs`. */
  function FiredIssues(text: string, cs: seq<Check>): (r: seq<string>)
    ensures |r| <= |cs|
  {
    if cs == [] then []
    else Reported(text, cs[0]) + FiredIssues(text, cs[1..])
  }

  /** Running one check before others puts its issue first. */
  lemma FiredIssuesCons(text: string, c: Check, cs: seq<Check>)
    ensures FiredIssues(text, [c] + cs) == Reported(text, c) + FiredIssues(text, cs)
  {
    assert ([c] + cs)[1..] == cs;
  }

  lemma {:induction false} FiredIssuesAppend(text: string, a: seq<Check>, b: seq<Check>)
    ensures FiredIssues(text, a + b) == FiredIssues(text, a) + FiredIssues(text, b)
  {
    if a != [] {
      assert (a + b)[1..] == a[1..] + b;
      FiredIssuesAppend(text, a[1..], b);
    } else {
      assert a + b == b;
    }
  }

  /** Running one more check appends its issue if it fires. */
  lemma FiredIssuesSnoc(text: string, cs: seq<Check>, c: Check)
    ensures FiredIssues(text, cs + [c]) == FiredIssues(text, cs) + Reported(text, c)
  {
    FiredIssuesAppend(text, cs, [c]);
    FiredIssuesCons(text, c, []);
    assert Reported(text, c) + [] == Reported(text, c);
  }

  /** What `detect_anomalies(text)` returns. */
  function Anomalies(text: string): seq<string> {
    FiredIssues(text, Checks)
  }

  /** `detect_anomalies`: the checks run one after another, each appending its issue. */
  method DetectAnomalies(text: string) returns (issues: seq<string>)
    ensures issues == Anomalies(text)
  {
    ghost var done: seq<Check> := [];
    issues := [];
    if HasRepeatedRun(text) {
      issues := issues + [RepeatedIssue];
    }
    FiredIssuesSnoc(text, done, Repeated);
    done := done + [Repeated];
    if HasCaseJoin(text) {
      issues := issues + [MissingSpacesIssue];
    }
    FiredIssuesSnoc(text, done, MissingSpaces);
    done := done + [MissingSpaces];
    for k := 0 to |UnusualPatterns|
      invariant issues == FiredIssues(text, done)
      invariant done == [Repeated, MissingSpaces] + PatternChecks(UnusualPatterns[..k])
    {
      var pattern := UnusualPatterns[k];
      if Matches(text, pattern) {
        issues := issues + [UnusualIssue(pattern)];
      }
      FiredIssuesSnoc(text, done, Unusual(pattern));
      PatternChecksSnoc(UnusualPatterns, k);
      ConcatAssoc([Repeated, MissingSpaces], PatternChecks(UnusualPatterns[..k]), [Unusual(pattern)]);
      done := done + [Unusual(pattern)];
    }
    var words := Words(text);
    var shortWords := SingleLetterWords(words);
    if 10 * |shortWords| > |words| {
      issues := issues + [FragmentIssue];
    }
    FiredIssuesSnoc(text, done, Fragmented);
    assert UnusualPatterns[..|UnusualPatterns|] == UnusualPatterns;
  }

  lemma ChecksInOrder()
    ensures Checks == [Repeated, MissingSpaces, Unusual(NonWordRun), Unusual(LongNumber),
                       Unusual(SymbolRun), Fragmented]
  {
    var p1 := [NonWordRun];
    var p2 := [NonWordRun, LongNumber];
    var p3 := [NonWordRun, LongNumber, SymbolRun];
    assert p1[..0] == [];
    assert PatternChecks(p1) == [Unusual(NonWordRun)];
    assert p2[..1] == p1;
    assert PatternChecks(p2) == [Unusual(NonWordRun), Unusual(LongNumber)];
    assert p3[..2] == p2;
    assert PatternChecks(p3) == [Unusual(NonWordRun), Unusual(LongNumber), Unusual(SymbolRun)];
    assert UnusualPatterns == p3;
  }

  /** The issue a check contributes: its description if it fires, else nothing. */
  function Reported(text: string, c: Check): seq<string> {
    if Fires(text, c) then [Describe(c)] else []
  }

  /** The detector's issues, in their fixed order: repeated characters, missing
      spaces, one entry per unusual pattern that matches, fragmentation. */
  lemma AnomaliesInOrder(text: string)
    ensures Anomalies(text) ==
      Reported(text, Repeated) + (Reported(text, MissingSpaces) + (Reported(text, Unusual(NonWordRun))
      + (Reported(text, Unusual(LongNumber)) + (Reported(text, Unusual(SymbolRun)) + Reported(text, Fragmented)))))
  {
    ChecksInOrder();
    var t5 := [Fragmented];
    var t4 := [Unusual(SymbolRun)] + t5;
    var t3 := [Unusual(LongNumber)] + t4;
    var t2 := [Unusual(NonWordRun)] + t3;
    var t1 := [MissingSpaces] + t2;
    FiredIssuesCons(text, Fragmented, []);
    assert FiredIssues(text, t5) == Reported(text, Fragmented);
    FiredIssuesCons(text, Unusual(SymbolRun), t5);
    FiredIssuesCons(text, Unusual(LongNumber), t4);
    FiredIssuesCons(text, Unusual(NonWordRun), t3);
    FiredIssuesCons(text, MissingSpaces, t2);
    FiredIssuesCons(text, Repeated, t1);
    SixNested(Repeated, MissingSpaces, Unusual(NonWordRun), Unusual(LongNumber), Unusual(SymbolRun), Fragmented);
  }

  lemma SixNested<T>(a: T, b: T, c: T, d: T, e: T, f: T)
    ensures [a, b, c, d, e, f] == [a] + ([b] + ([c] + ([d] + ([e] + [f]))))
  {
  }

  /** A check whose description no other check shares is reported exactly when it fires. */
  lemma {:induction false} FiredIssuesMembership(text: string, cs: seq<Check>, c: Check)
    requires c in cs
    requires forall d :: d in cs && d != c ==> Describe(d) != Describe(c)
    ensures Describe(c) in FiredIssues(text, cs) <==> Fires(text, c)
  {
    if cs[0] != c {
      FiredIssuesMembership(text, cs[1..], c);
    } else if c in cs[1..] {
      FiredIssuesMembership(text, cs[1..], c);
    } else {
      FiredIssuesAbsent(text, cs[1..], Describe(c));
    }
  }

  /** A description that no check of `cs` has is never reported. */
  lemma {:induction false} FiredIssuesAbsent(text: string, cs: seq<Check>, issue: string)
    requires forall d :: d in cs ==> Describe(d) != issue
    ensures issue !in FiredIssues(text, cs)
  {
    if cs != [] {
      FiredIssuesAbsent(text, cs[1..], issue);
    }
  }

  /** Nothing is reported exactly when no check fires. */
  lemma {:induction false} FiredIssuesEmpty(text: string, cs: seq<Check>)
    ensures FiredIssues(text, cs) == [] <==> forall c :: c in cs ==> !Fires(text, c)
  {
    if cs != [] {
      FiredIssuesEmpty(text, cs[1..]);
    }
  }

  /** Each issue is reported exactly when its check fires, and the list is
      empty exactly when no check fires. */
  lemma AnomaliesReportFiredChecks(text: string)
    ensures forall c :: c in Checks ==> (Describe(c) in Anomalies(text) <==> Fires(text, c))
    ensures Anomalies(text) == [] <==> forall c :: c in Checks ==> !Fires(text, c)
    ensures |Anomalies(text)| <= 6
  {
    DescriptionsDiffer();
    forall c | c in Checks ensures Describe(c) in Anomalies(text) <==> Fires(text, c) {
      FiredIssuesMembership(text, Checks, c);
    }
    FiredIssuesEmpty(text, Checks);
  }

  /** The fragmentation issue is reported exactly when more than a tenth of
      the words are single letters. */
  lemma FragmentationReported(text: string)
    ensures FragmentIssue in Anomalies(text)
            <==> 10 * |SingleLetterWords(Words(text))| > |Words(text)|
  {
    AnomaliesReportFiredChecks(text);
    ChecksInOrder();
    assert Describe(Fragmented) == FragmentIssue;
  }

  /** The initial letter of each description. */
  function Initial(c: Check): char {
    match c
    case Repeated => 'R'
    case MissingSpaces => 'M'
    case Unusual(_) => 'U'
    case Fragmented => 'H'
  }

  lemma DescribeInitial(c: Check)
    ensures Describe(c) != [] && Describe(c)[0] == Initial(c)
  {
    match c
    case Repeated => assert RepeatedKey[0] == 'R';
    case MissingSpaces => assert MissingSpacesKey[0] == 'M';
    case Unusual(p) => assert UnusualKey[0] == 'U';
    case Fragmented => assert FragmentKey[0] == 'H';
  }

  lemma RegexesDiffer()
    ensures |NonWordRun.regex| == 11 && |LongNumber.regex| == 7 && |SymbolRun.regex| == 14
  {
  }

  lemma UnusualIssueInjective(p: RunPattern, q: RunPattern)
    requires UnusualIssue(p) == UnusualIssue(q)
    ensures p.regex == q.regex
  {
    var k := UnusualKey + ": ";
    assert UnusualIssue(p)[|k|..] == p.regex;
    assert UnusualIssue(q)[|k|..] == q.regex;
  }

  /** Different checks have different descriptions. */
  lemma DescriptionsDiffer()
    ensures forall c, d :: c in Checks && d in Checks && c != d ==> Describe(c) != Describe(d)
  {
    ChecksInOrder();
    RegexesDiffer();
    forall c, d | c in Checks && d in Checks && c != d ensures Describe(c) != Describe(d) {
      DescribeInitial(c);
      DescribeInitial(d);
      if c.Unusual? && d.Unusual? && Describe(c) == Describe(d) {
        UnusualIssueInjective(c.p, d.p);
      }
    }
  }

  /** Empty text has no issues: the word check compares 0 with 0. */
  lemma EmptyTextHasNoAnomalies()
    ensures Anomalies("") == []
  {
    AnomaliesInOrder("");
    assert Words("") == [];
  }

  // ---------------------------------------------------------------------------
  // The confidence scorer

  const BaseScore := 85

  datatype Rule = Rule(key: string, points: nat)

  /** The `deductions` table, in its insertion (iteration) order. */
  const Deductions: seq<Rule> :=
    [Rule(RepeatedKey, 15), Rule(MissingSpacesKey, 10), Rule(UnusualKey, 8), Rule(FragmentKey, 12)]

  /** Index of the first rule whose key occurs in `issue`, or `|table|` if none does. */
  function FirstMatch(issue: string, table: seq<Rule>): (k: nat)
    ensures k <= |table|
    ensures forall j :: 0 <= j < k ==> !Contains(issue, table[j].key)
    ensures k < |table| ==> Contains(issue, table[k].key)
  {
    if table == [] then 0
    else if Contains(issue, table[0].key) then 0
    else 1 + FirstMatch(issue, table[1..])
  }

  /** Points one issue costs: those of the first matching rule, else nothing. */
  function Deduction(issue: string): nat {
    var k := FirstMatch(issue, Deductions);
    if k < |Deductions| then Deductions[k].points else 0
  }

  function TotalDeduction(issues: seq<string>): nat {
    if issues == [] then 0
    else TotalDeduction(issues[..|issues| - 1]) + Deduction(issues[|issues| - 1])
  }

  /** `max(0, min(100, x))`. */
  function Clamp(x: int): (r: int)
    ensures 0 <= r <= 100
    ensures 0 <= x <= 100 ==> r == x
    ensures x < 0 ==> r == 0
    ensures x > 100 ==> r == 100
  {
    if x < 0 then 0 else if x > 100 then 100 else x
  }

  /** What `calculate_confidence_score(text, issues)` returns; `text` plays no part. */
  function Score(issues: seq<string>): int {
    Clamp(BaseScore - TotalDeduction(issues))
  }

  /** `calculate_confidence_score`: deduct per issue the points of the first
      matching table entry, then clamp. */
  method CalculateConfidenceScore(text: string, issues: seq<string>) returns (score: int)
    ensures score == Score(issues)
    ensures 0 <= score <= BaseScore
  {
    var baseScore := BaseScore;
    for i := 0 to |issues|
      invariant baseScore == BaseScore - TotalDeduction(issues[..i])
    {
      var issue := issues[i];
      assert issues[..i + 1][..i] == issues[..i];
      var k := 0;
      while k < |Deductions|
        invariant 0 <= k <= |Deductions|
        invariant forall j :: 0 <= j < k ==> !Contains(issue, Deductions[j].key)
        invariant baseScore == BaseScore - TotalDeduction(issues[..i])
      {
        if Contains(issue, Deductions[k].key) {
          baseScore := baseScore - Deductions[k].points;
          break;
        }
        k := k + 1;
      }
    }
    assert issues[..|issues|] == issues;
    score := if 0 > (if 100 < baseScore then 100 else baseScore) then 0
             else (if 100 < baseScore then 100 else baseScore);
  }

  /** The score is 85 less the deductions, but never below 0. */
  lemma ScoreBounds(issues: seq<string>)
    ensures 0 <= Score(issues) <= BaseScore
    ensures TotalDeduction(issues) >= BaseScore ==> Score(issues) == 0
    ensures TotalDeduction(issues) <= BaseScore ==> Score(issues) == BaseScore - TotalDeduction(issues)
  {
  }

  /** An issue that contains no table key costs nothing. */
  lemma UnmatchedIssueCostsNothing(issue: string)
    requires forall j :: 0 <= j < |Deductions| ==> !Contains(issue, Deductions[j].key)
    ensures Deduction(issue) == 0
  {
  }

  lemma {:induction false} TotalDeductionAppend(a: seq<string>, b: seq<string>)
    ensures TotalDeduction(a + b) == TotalDeduction(a) + TotalDeduction(b)
    decreases |b|
  {
    if b != [] {
      var n := |b| - 1;
      assert (a + b)[..|a + b| - 1] == a + b[..n];
      TotalDeductionAppend(a, b[..n]);
    } else {
      assert a + b == a;
    }
  }

  /** Removing one issue removes exactly its deduction. */
  lemma {:induction false} TotalDeductionRemove(s: seq<string>, i: nat)
    requires i < |s|
    ensures TotalDeduction(s) == TotalDeduction(s[..i] + s[i + 1..]) + Deduction(s[i])
  {
    assert s == s[..i] + [s[i]] + s[i + 1..];
    TotalDeductionAppend(s[..i] + [s[i]], s[i + 1..]);
    TotalDeductionAppend(s[..i], [s[i]]);
    TotalDeductionAppend(s[..i], s[i + 1..]);
    assert TotalDeduction([s[i]]) == Deduction(s[i]) by {
      assert [s[i]][..0] == [];
    }
  }

  /** Taking element `i` out of a sequence takes one copy of it out of its multiset. */
  lemma MultisetRemove<T>(s: seq<T>, i: nat)
    requires i < |s|
    ensures multiset(s[..i] + s[i + 1..]) == multiset(s) - multiset{s[i]}
  {
    assert s == s[..i] + [s[i]] + s[i + 1..];
    assert multiset(s) == multiset(s[..i]) + multiset([s[i]]) + multiset(s[i + 1..]);
  }

  /** The order of the issues does not matter to the total deduction. */
  lemma {:induction false} TotalDeductionIgnoresOrder(a: seq<string>, b: seq<string>)
    requires multiset(a) == multiset(b)
    ensures TotalDeduction(a) == TotalDeduction(b)
    decreases |a|
  {
    if a != [] {
      var n := |a| - 1;
      var i := IndexOfMember(b, a[n]);
      MultisetRemove(a, n);
      MultisetRemove(b, i);
      assert a[..n] + a[n + 1..] == a[..n];
      TotalDeductionIgnoresOrder(a[..n], b[..i] + b[i + 1..]);
      TotalDeductionRemove(b, i);
    } else {
      assert |b| == |multiset(b)|;
    }
  }

  /** An index at which a member of a multiset's sequence sits. */
  lemma IndexOfMember<T>(s: seq<T>, x: T) returns (i: nat)
    requires x in multiset(s)
    ensures i < |s| && s[i] == x
  {
    assert x in s;
    i :| i < |s| && s[i] == x;
  }

  /** Reordering the issues leaves the score unchanged. */
  lemma ScoreIgnoresOrder(a: seq<string>, b: seq<string>)
    requires multiset(a) == multiset(b)
    ensures Score(a) == Score(b)
  {
    TotalDeductionIgnoresOrder(a, b);
  }

  /** The first rule whose key the issue contains decides the deduction. */
  lemma DeductionByRule(issue: string, k: nat)
    requires k < |Deductions| && Contains(issue, Deductions[k].key)
    requires forall j :: 0 <= j < k ==> !Contains(issue, Deductions[j].key)
    ensures Deduction(issue) == Deductions[k].points
  {
  }

  /** The deduction each detector issue costs. */
  lemma IssueDeductions()
    ensures Deduction(RepeatedIssue) == 15
    ensures Deduction(MissingSpacesIssue) == 10
    ensures forall p :: p in UnusualPatterns ==> Deduction(UnusualIssue(p)) == 8
    ensures Deduction(FragmentIssue) == 12
  {
    RepeatedIssueDeduction();
    MissingSpacesIssueDeduction();
    forall p | p in UnusualPatterns ensures Deduction(UnusualIssue(p)) == 8 {
      UnusualIssueDeduction(p);
    }
    FragmentIssueDeduction();
  }

  // The table's entries, for the per-issue deduction lemmas below.
  lemma RulesTable()
    ensures |Deductions| == 4
    ensures Deductions[0] == Rule(RepeatedKey, 15) && Deductions[1] == Rule(MissingSpacesKey, 10)
    ensures Deductions[2] == Rule(UnusualKey, 8) && Deductions[3] == Rule(FragmentKey, 12)
  {
  }

  /** A text without the key's initial letter cannot contain the key. */
  lemma KeyAbsent(s: string, key: string, initial: char)
    requires key != [] && key[0] == initial && initial !in s
    ensures !Contains(s, key)
  {
    NotContainedWithoutFirstChar(s, key);
  }

  /** A text that starts with the key contains it. */
  lemma KeyPrefix(key: string, rest: string)
    ensures Contains(key + rest, key)
  {
    assert OccursAt(key + rest, key, 0);
  }

  // Which key initials each description lacks (one fact per lemma keeps each proof small).
  lemma KeyInitials()
    ensures RepeatedKey[0] == 'R' && MissingSpacesKey[0] == 'M' && UnusualKey[0] == 'U'
  {
  }

  lemma MissingSpacesIssueLacksR() ensures 'R' !in MissingSpacesIssue {}
  lemma FragmentIssueLacksR() ensures 'R' !in FragmentIssue {}
  lemma FragmentIssueLacksM() ensures 'M' !in FragmentIssue {}
  lemma FragmentIssueLacksU() ensures 'U' !in FragmentIssue {}
  lemma UnusualKeyLacksR() ensures 'R' !in UnusualKey + ": " {}
  lemma UnusualKeyLacksM() ensures 'M' !in UnusualKey + ": " {}
  lemma RegexesLackR() ensures 'R' !in NonWordRun.regex && 'R' !in LongNumber.regex && 'R' !in SymbolRun.regex {}
  lemma RegexesLackM() ensures 'M' !in NonWordRun.regex && 'M' !in LongNumber.regex && 'M' !in SymbolRun.regex {}

  lemma UnusualIssueLacksRM(p: RunPattern)
    requires p in UnusualPatterns
    ensures 'R' !in UnusualIssue(p) && 'M' !in UnusualIssue(p)
  {
    UnusualKeyLacksR();
    UnusualKeyLacksM();
    RegexesLackR();
    RegexesLackM();
    assert p == NonWordRun || p == LongNumber || p == SymbolRun;
    assert UnusualIssue(p) == (UnusualKey + ": ") + p.regex;
  }

  lemma RepeatedIssueDeduction()
    ensures Deduction(RepeatedIssue) == 15
  {
    KeyPrefix(RepeatedKey, " (possible OCR garble)");
    RulesTable();
    DeductionByRule(RepeatedIssue, 0);
  }

  lemma MissingSpacesIssueDeduction()
    ensures Deduction(MissingSpacesIssue) == 10
  {
    KeyInitials();
    MissingSpacesIssueLacksR();
    KeyAbsent(MissingSpacesIssue, RepeatedKey, 'R');
    KeyPrefix(MissingSpacesKey, []);
    assert MissingSpacesKey + [] == MissingSpacesIssue;
    RulesTable();
    DeductionByRule(MissingSpacesIssue, 1);
  }

  lemma UnusualIssueDeduction(p: RunPattern)
    requires p in UnusualPatterns
    ensures Deduction(UnusualIssue(p)) == 8
  {
    var s := UnusualIssue(p);
    KeyInitials();
    UnusualIssueLacksRM(p);
    KeyAbsent(s, RepeatedKey, 'R');
    KeyAbsent(s, MissingSpacesKey, 'M');
    KeyPrefix(UnusualKey, ": " + p.regex);
    assert s == UnusualKey + (": " + p.regex);
    RulesTable();
    DeductionByRule(s, 2);
  }

  lemma FragmentIssueDeduction()
    ensures Deduction(FragmentIssue) == 12
  {
    KeyInitials();
    FragmentIssueLacksR();
    FragmentIssueLacksM();
    FragmentIssueLacksU();
    KeyAbsent(FragmentIssue, RepeatedKey, 'R');
    KeyAbsent(FragmentIssue, MissingSpacesKey, 'M');
    KeyAbsent(FragmentIssue, UnusualKey, 'U');
    KeyPrefix(FragmentKey, " (possible word fragmentation)");
    RulesTable();
    DeductionByRule(FragmentIssue, 3);
  }

  function Indicator(b: bool): nat { if b then 1 else 0 }

  /** A check costs its description's points when it fires, else nothing. */
  lemma ReportedCost(text: string, c: Check, points: nat)
    requires Deduction(Describe(c)) == points
    ensures TotalDeduction(Reported(text, c)) == if Fires(text, c) then points else 0
  {
    if Fires(text, c) {
      assert [Describe(c)][..0] == [];
    }
  }

  lemma TotalDeductionOfSix(r0: seq<string>, r1: seq<string>, r2: seq<string>,
                            r3: seq<string>, r4: seq<string>, r5: seq<string>)
    ensures TotalDeduction(r0 + (r1 + (r2 + (r3 + (r4 + r5))))) ==
      TotalDeduction(r0) + TotalDeduction(r1) + TotalDeduction(r2)
      + TotalDeduction(r3) + TotalDeduction(r4) + TotalDeduction(r5)
  {
    TotalDeductionAppend(r4, r5);
    TotalDeductionAppend(r3, r4 + r5);
    TotalDeductionAppend(r2, r3 + (r4 + r5));
    TotalDeductionAppend(r1, r2 + (r3 + (r4 + r5)));
    TotalDeductionAppend(r0, r1 + (r2 + (r3 + (r4 + r5))));
  }

  /** The deductions for the detector's own issues: 15, 10, 8 per unusual
      pattern that matches, and 12. */
  lemma TotalDeductionOfAnomalies(text: string)
    ensures TotalDeduction(Anomalies(text)) ==
      15 * Indicator(HasRepeatedRun(text)) + 10 * Indicator(HasCaseJoin(text))
      + 8 * (Indicator(Matches(text, NonWordRun)) + Indicator(Matches(text, LongNumber))
             + Indicator(Matches(text, SymbolRun)))
      + 12 * Indicator(IsFragmented(text))
  {
    AnomaliesInOrder(text);
    TotalDeductionOfSix(Reported(text, Repeated), Reported(text, MissingSpaces),
                        Reported(text, Unusual(NonWordRun)), Reported(text, Unusual(LongNumber)),
                        Reported(text, Unusual(SymbolRun)), Reported(text, Fragmented));
    FirstChecksCost(text);
    LastChecksCost(text);
  }

  /** What the first three checks' reports deduct. */
  lemma FirstChecksCost(text: string)
    ensures TotalDeduction(Reported(text, Repeated)) + TotalDeduction(Reported(text, MissingSpaces))
            + TotalDeduction(Reported(text, Unusual(NonWordRun)))
            == 15 * Indicator(HasRepeatedRun(text)) + 10 * Indicator(HasCaseJoin(text))
               + 8 * Indicator(Matches(text, NonWordRun))
  {
    RepeatedIssueDeduction();
    ReportedCost(text, Repeated, 15);
    MissingSpacesIssueDeduction();
    ReportedCost(text, MissingSpaces, 10);
    UnusualIssueDeduction(NonWordRun);
    ReportedCost(text, Unusual(NonWordRun), 8);
  }

  /** What the last three checks' reports deduct. */
  lemma LastChecksCost(text: string)
    ensures TotalDeduction(Reported(text, Unusual(LongNumber))) + TotalDeduction(Reported(text, Unusual(SymbolRun)))
            + TotalDeduction(Reported(text, Fragmented))
            == 8 * Indicator(Matches(text, LongNumber)) + 8 * Indicator(Matches(text, SymbolRun))
               + 12 * Indicator(IsFragmented(text))
  {
    UnusualIssueDeduction(LongNumber);
    ReportedCost(text, Unusual(LongNumber), 8);
    UnusualIssueDeduction(SymbolRun);
    ReportedCost(text, Unusual(SymbolRun), 8);
    FragmentIssueDeduction();
    ReportedCost(text, Fragmented, 12);
  }

  /** The score of the detector's own issues is 85 less those deductions
      (never clamped), at least 24, and 85 exactly when nothing was found. */
  lemma ScoreOfAnomalies(text: string)
    ensures var k := Indicator(Matches(text, NonWordRun)) + Indicator(Matches(text, LongNumber))
                     + Indicator(Matches(text, SymbolRun));
            k <= 3 &&
            Score(Anomalies(text)) == BaseScore - 15 * Indicator(HasRepeatedRun(text))
              - 10 * Indicator(HasCaseJoin(text)) - 8 * k - 12 * Indicator(IsFragmented(text))
    ensures Score(Anomalies(text)) >= 24
    ensures Score(Anomalies(text)) == BaseScore <==> Anomalies(text) == []
  {
    TotalDeductionOfAnomalies(text);
    AnomaliesInOrder(text);
  }

  // ---------------------------------------------------------------------------
  // The pure part of transcribe_and_translate

  const TranscriptionName := "TRANSCRIPCI\U{D3}N"
  const TranslationName := "TRADUCCI\U{D3}N"
  const TranscriptionMarker := "--- " + TranscriptionName + " ---"
  const TranslationMarker := "--- " + TranslationName + " ---"
  const ExtractionError := "Error: Could not extract transcription from response"

  /** The transcript: the stripped text between the end of the first
      TRANSCRIPCIÓN marker and the first TRADUCCIÓN marker, if both occur. */
  function ExtractTranscription(response: string): (t: string)
    ensures !Contains(response, TranscriptionMarker) || !Contains(response, TranslationMarker)
            ==> t == ExtractionError
  {
    var start := Find(response, TranscriptionMarker);
    var end := Find(response, TranslationMarker);
    if start != -1 && end != -1 then
      Strip(Slice(response, start + |TranscriptionMarker|, end))
    else
      ExtractionError
  }

  /** With both markers present, the transcript is the stripped text from the
      end of the first TRANSCRIPCIÓN marker to the first TRADUCCIÓN marker. */
  lemma TranscriptionBetweenMarkers(response: string, i: int, j: int)
    requires FirstOccurrence(response, TranscriptionMarker, i)
    requires FirstOccurrence(response, TranslationMarker, j)
    ensures ExtractTranscription(response) == Strip(Slice(response, i + |TranscriptionMarker|, j))
  {
    FindFirst(response, TranscriptionMarker, i);
    FindFirst(response, TranslationMarker, j);
    assert Find(response, TranscriptionMarker) != -1 && Find(response, TranslationMarker) != -1;
    assert ExtractTranscription(response) == Strip(Slice(response, Find(response, TranscriptionMarker) + |TranscriptionMarker|, Find(response, TranslationMarker)));
  }

  /** A TRADUCCIÓN marker that starts before the TRANSCRIPCIÓN marker ends
      leaves an empty transcript (Python's slice with start past stop). */
  lemma MarkersOutOfOrder(response: string, i: int, j: int)
    requires FirstOccurrence(response, TranscriptionMarker, i)
    requires FirstOccurrence(response, TranslationMarker, j)
    requires j < i + |TranscriptionMarker|
    ensures ExtractTranscription(response) == []
  {
    TranscriptionBetweenMarkers(response, i, j);
  }

  const AnalysisName := "AUTOMATED ANALYSIS"
  const AnalysisHeader := "--- " + AnalysisName + " ---"
  const WarningSign := "\U{26A0}\U{FE0F}"
  const HighVoltage := "\U{26A1}"
  const CheckMark := "\U{2705}"
  const LowBanner := WarningSign + "  LOW CONFIDENCE - Manual review recommended"
  const PotentialBanner := HighVoltage + " POTENTIAL ISSUES - Spot check recommended"
  const NoIssuesBanner := CheckMark + " No obvious issues detected"

  /** The severity banner: no issues, else low confidence below 70, else potential issues. */
  function Banner(score: int, issues: seq<string>): string {
    if issues == [] then NoIssuesBanner
    else if score < 70 then LowBanner
    else PotentialBanner
  }

  const ScoreLabel := "Confidence Score: "
  const IssuesLabel := "Detected Issues: "

  function ScoreLine(score: nat): string {
    ScoreLabel + NatToString(score) + "%"
  }

  function IssuesLine(issues: seq<string>): string {
    IssuesLabel + Join(issues, ", ")
  }

  /** The lines of the analysis block after its header. */
  function AnalysisLines(score: nat, issues: seq<string>): seq<string> {
    [ScoreLine(score)] + (if issues != [] then [IssuesLine(issues)] else []) + [Banner(score, issues)]
  }

  /** The text appended to the response: a blank line, the header line, then
      each analysis line ended by a newline. */
  function AnalysisBlock(score: nat, issues: seq<string>): string {
    "\n\n" + AnalysisHeader + "\n" + Terminated(AnalysisLines(score, issues))
  }

  /** The tail of `transcribe_and_translate`: `enhanced_response` grown by `+=`. */
  method AppendAnalysis(responseText: string, issues: seq<string>, score: nat) returns (enhanced: string)
    ensures enhanced == responseText + AnalysisBlock(score, issues)
  {
    enhanced := responseText;
    if issues != [] {
      enhanced := enhanced + ("\n\n" + AnalysisHeader + "\n");
      enhanced := enhanced + (ScoreLabel + NatToString(score) + "%\n");
      enhanced := enhanced + (IssuesLabel + Join(issues, ", ") + "\n");
      if score < 70 {
        enhanced := enhanced + (LowBanner + "\n");
      } else if issues != [] {
        enhanced := enhanced + (PotentialBanner + "\n");
      }
    } else {
      enhanced := enhanced + ("\n\n" + AnalysisHeader + "\n");
      enhanced := enhanced + (ScoreLabel + NatToString(score) + "%\n");
      enhanced := enhanced + (NoIssuesBanner + "\n");
    }
    ScoreLineEnded(score);
    var lines := AnalysisLines(score, issues);
    var head := "\n\n" + AnalysisHeader + "\n";
    if issues != [] {
      var l0, l1, l2 := ScoreLine(score) + "\n", IssuesLine(issues) + "\n", Banner(score, issues) + "\n";
      TerminatedThree(ScoreLine(score), IssuesLine(issues), Banner(score, issues));
      assert lines == [ScoreLine(score), IssuesLine(issues), Banner(score, issues)];
      AppendAssoc4(responseText, head, l0, l1, l2);
    } else {
      var l0, l2 := ScoreLine(score) + "\n", Banner(score, issues) + "\n";
      TerminatedTwo(ScoreLine(score), Banner(score, issues));
      assert lines == [ScoreLine(score), Banner(score, issues)];
      AppendAssoc3(responseText, head, l0, l2);
    }
  }

  lemma ScoreLineEnded(score: nat)
    ensures ScoreLabel + NatToString(score) + "%\n" == ScoreLine(score) + "\n"
  {
    assert "%\n" == "%" + "\n";
  }

  /** What `transcribe_and_translate` returns for the service response `responseText`. */
  function Annotated(responseText: string): string {
    var issues := Anomalies(ExtractTranscription(responseText));
    responseText + AnalysisBlock(Score(issues), issues)
  }

  /** `transcribe_and_translate` after the model call: extract, detect, score, append. */
  method TranscribeAndTranslate(responseText: string) returns (enhanced: string)
    ensures enhanced == Annotated(responseText)
    ensures enhanced[..|responseText|] == responseText
  {
    var transcription := ExtractTranscription(responseText);
    var issues := DetectAnomalies(transcription);
    var confidenceScore := CalculateConfidenceScore(transcription, issues);
    enhanced := AppendAnalysis(responseText, issues, confidenceScore);
  }

  lemma LabelInitials()
    ensures ScoreLabel[0] == 'C' && IssuesLabel[0] == 'D'
  {
    assert ScoreLabel == "Confidence Score: ";
    assert IssuesLabel == "Detected Issues: ";
  }

  lemma BannerInitials()
    ensures LowBanner[0] == '\U{26A0}' && PotentialBanner[0] == '\U{26A1}' && NoIssuesBanner[0] == '\U{2705}'
  {
  }

  /** The analysis lines: the score line first, a "Detected Issues" line
      exactly when there are issues, and last the banner the severity policy picks. */
  lemma AnalysisLinesShape(score: nat, issues: seq<string>)
    ensures var lines := AnalysisLines(score, issues);
      lines[0] == ScoreLabel + NatToString(score) + "%"
      && (issues != [] <==> exists l :: l in lines && StartsWith(l, IssuesLabel))
      && lines[|lines| - 1] == Banner(score, issues)
      && (lines[|lines| - 1] == LowBanner <==> issues != [] && score < 70)
      && (lines[|lines| - 1] == PotentialBanner <==> issues != [] && score >= 70)
      && (lines[|lines| - 1] == NoIssuesBanner <==> issues == [])
  {
    LabelInitials();
    BannerInitials();
    var lines := AnalysisLines(score, issues);
    assert ScoreLine(score)[0] == 'C';
    assert Banner(score, issues)[0] != 'D';
    if issues != [] {
      assert StartsWith(IssuesLine(issues), IssuesLabel);
      assert IssuesLine(issues) in lines;
    } else {
      assert lines == [ScoreLine(score), Banner(score, issues)];
    }
  }

  // ---------------------------------------------------------------------------
  // The analysis block's lines are single lines

  // Which literals lack a newline (one fact per lemma keeps each proof small).
  lemma RepeatedIssueLacksNewline() ensures '\n' !in RepeatedIssue {}
  lemma MissingSpacesIssueLacksNewline() ensures '\n' !in MissingSpacesIssue {}
  lemma FragmentIssueLacksNewline() ensures '\n' !in FragmentIssue {}
  lemma UnusualKeyLacksNewline() ensures '\n' !in UnusualKey + ": " {}
  lemma RegexesLackNewline() ensures '\n' !in NonWordRun.regex && '\n' !in LongNumber.regex && '\n' !in SymbolRun.regex {}
  lemma LowBannerLacksNewline() ensures '\n' !in LowBanner {}
  lemma PotentialBannerLacksNewline() ensures '\n' !in PotentialBanner {}
  lemma NoIssuesBannerLacksNewline() ensures '\n' !in NoIssuesBanner {}
  lemma AnalysisHeaderLacksNewline() ensures '\n' !in AnalysisHeader { assert '\n' !in AnalysisName; }

  lemma DescriptionsLackNewline()
    ensures forall c :: c in Checks ==> '\n' !in Describe(c)
  {
    ChecksInOrder();
    RepeatedIssueLacksNewline();
    MissingSpacesIssueLacksNewline();
    FragmentIssueLacksNewline();
    UnusualKeyLacksNewline();
    RegexesLackNewline();
    forall c | c in Checks ensures '\n' !in Describe(c) {
      if c.Unusual? {
        assert Describe(c) == (UnusualKey + ": ") + c.p.regex;
      }
    }
  }

  lemma {:induction false} FiredIssuesLack(text: string, cs: seq<Check>, ch: char)
    requires forall c :: c in cs ==> ch !in Describe(c)
    ensures forall i :: 0 <= i < |FiredIssues(text, cs)| ==> ch !in FiredIssues(text, cs)[i]
  {
    if cs != [] {
      FiredIssuesLack(text, cs[1..], ch);
      FiredIssuesCons(text, cs[0], cs[1..]);
      assert cs == [cs[0]] + cs[1..];
    }
  }

  /** No issue the detector reports spans more than one line. */
  lemma AnomaliesLackNewline(text: string)
    ensures forall i :: 0 <= i < |Anomalies(text)| ==> '\n' !in Anomalies(text)[i]
  {
    DescriptionsLackNewline();
    FiredIssuesLack(text, Checks, '\n');
  }

  /** With single-line issues, each analysis line is a single line. */
  lemma AnalysisLinesLackNewline(score: nat, issues: seq<string>)
    requires forall i :: 0 <= i < |issues| ==> '\n' !in issues[i]
    ensures forall i :: 0 <= i < |AnalysisLines(score, issues)| ==> '\n' !in AnalysisLines(score, issues)[i]
  {
    var digits := NatToString(score);
    assert '\n' !in digits by {
      forall k | 0 <= k < |digits| ensures digits[k] != '\n' {
        assert IsDigit(digits[k]);
      }
    }
    assert '\n' !in ScoreLabel + digits + "%";
    JoinLacks(issues, ", ", '\n');
    assert '\n' !in IssuesLine(issues);
    LowBannerLacksNewline();
    PotentialBannerLacksNewline();
    NoIssuesBannerLacksNewline();
    assert '\n' !in Banner(score, issues);
  }

  /** Every analysis line starts with 'C' (the score), 'D' (the issues) or a
      banner's symbol, so none is a section header, which starts with '-'. */
  lemma AnalysisLinesInitials(score: nat, issues: seq<string>)
    ensures forall i :: 0 <= i < |AnalysisLines(score, issues)| ==>
      AnalysisLines(score, issues)[i] != [] && AnalysisLines(score, issues)[i][0] != '-'
  {
    LabelInitials();
    BannerInitials();
    assert ScoreLine(score)[0] == 'C';
    assert IssuesLine(issues)[0] == 'D';
  }

  /** The analysis text starts with the score line's 'C' and ends with the
      banner's last letter, so stripping it changes nothing. */
  lemma AnalysisTextEnds(score: nat, issues: seq<string>)
    ensures var j := Join(AnalysisLines(score, issues), "\n");
      j != [] && j[0] == 'C' && j[|j| - 1] == 'd'
  {
    var lines := AnalysisLines(score, issues);
    LabelInitials();
    assert lines[0] == ScoreLine(score) && ScoreLine(score)[0] == 'C';
    JoinFirst(lines, "\n");
    var b := Banner(score, issues);
    assert lines[|lines| - 1] == b;
    assert LowBanner[|LowBanner| - 1] == 'd';
    assert PotentialBanner[|PotentialBanner| - 1] == 'd';
    assert NoIssuesBanner[|NoIssuesBanner| - 1] == 'd';
    JoinLast(lines, "\n");
  }
}
