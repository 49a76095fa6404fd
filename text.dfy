/** Python string built-ins used by the OCR tools, on `string == seq<char>`.

    Character classes are Python's, restricted to ASCII: every non-ASCII
    character counts as neither a letter, nor a digit, nor whitespace.
 */
module Text {

  /** `str.isspace()` and the regex class `\s` (ASCII part). */
  predicate IsSpace(c: char) {
    c == ' ' || c == '\t' || c == '\n' || c == '\r' || c == '\U{0B}' || c == '\U{0C}'
    || ('\U{1C}' <= c <= '\U{1F}')
  }

  /** The regex class `[a-z]`. */
  predicate IsLower(c: char) { 'a' <= c <= 'z' }

  /** The regex class `[A-Z]`. */
  predicate IsUpper(c: char) { 'A' <= c <= 'Z' }

  /** `str.isalpha()` on one character (ASCII part). */
  predicate IsAlpha(c: char) { IsLower(c) || IsUpper(c) }

  /** The regex class `\d` (ASCII part). */
  predicate IsDigit(c: char) { '0' <= c <= '9' }

  /** The regex class `\w` (ASCII part). */
  predicate IsWordChar(c: char) { IsAlpha(c) || IsDigit(c) || c == '_' }

  /** `n` copies of `c`. */
  function Repeat(c: char, n: nat): (r: string)
    ensures |r| == n && forall k :: 0 <= k < n ==> r[k] == c
  {
    if n == 0 then [] else [c] + Repeat(c, n - 1)
  }

  // ---------------------------------------------------------------------------
  // Substring search: `pat in s` and `s.find(pat)`

  /** `s.startswith(pre)`. */
  predicate StartsWith(s: string, pre: string) {
    |pre| <= |s| && s[..|pre|] == pre
  }

  /** `s.endswith(suf)`. */
  predicate EndsWith(s: string, suf: string) {
    |suf| <= |s| && s[|s| - |suf|..] == suf
  }

  predicate OccursAt(s: string, pat: string, i: int) {
    0 <= i && i + |pat| <= |s| && s[i..i + |pat|] == pat
  }

  /** Python's `pat in s`. */
  predicate Contains(s: string, pat: string) {
    exists i | 0 <= i <= |s| - |pat| :: OccursAt(s, pat, i)
  }

  /** `i` is the lowest index at which `pat` occurs in `s`. */
  predicate FirstOccurrence(s: string, pat: string, i: int) {
    OccursAt(s, pat, i) && forall j :: 0 <= j < i ==> !OccursAt(s, pat, j)
  }

  /** There is only one lowest index. */
  lemma FirstOccurrenceUnique(s: string, pat: string, i: int, j: int)
    requires FirstOccurrence(s, pat, i) && FirstOccurrence(s, pat, j)
    ensures i == j
  {
  }

  /** `s.find(pat)` returns the lowest index at which `pat` occurs. */
  lemma FindFirst(s: string, pat: string, i: int)
    requires FirstOccurrence(s, pat, i)
    ensures Find(s, pat) == i
  {
    assert Contains(s, pat);
    FirstOccurrenceUnique(s, pat, i, Find(s, pat));
  }

  /** `s.find(pat)`: the lowest index of `pat` in `s`, or -1. */
  function Find(s: string, pat: string): (r: int)
    ensures r == -1 <==> !Contains(s, pat)
    ensures r != -1 ==> FirstOccurrence(s, pat, r)
  {
    FindFrom(s, pat, 0)
  }

  function FindFrom(s: string, pat: string, from: nat): (r: int)
    ensures r == -1 <==> forall j :: from <= j ==> !OccursAt(s, pat, j)
    ensures r != -1 ==> from <= r && OccursAt(s, pat, r)
                        && forall j :: from <= j < r ==> !OccursAt(s, pat, j)
    decreases |s| - from
  {
    if from + |pat| > |s| then -1
    else if s[from..from + |pat|] == pat then assert OccursAt(s, pat, from); from
    else FindFrom(s, pat, from + 1)
  }

  /** If the first character of `pat` never appears in `s`, neither does `pat`. */
  lemma NotContainedWithoutFirstChar(s: string, pat: string)
    requires pat != [] && pat[0] !in s
    ensures !Contains(s, pat)
  {
    forall i | 0 <= i <= |s| - |pat| ensures !OccursAt(s, pat, i) {
      assert s[i..i + |pat|][0] == s[i];
    }
  }

  /** Python's slice `s[a:b]` for indices already within `[0, |s|]`. */
  function Slice(s: string, a: nat, b: nat): (r: string)
    requires a <= |s| && b <= |s|
    ensures |r| == if a <= b then b - a else 0
    ensures forall k :: 0 <= k < |r| ==> r[k] == s[a + k]
  {
    if a <= b then s[a..b] else []
  }

  // ---------------------------------------------------------------------------
  // `str.strip()`

  function StripStart(s: string): (r: string)
    ensures |r| <= |s| && r == s[|s| - |r|..]
    ensures r == [] || !IsSpace(r[0])
    ensures forall k :: 0 <= k < |s| - |r| ==> IsSpace(s[k])
  {
    if s != [] && IsSpace(s[0]) then StripStart(s[1..]) else s
  }

  function StripEnd(s: string): (r: string)
    ensures |r| <= |s| && r == s[..|r|]
    ensures r == [] || !IsSpace(r[|r| - 1])
    ensures forall k :: |r| <= k < |s| ==> IsSpace(s[k])
  {
    if s != [] && IsSpace(s[|s| - 1]) then StripEnd(s[..|s| - 1]) else s
  }

  /** `r` is `s[i..]` cut short, and everything cut off on either side is whitespace. */
  predicate TrimmedAt(s: string, r: string, i: int) {
    0 <= i <= |s| - |r| && r == s[i..i + |r|]
    && (forall k :: 0 <= k < i ==> IsSpace(s[k]))
    && (forall k :: i + |r| <= k < |s| ==> IsSpace(s[k]))
  }

  /** `s.strip()`: `s` without its leading and trailing whitespace. */
  function Strip(s: string): (r: string)
    ensures r == [] || (!IsSpace(r[0]) && !IsSpace(r[|r| - 1]))
    ensures exists i :: TrimmedAt(s, r, i)
  {
    var t := StripStart(s);
    var r := StripEnd(t);
    assert r == s[|s| - |t|..][..|r|];
    assert TrimmedAt(s, r, |s| - |t|);
    r
  }

  /** Text that neither starts nor ends with whitespace is its own strip. */
  lemma StripUnchanged(s: string)
    requires s == [] || (!IsSpace(s[0]) && !IsSpace(s[|s| - 1]))
    ensures Strip(s) == s
  {
  }

  /** Trailing whitespace does not survive the strip. */
  lemma {:induction false} StripTrailingSpace(s: string, c: char)
    requires IsSpace(c)
    ensures Strip(s + [c]) == Strip(s)
  {
    assert (s + [c])[..|s|] == s;
    if StripStart(s) == [] {
      assert StripStart(s + [c]) == [] by { StripAllSpace(s + [c]); }
    } else {
      StripStartAppend(s, [c]);
    }
  }

  lemma {:induction false} StripAllSpace(s: string)
    requires forall k :: 0 <= k < |s| ==> IsSpace(s[k])
    ensures StripStart(s) == []
  {
    if s != [] { StripAllSpace(s[1..]); }
  }

  /** Stripping the front only looks at the front, once a non-space is met. */
  lemma {:induction false} StripStartAppend(s: string, t: string)
    requires StripStart(s) != []
    ensures StripStart(s + t) == StripStart(s) + t
  {
    if s != [] && IsSpace(s[0]) {
      assert (s + t)[1..] == s[1..] + t;
      StripStartAppend(s[1..], t);
    }
  }

  // ---------------------------------------------------------------------------
  // `s.split(sep)` and `sep.join(parts)`

  /** `s.split(sep)` for a one-character separator: empty pieces are kept. */
  function Split(s: string, sep: char): (r: seq<string>)
    ensures |r| >= 1
    ensures forall i :: 0 <= i < |r| ==> sep !in r[i]
  {
    if s == [] then [[]]
    else
      var rest := Split(s[1..], sep);
      if s[0] == sep then [[]] + rest
      else [[s[0]] + rest[0]] + rest[1..]
  }

  /** `sep.join(parts)`. */
  function Join(parts: seq<string>, sep: string): (r: string)
  {
    if |parts| == 0 then []
    else if |parts| == 1 then parts[0]
    else parts[0] + sep + Join(parts[1..], sep)
  }

  lemma JoinTwo(a: string, b: string, sep: string)
    ensures Join([a, b], sep) == a + sep + b
  {
    assert [a, b][1..] == [b];
  }

  /** Joining two non-empty lists puts one separator between their joins. */
  lemma {:induction false} JoinAppend(a: seq<string>, b: seq<string>, sep: string)
    requires a != [] && b != []
    ensures Join(a + b, sep) == Join(a, sep) + sep + Join(b, sep)
  {
    if |a| == 1 {
      assert (a + b)[1..] == b;
    } else {
      assert (a + b)[1..] == a[1..] + b;
      JoinAppend(a[1..], b, sep);
      ConcatAssoc(a[0] + sep, Join(a[1..], sep) + sep, Join(b, sep));
      ConcatAssoc(a[0] + sep, Join(a[1..], sep), sep);
    }
  }

  /** A text that is `pre + rest` starts with `pre`. */
  lemma StartsWithPrefix(pre: string, rest: string)
    ensures StartsWith(pre + rest, pre)
  {
    assert (pre + rest)[..|pre|] == pre;
  }

  /** A text that is `rest + suf` ends with `suf`. */
  lemma EndsWithSuffix(rest: string, suf: string)
    ensures EndsWith(rest + suf, suf)
  {
    assert (rest + suf)[|rest|..] == suf;
  }

  /** The joined text of two lines, some more lines and two last lines starts
      with the first two lines and ends with the last two, each separated. */
  lemma JoinEnds(a: string, b: string, middle: seq<string>, x: string, y: string, sep: string)
    requires middle != []
    ensures StartsWith(Join([a, b] + middle + [x, y], sep), a + sep + b + sep)
    ensures EndsWith(Join([a, b] + middle + [x, y], sep), sep + x + sep + y)
  {
    var j := Join(middle, sep);
    var head := a + sep + b;
    var tail := x + sep + y;
    JoinAppend([a, b] + middle, [x, y], sep);
    JoinAppend([a, b], middle, sep);
    JoinTwo(a, b, sep);
    JoinTwo(x, y, sep);
    var text := Join([a, b] + middle + [x, y], sep);
    assert text == head + sep + j + sep + tail;
    Regroup(head, sep, j, sep, tail);
    StartsWithPrefix(head + sep, j + sep + tail);
    ConcatAssoc(sep, x + sep, y);
    ConcatAssoc(sep, x, sep);
    EndsWithSuffix(head + sep + j, sep + tail);
  }

  /** Two ways to cut a concatenation of five parts in two. */
  lemma Regroup<T>(p: seq<T>, q: seq<T>, r: seq<T>, s: seq<T>, t: seq<T>)
    ensures p + q + r + s + t == (p + q) + (r + s + t)
    ensures p + q + r + s + t == (p + q + r) + (s + t)
  {
  }

  /** A joined text starts with the first character of its first part. */
  lemma JoinFirst(parts: seq<string>, sep: string)
    requires parts != [] && parts[0] != []
    ensures Join(parts, sep) != [] && Join(parts, sep)[0] == parts[0][0]
  {
    if |parts| > 1 {
      assert Join(parts, sep) == parts[0] + (sep + Join(parts[1..], sep));
    }
  }

  /** A joined text ends with the last character of its last part. */
  lemma {:induction false} JoinLast(parts: seq<string>, sep: string)
    requires parts != [] && parts[|parts| - 1] != []
    ensures var j := Join(parts, sep); j != [] && j[|j| - 1] == parts[|parts| - 1][|parts[|parts| - 1]| - 1]
  {
    if |parts| > 1 {
      JoinLast(parts[1..], sep);
      assert Join(parts, sep) == (parts[0] + sep) + Join(parts[1..], sep);
    }
  }

  /** A character in no part and not in the separator is not in the joined text. */
  lemma {:induction false} JoinLacks(parts: seq<string>, sep: string, c: char)
    requires c !in sep
    requires forall i :: 0 <= i < |parts| ==> c !in parts[i]
    ensures c !in Join(parts, sep)
  {
    if |parts| > 1 {
      JoinLacks(parts[1..], sep, c);
      assert Join(parts, sep) == parts[0] + sep + Join(parts[1..], sep);
    }
  }

  /** Splitting at newlines a text, a blank line, a line `h`, and a text `j`
      ended by a newline. */
  lemma SplitFramed(r: string, h: string, j: string)
    requires '\n' !in h
    ensures Split(r + "\n\n" + h + "\n" + (j + "\n"), '\n')
            == Split(r, '\n') + [[]] + [h] + Split(j, '\n') + [[]]
  {
    var sep := '\n';
    var t3 := j + [sep] + [];
    var t2 := h + [sep] + t3;
    var t1 := [] + [sep] + t2;
    FramedText(r, h, j);
    assert Split([], sep) == [[]];
    SplitConcat(j, [], sep);
    SplitConcat(h, t3, sep);
    SplitNoSep(h, sep);
    SplitConcat([], t2, sep);
    SplitConcat(r, t1, sep);
    var a, b := Split(r, sep), Split(j, sep);
    assert Split(r + [sep] + t1, sep) == a + ([[]] + ([h] + (b + [[]])));
    RightNested(a, [[]], [h], b, [[]]);
  }

  lemma RightNested<T>(a: seq<T>, b: seq<T>, c: seq<T>, d: seq<T>, e: seq<T>)
    ensures a + (b + (c + (d + e))) == a + b + c + d + e
  {
  }

  lemma AppendFramed(r: string, h: string, t: string)
    ensures r + ("\n\n" + h + "\n" + t) == r + "\n\n" + h + "\n" + t
  {
  }

  lemma FramedText(r: string, h: string, j: string)
    ensures r + "\n\n" + h + "\n" + (j + "\n") == r + ['\n'] + ([] + ['\n'] + (h + ['\n'] + (j + ['\n'] + [])))
  {
    assert "\n\n" == ['\n'] + ['\n'];
  }

  /** Joining lines and an empty last piece, then stripping, gives the lines
      joined when their text has no surrounding whitespace. */
  lemma StripJoinedWithEmpty(lines: seq<string>)
    requires lines != []
    requires var j := Join(lines, "\n"); j != [] && !IsSpace(j[0]) && !IsSpace(j[|j| - 1])
    ensures Strip(Join(lines + [[]], "\n")) == Join(lines, "\n")
  {
    var j := Join(lines, "\n");
    JoinAppend(lines, [[]], "\n");
    assert Join([[]], "\n") == [];
    assert Join(lines + [[]], "\n") == j + ['\n'];
    StripTrailingSpace(j, '\n');
    StripUnchanged(j);
  }

  /** Splitting and joining again gives back the text. */
  lemma {:induction false} JoinSplit(s: string, sep: char)
    ensures Join(Split(s, sep), [sep]) == s
  {
    if s != [] {
      var rest := Split(s[1..], sep);
      JoinSplit(s[1..], sep);
      if s[0] == sep {
        assert Split(s, sep) == [[]] + rest;
      } else {
        var r := [[s[0]] + rest[0]] + rest[1..];
        assert Split(s, sep) == r;
        if |rest| > 1 {
          assert Join(rest, [sep]) == rest[0] + [sep] + Join(rest[1..], [sep]);
          assert r[1..] == rest[1..];
        }
      }
    }
  }

  /** The lines, each followed by a newline (how a file of lines is written). */
  function Terminated(lines: seq<string>): string {
    if lines == [] then [] else lines[0] + "\n" + Terminated(lines[1..])
  }

  /** Newline-terminating each line is joining them with newlines and adding one more. */
  lemma {:induction false} TerminatedIsJoin(lines: seq<string>)
    requires lines != []
    ensures Terminated(lines) == Join(lines, "\n") + "\n"
  {
    if |lines| > 1 {
      TerminatedIsJoin(lines[1..]);
    } else {
      assert lines[1..] == [];
    }
  }

  lemma TerminatedTwo(a: string, b: string)
    ensures Terminated([a, b]) == (a + "\n") + (b + "\n")
  {
    assert [a, b][1..] == [b];
    assert [b][1..] == [];
    assert Terminated([b]) == b + "\n" + [];
    assert b + "\n" + [] == b + "\n";
  }

  lemma TerminatedThree(a: string, b: string, c: string)
    ensures Terminated([a, b, c]) == (a + "\n") + ((b + "\n") + (c + "\n"))
  {
    assert [a, b, c][1..] == [b, c];
    TerminatedTwo(b, c);
  }

  lemma AppendAssoc3(r: string, a: string, b: string, c: string)
    ensures r + a + b + c == r + (a + (b + c))
  {
  }

  lemma AppendAssoc4(r: string, a: string, b: string, c: string, d: string)
    ensures r + a + b + c + d == r + (a + (b + (c + d)))
  {
  }

  lemma ConcatAssoc<T>(x: seq<T>, y: seq<T>, z: seq<T>)
    ensures x + (y + z) == (x + y) + z
  {
  }

  /** Cutting a concatenation inside its first part. */
  lemma CutAppend<T>(a: seq<T>, t: seq<T>, k: nat)
    requires k <= |a|
    ensures (a + t)[..k] == a[..k] && (a + t)[k..] == a[k..] + t
  {
  }

  /** Joining pieces free of the separator and splitting again gives back the pieces. */
  lemma {:induction false} SplitJoin(parts: seq<string>, sep: char)
    requires |parts| >= 1
    requires forall i :: 0 <= i < |parts| ==> sep !in parts[i]
    ensures Split(Join(parts, [sep]), sep) == parts
  {
    if |parts| == 1 {
      SplitNoSep(parts[0], sep);
    } else {
      SplitNoSep(parts[0], sep);
      SplitJoin(parts[1..], sep);
      SplitConcat(parts[0], Join(parts[1..], [sep]), sep);
      assert Split(parts[0], sep) == [parts[0]];
      assert Join(parts, [sep]) == parts[0] + [sep] + Join(parts[1..], [sep]);
      assert [parts[0]] + parts[1..] == parts;
    }
  }

  lemma {:induction false} SplitNoSep(s: string, sep: char)
    requires sep !in s
    ensures Split(s, sep) == [s]
  {
    if s != [] {
      SplitNoSep(s[1..], sep);
      assert [s[0]] + s[1..] == s;
    }
  }

  /** Splitting text that starts with `c`. */
  lemma SplitCons(c: char, s: string, sep: char)
    ensures Split([c] + s, sep) ==
      if c == sep then [[]] + Split(s, sep) else [[c] + Split(s, sep)[0]] + Split(s, sep)[1..]
  {
    assert ([c] + s)[1..] == s;
  }

  /** Prefixing the first piece commutes with appending further pieces. */
  lemma PrefixFirstPiece(c: char, ra: seq<string>, rb: seq<string>)
    requires |ra| >= 1
    ensures [[c] + (ra + rb)[0]] + (ra + rb)[1..] == ([[c] + ra[0]] + ra[1..]) + rb
  {
    assert (ra + rb)[0] == ra[0];
    assert (ra + rb)[1..] == ra[1..] + rb;
  }

  /** A separator splits the text into the pieces of each side. */
  lemma {:induction false} SplitConcat(a: string, b: string, sep: char)
    ensures Split(a + [sep] + b, sep) == Split(a, sep) + Split(b, sep)
  {
    if a == [] {
      assert a + [sep] + b == [sep] + b;
      SplitCons(sep, b, sep);
    } else {
      var t := a[1..] + [sep] + b;
      assert a + [sep] + b == [a[0]] + t;
      assert a == [a[0]] + a[1..];
      var ra, rb := Split(a[1..], sep), Split(b, sep);
      SplitConcat(a[1..], b, sep);
      assert Split(t, sep) == ra + rb;
      SplitCons(a[0], t, sep);
      SplitCons(a[0], a[1..], sep);
      if a[0] == sep {
        ConcatAssoc([[]], ra, rb);
      } else {
        PrefixFirstPiece(a[0], ra, rb);
      }
    }
  }

  // ---------------------------------------------------------------------------
  // `s.split()` with no argument: the whitespace-separated words

  /** Length of the leading run of non-whitespace characters. */
  function WordLength(s: string): (n: nat)
    ensures n <= |s|
    ensures forall k :: 0 <= k < n ==> !IsSpace(s[k])
    ensures n < |s| ==> IsSpace(s[n])
  {
    if s == [] || IsSpace(s[0]) then 0 else 1 + WordLength(s[1..])
  }

  /** `s.split()`: maximal runs of non-whitespace, in order. */
  function Words(s: string): (ws: seq<string>)
    ensures forall i :: 0 <= i < |ws| ==> ws[i] != [] && forall k :: 0 <= k < |ws[i]| ==> !IsSpace(ws[i][k])
    decreases |s|
  {
    if s == [] then []
    else if IsSpace(s[0]) then Words(s[1..])
    else
      var n := WordLength(s);
      [s[..n]] + Words(s[n..])
  }

  /** `s` with every whitespace character removed. */
  function NonSpace(s: string): (r: string)
    ensures |r| <= |s|
    ensures forall k :: 0 <= k < |r| ==> !IsSpace(r[k])
  {
    if s == [] then []
    else if IsSpace(s[0]) then NonSpace(s[1..])
    else [s[0]] + NonSpace(s[1..])
  }

  /** The words laid end to end. */
  function Concat(ws: seq<string>): string {
    if ws == [] then [] else ws[0] + Concat(ws[1..])
  }

  lemma {:induction false} NonSpaceAppend(a: string, b: string)
    ensures NonSpace(a + b) == NonSpace(a) + NonSpace(b)
  {
    if a == [] {
      assert a + b == b;
    } else {
      assert (a + b)[0] == a[0];
      assert (a + b)[1..] == a[1..] + b;
      NonSpaceAppend(a[1..], b);
    }
  }

  lemma {:induction false} NonSpaceOfWord(w: string)
    requires forall k :: 0 <= k < |w| ==> !IsSpace(w[k])
    ensures NonSpace(w) == w
  {
    if w != [] {
      NonSpaceOfWord(w[1..]);
    }
  }

  /** The words hold every non-whitespace character of `s`, in order, and
      nothing else. */
  lemma {:induction false} WordsCoverText(s: string)
    ensures Concat(Words(s)) == NonSpace(s)
    decreases |s|
  {
    if s == [] {
    } else if IsSpace(s[0]) {
      WordsCoverText(s[1..]);
    } else {
      var n := WordLength(s);
      WordsCoverText(s[n..]);
      assert s == s[..n] + s[n..];
      NonSpaceAppend(s[..n], s[n..]);
      NonSpaceOfWord(s[..n]);
      assert ([s[..n]] + Words(s[n..]))[1..] == Words(s[n..]);
    }
  }

  /** A non-empty run without whitespace is one word. */
  lemma WordsOfWord(w: string)
    requires w != [] && forall k :: 0 <= k < |w| ==> !IsSpace(w[k])
    ensures Words(w) == [w]
  {
    WordLengthOfWord(w, []);
    assert w + [] == w;
    assert w[|w|..] == [];
  }

  /** Words never cross whitespace: the text splits at any whitespace
      character into the words before it and the words after it. */
  lemma {:induction false} WordsSplitAtSpace(a: string, c: char, b: string)
    requires IsSpace(c)
    ensures Words(a + [c] + b) == Words(a) + Words(b)
    decreases |a|
  {
    var s := a + [c] + b;
    if a == [] {
      assert s == [c] + b;
      assert s[1..] == b;
    } else if IsSpace(a[0]) {
      WordsSplitAtSpace(a[1..], c, b);
      assert s[0] == a[0];
      assert s[1..] == a[1..] + [c] + b;
    } else {
      var n := WordLength(a);
      var t := a[n..] + [c] + b;
      assert s == a[..n] + t;
      WordLengthOfWord(a[..n], t);
      assert s[..n] == a[..n];
      assert s[n..] == t;
      WordsSplitAtSpace(a[n..], c, b);
    }
  }

  /** Joining words with single spaces and splitting on whitespace gives back the words. */
  lemma {:induction false} WordsJoin(ws: seq<string>)
    requires forall i :: 0 <= i < |ws| ==> ws[i] != [] && forall k :: 0 <= k < |ws[i]| ==> !IsSpace(ws[i][k])
    ensures Words(Join(ws, " ")) == ws
  {
    if |ws| == 1 {
      WordLengthOfWord(ws[0], []);
      assert ws[0] + [] == ws[0];
      assert ws[0][|ws[0]|..] == [];
    } else if |ws| > 1 {
      var rest := Join(ws[1..], " ");
      assert Join(ws, " ") == ws[0] + " " + rest;
      WordsJoin(ws[1..]);
      WordsCons(ws[0], rest);
      assert [ws[0]] + ws[1..] == ws;
    }
  }

  /** A word, a space and more text split into the word and the words of the rest. */
  lemma WordsCons(w: string, rest: string)
    requires w != [] && forall k :: 0 <= k < |w| ==> !IsSpace(w[k])
    ensures Words(w + " " + rest) == [w] + Words(rest)
  {
    var s := w + " " + rest;
    WordLengthOfWord(w, " " + rest);
    assert s == w + (" " + rest);
    assert s[..|w|] == w;
    assert s[|w|..] == " " + rest;
    assert (" " + rest)[1..] == rest;
  }

  lemma {:induction false} WordLengthOfWord(w: string, t: string)
    requires forall k :: 0 <= k < |w| ==> !IsSpace(w[k])
    requires t == [] || IsSpace(t[0])
    ensures WordLength(w + t) == |w|
  {
    if w != [] {
      assert (w + t)[1..] == w[1..] + t;
      WordLengthOfWord(w[1..], t);
    }
  }

  // ---------------------------------------------------------------------------
  // Decimal rendering of a non-negative integer, as in an f-string

  function DigitChar(d: nat): char
    requires d < 10
  {
    ['0', '1', '2', '3', '4', '5', '6', '7', '8', '9'][d]
  }

  /** `str(n)` for `n >= 0`: decimal digits, without leading zeros. */
  function NatToString(n: nat): (s: string)
    ensures s != [] && forall k :: 0 <= k < |s| ==> IsDigit(s[k])
    ensures |s| > 1 ==> s[0] != '0'
  {
    if n < 10 then [DigitChar(n)] else NatToString(n / 10) + [DigitChar(n % 10)]
  }

  /** `int(s)` for a string of decimal digits. */
  function DigitsToNat(s: string): nat
    requires forall k :: 0 <= k < |s| ==> IsDigit(s[k])
  {
    if s == [] then 0
    else
      assert IsDigit(s[|s| - 1]);
      DigitsToNat(s[..|s| - 1]) * 10 + ((s[|s| - 1] as int) - ('0' as int))
  }

  /** The rendered number reads back as the same number. */
  lemma {:induction false} NatToStringRoundTrip(n: nat)
    ensures DigitsToNat(NatToString(n)) == n
  {
    if n >= 10 {
      NatToStringRoundTrip(n / 10);
      var s := NatToString(n);
      assert s[..|s| - 1] == NatToString(n / 10);
    }
  }
}
