/** What the character and line counts of a text are, stated without the
    scanning loop: counts of terminators over the code units, the length of
    the unterminated tail, and, as an independent reference, the text split
    into lines the way a line reader splits it. A line ends with CR, with LF,
    or with CR followed by LF, and that pair ends one line, not two. */
module LineSpec {
  import opened CodeUnits

  predicate IsTerminator(c: CodeUnit) {
    c == CR || c == LF
  }

  /** The text is non-empty and its last code unit is CR. */
  predicate EndsWithCr(s: seq<CodeUnit>) {
    |s| > 0 && s[|s| - 1] == CR
  }

  /** The text is non-empty and its last code unit is neither CR nor LF. */
  predicate EndsInsideLine(s: seq<CodeUnit>) {
    |s| > 0 && !IsTerminator(s[|s| - 1])
  }

  /** Number of CR code units. */
  function CountCr(s: seq<CodeUnit>): nat {
    if s == [] then 0
    else CountCr(s[..|s| - 1]) + (if s[|s| - 1] == CR then 1 else 0)
  }

  /** Number of LF code units not immediately preceded by CR. */
  function CountBareLf(s: seq<CodeUnit>): nat {
    if s == [] then 0
    else
      var p := s[..|s| - 1];
      CountBareLf(p) + (if s[|s| - 1] == LF && !EndsWithCr(p) then 1 else 0)
  }

  /** Code unit `c`, read after the text `p`, ends a line: a CR always does,
      an LF does unless it completes a CR+LF pair. */
  predicate EndsLineAfter(p: seq<CodeUnit>, c: CodeUnit) {
    c == CR || (c == LF && !EndsWithCr(p))
  }

  /** Number of line terminators, counted as the text is read. */
  function Terminators(s: seq<CodeUnit>): nat {
    if s == [] then 0
    else
      var p := s[..|s| - 1];
      Terminators(p) + (if EndsLineAfter(p, s[|s| - 1]) then 1 else 0)
  }

  /** Length of the current, not yet terminated, line: the code units after
      the last CR or LF, or the whole text when it has neither. */
  function TailLength(s: seq<CodeUnit>): (n: nat)
    ensures n <= |s|
    ensures forall j :: |s| - n <= j < |s| ==> !IsTerminator(s[j])
    ensures n < |s| ==> IsTerminator(s[|s| - 1 - n])
  {
    if s == [] || IsTerminator(s[|s| - 1]) then 0
    else TailLength(s[..|s| - 1]) + 1
  }

  /** The number of lines of a text: its terminators, plus one for a
      non-empty last line that has no terminator. */
  function LineTotal(s: seq<CodeUnit>): nat {
    Terminators(s) + (if EndsInsideLine(s) then 1 else 0)
  }

  // ---- How one more code unit changes the counts ----

  /** Appending one code unit: CR always ends a line at once, LF ends one
      unless it follows CR, anything else ends none. */
  lemma TerminatorsSnoc(p: seq<CodeUnit>, c: CodeUnit)
    ensures Terminators(p + [c]) == Terminators(p)
      + (if EndsLineAfter(p, c) then 1 else 0)
  {
    assert (p + [c])[..|p|] == p;
  }

  /** The unterminated tail grows by one code unit, or is emptied by CR or LF. */
  lemma TailLengthSnoc(p: seq<CodeUnit>, c: CodeUnit)
    ensures TailLength(p + [c]) == if IsTerminator(c) then 0 else TailLength(p) + 1
  {
    assert (p + [c])[..|p|] == p;
  }

  /** A lone CR is counted as a terminator immediately, whatever follows. */
  lemma LoneCrEndsLine(p: seq<CodeUnit>, c: CodeUnit)
    requires c != LF
    ensures Terminators(p + [CR]) == Terminators(p) + 1
    ensures Terminators(p + [CR, c]) == Terminators(p) + 1 + (if c == CR then 1 else 0)
  {
    TerminatorsSnoc(p, CR);
    TerminatorsSnoc(p + [CR], c);
    assert p + [CR] + [c] == p + [CR, c];
  }

  /** CR followed by LF ends exactly one line. */
  lemma CrLfEndsOneLine(p: seq<CodeUnit>)
    ensures Terminators(p + [CR, LF]) == Terminators(p) + 1
    ensures LineTotal(p + [CR, LF]) == Terminators(p) + 1
  {
    TerminatorsSnoc(p, CR);
    TerminatorsSnoc(p + [CR], LF);
    assert p + [CR] + [LF] == p + [CR, LF];
  }

  /** An LF that does not follow CR ends a line of its own. */
  lemma BareLfEndsLine(p: seq<CodeUnit>)
    requires !EndsWithCr(p)
    ensures Terminators(p + [LF]) == Terminators(p) + 1
  {
    TerminatorsSnoc(p, LF);
  }

  // ---- Whole-text properties ----

  /** The terminators are the CRs and the LFs not preceded by CR. */
  lemma {:induction false} TerminatorsByKind(s: seq<CodeUnit>)
    ensures Terminators(s) == CountCr(s) + CountBareLf(s)
  {
    if s != [] {
      TerminatorsByKind(s[..|s| - 1]);
    }
  }

  /** The closed form of the line count: the CRs, the LFs not preceded by CR,
      and one more when the text is non-empty and its last code unit is
      neither CR nor LF; that last line is exactly a non-empty tail. */
  lemma LineTotalClosedForm(s: seq<CodeUnit>)
    ensures LineTotal(s) == CountCr(s) + CountBareLf(s)
      + (if |s| > 0 && s[|s| - 1] != CR && s[|s| - 1] != LF then 1 else 0)
    ensures EndsInsideLine(s) <==> TailLength(s) > 0
  {
    TerminatorsByKind(s);
  }

  /** There are never more terminators than code units, and a text that
      ends inside a line has at most one fewer. */
  lemma {:induction false} TerminatorsBound(s: seq<CodeUnit>)
    ensures Terminators(s) <= |s|
    ensures EndsInsideLine(s) ==> Terminators(s) < |s|
  {
    if s != [] {
      var p := s[..|s| - 1];
      assert s == p + [s[|s| - 1]];
      TerminatorsBound(p);
      TerminatorsSnoc(p, s[|s| - 1]);
    }
  }

  /** The empty text has no lines; any other text has at least one, and
      never more lines than code units. */
  lemma LineTotalBounds(s: seq<CodeUnit>)
    ensures s == [] ==> LineTotal(s) == 0
    ensures s != [] ==> 1 <= LineTotal(s) <= |s|
  {
    TerminatorsBound(s);
    if s != [] && !EndsInsideLine(s) {
      var p := s[..|s| - 1];
      assert s == p + [s[|s| - 1]];
      TerminatorsSnoc(p, s[|s| - 1]);
    }
  }

  /** A text with no CR and no LF has no terminators. */
  lemma {:induction false} NoTerminators(s: seq<CodeUnit>)
    requires forall j :: 0 <= j < |s| ==> !IsTerminator(s[j])
    ensures Terminators(s) == 0
  {
    if s != [] {
      NoTerminators(s[..|s| - 1]);
    }
  }

  /** Counting the terminators of two texts joined together: the two counts
      add up, except that an LF at the start of the second text completes a
      CR at the end of the first. */
  lemma {:induction false} TerminatorsAppend(a: seq<CodeUnit>, b: seq<CodeUnit>)
    ensures Terminators(a + b) == Terminators(a) + Terminators(b)
      - (if EndsWithCr(a) && |b| > 0 && b[0] == LF then 1 else 0)
  {
    if b == [] {
      assert a + b == a;
    } else {
      var b', c := b[..|b| - 1], b[|b| - 1];
      var ab' := a + b';
      assert a + b == ab' + [c] by { assert b == b' + [c]; }
      TerminatorsAppend(a, b');
      TerminatorsSnoc(ab', c);
      TerminatorsSnoc(b', c);
      assert b == b' + [c];
      if b' == [] {
        assert ab' == a;
      } else {
        assert EndsWithCr(ab') == EndsWithCr(b') by { assert ab'[|ab'| - 1] == b'[|b'| - 1]; }
        assert b[0] == b'[0];
      }
    }
  }

  /** `n` CR+LF pairs in a row are `n` lines, never `2 * n`. */
  function CrLfPairs(n: nat): seq<CodeUnit> {
    if n == 0 then [] else CrLfPairs(n - 1) + [CR, LF]
  }

  lemma {:induction false} CrLfPairsLines(n: nat)
    ensures LineTotal(CrLfPairs(n)) == n
  {
    if n > 0 {
      CrLfPairsLines(n - 1);
      CrLfEndsOneLine(CrLfPairs(n - 1));
      assert !EndsInsideLine(CrLfPairs(n - 1));
    }
  }

  // ---- Reference definition: the lines a line reader delivers ----

  /** Index of the first CR or LF, or the length of the text if there is none. */
  function FirstTerminator(s: seq<CodeUnit>): (k: nat)
    ensures k <= |s|
    ensures forall j :: 0 <= j < k ==> !IsTerminator(s[j])
    ensures k < |s| ==> IsTerminator(s[k])
  {
    if s == [] || IsTerminator(s[0]) then 0 else FirstTerminator(s[1..]) + 1
  }

  /** One terminator written out: CR, LF, or CR followed by LF. */
  predicate IsLineBreak(t: seq<CodeUnit>) {
    (|t| == 1 && IsTerminator(t[0])) || (|t| == 2 && t[0] == CR && t[1] == LF)
  }

  /** Where the line after the first one starts: after the first terminator,
      taking CR+LF as one terminator. */
  function NextLineStart(s: seq<CodeUnit>): (next: nat)
    requires FirstTerminator(s) < |s|
    ensures FirstTerminator(s) < next <= |s|
    ensures IsLineBreak(s[FirstTerminator(s)..next])
    ensures next < |s| && s[next - 1] == CR ==> s[next] != LF
  {
    var k := FirstTerminator(s);
    if s[k] == CR && k + 1 < |s| && s[k + 1] == LF then
      assert s[k..k + 2] == [CR, LF];
      k + 2
    else
      assert s[k..k + 1] == [s[k]];
      k + 1
  }

  /** The text cut into lines, terminators removed; an unterminated last
      line is a line if it is not empty, and the empty text has no lines. */
  function ReadLines(s: seq<CodeUnit>): (lines: seq<seq<CodeUnit>>)
    ensures forall i, j :: 0 <= i < |lines| && 0 <= j < |lines[i]| ==> !IsTerminator(lines[i][j])
    decreases |s|
  {
    if s == [] then []
    else
      var k := FirstTerminator(s);
      if k == |s| then [s]
      else [s[..k]] + ReadLines(s[NextLineStart(s)..])
  }

  /** Each of the three terminators, on its own, is one terminator. */
  lemma OneTerminator(t: seq<CodeUnit>)
    requires IsLineBreak(t)
    ensures Terminators(t) == 1
  {
    if |t| == 2 {
      assert t[..1] == [CR] && t[..1][..0] == [];
    } else {
      assert t[..0] == [];
    }
  }

  /** A line without CR or LF, then one terminator: one terminator in all. */
  lemma LineThenTerminator(line: seq<CodeUnit>, term: seq<CodeUnit>)
    requires forall j :: 0 <= j < |line| ==> !IsTerminator(line[j])
    requires IsLineBreak(term)
    ensures Terminators(line + term) == 1
  {
    NoTerminators(line);
    OneTerminator(term);
    TerminatorsAppend(line, term);
  }

  /** A text that starts with one whole terminated line has one line more
      than the rest of it. */
  lemma DropTerminatedLine(head: seq<CodeUnit>, rest: seq<CodeUnit>)
    requires Terminators(head) == 1
    requires |head| > 0 && IsTerminator(head[|head| - 1])
    requires EndsWithCr(head) ==> rest == [] || rest[0] != LF
    ensures LineTotal(head + rest) == 1 + LineTotal(rest)
  {
    TerminatorsAppend(head, rest);
    var s := head + rest;
    assert EndsInsideLine(s) == EndsInsideLine(rest) by {
      if rest == [] {
        assert s == head;
      } else {
        assert s[|s| - 1] == rest[|rest| - 1];
      }
    }
  }

  /** A line without CR or LF and its terminator, then the rest of the text:
      one line more than the rest. */
  lemma LinesOfTerminatedLine(line: seq<CodeUnit>, term: seq<CodeUnit>, rest: seq<CodeUnit>)
    requires forall j :: 0 <= j < |line| ==> !IsTerminator(line[j])
    requires IsLineBreak(term)
    requires term == [CR] ==> rest == [] || rest[0] != LF
    ensures LineTotal(line + term + rest) == 1 + LineTotal(rest)
  {
    LineThenTerminator(line, term);
    var head := line + term;
    assert head[|head| - 1] == term[|term| - 1];
    DropTerminatedLine(head, rest);
  }

  /** A non-empty text without CR or LF is one line. */
  lemma LastLineCounts(line: seq<CodeUnit>)
    requires |line| > 0 && forall j :: 0 <= j < |line| ==> !IsTerminator(line[j])
    ensures LineTotal(line) == 1
  {
    NoTerminators(line);
  }

  /** Splitting a text after its first terminator, CR+LF taken whole. */
  lemma SplitAtLineBreak(s: seq<CodeUnit>, k: nat, next: nat)
    requires k < |s| && IsTerminator(s[k])
    requires forall j :: 0 <= j < k ==> !IsTerminator(s[j])
    requires next == if s[k] == CR && k + 1 < |s| && s[k + 1] == LF then k + 2 else k + 1
    ensures LineTotal(s) == 1 + LineTotal(s[next..])
  {
    var line, term, rest := s[..k], s[k..next], s[next..];
    assert IsLineBreak(term);
    assert s == line + term + rest;
    LinesOfTerminatedLine(line, term, rest);
  }

  /** The line count is the number of lines the text is made of. */
  lemma {:induction false} LineTotalIsLinesRead(s: seq<CodeUnit>)
    ensures LineTotal(s) == |ReadLines(s)|
    decreases |s|
  {
    if s != [] {
      if FirstTerminator(s) == |s| {
        NoTerminators(s);
      } else {
        SplitAtLineBreak(s, FirstTerminator(s), NextLineStart(s));
        LineTotalIsLinesRead(s[NextLineStart(s)..]);
      }
    }
  }

  /** The text with every CR and LF removed. */
  function Strip(s: seq<CodeUnit>): seq<CodeUnit> {
    if s == [] then []
    else (if IsTerminator(s[0]) then [] else [s[0]]) + Strip(s[1..])
  }

  /** The lines joined end to end, with nothing between them. */
  function Flatten(lines: seq<seq<CodeUnit>>): seq<CodeUnit> {
    if lines == [] then [] else lines[0] + Flatten(lines[1..])
  }

  lemma {:induction false} StripAppend(a: seq<CodeUnit>, b: seq<CodeUnit>)
    ensures Strip(a + b) == Strip(a) + Strip(b)
  {
    if a != [] {
      assert (a + b)[1..] == a[1..] + b;
      StripAppend(a[1..], b);
    } else {
      assert a + b == b;
    }
  }

  lemma {:induction false} StripNone(line: seq<CodeUnit>)
    requires forall j :: 0 <= j < |line| ==> !IsTerminator(line[j])
    ensures Strip(line) == line
  {
    if line != [] {
      StripNone(line[1..]);
    }
  }

  lemma StripLineBreak(t: seq<CodeUnit>)
    requires IsLineBreak(t)
    ensures Strip(t) == []
  {
    if |t| == 1 {
      assert t[1..] == [];
    } else {
      assert t[1..][1..] == [];
    }
  }

  /** A line without CR or LF and its terminator, stripped, leave the line. */
  lemma StripTerminatedLine(line: seq<CodeUnit>, term: seq<CodeUnit>, rest: seq<CodeUnit>)
    requires forall j :: 0 <= j < |line| ==> !IsTerminator(line[j])
    requires IsLineBreak(term)
    ensures Strip(line + term + rest) == line + Strip(rest)
  {
    var tail := term + rest;
    assert Strip(tail) == Strip(rest) by {
      StripAppend(term, rest);
      StripLineBreak(term);
    }
    assert Strip(line + tail) == line + Strip(rest) by {
      StripAppend(line, tail);
      StripNone(line);
    }
    assert line + term + rest == line + tail;
  }

  lemma FlattenCons(line: seq<CodeUnit>, lines: seq<seq<CodeUnit>>)
    ensures Flatten([line] + lines) == line + Flatten(lines)
  {
    assert ([line] + lines)[1..] == lines;
  }

  /** The lines hold exactly the text's code units other than CR and LF, in
      order: nothing is lost, duplicated or moved. */
  lemma {:induction false} LinesReadKeepText(s: seq<CodeUnit>)
    ensures Flatten(ReadLines(s)) == Strip(s)
    decreases |s|
  {
    if s != [] {
      var k := FirstTerminator(s);
      if k == |s| {
        StripNone(s);
        FlattenCons(s, []);
      } else {
        var next := NextLineStart(s);
        assert s == s[..k] + s[k..next] + s[next..];
        StripTerminatedLine(s[..k], s[k..next], s[next..]);
        LinesReadKeepText(s[next..]);
        FlattenCons(s[..k], ReadLines(s[next..]));
      }
    }
  }

  // ---- Worked cases (code units written out: 0x41 is 'A', and so on) ----

  /** "A": 1 code unit, 1 line. */
  lemma ScenarioNoTerminator()
    ensures LineTotal([0x41]) == 1
  {
    LastLineCounts([0x41]);
  }

  /** "A\r\n": 3 code units, 1 line. */
  lemma ScenarioEndsWithCrLf()
    ensures LineTotal([0x41, CR, LF]) == 1
  {
    assert [0x41, CR, LF] == [0x41] + [CR, LF] + [];
    LinesOfTerminatedLine([0x41], [CR, LF], []);
  }

  /** "A\r\nB": 4 code units, 2 lines. */
  lemma ScenarioCrLfThenLine()
    ensures LineTotal([0x41, CR, LF, 0x42]) == 2
  {
    assert [0x41, CR, LF, 0x42] == [0x41] + [CR, LF] + [0x42];
    LinesOfTerminatedLine([0x41], [CR, LF], [0x42]);
    LastLineCounts([0x42]);
  }

  /** "\n\n": 2 code units, 2 lines. */
  lemma ScenarioTwoNewlines()
    ensures LineTotal([LF, LF]) == 2
  {
    assert [LF, LF] == [] + [LF] + [LF];
    LinesOfTerminatedLine([], [LF], [LF]);
    assert [LF] == [] + [LF] + [];
    LinesOfTerminatedLine([], [LF], []);
  }

  /** "A\rB": 3 code units, 2 lines. */
  lemma ScenarioLoneCr()
    ensures LineTotal([0x41, CR, 0x42]) == 2
  {
    assert [0x41, CR, 0x42] == [0x41] + [CR] + [0x42];
    LinesOfTerminatedLine([0x41], [CR], [0x42]);
    LastLineCounts([0x42]);
  }

  /** "one\ntwo\nthree": 13 code units, 3 lines. */
  lemma ScenarioThreeLfLines()
    ensures LineTotal([0x6F, 0x6E, 0x65, LF, 0x74, 0x77, 0x6F, LF, 0x74, 0x68, 0x72, 0x65, 0x65]) == 3
  {
    var one: seq<CodeUnit>, two: seq<CodeUnit> := [0x6F, 0x6E, 0x65], [0x74, 0x77, 0x6F];
    var three: seq<CodeUnit> := [0x74, 0x68, 0x72, 0x65, 0x65];
    assert [0x6F, 0x6E, 0x65, LF, 0x74, 0x77, 0x6F, LF, 0x74, 0x68, 0x72, 0x65, 0x65]
      == one + [LF] + (two + [LF] + three);
    LinesOfTerminatedLine(one, [LF], two + [LF] + three);
    LinesOfTerminatedLine(two, [LF], three);
    LastLineCounts(three);
  }

  /** "one\r\ntwo\r\n": 10 code units, 2 lines. */
  lemma ScenarioTwoCrLfLines()
    ensures LineTotal([0x6F, 0x6E, 0x65, CR, LF, 0x74, 0x77, 0x6F, CR, LF]) == 2
  {
    var one: seq<CodeUnit>, two: seq<CodeUnit> := [0x6F, 0x6E, 0x65], [0x74, 0x77, 0x6F];
    assert [0x6F, 0x6E, 0x65, CR, LF, 0x74, 0x77, 0x6F, CR, LF]
      == one + [CR, LF] + (two + [CR, LF] + []);
    LinesOfTerminatedLine(one, [CR, LF], two + [CR, LF] + []);
    LinesOfTerminatedLine(two, [CR, LF], []);
  }
}
