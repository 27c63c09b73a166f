/**
 The audit of the watched and blacklisted number patterns. Every pattern is
 checked against the general number grammar (a failure is an error) and,
 when it passes, against the start- and end-anchored grammars (a failure is a
 warning that the pattern cannot match exactly). Its digit count is compared
 with the configured bounds, but the outcome of that comparison only shapes
 the report, never the verdict. The run fails exactly when there is an error.
 */
module NumberLists {

  /** A compiled regular expression, seen through `regex.search` in ASCII
      mode and in Unicode mode. The regex engine is not part of this model. */
  datatype Regex = Regex(searchAscii: string -> bool, searchUnicode: string -> bool)

  /** The pattern passes `r`: the search finds it in both modes. This is a
      chosen reading of `not_regex_search_ascii_and_unicode(r, s)` as "some
      mode misses it"; the lemmas below hold for any definition. */
  predicate Matches(r: Regex, s: string) {
    r.searchAscii(s) && r.searchUnicode(s)
  }

  /** The number grammar: `NUMBER_REGEX`, its anchored variants, the `\d`
      character class and the inclusive digit-count bounds. */
  datatype Grammar = Grammar(
    general: Regex,
    start: Regex,
    end: Regex,
    isDigit: char -> bool,
    minDigits: int,
    maxDigits: int)

  /** Which number list a pattern comes from. */
  datatype ListType = Watched | Blacklisted

  /** An error: the pattern fails the general grammar. `line` is the
      1-based position of the pattern in its list. */
  datatype Failure = Failure(list: ListType, line: nat, digits: nat, digitsInBounds: bool, pattern: string)

  /** A warning: the pattern passes the general grammar but misses the
      start-anchored grammar, the end-anchored one, or both. */
  datatype NoExact = NoExact(
    list: ListType,
    line: nat,
    missesStart: bool,
    missesEnd: bool,
    digits: nat,
    digitsInBounds: bool,
    pattern: string)

  /** `len(regex.findall(r'\d', s))`: how many characters of `s` are digits. */
  function CountDigits(isDigit: char -> bool, s: string): (n: nat)
    ensures n <= |s|
    ensures n == 0 <==> forall i :: 0 <= i < |s| ==> !isDigit(s[i])
    ensures n == |DigitPositions(isDigit, s)|
  {
    if |s| == 0 then
      assert DigitPositions(isDigit, s) == {};
      0
    else
      var init := s[..|s| - 1];
      var n := CountDigits(isDigit, init) + (if isDigit(s[|s| - 1]) then 1 else 0);
      assert forall i :: 0 <= i < |init| ==> init[i] == s[i];
      var before := DigitPositions(isDigit, init);
      assert DigitPositions(isDigit, s) == before + (if isDigit(s[|s| - 1]) then {|s| - 1} else {});
      assert |s| - 1 !in before;
      n
  }

  /** The positions of `s` that hold a digit. */
  function DigitPositions(isDigit: char -> bool, s: string): set<int> {
    set i | 0 <= i < |s| && isDigit(s[i])
  }

  /** The digit count lies within the configured inclusive bounds. */
  predicate InBounds(g: Grammar, digits: int) {
    g.minDigits <= digits <= g.maxDigits
  }

  /** The error reported for a pattern, if it fails the general grammar. */
  function FailureOf(g: Grammar, list: ListType, line: nat, pattern: string): seq<Failure> {
    if Matches(g.general, pattern) then []
    else
      var digits := CountDigits(g.isDigit, pattern);
      [Failure(list, line, digits, InBounds(g, digits), pattern)]
  }

  /** The warning reported for a pattern, if it passes the general grammar
      but misses an anchored one. */
  function NoExactOf(g: Grammar, list: ListType, line: nat, pattern: string): seq<NoExact> {
    var missesStart, missesEnd := !Matches(g.start, pattern), !Matches(g.end, pattern);
    if !Matches(g.general, pattern) || !(missesStart || missesEnd) then []
    else
      var digits := CountDigits(g.isDigit, pattern);
      [NoExact(list, line, missesStart, missesEnd, digits, InBounds(g, digits), pattern)]
  }

  /** The errors of a whole list, in list order. */
  function Failures(g: Grammar, list: ListType, patterns: seq<string>): seq<Failure> {
    if |patterns| == 0 then []
    else
      var n := |patterns|;
      Failures(g, list, patterns[..n - 1]) + FailureOf(g, list, n, patterns[n - 1])
  }

  /** The warnings of a whole list, in list order. */
  function NoExacts(g: Grammar, list: ListType, patterns: seq<string>): seq<NoExact> {
    if |patterns| == 0 then []
    else
      var n := |patterns|;
      NoExacts(g, list, patterns[..n - 1]) + NoExactOf(g, list, n, patterns[n - 1])
  }

  /** `test_a_number_list`: walks one list, appending its errors and warnings
      to the ones collected so far. */
  method CheckList(g: Grammar, list: ListType, patterns: seq<string>, errors0: seq<Failure>, noExacts0: seq<NoExact>)
    returns (errors: seq<Failure>, noExacts: seq<NoExact>)
    ensures errors == errors0 + Failures(g, list, patterns)
    ensures noExacts == noExacts0 + NoExacts(g, list, patterns)
  {
    errors, noExacts := errors0, noExacts0;
    var lineNumber := 0;
    while lineNumber < |patterns|
      invariant lineNumber <= |patterns|
      invariant errors == errors0 + Failures(g, list, patterns[..lineNumber])
      invariant noExacts == noExacts0 + NoExacts(g, list, patterns[..lineNumber])
    {
      var pattern := patterns[lineNumber];
      lineNumber := lineNumber + 1;
      assert patterns[..lineNumber][..lineNumber - 1] == patterns[..lineNumber - 1];
      var digitCount := CountDigits(g.isDigit, pattern);
      var digitsInBounds := !(digitCount < g.minDigits || digitCount > g.maxDigits);
      if !Matches(g.general, pattern) {
        errors := errors + [Failure(list, lineNumber, digitCount, digitsInBounds, pattern)];
      } else {
        var missesStart := !Matches(g.start, pattern);
        var missesEnd := !Matches(g.end, pattern);
        if missesStart || missesEnd {
          noExacts := noExacts + [NoExact(list, lineNumber, missesStart, missesEnd, digitCount, digitsInBounds, pattern)];
        }
      }
    }
    assert patterns[..lineNumber] == patterns;
  }

  /** `test_number_lists`: audits the watched list, then the blacklisted one,
      and fails exactly when an error was collected. */
  method CheckNumberLists(g: Grammar, watched: seq<string>, blacklisted: seq<string>)
    returns (errors: seq<Failure>, noExacts: seq<NoExact>, failed: bool)
    ensures errors == Failures(g, Watched, watched) + Failures(g, Blacklisted, blacklisted)
    ensures noExacts == NoExacts(g, Watched, watched) + NoExacts(g, Blacklisted, blacklisted)
    ensures failed <==> |errors| > 0
    ensures failed <==> Rejects(g, watched) || Rejects(g, blacklisted)
  {
    var watchedErrors, watchedNoExacts := CheckList(g, Watched, watched, [], []);
    assert watchedErrors == Failures(g, Watched, watched);
    assert watchedNoExacts == NoExacts(g, Watched, watched);
    errors, noExacts := CheckList(g, Blacklisted, blacklisted, watchedErrors, watchedNoExacts);
    failed := |errors| > 0;
    FailuresExactly(g, Watched, watched);
    FailuresExactly(g, Blacklisted, blacklisted);
    RejectsIffFailures(g, Watched, watched);
    RejectsIffFailures(g, Blacklisted, blacklisted);
  }

  // The line predicates, the ordering predicates and the append lemmas below
  // come in one copy per report type. The two report datatypes share only
  // their `line` field; a single generic copy would take the line as a
  // function-valued parameter, which the quantifiers of these predicates
  // could then only trigger on through that parameter.

  /** Some error in `fs` is reported at `line`. */
  predicate FailsAt(fs: seq<Failure>, line: int) {
    exists k :: 0 <= k < |fs| && fs[k].line == line
  }

  /** Some warning in `ws` is reported at `line`. */
  predicate WarnsAt(ws: seq<NoExact>, line: int) {
    exists k :: 0 <= k < |ws| && ws[k].line == line
  }

  /** Some pattern of the list fails the general grammar. */
  predicate Rejects(g: Grammar, patterns: seq<string>) {
    exists i :: 0 <= i < |patterns| && !Matches(g.general, patterns[i])
  }

  /** `f` is the error report for line `f.line` of `patterns`. */
  predicate FailureFits(g: Grammar, list: ListType, patterns: seq<string>, f: Failure) {
    && 1 <= f.line <= |patterns|
    && f.list == list
    && f.pattern == patterns[f.line - 1]
    && !Matches(g.general, f.pattern)
    && f.digits == CountDigits(g.isDigit, f.pattern)
    && f.digitsInBounds == InBounds(g, f.digits)
  }

  /** `w` is the warning report for line `w.line` of `patterns`. */
  predicate NoExactFits(g: Grammar, list: ListType, patterns: seq<string>, w: NoExact) {
    && 1 <= w.line <= |patterns|
    && w.list == list
    && w.pattern == patterns[w.line - 1]
    && Matches(g.general, w.pattern)
    && w.missesStart == !Matches(g.start, w.pattern)
    && w.missesEnd == !Matches(g.end, w.pattern)
    && (w.missesStart || w.missesEnd)
    && w.digits == CountDigits(g.isDigit, w.pattern)
    && w.digitsInBounds == InBounds(g, w.digits)
  }

  /** The reports are in strictly increasing line order. */
  predicate FailuresAscend(fs: seq<Failure>) {
    forall k, k' :: 0 <= k < k' < |fs| ==> fs[k].line < fs[k'].line
  }

  /** The reports are in strictly increasing line order. */
  predicate NoExactsAscend(ws: seq<NoExact>) {
    forall k, k' :: 0 <= k < k' < |ws| ==> ws[k].line < ws[k'].line
  }

  /** Every error of a list is the faithful report of the pattern at its
      line, and the reports run in strictly increasing line order. */
  lemma {:induction false} FailuresFit(g: Grammar, list: ListType, patterns: seq<string>)
    ensures forall k :: 0 <= k < |Failures(g, list, patterns)| ==> FailureFits(g, list, patterns, Failures(g, list, patterns)[k])
    ensures FailuresAscend(Failures(g, list, patterns))
  {
    if |patterns| > 0 {
      var n := |patterns|;
      var init := patterns[..n - 1];
      FailuresFit(g, list, init);
      var before := Failures(g, list, init);
      var fs := Failures(g, list, patterns);
      assert fs == before + FailureOf(g, list, n, patterns[n - 1]);
      forall k | 0 <= k < |before|
        ensures FailureFits(g, list, patterns, fs[k]) && fs[k].line < n
      {
        assert fs[k] == before[k];
        assert FailureFits(g, list, init, before[k]);
        assert init[before[k].line - 1] == patterns[before[k].line - 1];
      }
      forall k, k' | 0 <= k < k' < |fs|
        ensures fs[k].line < fs[k'].line
      {
        if k' >= |before| {
          assert fs[k].line < n;
        }
      }
    }
  }

  /** A line is reported in two lists glued together exactly when it is
      reported in one of them. */
  lemma FailsAtAppend(before: seq<Failure>, added: seq<Failure>, line: int)
    ensures FailsAt(before + added, line) <==> FailsAt(before, line) || FailsAt(added, line)
  {
    var fs := before + added;
    if FailsAt(fs, line) {
      var k :| 0 <= k < |fs| && fs[k].line == line;
      if k >= |before| {
        assert added[k - |before|] == fs[k];
      }
    }
    if FailsAt(before, line) {
      var k :| 0 <= k < |before| && before[k].line == line;
      assert fs[k] == before[k];
    }
    if FailsAt(added, line) {
      var k :| 0 <= k < |added| && added[k].line == line;
      assert fs[|before| + k] == added[k];
    }
  }

  /** A line of a list is reported as an error exactly when its pattern
      fails the general grammar. */
  lemma {:induction false} FailuresExactly(g: Grammar, list: ListType, patterns: seq<string>)
    ensures forall i :: 0 <= i < |patterns| ==>
              (FailsAt(Failures(g, list, patterns), i + 1) <==> !Matches(g.general, patterns[i]))
  {
    if |patterns| > 0 {
      var n := |patterns|;
      var init := patterns[..n - 1];
      FailuresExactly(g, list, init);
      FailuresFit(g, list, init);
      var before := Failures(g, list, init);
      var added := FailureOf(g, list, n, patterns[n - 1]);
      assert Failures(g, list, patterns) == before + added;
      forall i | 0 <= i < n
        ensures FailsAt(before + added, i + 1) <==> !Matches(g.general, patterns[i])
      {
        FailsAtAppend(before, added, i + 1);
        if i < n - 1 {
          assert init[i] == patterns[i];
          assert !FailsAt(added, i + 1);
        } else {
          assert forall k :: 0 <= k < |before| ==> before[k].line <= n - 1;
          assert !FailsAt(before, n);
          if |added| > 0 {
            assert added[0].line == n;
          }
        }
      }
    }
  }

  /** Every warning of a list is the faithful report of the pattern at its
      line, and the reports run in strictly increasing line order. */
  lemma {:induction false} NoExactsFit(g: Grammar, list: ListType, patterns: seq<string>)
    ensures forall k :: 0 <= k < |NoExacts(g, list, patterns)| ==> NoExactFits(g, list, patterns, NoExacts(g, list, patterns)[k])
    ensures NoExactsAscend(NoExacts(g, list, patterns))
  {
    if |patterns| > 0 {
      var n := |patterns|;
      var init := patterns[..n - 1];
      NoExactsFit(g, list, init);
      var before := NoExacts(g, list, init);
      var fs := NoExacts(g, list, patterns);
      assert fs == before + NoExactOf(g, list, n, patterns[n - 1]);
      forall k | 0 <= k < |before|
        ensures NoExactFits(g, list, patterns, fs[k]) && fs[k].line < n
      {
        assert fs[k] == before[k];
        assert NoExactFits(g, list, init, before[k]);
        assert init[before[k].line - 1] == patterns[before[k].line - 1];
      }
      forall k, k' | 0 <= k < k' < |fs|
        ensures fs[k].line < fs[k'].line
      {
        if k' >= |before| {
          assert fs[k].line < n;
        }
      }
    }
  }

  /** A line is reported in two lists glued together exactly when it is
      reported in one of them. */
  lemma WarnsAtAppend(before: seq<NoExact>, added: seq<NoExact>, line: int)
    ensures WarnsAt(before + added, line) <==> WarnsAt(before, line) || WarnsAt(added, line)
  {
    var fs := before + added;
    if WarnsAt(fs, line) {
      var k :| 0 <= k < |fs| && fs[k].line == line;
      if k >= |before| {
        assert added[k - |before|] == fs[k];
      }
    }
    if WarnsAt(before, line) {
      var k :| 0 <= k < |before| && before[k].line == line;
      assert fs[k] == before[k];
    }
    if WarnsAt(added, line) {
      var k :| 0 <= k < |added| && added[k].line == line;
      assert fs[|before| + k] == added[k];
    }
  }

  /** A line of a list is reported as a warning exactly when its pattern
      passes the general grammar but misses the start- or end-anchored one. */
  lemma {:induction false} NoExactsExactly(g: Grammar, list: ListType, patterns: seq<string>)
    ensures forall i :: 0 <= i < |patterns| ==>
              (WarnsAt(NoExacts(g, list, patterns), i + 1) <==> Matches(g.general, patterns[i]) && (!Matches(g.start, patterns[i]) || !Matches(g.end, patterns[i])))
  {
    if |patterns| > 0 {
      var n := |patterns|;
      var init := patterns[..n - 1];
      NoExactsExactly(g, list, init);
      NoExactsFit(g, list, init);
      var before := NoExacts(g, list, init);
      var added := NoExactOf(g, list, n, patterns[n - 1]);
      assert NoExacts(g, list, patterns) == before + added;
      forall i | 0 <= i < n
        ensures WarnsAt(before + added, i + 1) <==> Matches(g.general, patterns[i]) && (!Matches(g.start, patterns[i]) || !Matches(g.end, patterns[i]))
      {
        WarnsAtAppend(before, added, i + 1);
        if i < n - 1 {
          assert init[i] == patterns[i];
          assert !WarnsAt(added, i + 1);
        } else {
          assert forall k :: 0 <= k < |before| ==> before[k].line <= n - 1;
          assert !WarnsAt(before, n);
          if |added| > 0 {
            assert added[0].line == n;
          }
        }
      }
    }
  }

  /** No pattern is both an error and a warning. */
  lemma ErrorOrWarningNotBoth(g: Grammar, list: ListType, patterns: seq<string>)
    ensures forall line :: !(FailsAt(Failures(g, list, patterns), line) && WarnsAt(NoExacts(g, list, patterns), line))
  {
    FailuresExactly(g, list, patterns);
    NoExactsExactly(g, list, patterns);
    FailuresFit(g, list, patterns);
    var fs := Failures(g, list, patterns);
    forall line | FailsAt(fs, line)
      ensures !WarnsAt(NoExacts(g, list, patterns), line)
    {
      var k :| 0 <= k < |fs| && fs[k].line == line;
      assert FailureFits(g, list, patterns, fs[k]);
    }
  }

  /** A list yields an error exactly when one of its patterns fails the
      general grammar; warnings play no part. */
  lemma {:induction false} RejectsIffFailures(g: Grammar, list: ListType, patterns: seq<string>)
    ensures |Failures(g, list, patterns)| > 0 <==> Rejects(g, patterns)
  {
    FailuresExactly(g, list, patterns);
    FailuresFit(g, list, patterns);
    var fs := Failures(g, list, patterns);
    if Rejects(g, patterns) {
      var i :| 0 <= i < |patterns| && !Matches(g.general, patterns[i]);
      assert FailsAt(fs, i + 1);
    }
    if |fs| > 0 {
      assert FailureFits(g, list, patterns, fs[0]);
    }
  }

  /** Changing the digit-count bounds changes no verdict: the same patterns
      are errors and warnings, and only the bounds flag of each report moves. */
  lemma {:induction false} DigitBoundsNeverDecide(g: Grammar, lo: int, hi: int, list: ListType, patterns: seq<string>)
    ensures var g' := g.(minDigits := lo, maxDigits := hi);
            var fs, fs' := Failures(g, list, patterns), Failures(g', list, patterns);
            |fs'| == |fs| && forall k :: 0 <= k < |fs| ==> fs'[k] == fs[k].(digitsInBounds := InBounds(g', fs[k].digits))
    ensures var g' := g.(minDigits := lo, maxDigits := hi);
            var ws, ws' := NoExacts(g, list, patterns), NoExacts(g', list, patterns);
            |ws'| == |ws| && forall k :: 0 <= k < |ws| ==> ws'[k] == ws[k].(digitsInBounds := InBounds(g', ws[k].digits))
  {
    if |patterns| > 0 {
      DigitBoundsNeverDecide(g, lo, hi, list, patterns[..|patterns| - 1]);
    }
  }
}
