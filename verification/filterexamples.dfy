/**
 * Worked filters: concrete compiles and selections, including the filter
 * that shows the semantic group shift after a trailing *.
 */
module FilterExamples {
  import opened Wrappers
  import opened Text
  import opened Params
  import opened Pattern
  import opened FilterCompile

  lemma RangeNumericExample()
    ensures RangeRule("#1-5") == Ok(NumRange(1, 5))
  {
    SplitNoSep("5", '-');
    SplitAfterSep("#1", "5", '-');
    assert "#1" + ['-'] + "5" == "#1-5";
    var rang := Split("#1-5", '-');
    assert rang == ["#1", "5"];
    assert rang[0][1..] == "1";
    PyIntDigits("1");
    PyIntDigits("5");
    assert ValueOf("1") == 1 && ValueOf("5") == 5;
  }

  /** A width of one with a numeric range. */
  lemma ClauseNumericExample()
    ensures Clause("1,#1-5") == Ok(Question(Exact(1), Some(NumRange(1, 5))))
  {
    SplitNoSep("#1-5", ',');
    SplitAfterSep("1", "#1-5", ',');
    assert "1" + [','] + "#1-5" == "1,#1-5";
    var rule := Split("1,#1-5", ',');
    assert rule == ["1", "#1-5"];
    assert IsNumeric(rule[0]) && rule[0] != "0" && !IsNumeric(rule[1]);
    assert ValueOf("1") == 1;
    RangeNumericExample();
    assert RangeRule(rule[1]) == Ok(NumRange(1, 5));
  }

  /** The filter ?*./1,#1-5: one digit 1..5, then the rest of the root. */
  const Shifted: string := "?*./1,#1-5"

  lemma ShiftedSlash()
    ensures Find(Shifted, '/', 0) == Some(3)
  {
  }

  lemma ShiftedBase()
    ensures BasePart(Shifted) == "?*."
  {
    ShiftedSlash();
    assert Shifted[..3] == "?*.";
  }

  lemma ShiftedClauses()
    ensures ClausePart(Shifted) == ["1,#1-5"]
  {
    ShiftedSlash();
    assert Shifted[4..] == "1,#1-5";
    SplitNoSep("1,#1-5", '/');
  }

  lemma ShiftedParts()
    ensures BasePart(Shifted) == "?*." && ClausePart(Shifted) == ["1,#1-5"]
    ensures LiteralSafe(Shifted)
  {
    ShiftedBase();
    ShiftedClauses();
  }

  lemma ShiftedCharStep()
    ensures CharStep('?', ["1,#1-5"]) == Ok(Step(Exact(1), Some(NumRange(1, 5)), []))
  {
    var clauses := ["1,#1-5"];
    ClauseNumericExample();
    CharStepQuestion(clauses, Question(Exact(1), Some(NumRange(1, 5))));
    assert clauses[1..] == [];
  }

  lemma ShiftedSteps()
    ensures Steps("?", 0, ["1,#1-5"]) == Ok([Step(Exact(1), Some(NumRange(1, 5)), [])])
  {
    var st := Step(Exact(1), Some(NumRange(1, 5)), []);
    ShiftedCharStep();
    assert Steps("?", 1, []) == Ok([]);
    StepsCons("?", 0, ["1,#1-5"], st, []);
    assert [st] + [] == [st];
  }

  function ShiftedFilter(tag: int): Filter
  {
    Filter([Exact(1), NoDotTail], [Semantic(tag, NumRange(1, 5))], false, 1)
  }

  lemma ShiftedChecks()
    ensures FirstIllegal("?*.", FilterIllegal, 0).None? && FirstIllegal("x", ReplIllegal, 0).None?
    ensures !HasAdjacentStars("?*.") && Count("?*.", '?') == 1
    ensures Body("?*.") == "?" && Tail("?*.") == [NoDotTail] && !StartsStarDot("?*.")
  {
    assert "?*."[..1] == "?";
  }

  lemma ShiftedAssemble(tag: int)
    ensures Assemble([Step(Exact(1), Some(NumRange(1, 5)), [])], 0, tag) ==
      Translation([Exact(1)], [Semantic(tag, NumRange(1, 5))], [0])
  {
    var steps := [Step(Exact(1), Some(NumRange(1, 5)), [])];
    assert Assemble(steps, 1, tag + 1) == Translation([], [], []);
  }

  lemma ShiftedRepeats()
    ensures RepeatProblem([Exact(1), NoDotTail], 0).None?
  {
    var e := [Exact(1), NoDotTail];
    assert RepeatProblem(e, 2).None?;
    assert RepeatProblem(e, 1) == RepeatProblem(e, 2);
    assert e[0] == Exact(1) && 1 < MaxRepeat;
  }

  /** Every check of the compile passes on ?*./1,#1-5. */
  lemma ShiftedPasses(tag: int, steps: seq<Step>)
    requires steps == [Step(Exact(1), Some(NumRange(1, 5)), [])]
    ensures LiteralSafe(Shifted)
    ensures Find(Shifted, '/', 0).Some? ==> |ClausePart(Shifted)| <= Count(BasePart(Shifted), '?')
    ensures FirstIllegal(BasePart(Shifted), FilterIllegal, 0).None? && FirstIllegal("x", ReplIllegal, 0).None?
    ensures !HasAdjacentStars(BasePart(Shifted)) && BasePart(Shifted) != []
    ensures Steps(Body(BasePart(Shifted)), 0, ClausePart(Shifted)) == Ok(steps)
    ensures RepeatProblem(Assemble(steps, 0, tag).elems + Tail(BasePart(Shifted)), 0).None?
  {
    ShiftedParts();
    ShiftedSlash();
    ShiftedChecks();
    ShiftedSteps();
    ShiftedAssemble(tag);
    assert [Exact(1)] + [NoDotTail] == [Exact(1), NoDotTail];
    ShiftedRepeats();
  }

  /** What the compile assembles from the steps of ?*./1,#1-5. */
  lemma ShiftedAssembled(tag: int, steps: seq<Step>)
    requires steps == [Step(Exact(1), Some(NumRange(1, 5)), [])]
    ensures Filter(Assemble(steps, 0, tag).elems + Tail(BasePart(Shifted)), Assemble(steps, 0, tag).sems,
        StartsStarDot(BasePart(Shifted)),
        (if EndsStarDot(BasePart(Shifted)) then 0 else -1) + CaptureCount(Assemble(steps, 0, tag).elems))
      == ShiftedFilter(tag)
  {
    ShiftedParts();
    ShiftedChecks();
    ShiftedAssemble(tag);
    assert [Exact(1)] + [NoDotTail] == [Exact(1), NoDotTail];
    assert CaptureCount([Exact(1)]) == 1;
  }

  lemma ShiftedCompile(tag: int)
    ensures LiteralSafe(Shifted) && CompileFilterFrom(Shifted, "x", tag) == Ok(ShiftedFilter(tag))
  {
    var steps := [Step(Exact(1), Some(NumRange(1, 5)), [])];
    ShiftedPasses(tag, steps);
    CompileFilterFromOk(Shifted, "x", tag, steps);
    ShiftedAssembled(tag, steps);
  }

  lemma ShiftedMatch()
    ensures Match([Exact(1), NoDotTail], "3abc", true) == Some(["3", "abc"])
  {
    var s := "3abc";
    assert ExtSplit.SkipNonDots("abc", 0) == 3;
    assert "abc"[3..] == [] && "abc"[..3] == "abc";
    assert Match([], "abc"[3..], true) == Some([]);
    assert ["abc"[..3]] + [] == ["abc"];
    assert Longest([], "abc", 0, 3, true) == Some(["abc"]);
    assert Match([NoDotTail], "abc", true) == Some(["abc"]);
    assert [Exact(1), NoDotTail][1..] == [NoDotTail] && s[1..] == "abc" && s[..1] == "3";
    assert [s[..1]] + ["abc"] == ["3", "abc"];
    assert Longest([NoDotTail], s, 1, 1, true) == Some(["3", "abc"]);
  }

  lemma ShiftedRoots()
    ensures PyInt(Split("abc", '.')[0], 10).None?
    ensures PyInt(Split("3", '.')[0], 10) == Some(3)
  {
    SplitNoSep("abc", '.');
    SplitNoSep("3", '.');
    assert BaseDigit('a', 10).None?;
    PyIntDigits("3");
    assert ValueOf("3") == 3;
  }

  lemma ShiftedWellFormed(tag: int)
    requires tag == 1 || tag == 2
    ensures WellFormed(ShiftedFilter(tag))
  {
    assert CaptureCount([Exact(1), NoDotTail]) == 2;
  }

  lemma ShiftedSelect()
    ensures WellFormed(ShiftedFilter(1)) && WellFormed(ShiftedFilter(2))
    ensures Select(ShiftedFilter(2), "3abc", true).None?
    ensures Select(ShiftedFilter(1), "3abc", true) == Some(["3", "abc"])
  {
    ShiftedWellFormed(1);
    ShiftedWellFormed(2);
    ShiftedMatch();
    var groups := ["3", "abc"];
    ShiftedRoots();
    assert !SemHolds(NumRange(1, 5), groups[1]);
    assert SemHolds(NumRange(1, 5), groups[0]);
    assert !SemsPass(ShiftedFilter(2).sems, groups, 0);
    assert SemsPass(ShiftedFilter(1).sems, groups, 1);
    assert SemsPass(ShiftedFilter(1).sems, groups, 0);
    SelectOfMatch(ShiftedFilter(2), "3abc", true, groups);
    SelectOfMatch(ShiftedFilter(1), "3abc", true, groups);
  }

  /**
   * The shift, on the name 3abc: the filter ?*./1,#1-5 means "one digit
   * from 1 to 5, then the rest of the root", and 3abc is such a name. As
   * written, the rule is checked against the second group (abc, not a
   * number), so the name is refused; recorded for its own group, it is
   * selected.
   */
  lemma ShiftedGroupCounterexample()
    ensures LiteralSafe(Shifted)
    ensures CompileFilter(Shifted, "x") == Ok(ShiftedFilter(2))
    ensures CompileFilterIntended(Shifted, "x") == Ok(ShiftedFilter(1))
    ensures WellFormed(ShiftedFilter(1)) && WellFormed(ShiftedFilter(2))
    ensures Select(ShiftedFilter(2), "3abc", true).None?
    ensures Select(ShiftedFilter(1), "3abc", true) == Some(["3", "abc"])
  {
    ShiftedParts();
    ShiftedChecks();
    ShiftedCompile(2);
    ShiftedCompile(1);
    ShiftedSelect();
  }
}
