/**
 * The native filter compiler of rene/rene.py (module level). A filter such
 * as *_??.txt/2,#1-12 is a glob-like base before the first '/' and a list
 * of extension clauses after it, one per '?' in order. The base becomes a
 * sequence of pattern elements: '*' a lazy group, '?' a group whose width
 * its clause gives, every other character a literal, and a trailing *. a
 * final dot-free group. A clause may also carry a semantic rule, a numeric
 * (#lo-hi) or string (lo-hi) range that the group's text must lie in.
 */
module FilterCompile {
  import opened Wrappers
  import opened Text
  import opened Params
  import opened Pattern

  datatype SemRule = NumRange(low: int, high: int) | LexRange(first: string, last: string)

  /** A semantic rule and the regex group number it is recorded for. */
  datatype Semantic = Semantic(group: int, rule: SemRule)

  /**
   * A compiled filter. maxFloat is the index of the last floater (one less
   * than the number of groups); noDotName rejects dot names for a filter
   * that starts with *.
   */
  datatype Filter = Filter(elems: seq<Elem>, sems: seq<Semantic>, noDotName: bool, maxFloat: int)

  /** re's MAXREPEAT: a repeat count at or above it overflows. */
  const MaxRepeat: nat := 4294967295

  const FilterIllegal: set<char> := {'<', '>', '|', '"', ',', '\\', ';', ':', '/'}
  const ReplIllegal: set<char> := {'<', '>', '|', '"', ',', '\\', ';'}

  /** Characters that would not be literal in the regex; filters are assumed not to contain them. */
  predicate RegexMeta(c: char)
  {
    c in {'^', '$', '+', '(', ')', '[', ']', '{', '}'}
  }

  /** badChr: the first character of s in the illegal set. */
  function FirstIllegal(s: string, illegal: set<char>, i: nat): (r: Option<nat>)
    requires i <= |s|
    ensures r.Some? ==> i <= r.value < |s| && s[r.value] in illegal
    ensures r.Some? ==> forall k | i <= k < r.value :: s[k] !in illegal
    ensures r.None? ==> forall k | i <= k < |s| :: s[k] !in illegal
    decreases |s| - i
  {
    if i == |s| then None else if s[i] in illegal then Some(i) else FirstIllegal(s, illegal, i + 1)
  }

  predicate HasAdjacentStars(s: string)
  {
    exists k | 0 <= k < |s| - 1 :: s[k] == '*' && s[k + 1] == '*'
  }

  /** A '?' after its clause: the group element and the semantic rule, if any. */
  datatype Question = Question(elem: Elem, sem: Option<SemRule>)

  /** The semantic part of a clause: #lo-hi numeric, lo-hi string, anything else an error. */
  function RangeRule(r: string): (res: Result<SemRule, CompileError>)
  {
    var rang := Split(r, '-');
    if |rang| != 2 then Err(UnrecognizedRange(r))
    else if rang[0] == [] then Err(Crash(EmptyRangeLow))
    else if rang[0][0] == '#' then
      match (PyInt(rang[0][1..], 10), PyInt(rang[1], 10))
      case (Some(lo), Some(hi)) => Ok(NumRange(lo, hi))
      case _ => Err(BadNumericRange(r))
    else Ok(LexRange(rang[0], rang[1]))
  }

  /** A rule is lo-hi with exactly one '-'; any other count of '-' is unrecognised, and an empty lo crashes. */
  lemma RangeRuleDashes(r: string)
    ensures Count(r, '-') != 1 ==> RangeRule(r) == Err(UnrecognizedRange(r))
    ensures Count(r, '-') == 1 && r[0] == '-' ==> RangeRule(r) == Err(Crash(EmptyRangeLow))
    ensures RangeRule(r).Ok? && RangeRule(r).value.LexRange? ==>
      r == RangeRule(r).value.first + "-" + RangeRule(r).value.last
  {
    var rang := Split(r, '-');
    JoinSplit(r, '-');
    if |rang| == 2 {
      assert rang[1..] == [rang[1]];
      assert r == rang[0] + "-" + rang[1];
    }
  }

  /** "#lo-hi" is a numeric range when both bounds are integers, and a bad one otherwise. */
  lemma RangeRuleNumeric(lo: string, hi: string)
    requires '-' !in lo && '-' !in hi
    ensures var res := RangeRule("#" + lo + "-" + hi);
      && (PyInt(lo, 10).Some? && PyInt(hi, 10).Some? ==> res == Ok(NumRange(PyInt(lo, 10).value, PyInt(hi, 10).value)))
      && (PyInt(lo, 10).None? || PyInt(hi, 10).None? ==> res == Err(BadNumericRange("#" + lo + "-" + hi)))
  {
    var first := "#" + lo;
    assert '-' !in first;
    SplitAfterSep(first, hi, '-');
    SplitNoSep(hi, '-');
    assert first[1..] == lo;
  }

  /** "first-last" with a first that is not empty and does not start with '#' is a string range. */
  lemma RangeRuleLex(first: string, last: string)
    requires '-' !in first && '-' !in last && first != [] && first[0] != '#'
    ensures RangeRule(first + "-" + last) == Ok(LexRange(first, last))
  {
    SplitAfterSep(first, last, '-');
    SplitNoSep(last, '-');
  }

  /**
   * One extension clause. Its ','-separated parts are width then semantic
   * rule: m,n gives width m..n, m alone exactly m (0 meaning any), an empty
   * clause the default single character, and a first part that is not a
   * number is the semantic rule itself with any width.
   */
  function Clause(clause: string): (r: Result<Question, CompileError>)
  {
    var rule := Split(clause, ',');
    if rule == [[]] then Ok(Question(Exact(1), None))
    else
      var elem :=
        if IsNumeric(rule[0]) then
          if 1 < |rule| && IsNumeric(rule[1]) then Span(ValueOf(rule[0]), ValueOf(rule[1]))
          else if rule[0] == "0" then Lazy
          else Exact(ValueOf(rule[0]))
        else Lazy;
      var fidx := if !IsNumeric(rule[0]) then 0 else if elem.Span? then 2 else 1;
      if |rule| <= fidx then Ok(Question(elem, None))
      else
        match RangeRule(rule[fidx])
        case Err(e) => Err(e)
        case Ok(sem) => Ok(Question(elem, Some(sem)))
  }

  /**
   * The widths a clause gives its '?': an empty clause one character, a lone
   * number exactly that many (0 any), m,n from m to n; a '?' always captures.
   */
  lemma ClauseWidths(clause: string)
    ensures clause == [] ==> Clause(clause) == Ok(Question(Exact(1), None))
    ensures IsNumeric(clause) ==>
      Clause(clause) == Ok(Question(if clause == "0" then Lazy else Exact(ValueOf(clause)), None))
    ensures Clause(clause).Ok? ==> !Clause(clause).value.elem.Lit? && !Clause(clause).value.elem.NoDotTail?
  {
    if IsNumeric(clause) {
      assert ',' !in clause;
      SplitNoSep(clause, ',');
    }
  }

  /** m,n with two numbers and no rule is the width range m..n. */
  lemma ClauseSpan(m: string, n: string)
    requires IsNumeric(m) && IsNumeric(n)
    ensures Clause(m + "," + n) == Ok(Question(Span(ValueOf(m), ValueOf(n)), None))
  {
    assert ',' !in m && ',' !in n;
    SplitAfterSep(m, n, ',');
    SplitNoSep(n, ',');
  }

  /** The compiled filter base, with the position of the '?' each semantic rule came from. */
  datatype Translation = Translation(elems: seq<Elem>, sems: seq<Semantic>, owners: seq<nat>)

  /** One filter character: its element, its semantic rule, and the clauses left after it. */
  datatype Step = Step(elem: Elem, sem: Option<SemRule>, left: seq<string>)

  function CharStep(c: char, clauses: seq<string>): (r: Result<Step, CompileError>)
    ensures r.Ok? && c != '?' ==> r.value.sem.None? && r.value.left == clauses
  {
    if c == '*' then Ok(Step(Lazy, None, clauses))
    else if c != '?' then Ok(Step(Lit(c), None, clauses))
    else if clauses == [] then Ok(Step(Exact(1), None, clauses))
    else
      match Clause(clauses[0])
      case Err(e) => Err(e)
      case Ok(q) => Ok(Step(q.elem, q.sem, clauses[1..]))
  }

  /** The filter loop from character i on, character by character; the first bad clause stops it. */
  function Steps(body: string, i: nat, clauses: seq<string>): (r: Result<seq<Step>, CompileError>)
    requires i <= |body|
    ensures r.Ok? ==> |r.value| == |body| - i
    decreases |body| - i
  {
    if i == |body| then Ok([])
    else
      match CharStep(body[i], clauses)
      case Err(e) => Err(e)
      case Ok(st) =>
        match Steps(body, i + 1, st.left)
        case Err(e) => Err(e)
        case Ok(rest) => Ok([st] + rest)
  }

  /**
   * The regex elements and recorded semantic rules of steps k.., with each
   * rule's step index as its owner. tag is the group number recorded for the
   * next semantic rule; each capturing element moves it on by one.
   */
  function Assemble(steps: seq<Step>, k: nat, tag: int): (t: Translation)
    requires k <= |steps|
    ensures |t.elems| == |steps| - k && |t.owners| == |t.sems|
    decreases |steps| - k
  {
    if k == |steps| then Translation([], [], [])
    else
      var st := steps[k];
      var t := Assemble(steps, k + 1, tag + (if st.elem.Lit? then 0 else 1));
      if st.sem.Some? then
        Translation([st.elem] + t.elems, [Semantic(tag, st.sem.value)] + t.sems, [k] + t.owners)
      else
        Translation([st.elem] + t.elems, t.sems, t.owners)
  }

  /** The number of capturing steps in k..o-1. */
  function CapsBetween(steps: seq<Step>, k: nat, o: nat): nat
    requires o <= |steps|
    decreases o - k
  {
    if o <= k then 0 else (if steps[k].elem.Lit? then 0 else 1) + CapsBetween(steps, k + 1, o)
  }

  /** The element a filter character becomes: '*' lazy, '?' a width group, anything else itself. */
  predicate ElemFor(c: char, e: Elem)
  {
    if c == '*' then e == Lazy
    else if c == '?' then e.Lazy? || e.Exact? || e.Span?
    else e == Lit(c)
  }

  /** The number of '*' and '?' in s from i on. */
  function Wild(s: string, i: nat): nat
    requires i <= |s|
    decreases |s| - i
  {
    if i == |s| then 0 else (if s[i] == '*' || s[i] == '?' then 1 else 0) + Wild(s, i + 1)
  }

  /** One character's step in front of the steps of the rest. */
  lemma StepsCons(body: string, i: nat, clauses: seq<string>, st: Step, rest: seq<Step>)
    requires i < |body| && CharStep(body[i], clauses) == Ok(st) && Steps(body, i + 1, st.left) == Ok(rest)
    ensures Steps(body, i, clauses) == Ok([st] + rest)
  {
  }

  /** A '?' with a clause left takes that clause's element and rule. */
  lemma CharStepQuestion(clauses: seq<string>, q: Question)
    requires clauses != [] && Clause(clauses[0]) == Ok(q)
    ensures CharStep('?', clauses) == Ok(Step(q.elem, q.sem, clauses[1..]))
  {
  }

  lemma CharStepElem(c: char, clauses: seq<string>)
    requires CharStep(c, clauses).Ok?
    ensures ElemFor(c, CharStep(c, clauses).value.elem)
    ensures CharStep(c, clauses).value.elem.Lit? <==> c != '*' && c != '?'
  {
  }

  /** Each character's step has the character's element; only a '?' carries a semantic rule. */
  lemma {:induction false} StepsShape(body: string, i: nat, clauses: seq<string>)
    requires i <= |body| && Steps(body, i, clauses).Ok?
    ensures var steps := Steps(body, i, clauses).value;
      forall k | 0 <= k < |steps| ::
        && ElemFor(body[i + k], steps[k].elem)
        && (steps[k].elem.Lit? <==> body[i + k] != '*' && body[i + k] != '?')
        && (steps[k].sem.Some? ==> body[i + k] == '?')
    decreases |body| - i
  {
    if i < |body| {
      var st := CharStep(body[i], clauses).value;
      CharStepElem(body[i], clauses);
      StepsShape(body, i + 1, st.left);
      var steps := Steps(body, i, clauses).value;
      var rest := Steps(body, i + 1, st.left).value;
      assert steps == [st] + rest;
      forall k | 1 <= k < |steps|
        ensures steps[k] == rest[k - 1] && body[i + k] == body[(i + 1) + (k - 1)]
      {
      }
    }
  }

  /** Assembly keeps the elements of the steps in order. */
  lemma {:induction false} AssembleElems(steps: seq<Step>, k: nat, tag: int)
    requires k <= |steps|
    ensures forall i | k <= i < |steps| :: Assemble(steps, k, tag).elems[i - k] == steps[i].elem
    decreases |steps| - k
  {
    if k < |steps| {
      AssembleElems(steps, k + 1, tag + (if steps[k].elem.Lit? then 0 else 1));
    }
  }

  /**
   * Each semantic rule of t comes from its own step k.. and is recorded with
   * the tag in force there: the starting tag plus the number of groups before it.
   */
  predicate GroupsOk(steps: seq<Step>, k: nat, tag: int, t: Translation)
    requires k <= |steps| && |t.owners| == |t.sems|
  {
    forall j | 0 <= j < |t.sems| ::
      && k <= t.owners[j] < |steps| && steps[t.owners[j]].sem == Some(t.sems[j].rule)
      && t.sems[j].group == tag + CapsBetween(steps, k, t.owners[j])
  }

  lemma {:induction false} AssembleGroups(steps: seq<Step>, k: nat, tag: int)
    requires k <= |steps|
    ensures GroupsOk(steps, k, tag, Assemble(steps, k, tag))
    decreases |steps| - k
  {
    if k < |steps| {
      var tag' := tag + (if steps[k].elem.Lit? then 0 else 1);
      AssembleGroups(steps, k + 1, tag');
      var rest := Assemble(steps, k + 1, tag');
      var t := Assemble(steps, k, tag);
      var d := if steps[k].sem.Some? then 1 else 0;
      forall j | d <= j < |t.sems|
        ensures k <= t.owners[j] < |steps| && steps[t.owners[j]].sem == Some(t.sems[j].rule)
        ensures t.sems[j].group == tag + CapsBetween(steps, k, t.owners[j])
      {
        assert t.owners[j] == rest.owners[j - d] && t.sems[j] == rest.sems[j - d];
        var o := rest.owners[j - d];
        assert k + 1 <= o < |steps|;
      }
    }
  }

  /** The number of capturing elements among positions i..o-1. */
  function CapturesBefore(elems: seq<Elem>, i: nat, o: nat): nat
    requires o <= |elems|
    decreases o - i
  {
    if o <= i then 0 else (if elems[i].Lit? then 0 else 1) + CapturesBefore(elems, i + 1, o)
  }

  lemma {:induction false} CapsBetweenElems(steps: seq<Step>, elems: seq<Elem>, i: nat, o: nat)
    requires o <= |steps| && o <= |elems|
    requires forall x | 0 <= x < o :: elems[x] == steps[x].elem
    ensures CapsBetween(steps, i, o) == CapturesBefore(elems, i, o)
    decreases o - i
  {
    if i < o {
      CapsBetweenElems(steps, elems, i + 1, o);
    }
  }

  /** re.compile's checks on the repeat counts, in pattern order. */
  function RepeatProblem(elems: seq<Elem>, i: nat): (r: Option<CrashKind>)
    requires i <= |elems|
    decreases |elems| - i
  {
    if i == |elems| then None
    else
      match elems[i]
      case Exact(n) => if MaxRepeat <= n then Some(RepeatTooLarge) else RepeatProblem(elems, i + 1)
      case Span(lo, hi) =>
        if MaxRepeat <= lo || MaxRepeat <= hi then Some(RepeatTooLarge)
        else if hi < lo then Some(RepeatOrder)
        else RepeatProblem(elems, i + 1)
      case _ => RepeatProblem(elems, i + 1)
  }

  /** The base of a filter argument: everything before its first '/'. */
  function BasePart(arg: string): string
  {
    match Find(arg, '/', 0)
    case Some(i) => arg[..i]
    case None => arg
  }

  /** The extension clauses of a filter argument: the '/'-separated parts after its first '/'. */
  function ClausePart(arg: string): seq<string>
  {
    match Find(arg, '/', 0)
    case Some(i) => ParmList(arg[i + 1..], true)
    case None => []
  }

  predicate StartsStarDot(s: string)
  {
    2 <= |s| && s[0] == '*' && s[1] == '.'
  }

  predicate EndsStarDot(s: string)
  {
    2 <= |s| && s[|s| - 2] == '*' && s[|s| - 1] == '.'
  }

  /** The filter base without a trailing *. or a lone trailing '.'. */
  function Body(filArg: string): (body: string)
    requires filArg != []
    ensures |body| <= |filArg| && body == filArg[..|body|]
  {
    if EndsStarDot(filArg) then filArg[..|filArg| - 2]
    else if filArg[|filArg| - 1] == '.' then filArg[..|filArg| - 1]
    else filArg
  }

  /** The filter characters are taken literally by the regex, as the model assumes. */
  predicate LiteralSafe(arg: string)
  {
    forall i | 0 <= i < |BasePart(arg)| :: !RegexMeta(BasePart(arg)[i])
  }

  /**
   * The checks the compile makes before it translates: no more clauses than
   * '?'s, no illegal character in the filter or the replacement, no "**",
   * and something left of the base once its trailing '.' is dropped.
   */
  predicate Admissible(arg: string, aRep: string)
  {
    && (Find(arg, '/', 0).Some? ==> |ClausePart(arg)| <= Count(BasePart(arg), '?'))
    && FirstIllegal(BasePart(arg), FilterIllegal, 0).None?
    && FirstIllegal(aRep, ReplIllegal, 0).None?
    && !HasAdjacentStars(BasePart(arg))
    && BasePart(arg) != []
  }

  /**
   * The native filter compile, up to re.compile. firstTag is the group
   * number recorded for the first semantic rule. It compiles only an
   * admissible filter, and an admissible one fails only on a bad clause or
   * a repeat count re rejects.
   */
  function CompileFilterFrom(arg: string, aRep: string, firstTag: int): (r: Result<Filter, CompileError>)
    requires LiteralSafe(arg)
    ensures r.Ok? ==> Admissible(arg, aRep)
    ensures Admissible(arg, aRep) && r.Err? ==>
      Steps(Body(BasePart(arg)), 0, ClausePart(arg)).Err? || r.error.Crash?
  {
    var filArg := BasePart(arg);
    var clauses := ClausePart(arg);
    if Find(arg, '/', 0).Some? && Count(filArg, '?') < |clauses| then Err(TooManyClauses)
    else if FirstIllegal(filArg, FilterIllegal, 0).Some? then
      Err(IllegalChar(true, filArg[FirstIllegal(filArg, FilterIllegal, 0).value]))
    else if FirstIllegal(aRep, ReplIllegal, 0).Some? then
      Err(IllegalChar(false, aRep[FirstIllegal(aRep, ReplIllegal, 0).value]))
    else if HasAdjacentStars(filArg) then Err(AdjacentStars)
    else if filArg == [] then Err(Crash(EmptyFilter))
    else
      var trailing := EndsStarDot(filArg);
      var mf0 := if trailing then 0 else -1;
      match Steps(Body(filArg), 0, clauses)
      case Err(e) => Err(e)
      case Ok(steps) =>
        var t := Assemble(steps, 0, firstTag);
        var elems := t.elems + (if trailing then [NoDotTail] else []);
        match RepeatProblem(elems, 0)
        case Some(k) => Err(Crash(k))
        case None => Ok(Filter(elems, t.sems, StartsStarDot(filArg), mf0 + CaptureCount(t.elems)))
  }

  /** The trailing group a filter ending in *. adds. */
  function Tail(filArg: string): seq<Elem>
  {
    if EndsStarDot(filArg) then [NoDotTail] else []
  }

  /** When every check passes, the compile assembles the steps of the body. */
  lemma CompileFilterFromOk(arg: string, aRep: string, tag: int, steps: seq<Step>)
    requires LiteralSafe(arg)
    requires Find(arg, '/', 0).Some? ==> |ClausePart(arg)| <= Count(BasePart(arg), '?')
    requires FirstIllegal(BasePart(arg), FilterIllegal, 0).None? && FirstIllegal(aRep, ReplIllegal, 0).None?
    requires !HasAdjacentStars(BasePart(arg)) && BasePart(arg) != []
    requires Steps(Body(BasePart(arg)), 0, ClausePart(arg)) == Ok(steps)
    requires RepeatProblem(Assemble(steps, 0, tag).elems + Tail(BasePart(arg)), 0).None?
    ensures CompileFilterFrom(arg, aRep, tag) ==
      Ok(Filter(Assemble(steps, 0, tag).elems + Tail(BasePart(arg)), Assemble(steps, 0, tag).sems,
        StartsStarDot(BasePart(arg)),
        (if EndsStarDot(BasePart(arg)) then 0 else -1) + CaptureCount(Assemble(steps, 0, tag).elems)))
  {
  }

  /**
   * The checks refuse a filter in the order rene/rene.py makes them: too
   * many clauses, an illegal filter character, an illegal replacement
   * character, "**", then an empty base.
   */
  lemma CompileFilterRefusals(arg: string, aRep: string, tag: int)
    requires LiteralSafe(arg)
    ensures var filArg := BasePart(arg);
      var r := CompileFilterFrom(arg, aRep, tag);
      var tooMany := Find(arg, '/', 0).Some? && Count(filArg, '?') < |ClausePart(arg)|;
      var badFil := FirstIllegal(filArg, FilterIllegal, 0);
      var badRep := FirstIllegal(aRep, ReplIllegal, 0);
      && (tooMany ==> r == Err(TooManyClauses))
      && (!tooMany && badFil.Some? ==> r == Err(IllegalChar(true, filArg[badFil.value])))
      && (!tooMany && badFil.None? && badRep.Some? ==> r == Err(IllegalChar(false, aRep[badRep.value])))
      && (!tooMany && badFil.None? && badRep.None? && HasAdjacentStars(filArg) ==> r == Err(AdjacentStars))
      && (!tooMany && badFil.None? && badRep.None? && !HasAdjacentStars(filArg) && filArg == [] ==>
            r == Err(Crash(EmptyFilter)))
  {
  }

  /** Translating with the group counter moved by d moves every recorded group by d and nothing else. */
  lemma {:induction false} AssembleShift(steps: seq<Step>, k: nat, tag: int, d: int)
    requires k <= |steps|
    ensures var a := Assemble(steps, k, tag);
      var b := Assemble(steps, k, tag + d);
      && b.elems == a.elems && b.owners == a.owners && |b.sems| == |a.sems|
      && forall j | 0 <= j < |a.sems| :: b.sems[j] == Semantic(a.sems[j].group + d, a.sems[j].rule)
    decreases |steps| - k
  {
    if k < |steps| {
      var inc := if steps[k].elem.Lit? then 0 else 1;
      AssembleShift(steps, k + 1, tag + inc, d);
      assert tag + d + inc == tag + inc + d;
    }
  }

  /** The first tag changes only the groups the semantic rules record. */
  lemma CompileFilterTagShift(arg: string, aRep: string, tag: int, d: int)
    requires LiteralSafe(arg)
    ensures var a := CompileFilterFrom(arg, aRep, tag);
      var b := CompileFilterFrom(arg, aRep, tag + d);
      && (a.Ok? <==> b.Ok?)
      && (a.Err? ==> b == a)
      && (a.Ok? ==>
            && b.value.elems == a.value.elems && b.value.noDotName == a.value.noDotName
            && b.value.maxFloat == a.value.maxFloat && |b.value.sems| == |a.value.sems|
            && forall j | 0 <= j < |a.value.sems| ::
                 b.value.sems[j] == Semantic(a.value.sems[j].group + d, a.value.sems[j].rule))
  {
    if Admissible(arg, aRep) && Steps(Body(BasePart(arg)), 0, ClausePart(arg)).Ok? {
      AssembleShift(Steps(Body(BasePart(arg)), 0, ClausePart(arg)).value, 0, tag, d);
    }
  }

  /**
   * The filter compile as rene/rene.py writes it: the floater counter starts
   * at 0 after a trailing *. and at -1 otherwise, and a semantic rule is
   * recorded for group counter + 1. It accepts and refuses what the
   * intended compile does and builds the same pattern, but after a
   * trailing *. every rule records the group one past its own '?'.
   */
  function CompileFilter(arg: string, aRep: string): (r: Result<Filter, CompileError>)
    requires LiteralSafe(arg)
    ensures r.Ok? <==> CompileFilterIntended(arg, aRep).Ok?
    ensures r.Err? ==> r == CompileFilterIntended(arg, aRep)
    ensures r.Ok? ==>
      var i := CompileFilterIntended(arg, aRep).value;
      var d := if EndsStarDot(BasePart(arg)) then 1 else 0;
      && r.value.elems == i.elems && r.value.noDotName == i.noDotName && r.value.maxFloat == i.maxFloat
      && |r.value.sems| == |i.sems|
      && forall j | 0 <= j < |i.sems| :: r.value.sems[j] == Semantic(i.sems[j].group + d, i.sems[j].rule)
  {
    var filArg := BasePart(arg);
    var d := if filArg != [] && EndsStarDot(filArg) then 1 else 0;
    CompileFilterTagShift(arg, aRep, 1, d);
    CompileFilterFrom(arg, aRep, 1 + d)
  }

  /**
   * The compile with every semantic rule recorded for its own '?' group:
   * each recorded rule belongs to a '?' whose clause carries it, every such
   * '?' records its rule, and every recorded group is a group of the pattern.
   */
  function CompileFilterIntended(arg: string, aRep: string): (r: Result<Filter, CompileError>)
    requires LiteralSafe(arg)
    ensures r.Ok? ==> BasePart(arg) != [] && WellFormed(r.value)
    ensures r.Ok? ==> RulesOwned(Body(BasePart(arg)), ClausePart(arg), 1, r.value)
  {
    var r := CompileFilterFrom(arg, aRep, 1);
    if r.Err? then r
    else
      CompileFilterShape(arg, aRep, 1);
      CompileFilterRules(arg, aRep, 1);
      OwnedWellFormed(Body(BasePart(arg)), ClausePart(arg), EndsStarDot(BasePart(arg)), 1, r.value);
      r
  }

  /** The pieces a successful compile is built from. */
  lemma CompileFilterParts(arg: string, aRep: string, tag: int) returns (steps: seq<Step>, t: Translation)
    requires LiteralSafe(arg) && CompileFilterFrom(arg, aRep, tag).Ok?
    ensures BasePart(arg) != [] && !HasAdjacentStars(BasePart(arg))
    ensures Find(arg, '/', 0).Some? ==> |ClausePart(arg)| <= Count(BasePart(arg), '?')
    ensures FirstIllegal(BasePart(arg), FilterIllegal, 0).None? && FirstIllegal(aRep, ReplIllegal, 0).None?
    ensures Steps(Body(BasePart(arg)), 0, ClausePart(arg)) == Ok(steps)
    ensures t == Assemble(steps, 0, tag)
    ensures var f := CompileFilterFrom(arg, aRep, tag).value;
      var trailing := EndsStarDot(BasePart(arg));
      && f.elems == t.elems + (if trailing then [NoDotTail] else [])
      && f.sems == t.sems
      && f.noDotName == StartsStarDot(BasePart(arg))
      && f.maxFloat == (if trailing then 0 else -1) + CaptureCount(t.elems)
  {
    steps := Steps(Body(BasePart(arg)), 0, ClausePart(arg)).value;
    t := Assemble(steps, 0, tag);
  }

  lemma {:induction false} CaptureCountAppend(a: seq<Elem>, b: seq<Elem>)
    ensures CaptureCount(a + b) == CaptureCount(a) + CaptureCount(b)
    decreases |a|
  {
    if a != [] {
      assert (a + b)[1..] == a[1..] + b;
      CaptureCountAppend(a[1..], b);
    } else {
      assert a + b == b;
    }
  }

  lemma {:induction false} CapturesBeforeAll(elems: seq<Elem>, i: nat)
    requires i <= |elems|
    ensures CapturesBefore(elems, i, |elems|) == CaptureCount(elems[i..])
    decreases |elems| - i
  {
    if i < |elems| {
      assert elems[i..][1..] == elems[i + 1..];
      CapturesBeforeAll(elems, i + 1);
    }
  }

  /** Counting captures up to o and then from o on counts them all. */
  lemma {:induction false} CapturesBeforeSplit(elems: seq<Elem>, i: nat, o: nat, n: nat)
    requires i <= o <= n <= |elems|
    ensures CapturesBefore(elems, i, n) == CapturesBefore(elems, i, o) + CapturesBefore(elems, o, n)
    decreases o - i
  {
    if i < o {
      CapturesBeforeSplit(elems, i + 1, o, n);
    }
  }

  /** Counting in a prefix ignores what follows it. */
  lemma {:induction false} CapturesBeforePrefix(a: seq<Elem>, b: seq<Elem>, i: nat, o: nat)
    requires o <= |a|
    ensures CapturesBefore(a + b, i, o) == CapturesBefore(a, i, o)
    decreases o - i
  {
    if i < o {
      CapturesBeforePrefix(a, b, i + 1, o);
    }
  }

  /** Each '*' and '?' of the body is one capture. */
  lemma {:induction false} WildCaptures(body: string, elems: seq<Elem>, i: nat)
    requires |elems| == |body| && i <= |body|
    requires forall k | 0 <= k < |body| :: elems[k].Lit? <==> body[k] != '*' && body[k] != '?'
    ensures Wild(body, i) == CapturesBefore(elems, i, |elems|)
    decreases |body| - i
  {
    if i < |body| {
      WildCaptures(body, elems, i + 1);
    }
  }

  /** Steps that turn body into elems, character by character. */
  predicate Spells(body: string, elems: seq<Elem>)
  {
    && |body| <= |elems|
    && (forall k | 0 <= k < |body| :: ElemFor(body[k], elems[k]))
    && (forall k | 0 <= k < |body| :: elems[k].Lit? <==> body[k] != '*' && body[k] != '?')
  }

  /** The structure of a filter compiled from body, with or without the trailing dot-free group. */
  predicate ShapeOf(body: string, trailing: bool, f: Filter)
  {
    && Spells(body, f.elems)
    && |f.elems| == |body| + (if trailing then 1 else 0)
    && (trailing ==> f.elems[|body|] == NoDotTail)
    && CaptureCount(f.elems) == f.maxFloat + 1
    && CaptureCount(f.elems) == Wild(body, 0) + (if trailing then 1 else 0)
  }

  lemma AssembledShape(body: string, clauses: seq<string>, steps: seq<Step>, tag: int, trailing: bool, f: Filter)
    requires Steps(body, 0, clauses) == Ok(steps)
    requires f.elems == Assemble(steps, 0, tag).elems + (if trailing then [NoDotTail] else [])
    requires f.maxFloat == (if trailing then 0 else -1) + CaptureCount(Assemble(steps, 0, tag).elems)
    ensures ShapeOf(body, trailing, f)
  {
    var t := Assemble(steps, 0, tag);
    StepsShape(body, 0, clauses);
    AssembleElems(steps, 0, tag);
    assert forall k | 0 <= k < |body| :: f.elems[k] == t.elems[k] == steps[k].elem;
    WildCaptures(body, t.elems, 0);
    CapturesBeforeAll(t.elems, 0);
    assert t.elems[0..] == t.elems;
    var tail := if trailing then [NoDotTail] else [];
    CaptureCountAppend(t.elems, tail);
    if trailing {
      assert CaptureCount(tail) == 1 + CaptureCount(tail[1..]);
    }
  }

  /**
   * A compiled filter spells its body character by character, ends in the
   * dot-free group exactly when the filter ended in *., rejects dot names
   * exactly when it started with *., and has maxFloat + 1 capturing groups:
   * one per '*' and '?', plus the trailing group.
   */
  lemma CompileFilterShape(arg: string, aRep: string, tag: int)
    requires LiteralSafe(arg) && CompileFilterFrom(arg, aRep, tag).Ok?
    ensures ShapeOf(Body(BasePart(arg)), EndsStarDot(BasePart(arg)), CompileFilterFrom(arg, aRep, tag).value)
    ensures CompileFilterFrom(arg, aRep, tag).value.noDotName == StartsStarDot(BasePart(arg))
  {
    var steps, t := CompileFilterParts(arg, aRep, tag);
    AssembledShape(Body(BasePart(arg)), ClausePart(arg), steps, tag, EndsStarDot(BasePart(arg)),
      CompileFilterFrom(arg, aRep, tag).value);
  }

  /** The number of '?' in body[i..o]: the clause index of a '?' at o, counting from i. */
  function QBefore(body: string, i: nat, o: nat): nat
    requires o <= |body|
    decreases o - i
  {
    if o <= i then 0 else (if body[i] == '?' then 1 else 0) + QBefore(body, i + 1, o)
  }

  /** The q-th '?' takes the q-th clause, or the default single character when there is none. */
  predicate ClauseAt(clauses: seq<string>, q: nat, st: Step)
  {
    if q < |clauses| then Clause(clauses[q]) == Ok(Question(st.elem, st.sem))
    else st.elem == Exact(1) && st.sem.None?
  }

  lemma {:induction false} StepsClauses(body: string, i: nat, clauses: seq<string>)
    requires i <= |body| && Steps(body, i, clauses).Ok?
    ensures forall k | i <= k < |body| && body[k] == '?' ::
      ClauseAt(clauses, QBefore(body, i, k), Steps(body, i, clauses).value[k - i])
    decreases |body| - i
  {
    if i < |body| {
      var st := CharStep(body[i], clauses).value;
      StepsClauses(body, i + 1, st.left);
      var steps := Steps(body, i, clauses).value;
      var rest := Steps(body, i + 1, st.left).value;
      assert steps == [st] + rest;
      forall k | i < k < |body| && body[k] == '?'
        ensures ClauseAt(clauses, QBefore(body, i, k), steps[k - i])
      {
        assert steps[k - i] == rest[k - (i + 1)];
        var q := QBefore(body, i + 1, k);
        if body[i] == '?' && clauses != [] {
          assert ClauseAt(clauses[1..], q, rest[k - (i + 1)]);
          assert q < |clauses[1..]| ==> clauses[1..][q] == clauses[q + 1];
        }
      }
    }
  }

  /** Every step k.. with a semantic rule has its entry among the owners of t. */
  predicate OwnersCover(steps: seq<Step>, k: nat, t: Translation)
    requires k <= |steps|
  {
    forall o | k <= o < |steps| && steps[o].sem.Some? :: exists j | 0 <= j < |t.owners| :: t.owners[j] == o
  }

  lemma {:induction false} AssembleComplete(steps: seq<Step>, k: nat, tag: int)
    requires k <= |steps|
    ensures OwnersCover(steps, k, Assemble(steps, k, tag))
    decreases |steps| - k
  {
    if k < |steps| {
      var tag' := tag + (if steps[k].elem.Lit? then 0 else 1);
      AssembleComplete(steps, k + 1, tag');
      var rest := Assemble(steps, k + 1, tag');
      var t := Assemble(steps, k, tag);
      var d := if steps[k].sem.Some? then 1 else 0;
      forall o | k <= o < |steps| && steps[o].sem.Some?
        ensures exists j | 0 <= j < |t.owners| :: t.owners[j] == o
      {
        if o == k {
          assert t.owners[0] == o;
        } else {
          var j' :| 0 <= j' < |rest.owners| && rest.owners[j'] == o;
          assert t.owners[j' + d] == o;
        }
      }
    }
  }

  /**
   * The '?' at o owns semantic rule s: it is the q-th '?' of the body, its
   * clause clauses[q] compiles to its element with rule s, and s is recorded
   * for tag plus the number of groups before it.
   */
  predicate RuleOwner(body: string, clauses: seq<string>, elems: seq<Elem>, tag: int, o: nat, s: Semantic)
  {
    && o < |body| && o < |elems| && body[o] == '?'
    && QBefore(body, 0, o) < |clauses|
    && Clause(clauses[QBefore(body, 0, o)]) == Ok(Question(elems[o], Some(s.rule)))
    && s.group == tag + CapturesBefore(elems, 0, o)
  }

  /** The '?' at o has a clause with a semantic rule. */
  predicate HasRule(body: string, clauses: seq<string>, o: nat)
  {
    && o < |body| && body[o] == '?'
    && QBefore(body, 0, o) < |clauses|
    && Clause(clauses[QBefore(body, 0, o)]).Ok?
    && Clause(clauses[QBefore(body, 0, o)]).value.sem.Some?
  }

  /** Every recorded rule has its owning '?', and every '?' whose clause has a rule records it. */
  predicate RulesOwned(body: string, clauses: seq<string>, tag: int, f: Filter)
  {
    RulesHaveOwners(body, clauses, tag, f) && OwnersHaveRules(body, clauses, tag, f)
  }

  predicate HasOwner(body: string, clauses: seq<string>, elems: seq<Elem>, tag: int, s: Semantic)
  {
    exists o: nat | o < |body| :: RuleOwner(body, clauses, elems, tag, o, s)
  }

  predicate Recorded(body: string, clauses: seq<string>, tag: int, f: Filter, o: nat)
  {
    exists j | 0 <= j < |f.sems| :: RuleOwner(body, clauses, f.elems, tag, o, f.sems[j])
  }

  predicate RulesHaveOwners(body: string, clauses: seq<string>, tag: int, f: Filter)
  {
    forall j | 0 <= j < |f.sems| :: HasOwner(body, clauses, f.elems, tag, f.sems[j])
  }

  predicate OwnersHaveRules(body: string, clauses: seq<string>, tag: int, f: Filter)
  {
    forall o: nat | o < |body| && HasRule(body, clauses, o) :: Recorded(body, clauses, tag, f, o)
  }

  /** The step at o, recorded with rule s, makes its '?' the owner of s. */
  lemma OwnerRule(body: string, clauses: seq<string>, steps: seq<Step>, tag: int, elems: seq<Elem>, o: nat, s: Semantic)
    requires Steps(body, 0, clauses) == Ok(steps)
    requires |steps| <= |elems| && elems[..|steps|] == Assemble(steps, 0, tag).elems
    requires o < |steps| && steps[o].sem == Some(s.rule)
    requires s.group == tag + CapsBetween(steps, 0, o)
    ensures RuleOwner(body, clauses, elems, tag, o, s)
  {
    OwnerQuestion(body, clauses, steps, o);
    OwnerElems(steps, tag, elems, o);
  }

  /** A step with a rule is a '?' whose own clause gave that rule. */
  lemma OwnerQuestion(body: string, clauses: seq<string>, steps: seq<Step>, o: nat)
    requires Steps(body, 0, clauses) == Ok(steps)
    requires o < |steps| && steps[o].sem.Some?
    ensures o < |body| && body[o] == '?' && QBefore(body, 0, o) < |clauses|
    ensures Clause(clauses[QBefore(body, 0, o)]) == Ok(Question(steps[o].elem, steps[o].sem))
  {
    assert |steps| == |body|;
    assert body[o] == '?' by {
      StepsShape(body, 0, clauses);
      assert steps[o].sem.Some? ==> body[0 + o] == '?';
    }
    assert ClauseAt(clauses, QBefore(body, 0, o), steps[o]) by {
      StepsClauses(body, 0, clauses);
      assert steps[o - 0] == steps[o];
    }
    ClauseAtRule(clauses, QBefore(body, 0, o), steps[o]);
  }

  /** Position o of the assembled pattern is step o's element, after the captures of the steps before it. */
  lemma OwnerElems(steps: seq<Step>, tag: int, elems: seq<Elem>, o: nat)
    requires |steps| <= |elems| && elems[..|steps|] == Assemble(steps, 0, tag).elems
    requires o < |steps|
    ensures elems[o] == steps[o].elem
    ensures CapsBetween(steps, 0, o) == CapturesBefore(elems, 0, o)
  {
    assert forall x | 0 <= x < |steps| :: elems[x] == steps[x].elem by {
      AssembleElems(steps, 0, tag);
      assert forall x | 0 <= x < |steps| :: elems[x] == elems[..|steps|][x];
    }
    CapsBetweenElems(steps, elems, 0, o);
  }

  /** A '?' with a semantic rule took a clause of its own. */
  lemma ClauseAtRule(clauses: seq<string>, q: nat, st: Step)
    requires ClauseAt(clauses, q, st) && st.sem.Some?
    ensures q < |clauses| && Clause(clauses[q]) == Ok(Question(st.elem, st.sem))
  {
  }

  lemma OwnerOf(body: string, clauses: seq<string>, steps: seq<Step>, tag: int, f: Filter, j: nat)
    requires Steps(body, 0, clauses) == Ok(steps)
    requires |steps| <= |f.elems| && f.elems[..|steps|] == Assemble(steps, 0, tag).elems
    requires f.sems == Assemble(steps, 0, tag).sems && j < |f.sems|
    ensures HasOwner(body, clauses, f.elems, tag, f.sems[j])
  {
    var t := Assemble(steps, 0, tag);
    AssembleGroups(steps, 0, tag);
    var o := t.owners[j];
    OwnerRule(body, clauses, steps, tag, f.elems, o, f.sems[j]);
  }

  lemma AssembledOwners(body: string, clauses: seq<string>, steps: seq<Step>, tag: int, tail: seq<Elem>, f: Filter)
    requires Steps(body, 0, clauses) == Ok(steps)
    requires f.elems == Assemble(steps, 0, tag).elems + tail
    requires f.sems == Assemble(steps, 0, tag).sems
    ensures RulesHaveOwners(body, clauses, tag, f)
  {
    assert f.elems[..|steps|] == Assemble(steps, 0, tag).elems;
    forall j | 0 <= j < |f.sems|
      ensures HasOwner(body, clauses, f.elems, tag, f.sems[j])
    {
      OwnerOf(body, clauses, steps, tag, f, j);
    }
  }

  lemma AssembledRules(body: string, clauses: seq<string>, steps: seq<Step>, tag: int, tail: seq<Elem>, f: Filter)
    requires Steps(body, 0, clauses) == Ok(steps)
    requires f.elems == Assemble(steps, 0, tag).elems + tail
    requires f.sems == Assemble(steps, 0, tag).sems
    ensures OwnersHaveRules(body, clauses, tag, f)
  {
    var t := Assemble(steps, 0, tag);
    assert f.elems[..|steps|] == t.elems;
    AssembleElems(steps, 0, tag);
    AssembleGroups(steps, 0, tag);
    AssembleComplete(steps, 0, tag);
    StepsShape(body, 0, clauses);
    StepsClauses(body, 0, clauses);
    forall o: nat | o < |body| && HasRule(body, clauses, o)
      ensures Recorded(body, clauses, tag, f, o)
    {
      var j :| 0 <= j < |t.owners| && t.owners[j] == o;
      OwnerRule(body, clauses, steps, tag, f.elems, o, f.sems[j]);
    }
  }

  /**
   * The semantic rules of a compiled filter are exactly those of the
   * clauses, each recorded for the group counter at its own '?' plus tag.
   */
  lemma CompileFilterRules(arg: string, aRep: string, tag: int)
    requires LiteralSafe(arg) && CompileFilterFrom(arg, aRep, tag).Ok?
    ensures RulesOwned(Body(BasePart(arg)), ClausePart(arg), tag, CompileFilterFrom(arg, aRep, tag).value)
  {
    var steps, t := CompileFilterParts(arg, aRep, tag);
    var tail := if EndsStarDot(BasePart(arg)) then [NoDotTail] else [];
    AssembledOwners(Body(BasePart(arg)), ClausePart(arg), steps, tag, tail, CompileFilterFrom(arg, aRep, tag).value);
    AssembledRules(Body(BasePart(arg)), ClausePart(arg), steps, tag, tail, CompileFilterFrom(arg, aRep, tag).value);
  }

  /** Every semantic rule names one of the filter's groups (1-based, as re numbers them). */
  predicate WellFormed(f: Filter)
  {
    forall j | 0 <= j < |f.sems| :: 1 <= f.sems[j].group <= CaptureCount(f.elems)
  }

  /** A capturing element at o counts itself among the captures from o on. */
  lemma {:induction false} CapturesFrom(elems: seq<Elem>, o: nat, m: nat, n: nat)
    requires o < m <= n <= |elems| && !elems[o].Lit?
    ensures CapturesBefore(elems, o, n) == 1 + CapturesBefore(elems, o + 1, m) + CapturesBefore(elems, m, n)
  {
    CapturesBeforeSplit(elems, o + 1, m, n);
  }

  /** A group counted from tag at a '?' of the body lies within the filter's groups. */
  lemma GroupInRange(body: string, trailing: bool, f: Filter, tag: int, o: nat)
    requires ShapeOf(body, trailing, f) && o < |body| && body[o] == '?'
    requires tag == 1 || (tag == 2 && trailing)
    ensures 1 <= tag + CapturesBefore(f.elems, 0, o) <= CaptureCount(f.elems)
  {
    var n := |f.elems|;
    CapturesBeforeAll(f.elems, 0);
    assert f.elems[0..] == f.elems;
    CapturesBeforeSplit(f.elems, 0, o, n);
    CapturesFrom(f.elems, o, |body|, n);
    if trailing {
      assert CapturesBefore(f.elems, |body|, n) == 1 + CapturesBefore(f.elems, n, n);
    }
  }

  /** The rules of a well-shaped filter, counted from tag 1 (or 2 with a trailing *.), name real groups. */
  lemma OwnedWellFormed(body: string, clauses: seq<string>, trailing: bool, tag: int, f: Filter)
    requires ShapeOf(body, trailing, f) && RulesHaveOwners(body, clauses, tag, f)
    requires tag == 1 || (tag == 2 && trailing)
    ensures WellFormed(f)
  {
    forall j | 0 <= j < |f.sems|
      ensures 1 <= f.sems[j].group <= CaptureCount(f.elems)
    {
      assert HasOwner(body, clauses, f.elems, tag, f.sems[j]);
      var o: nat :| o < |body| && RuleOwner(body, clauses, f.elems, tag, o, f.sems[j]);
      GroupInRange(body, trailing, f, tag, o);
    }
  }

  /**
   * Both compiles give well-formed filters: rene/rene.py's recorded group
   * numbers, even where they are shifted, never name a group the pattern
   * does not have.
   */
  lemma CompileFilterWellFormed(arg: string, aRep: string)
    requires LiteralSafe(arg)
    ensures CompileFilter(arg, aRep).Ok? ==> WellFormed(CompileFilter(arg, aRep).value)
    ensures CompileFilterIntended(arg, aRep).Ok? ==> WellFormed(CompileFilterIntended(arg, aRep).value)
  {
    var filArg := BasePart(arg);
    var trailing := filArg != [] && EndsStarDot(filArg);
    if CompileFilter(arg, aRep).Ok? {
      var tag := if trailing then 2 else 1;
      CompileFilterShape(arg, aRep, tag);
      CompileFilterRules(arg, aRep, tag);
      OwnedWellFormed(Body(filArg), ClausePart(arg), EndsStarDot(filArg), tag, CompileFilter(arg, aRep).value);
    }
    if CompileFilterIntended(arg, aRep).Ok? {
      CompileFilterShape(arg, aRep, 1);
      CompileFilterRules(arg, aRep, 1);
      OwnedWellFormed(Body(filArg), ClausePart(arg), EndsStarDot(filArg), 1, CompileFilterIntended(arg, aRep).value);
    }
  }

  /** A semantic rule applied to a group's text up to its first dot. */
  predicate SemHolds(rule: SemRule, v: string)
  {
    var root := Split(v, '.')[0];
    match rule
    case LexRange(first, last) => !LexLess(root, first) && !LexLess(last, root)
    case NumRange(low, high) =>
      match PyInt(root, 10)
      case None => false
      case Some(n) => low <= n <= high
  }

  /** Every rule j.. holds on the group it names. */
  predicate SemsPass(sems: seq<Semantic>, groups: seq<string>, j: nat)
    requires forall i | 0 <= i < |sems| :: 1 <= sems[i].group <= |groups|
  {
    RulesPass(sems, groups, j, SemHolds)
  }

  /** Every rule j.. holds on the group it names, under the test holds. */
  predicate RulesPass(sems: seq<Semantic>, groups: seq<string>, j: nat, holds: (SemRule, string) -> bool)
    requires forall i | 0 <= i < |sems| :: 1 <= sems[i].group <= |groups|
    decreases |sems| - j
  {
    j >= |sems| || (holds(sems[j].rule, groups[sems[j].group - 1]) && RulesPass(sems, groups, j + 1, holds))
  }

  lemma {:induction false} RulesPassAll(sems: seq<Semantic>, groups: seq<string>, j: nat, holds: (SemRule, string) -> bool)
    requires forall i | 0 <= i < |sems| :: 1 <= sems[i].group <= |groups|
    ensures RulesPass(sems, groups, j, holds) <==>
      forall i | j <= i < |sems| :: holds(sems[i].rule, groups[sems[i].group - 1])
    decreases |sems| - j
  {
    if j < |sems| {
      RulesPassAll(sems, groups, j + 1, holds);
    }
  }

  lemma SemsPassAll(sems: seq<Semantic>, groups: seq<string>, j: nat)
    requires forall i | 0 <= i < |sems| :: 1 <= sems[i].group <= |groups|
    ensures SemsPass(sems, groups, j) <==>
      forall i | j <= i < |sems| :: SemHolds(sems[i].rule, groups[sems[i].group - 1])
  {
    RulesPassAll(sems, groups, j, SemHolds);
  }

  /** A dot name (a name starting with '.') that a filter starting with *. refuses. */
  predicate DotRefused(f: Filter, name: string)
  {
    f.noDotName && name != [] && name[0] == '.'
  }

  /**
   * The selection half of rene/rene.py native: the name must match the
   * pattern (ignoring case when fold), must not be a refused dot name, and
   * every semantic rule must hold on its group. The result is the groups,
   * the floaters in their natural order.
   */
  function Select(f: Filter, name: string, fold: bool): (r: Option<seq<string>>)
    requires WellFormed(f)
    ensures r.Some? ==> Fits(f.elems, name, r.value, fold) && |r.value| == CaptureCount(f.elems)
    ensures r.Some? <==>
      && Match(f.elems, name, fold).Some?
      && !DotRefused(f, name)
      && |Match(f.elems, name, fold).value| == CaptureCount(f.elems)
      && forall j | 0 <= j < |f.sems| ::
           SemHolds(f.sems[j].rule, Match(f.elems, name, fold).value[f.sems[j].group - 1])
    ensures r.Some? ==> r == Match(f.elems, name, fold)
  {
    match Match(f.elems, name, fold)
    case None => None
    case Some(groups) =>
      MatchedGroups(f, name, fold, groups);
      if DotRefused(f, name) || !SemsPass(f.sems, groups, 0) then None else Some(groups)
  }

  /** The groups of a match fit the pattern, one per capture, and the rules pass on them exactly when each holds. */
  lemma MatchedGroups(f: Filter, name: string, fold: bool, groups: seq<string>)
    requires WellFormed(f) && Match(f.elems, name, fold) == Some(groups)
    ensures Fits(f.elems, name, groups, fold) && |groups| == CaptureCount(f.elems)
    ensures SemsPass(f.sems, groups, 0) <==>
      forall j | 0 <= j < |f.sems| :: SemHolds(f.sems[j].rule, groups[f.sems[j].group - 1])
  {
    MatchCount(f.elems, name, fold);
    MatchSound(f.elems, name, fold);
    SemsPassAll(f.sems, groups, 0);
  }

  /** Once the pattern has matched a name that is not refused, the semantic rules decide. */
  lemma SelectOfMatch(f: Filter, name: string, fold: bool, groups: seq<string>)
    requires WellFormed(f) && Match(f.elems, name, fold) == Some(groups) && !DotRefused(f, name)
    ensures |groups| == CaptureCount(f.elems)
    ensures Select(f, name, fold) == (if SemsPass(f.sems, groups, 0) then Some(groups) else None)
  {
    MatchCount(f.elems, name, fold);
  }

  /** A name no assignment of group texts spells out is never selected. */
  lemma SelectNeedsFit(f: Filter, name: string, fold: bool)
    requires WellFormed(f)
    requires forall caps :: !Fits(f.elems, name, caps, fold)
    ensures Select(f, name, fold).None?
  {
    MatchSound(f.elems, name, fold);
  }
}
