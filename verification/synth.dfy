/**
 * The native synthesiser (rene/rene.py native): a name the filter selects
 * gives its groups as floaters, in -O order when one was given, and the
 * replacement tokens are walked left to right. Literal text is copied;
 * each consumer ('?', '/', '*') takes the next floater, the last consumer
 * taking all that remain; '*' copies its floater, '/' drops it, and '?'
 * passes a non-empty one to the next rule; ':' runs the next rule with no
 * floater. The rule cursor moves only when a rule runs. Insert rules count,
 * so the walk hands back the rules with their counters advanced.
 */
module Synth {
  import opened Wrappers
  import opened Text
  import opened Params
  import opened FilterCompile
  import opened Replacement
  import ExtSplit
  import Increment

  /** What the native mode makes of one name. */
  datatype Outcome =
    | Rejected                                               // the filter or a semantic rule refuses it
    | Produced(name: string, rules: seq<Rule>, warned: bool)  // the new name, the advanced rules, a slice warning
    | Fault                                                  // Python raises: the program stops

  /** The position Python's x[i] reads in a list of length n; None for IndexError. */
  function PyIndex(i: int, n: nat): (r: Option<nat>)
    ensures r.Some? <==> -(n as int) <= i < n
    ensures r.Some? ==> r.value < n && (i < 0 ==> r.value == n + i) && (0 <= i ==> r.value == i)
  {
    if 0 <= i < n then Some(i) else if -(n as int) <= i < 0 then Some(n + i) else None
  }

  /** The groups at the order's indices, from position i of the order on. */
  function Pick(groups: seq<string>, order: seq<int>, i: nat): (r: Option<seq<string>>)
    requires i <= |order|
    ensures r.Some? ==> |r.value| == |order| - i
    ensures r.Some? ==> forall k | i <= k < |order| ::
      PyIndex(order[k], |groups|).Some? && r.value[k - i] == groups[PyIndex(order[k], |groups|).value]
    ensures r.None? ==> exists k | i <= k < |order| :: PyIndex(order[k], |groups|).None?
    decreases |order| - i
  {
    if i == |order| then Some([])
    else
      match PyIndex(order[i], |groups|)
      case None => None
      case Some(j) =>
        match Pick(groups, order, i + 1)
        case None => None
        case Some(rest) => Some([groups[j]] + rest)
  }

  /** floaters: the match groups, or with -O the groups the order names; None for an index out of range. */
  function Floaters(groups: seq<string>, order: seq<int>): (r: Option<seq<string>>)
  {
    if order == [] then Some(groups) else Pick(groups, order, 0)
  }

  /**
   * An order that names every group, with every index in range, leaves no
   * group out of the floaters.
   */
  lemma FloatersCover(groups: seq<string>, order: seq<int>)
    requires order != []
    requires forall k | 0 <= k < |order| :: 0 <= order[k] < |groups|
    requires forall j | 0 <= j < |groups| :: j in order
    ensures Floaters(groups, order).Some?
    ensures forall j | 0 <= j < |groups| :: groups[j] in Floaters(groups, order).value
  {
    var fl := Pick(groups, order, 0);
    forall j | 0 <= j < |groups| ensures groups[j] in fl.value {
      assert j in order;
      var k :| 0 <= k < |order| && order[k] == j;
      assert fl.value[k] == groups[j];
    }
  }

  /** The fixed inputs of one walk: the tokens, the floaters, the last floater index and the last consumer. */
  datatype Context = Context(tokens: seq<Token>, floaters: seq<string>, maxFloat: int, maxConsumer: Option<nat>)

  /** The walk's state: the name so far, the floater and rule cursors, the last floater taken, the rules, a warning printed. */
  datatype Walk = Walk(name: string, floatIdx: nat, ridx: nat, src: Option<string>, rules: seq<Rule>, warned: bool)

  /**
   * Slice: src[:lead] + src[-trail:] in mode 0, src[lead:trail] in any
   * other mode, with the warning the source prints. A string bound raises.
   */
  function SliceText(src: string, lead: Field, trail: Field, mode: Field): (r: Option<(string, bool)>)
    ensures r.Some? <==> lead.FInt? && trail.FInt?
  {
    if lead.FStr? || trail.FStr? then None
    else if mode == FInt(0) then
      Some((PySlice(src, 0, lead.n) + PySlice(src, -trail.n, |src|), |src| < lead.n + trail.n))
    else
      Some((PySlice(src, lead.n, trail.n), lead.n >= trail.n || trail.n > |src|))
  }

  /** The mode bit Bump tests for the root's last character: 0 for a letter, 1 for a digit, 2 for anything else. */
  function KindBit(c: char): nat
  {
    if IsAlpha(c) then 0 else if IsDigit(c) then 1 else 2
  }

  /**
   * Bump: with the kind's bit set in the mode, src unchanged, or only its
   * extension when the bit four places up is set too; otherwise the root
   * stepped by nextName, then the extension. An empty root or a string
   * mode raises, and so does a string step once it is used.
   */
  function BumpText(src: string, step: Field, mode: Field): (r: Option<string>)
    ensures mode.FStr? ==> r.None?
    ensures r.Some? ==> var ext := ExtSplit.GreedyExt(src).1;
      |ext| <= |r.value| && r.value[|r.value| - |ext|..] == ext
  {
    var parts := ExtSplit.GreedyExt(src);
    var root := parts.0;
    if root == [] || mode.FStr? then None
    else
      var b := KindBit(root[|root| - 1]);
      if Bit(mode.n, b) then
        if Bit(mode.n, b + 4) then Some(parts.1)
        else
          assert src[|src| - |parts.1|..] == parts.1 by {
            if parts.0 + parts.1 != src {
              assert parts.1 == [];
            }
          }
          Some(src)
      else if step.FStr? then None
      else
        var t := Increment.NextName(root, step.n, 0) + parts.1;
        assert t[|t| - |parts.1|..] == parts.1;
        Some(t)
  }

  /**
   * Insert: the text for the current start and the rule with its start
   * advanced. A number is written zero-padded to the width and moves by
   * step; a string is written as it is and moves by nextName.
   */
  function InsertText(rule: Rule): (r: Option<(string, Rule)>)
    requires rule.Insert?
    ensures r.Some? ==> r.value.1.Insert? && r.value.1 == rule.(start := r.value.1.start) && r.value.1.start.FInt? == rule.start.FInt?
  {
    match rule.start
    case FInt(v) =>
      if rule.width.FStr? || rule.step.FStr? then None
      else Some((FormatInt(v, rule.width.n), rule.(start := FInt(v + rule.step.n))))
    case FStr(s) =>
      if s == [] || rule.step.FStr? then None
      else Some((s, rule.(start := FStr(Increment.NextName(s, rule.step.n, 0)))))
  }

  /** E mode appends the inserted text; otherwise it goes between the root and the extension of the name so far. */
  function Place(name: string, text: string, bits: int): (r: string)
    ensures var i := if Bit(bits, 0) then |name| else |ExtSplit.GreedyExt(name).0|;
      && i <= |name| && i + |text| <= |r|
      && r[..i] == name[..i] && r[i..i + |text|] == text
      && r[i + |text|..] <= name[i..]
  {
    if Bit(bits, 0) then
      var r := name + text;
      assert r[..|name|] == name && r[|name|..|name| + |text|] == text;
      r
    else
      var parts := ExtSplit.GreedyExt(name);
      var i := |parts.0|;
      var r := parts.0 + text + parts.1;
      assert i <= |name| && name[..i] == parts.0 && parts.1 <= name[i..] by {
        if parts.0 != [] {
          assert parts.0 + parts.1 <= name;
        }
      }
      assert r[..i] == parts.0 && r[i..i + |text|] == text && r[i + |text|..] == parts.1;
      r
  }

  /** Rules after a walk: the same rules, except that Insert rules may have moved their start, keeping its kind. */
  predicate Advanced(before: seq<Rule>, after: seq<Rule>)
  {
    && |after| == |before|
    && forall i | 0 <= i < |before| ::
         after[i] == before[i]
         || (before[i].Insert? && after[i].Insert? && after[i] == before[i].(start := after[i].start)
             && after[i].start.FInt? == before[i].start.FInt?)
  }

  lemma AdvancedTrans(a: seq<Rule>, b: seq<Rule>, c: seq<Rule>)
    requires Advanced(a, b) && Advanced(b, c)
    ensures Advanced(a, c)
  {
  }

  /** Runs the rule under the rule cursor on the last floater taken, and moves the cursor. */
  function ApplyRule(w: Walk): (r: Option<Walk>)
    ensures r.Some? ==> r.value.ridx == w.ridx + 1 && r.value.floatIdx == w.floatIdx && Advanced(w.rules, r.value.rules)
  {
    if |w.rules| <= w.ridx then None
    else
      var rule := w.rules[w.ridx];
      match rule
      case Slice(lead, trail, mode) =>
        if w.src.None? then None
        else
          (match SliceText(w.src.value, lead, trail, mode)
           case None => None
           case Some(out) => Some(w.(name := w.name + out.0, ridx := w.ridx + 1, warned := w.warned || out.1)))
      case Bump(step, mode) =>
        if w.src.None? then None
        else
          (match BumpText(w.src.value, step, mode)
           case None => None
           case Some(t) => Some(w.(name := w.name + t, ridx := w.ridx + 1)))
      case Insert(_, _, _, bits, _) =>
        match InsertText(rule)
        case None => None
        case Some(out) =>
          Some(w.(name := Place(w.name, out.0, bits), ridx := w.ridx + 1, rules := w.rules[w.ridx := out.1]))
  }

  function Min(a: nat, b: nat): nat
  {
    if a <= b then a else b
  }

  /**
   * The text the consumer at token k receives as floater i: every floater
   * from i on, joined, when k is the last consumer and i is not the last
   * floater index; otherwise floater i (None for IndexError).
   */
  function Source(c: Context, k: nat, i: nat): Option<string>
  {
    if c.maxConsumer == Some(k) && i < c.maxFloat then Some(Concat(c.floaters[Min(i, |c.floaters|)..]))
    else if i < |c.floaters| then Some(c.floaters[i])
    else None
  }

  /**
   * A consumer with a floater to take never raises and receives at least
   * that floater. Only the last consumer receives more, and given only the
   * last floater it receives just that one.
   */
  lemma SourceFacts(c: Context, k: nat, i: nat)
    ensures i < |c.floaters| ==> Source(c, k, i).Some? && c.floaters[i] <= Source(c, k, i).value
    ensures c.maxConsumer != Some(k) ==> (Source(c, k, i).Some? <==> i < |c.floaters|)
    ensures c.maxConsumer != Some(k) && i < |c.floaters| ==> Source(c, k, i) == Some(c.floaters[i])
    ensures c.maxConsumer == Some(k) && i < c.maxFloat && i + 1 == |c.floaters| ==> Source(c, k, i) == Some(c.floaters[i])
  {
    if i < |c.floaters| {
      var rest := c.floaters[i..];
      assert rest[1..] == c.floaters[i + 1..];
      assert Concat(rest) == c.floaters[i] + Concat(c.floaters[i + 1..]);
      if i + 1 == |c.floaters| {
        assert c.floaters[i + 1..] == [];
        assert Concat(rest) == c.floaters[i];
      }
    }
  }

  /** One token of the walk. */
  function StepToken(c: Context, k: nat, w: Walk): (r: Option<Walk>)
    requires k < |c.tokens|
    ensures r.Some? ==> w.floatIdx <= r.value.floatIdx <= w.floatIdx + 1 && w.ridx <= r.value.ridx <= w.ridx + 1
    ensures r.Some? ==> Advanced(w.rules, r.value.rules)
  {
    match c.tokens[k]
    case Literal(t) => Some(w.(name := w.name + t))
    case Variable(v) =>
      if !IsConsumer(v) then ApplyRule(w)
      else if c.maxFloat < w.floatIdx then Some(w)
      else
        match Source(c, k, w.floatIdx)
        case None => None
        case Some(src) =>
          var w1 := w.(floatIdx := w.floatIdx + 1, src := Some(src));
          if v == '*' then Some(w1.(name := w1.name + src))
          else if v == '/' || src == [] then Some(w1)
          else ApplyRule(w1)
  }

  /** A literal token appends its text and touches nothing else: it never raises, takes no floater and runs no rule. */
  lemma StepTokenLiteral(c: Context, k: nat, w: Walk)
    requires k < |c.tokens| && c.tokens[k].Literal?
    ensures StepToken(c, k, w) == Some(w.(name := w.name + c.tokens[k].text))
  {
  }

  /**
   * The walk over the first k tokens; None once Python has raised. It takes
   * at most one floater and runs at most one rule per token, and only
   * advances Insert starts.
   */
  function WalkTo(c: Context, rules: seq<Rule>, k: nat): (r: Option<Walk>)
    requires k <= |c.tokens|
    ensures r.Some? ==> r.value.floatIdx <= k && r.value.ridx <= k && Advanced(rules, r.value.rules)
  {
    if k == 0 then Some(Walk([], 0, 0, None, rules, false))
    else
      match WalkTo(c, rules, k - 1)
      case None => None
      case Some(w) =>
        var r := StepToken(c, k - 1, w);
        assert r.Some? ==> Advanced(rules, r.value.rules) by {
          if r.Some? {
            AdvancedTrans(rules, w.rules, r.value.rules);
          }
        }
        r
  }

  /** native(name) with the rules as they stand: Rejected for "not selected", else the walk's result. */
  function Synthesize(setup: Compiled, rules: seq<Rule>, name: string, fold: bool): (r: Outcome)
    requires WellFormed(setup.filter)
    ensures r.Rejected? <==> Select(setup.filter, name, fold).None?
  {
    match Select(setup.filter, name, fold)
    case None => Rejected
    case Some(groups) =>
      match Floaters(groups, setup.order)
      case None => Fault
      case Some(fl) =>
        var c := Context(setup.tokens, fl, setup.filter.maxFloat, setup.maxConsumer);
        match WalkTo(c, rules, |c.tokens|)
        case None => Fault
        case Some(w) => Produced(w.name, w.rules, w.warned)
  }

  // ---------------------------------------------------------------------
  // The walk counted from outside: how many floaters and rules the tokens
  // before k use, without following the walk's state.

  /** The consumer tokens before token k. */
  function ConsumersBefore(ts: seq<Token>, k: nat): nat
    requires k <= |ts|
  {
    if k == 0 then 0 else ConsumersBefore(ts, k - 1) + (if ConsumerAt(ts, k - 1) then 1 else 0)
  }

  /** Floaters taken before token k: one per consumer until they run out. */
  function Taken(c: Context, k: nat): int
    requires k <= |c.tokens|
  {
    var n := ConsumersBefore(c.tokens, k);
    if n <= c.maxFloat + 1 then n else c.maxFloat + 1
  }

  /** The rule token at k runs its rule: ':' always, '?' only when it receives a non-empty floater. */
  predicate Runs(c: Context, k: nat)
    requires k < |c.tokens|
  {
    && RuleAt(c.tokens, k)
    && (c.tokens[k].v == '?' ==>
          ConsumersBefore(c.tokens, k) <= c.maxFloat
          && Source(c, k, ConsumersBefore(c.tokens, k)) != Some([]))
  }

  /** The rules run before token k. */
  function RulesRun(c: Context, k: nat): nat
    requires k <= |c.tokens|
  {
    if k == 0 then 0 else RulesRun(c, k - 1) + (if Runs(c, k - 1) then 1 else 0)
  }

  predicate VarsOk(ts: seq<Token>)
  {
    forall k | 0 <= k < |ts| :: ts[k].Variable? ==> IsVar(ts[k].v)
  }

  /** The walk state after k tokens agrees with the counts. */
  predicate Accounted(c: Context, rules: seq<Rule>, k: nat, w: Walk)
    requires k <= |c.tokens|
  {
    w.floatIdx == Taken(c, k) && w.ridx == RulesRun(c, k) && Advanced(rules, w.rules)
  }

  lemma StepAccount(c: Context, rules: seq<Rule>, k: nat, w: Walk)
    requires k < |c.tokens| && VarsOk(c.tokens) && -1 <= c.maxFloat
    requires Accounted(c, rules, k, w)
    ensures StepToken(c, k, w).Some? ==> Accounted(c, rules, k + 1, StepToken(c, k, w).value)
  {
    var r := StepToken(c, k, w);
    if r.Some? {
      AdvancedTrans(rules, w.rules, r.value.rules);
    }
  }

  /**
   * Every consumer takes one floater until they run out, and the rule
   * cursor has moved once per rule that ran, so a '?' that finds no
   * floater or an empty one leaves it where it was.
   */
  lemma {:induction false} WalkAccount(c: Context, rules: seq<Rule>, k: nat)
    requires k <= |c.tokens| && VarsOk(c.tokens) && -1 <= c.maxFloat
    ensures WalkTo(c, rules, k).Some? ==> Accounted(c, rules, k, WalkTo(c, rules, k).value)
  {
    if 0 < k {
      WalkAccount(c, rules, k - 1);
      var prev := WalkTo(c, rules, k - 1);
      if prev.Some? {
        StepAccount(c, rules, k - 1, prev.value);
        assert WalkTo(c, rules, k) == StepToken(c, k - 1, prev.value);
      }
    }
  }

  /** Rules run never outnumber rule tokens. */
  lemma {:induction false} RulesRunBound(c: Context, k: nat)
    requires k <= |c.tokens|
    ensures RulesRun(c, k) <= RulesBetween(c.tokens, 0, k)
  {
    if 0 < k {
      RulesRunBound(c, k - 1);
      RulesBetweenSplit(c.tokens, 0, k - 1, k);
    }
  }

  /**
   * With one rule per rule variable, the rule cursor is in range at every
   * rule token: the walk never reads past the end of the rules.
   */
  lemma CursorInRange(c: Context, rules: seq<Rule>, k: nat)
    requires k < |c.tokens| && VarsOk(c.tokens) && -1 <= c.maxFloat
    requires |rules| == |RuleVars(c.tokens)| && RuleAt(c.tokens, k)
    requires WalkTo(c, rules, k).Some?
    ensures WalkTo(c, rules, k).value.ridx < |WalkTo(c, rules, k).value.rules|
  {
    WalkAccount(c, rules, k);
    RulesRunBound(c, k);
    RuleVarsIndex(c.tokens, 0, k);
  }

  /** Applying a ready setup to a name changes no rule but the start of an Insert, which keeps its kind. */
  lemma SynthesizeAdvances(setup: Compiled, rules: seq<Rule>, name: string, fold: bool)
    requires Ready(setup)
    ensures Synthesize(setup, rules, name, fold).Produced? ==> Advanced(rules, Synthesize(setup, rules, name, fold).rules)
  {
    match Select(setup.filter, name, fold) {
      case None =>
      case Some(groups) =>
        match Floaters(groups, setup.order) {
          case None =>
          case Some(fl) =>
            var c := Context(setup.tokens, fl, setup.filter.maxFloat, setup.maxConsumer);
            WalkAccount(c, rules, |c.tokens|);
        }
    }
  }

  // ---------------------------------------------------------------------
  // Replacements without rule variables: literals and floaters in order.

  /** What token k adds to the name when no rule runs: its text, or the floater a '*' copies. */
  function Contribution(c: Context, k: nat): string
    requires k < |c.tokens|
  {
    match c.tokens[k]
    case Literal(t) => t
    case Variable(v) =>
      var n := ConsumersBefore(c.tokens, k);
      if v == '*' && n <= c.maxFloat then Source(c, k, n).GetOr([]) else []
  }

  /** The contributions of the tokens before k, one after another. */
  function Reference(c: Context, k: nat): string
    requires k <= |c.tokens|
  {
    if k == 0 then [] else Reference(c, k - 1) + Contribution(c, k - 1)
  }

  predicate NoRuleVars(ts: seq<Token>)
  {
    forall k | 0 <= k < |ts| :: !RuleAt(ts, k)
  }

  predicate Plain(c: Context, rules: seq<Rule>, k: nat, w: Walk)
    requires k <= |c.tokens|
  {
    w.name == Reference(c, k) && w.floatIdx == Taken(c, k) && w.ridx == 0 && w.rules == rules && !w.warned
  }

  /**
   * Without '?' and ':' the walk cannot fail and builds exactly the
   * reference text: literals verbatim and in order, each '*' its floater
   * (the last consumer all that remain), '/' and exhausted consumers nothing.
   */
  lemma {:induction false} WalkWithoutRules(c: Context, rules: seq<Rule>, k: nat)
    requires k <= |c.tokens| && VarsOk(c.tokens) && NoRuleVars(c.tokens)
    requires -1 <= c.maxFloat < |c.floaters|
    ensures WalkTo(c, rules, k).Some? && Plain(c, rules, k, WalkTo(c, rules, k).value)
  {
    if 0 < k {
      WalkWithoutRules(c, rules, k - 1);
      PlainWalkStep(c, rules, k);
    } else {
      assert Reference(c, 0) == [] && Taken(c, 0) == 0;
    }
  }

  lemma PlainWalkStep(c: Context, rules: seq<Rule>, k: nat)
    requires 0 < k <= |c.tokens| && VarsOk(c.tokens) && NoRuleVars(c.tokens)
    requires -1 <= c.maxFloat < |c.floaters|
    requires WalkTo(c, rules, k - 1).Some? && Plain(c, rules, k - 1, WalkTo(c, rules, k - 1).value)
    ensures WalkTo(c, rules, k).Some? && Plain(c, rules, k, WalkTo(c, rules, k).value)
  {
    var prev := WalkTo(c, rules, k - 1).value;
    PlainStep(c, rules, k - 1, prev);
  }

  lemma PlainStep(c: Context, rules: seq<Rule>, k: nat, w: Walk)
    requires k < |c.tokens| && VarsOk(c.tokens) && NoRuleVars(c.tokens)
    requires -1 <= c.maxFloat < |c.floaters|
    requires Plain(c, rules, k, w)
    ensures StepToken(c, k, w).Some? && Plain(c, rules, k + 1, StepToken(c, k, w).value)
  {
    assert !RuleAt(c.tokens, k);
  }

  predicate AllCopies(ts: seq<Token>)
  {
    forall k | 0 <= k < |ts| :: ts[k] == Variable('*')
  }

  /** Before the last '*', the first k floaters (as many as there are) have been copied. */
  lemma {:induction false} CopiesSoFar(c: Context, rules: seq<Rule>, k: nat)
    requires AllCopies(c.tokens) && k < |c.tokens| && c.maxConsumer == Some(|c.tokens| - 1)
    requires |c.floaters| == c.maxFloat + 1
    ensures WalkTo(c, rules, k).Some?
    ensures WalkTo(c, rules, k).value.name == Concat(c.floaters[..Min(k, |c.floaters|)])
    ensures WalkTo(c, rules, k).value.floatIdx == Min(k, |c.floaters|)
  {
    if k == 0 {
      assert c.floaters[..0] == [];
    } else {
      CopiesSoFar(c, rules, k - 1);
      CopyStep(c, rules, k - 1, WalkTo(c, rules, k - 1).value);
    }
  }

  /** A '*' before the last copies the next floater, if there is one. */
  lemma CopyStep(c: Context, rules: seq<Rule>, k: nat, w: Walk)
    requires AllCopies(c.tokens) && k + 1 < |c.tokens| && c.maxConsumer == Some(|c.tokens| - 1)
    requires |c.floaters| == c.maxFloat + 1
    requires w.name == Concat(c.floaters[..Min(k, |c.floaters|)]) && w.floatIdx == Min(k, |c.floaters|)
    ensures StepToken(c, k, w).Some?
    ensures StepToken(c, k, w).value.name == Concat(c.floaters[..Min(k + 1, |c.floaters|)])
    ensures StepToken(c, k, w).value.floatIdx == Min(k + 1, |c.floaters|)
  {
    assert c.tokens[k] == Variable('*');
    if k < |c.floaters| {
      ConcatOne(c.floaters, k);
    }
  }

  /** The last '*' copies every floater not yet copied. */
  lemma LastCopy(c: Context, rules: seq<Rule>, w: Walk)
    requires AllCopies(c.tokens) && 0 < |c.tokens| && c.maxConsumer == Some(|c.tokens| - 1)
    requires |c.floaters| == c.maxFloat + 1
    requires var k := |c.tokens| - 1;
      w.name == Concat(c.floaters[..Min(k, |c.floaters|)]) && w.floatIdx == Min(k, |c.floaters|)
    ensures StepToken(c, |c.tokens| - 1, w).Some?
    ensures StepToken(c, |c.tokens| - 1, w).value.name == Concat(c.floaters)
  {
    var k := |c.tokens| - 1;
    var fl := c.floaters;
    assert c.tokens[k] == Variable('*');
    if k < |fl| - 1 {
      assert Source(c, k, k) == Some(Concat(fl[k..]));
      StepTokenCopy(c, k, w, Concat(fl[k..]));
      assert fl == fl[..k] + fl[k..];
      ConcatAppend(fl[..k], fl[k..]);
    } else if k == |fl| - 1 {
      assert Source(c, k, k) == Some(fl[k]);
      StepTokenCopy(c, k, w, fl[k]);
      ConcatOne(fl, k);
      assert fl[..k + 1] == fl;
    } else {
      assert StepToken(c, k, w) == Some(w);
      assert fl[..|fl|] == fl;
    }
  }

  /** A '*' with a floater to take appends what it takes to the name. */
  lemma StepTokenCopy(c: Context, k: nat, w: Walk, src: string)
    requires k < |c.tokens| && c.tokens[k] == Variable('*')
    requires w.floatIdx <= c.maxFloat && Source(c, k, w.floatIdx) == Some(src)
    ensures StepToken(c, k, w) == Some(w.(floatIdx := w.floatIdx + 1, src := Some(src), name := w.name + src))
  {
  }

  lemma ConcatOne(s: seq<string>, i: nat)
    requires i < |s|
    ensures Concat(s[..i + 1]) == Concat(s[..i]) + s[i]
  {
    assert s[..i + 1] == s[..i] + [s[i]];
    ConcatAppend(s[..i], [s[i]]);
    assert Concat([s[i]]) == s[i] + Concat([]);
  }

  /**
   * A replacement of '*'s alone loses and repeats nothing: the new name is
   * every floater, in order, however many '*'s there are.
   */
  lemma CopiesKeepFloaters(c: Context, rules: seq<Rule>)
    requires AllCopies(c.tokens) && 0 < |c.tokens| && c.maxConsumer == Some(|c.tokens| - 1)
    requires |c.floaters| == c.maxFloat + 1
    ensures WalkTo(c, rules, |c.tokens|).Some?
    ensures WalkTo(c, rules, |c.tokens|).value.name == Concat(c.floaters)
  {
    var k := |c.tokens| - 1;
    CopiesSoFar(c, rules, k);
    LastCopy(c, rules, WalkTo(c, rules, k).value);
  }

  // ---------------------------------------------------------------------
  // The rules one at a time.

  /** Mode 0 within bounds: the first lead and the last trail characters, with no warning. */
  lemma SliceEnds(src: string, lead: nat, trail: nat)
    requires 0 < trail && lead + trail <= |src|
    ensures SliceText(src, FInt(lead), FInt(trail), FInt(0)) == Some((src[..lead] + src[|src| - trail..], false))
    ensures |src[..lead] + src[|src| - trail..]| == lead + trail
  {
    assert ClampIndex(-(trail as int), |src|) == |src| - trail;
    assert PySlice(src, -(trail as int), |src|) == src[|src| - trail..|src|];
    assert PySlice(src, 0, lead) == src[..lead];
    var out := SliceText(src, FInt(lead), FInt(trail), FInt(0));
    assert out.value.0 == PySlice(src, 0, lead) + PySlice(src, -(trail as int), |src|);
    assert out.value.1 == false;
    assert src[|src| - trail..|src|] == src[|src| - trail..];
    assert out.value == (src[..lead] + src[|src| - trail..], false);
  }

  /** Mode 0 with trail 0: src[-0:] is all of src, so the whole floater follows its first lead characters. */
  lemma SliceZeroTrail(src: string, lead: nat)
    ensures SliceText(src, FInt(lead), FInt(0), FInt(0)).Some?
    ensures SliceText(src, FInt(lead), FInt(0), FInt(0)).value.0 == src[..Min(lead, |src|)] + src
  {
  }

  /** Any other mode cuts one piece out of the floater, exactly src[lead:trail] when no warning is printed. */
  lemma SliceInfix(src: string, lead: int, trail: int, mode: Field)
    requires mode != FInt(0)
    ensures SliceText(src, FInt(lead), FInt(trail), mode).Some?
    ensures exists a: nat, b: nat | a <= b <= |src| :: SliceText(src, FInt(lead), FInt(trail), mode).value.0 == src[a..b]
    ensures !SliceText(src, FInt(lead), FInt(trail), mode).value.1 && 0 <= lead ==>
      lead < trail <= |src| && SliceText(src, FInt(lead), FInt(trail), mode).value.0 == src[lead..trail]
  {
    var a := ClampIndex(lead, |src|);
    var b := ClampIndex(trail, |src|);
    if a < b {
      assert SliceText(src, FInt(lead), FInt(trail), mode).value.0 == src[a..b];
    } else {
      assert SliceText(src, FInt(lead), FInt(trail), mode).value.0 == src[0..0];
    }
  }

  /** Bump fails exactly on a floater of dots alone, when its fields are numbers. */
  lemma BumpTotal(src: string, step: int, mode: int)
    ensures BumpText(src, FInt(step), FInt(mode)).Some? <==> exists i | 0 <= i < |src| :: src[i] != '.'
  {
  }

  /**
   * A numeric Insert emits its start zero-padded to the width, which reads
   * back as the start, and then counts on by step.
   */
  lemma InsertCounts(v: nat, step: int, width: nat, bits: int, reload: Field)
    ensures var r := InsertText(Insert(FInt(v), FInt(step), FInt(width), bits, reload));
      && r.Some? && AllDigits(r.value.0) && ValueOf(r.value.0) == v && width <= |r.value.0|
      && r.value.1 == Insert(FInt(v + step), FInt(step), FInt(width), bits, reload)
  {
    FormatIntRoundTrip(v, width);
  }
}
