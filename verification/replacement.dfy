/**
 * The replacement side of the native compile (rene/rene.py, module level):
 * the replacement argument split into literal text and the one-character
 * variables ':' '?' '/' '*', the last floater consumer, the rule variables
 * the rule arguments are checked against, and the -O floater order with its
 * completion.
 */
module Replacement {
  import opened Wrappers
  import opened Text
  import opened Params
  import opened FilterCompile
  import Pattern

  /** A replacement variable: ':' insert, '?' rule, '/' skip, '*' copy. */
  predicate IsVar(c: char)
  {
    c == ':' || c == '?' || c == '/' || c == '*'
  }

  /** The variables that take a floater: every one but ':'. */
  predicate IsConsumer(c: char)
  {
    c == '?' || c == '/' || c == '*'
  }

  /** A piece of the replacement: a run of literal text or one variable. */
  datatype Token = Literal(text: string) | Variable(v: char)

  function Spelling(t: Token): string
  {
    match t
    case Literal(text) => text
    case Variable(v) => [v]
  }

  /** The replacement text a token list spells. */
  function Spell(ts: seq<Token>): string
    decreases |ts|
  {
    if ts == [] then [] else Spelling(ts[0]) + Spell(ts[1..])
  }

  /** The first variable at or after i, or the end. */
  function NextVar(s: string, i: nat): (j: nat)
    requires i <= |s|
    ensures i <= j <= |s|
    ensures forall k | i <= k < j :: !IsVar(s[k])
    ensures j < |s| ==> IsVar(s[j])
    decreases |s| - i
  {
    if i < |s| && !IsVar(s[i]) then NextVar(s, i + 1) else i
  }

  /** re.split on the variables with the empty strings dropped, from position i on. */
  function Tokens(s: string, i: nat): seq<Token>
    requires i <= |s|
    decreases |s| - i
  {
    if i == |s| then []
    else if IsVar(s[i]) then [Variable(s[i])] + Tokens(s, i + 1)
    else
      var j := NextVar(s, i);
      [Literal(s[i..j])] + Tokens(s, j)
  }

  /** re.split on the variables: the tokens spell the replacement exactly and have the re.split shape. */
  function Tokenise(aRep: string): (ts: seq<Token>)
    ensures Spell(ts) == aRep
    ensures Canonical(ts)
  {
    TokensSpell(aRep, 0);
    TokensCanonical(aRep, 0);
    assert aRep[0..] == aRep;
    Tokens(aRep, 0)
  }

  /** The shape re.split produces: variables, and non-empty variable-free literals never side by side. */
  predicate Canonical(ts: seq<Token>)
  {
    && (forall i | 0 <= i < |ts| :: ts[i].Literal? ==> ts[i].text != [] && forall k | 0 <= k < |ts[i].text| :: !IsVar(ts[i].text[k]))
    && (forall i | 0 <= i < |ts| :: ts[i].Variable? ==> IsVar(ts[i].v))
    && (forall i | 0 <= i < |ts| - 1 :: ts[i].Literal? ==> ts[i + 1].Variable?)
  }

  lemma {:induction false} SpellAppend(a: seq<Token>, b: seq<Token>)
    ensures Spell(a + b) == Spell(a) + Spell(b)
    decreases |a|
  {
    if a != [] {
      assert (a + b)[1..] == a[1..] + b;
      SpellAppend(a[1..], b);
    } else {
      assert a + b == b;
    }
  }

  /** Tokens spell back exactly the text they came from. */
  lemma {:induction false} TokensSpell(s: string, i: nat)
    requires i <= |s|
    ensures Spell(Tokens(s, i)) == s[i..]
    decreases |s| - i
  {
    if i < |s| {
      var j := if IsVar(s[i]) then i + 1 else NextVar(s, i);
      TokensSpell(s, j);
      var t := if IsVar(s[i]) then Variable(s[i]) else Literal(s[i..j]);
      assert Tokens(s, i) == [t] + Tokens(s, j);
      assert Spelling(t) == s[i..j];
      SpellCons(t, Tokens(s, j));
      assert s[i..] == s[i..j] + s[j..];
    }
  }

  lemma SpellCons(t: Token, rest: seq<Token>)
    ensures Spell([t] + rest) == Spelling(t) + Spell(rest)
  {
    assert ([t] + rest)[1..] == rest;
  }

  /** The tokens from i have the re.split shape, and start with a literal exactly when s[i] is not a variable. */
  lemma {:induction false} TokensCanonical(s: string, i: nat)
    requires i <= |s|
    ensures Canonical(Tokens(s, i))
    ensures i < |s| ==> Tokens(s, i) != [] && (Tokens(s, i)[0].Literal? <==> !IsVar(s[i]))
    decreases |s| - i
  {
    if i < |s| {
      var j := if IsVar(s[i]) then i + 1 else NextVar(s, i);
      TokensCanonical(s, j);
      var ts := Tokens(s, i);
      var rest := Tokens(s, j);
      assert ts == [ts[0]] + rest;
      if !IsVar(s[i]) {
        assert forall k | 0 <= k < |ts[0].text| :: ts[0].text[k] == s[i + k];
      }
      forall k | 0 <= k < |ts| - 1 && ts[k].Literal?
        ensures ts[k + 1].Variable?
      {
        if k > 0 {
          assert ts[k] == rest[k - 1] && ts[k + 1] == rest[k];
        }
      }
    }
  }

  /** NextVar in a suffix is NextVar in the whole, shifted. */
  lemma {:induction false} NextVarShift(a: string, b: string, k: nat)
    requires k <= |b|
    ensures NextVar(a + b, |a| + k) == |a| + NextVar(b, k)
    decreases |b| - k
  {
    if k < |b| {
      assert (a + b)[|a| + k] == b[k];
      if !IsVar(b[k]) {
        NextVarShift(a, b, k + 1);
      }
    }
  }

  /** Tokenising a suffix is tokenising the whole from where the suffix starts. */
  lemma {:induction false} TokensShift(a: string, b: string, k: nat)
    requires k <= |b|
    ensures Tokens(a + b, |a| + k) == Tokens(b, k)
    decreases |b| - k, 1
  {
    if k < |b| {
      assert (a + b)[|a| + k] == b[k];
      if IsVar(b[k]) {
        TokensShiftVar(a, b, k);
      } else {
        TokensShiftLiteral(a, b, k);
      }
    }
  }

  lemma {:induction false} TokensShiftVar(a: string, b: string, k: nat)
    requires k < |b| && IsVar(b[k])
    ensures Tokens(a + b, |a| + k) == Tokens(b, k)
    decreases |b| - k, 0
  {
    var s := a + b;
    assert s[|a| + k] == b[k];
    TokensShift(a, b, k + 1);
    assert Tokens(s, |a| + k) == [Variable(b[k])] + Tokens(s, |a| + k + 1);
  }

  lemma {:induction false} TokensShiftLiteral(a: string, b: string, k: nat)
    requires k < |b| && !IsVar(b[k])
    ensures Tokens(a + b, |a| + k) == Tokens(b, k)
    decreases |b| - k, 0
  {
    var s := a + b;
    assert s[|a| + k] == b[k];
    var j := NextVar(b, k);
    NextVarShift(a, b, k);
    TokensShift(a, b, j);
    assert s[|a| + k..|a| + j] == b[k..j];
    assert Tokens(s, |a| + k) == [Literal(s[|a| + k..|a| + j])] + Tokens(s, |a| + j);
  }

  /** Tokenising what a canonical token list spells gives the list back. */
  lemma {:induction false} TokeniseSpell(ts: seq<Token>)
    requires Canonical(ts)
    ensures Tokenise(Spell(ts)) == ts
    decreases |ts|
  {
    if ts != [] {
      var head := Spelling(ts[0]);
      var tail := Spell(ts[1..]);
      var s := head + tail;
      assert Canonical(ts[1..]) by {
        assert forall i | 0 <= i < |ts| - 1 :: ts[1..][i] == ts[i + 1];
      }
      TokeniseSpell(ts[1..]);
      TokensShift(head, tail, 0);
      if ts[0].Variable? {
        assert s[0] == ts[0].v;
      } else {
        LiteralHead(ts);
      }
    }
  }

  /** A canonical list starting with a literal: the literal is the first variable-free run of its spelling. */
  lemma LiteralHead(ts: seq<Token>)
    requires Canonical(ts) && ts != [] && ts[0].Literal?
    ensures var s := Spell(ts); var head := ts[0].text;
      0 < |s| && !IsVar(s[0]) && NextVar(s, 0) == |head| && s[0..|head|] == head
  {
    var head := ts[0].text;
    var tail := Spell(ts[1..]);
    var s := head + tail;
    assert Spell(ts) == s;
    assert forall k | 0 <= k < |head| :: s[k] == head[k];
    if tail != [] {
      assert ts[1].Variable?;
      assert tail == [ts[1].v] + Spell(ts[2..]);
      assert s[|head|] == ts[1].v;
    }
    assert s[..|head|] == head;
    NextVarStops(s, head, 0);
  }

  /** NextVar runs over a variable-free prefix. */
  lemma {:induction false} NextVarStops(s: string, head: string, k: nat)
    requires k <= |head| <= |s| && s[..|head|] == head
    requires forall i | 0 <= i < |head| :: !IsVar(head[i])
    requires |head| < |s| ==> IsVar(s[|head|])
    ensures NextVar(s, k) == |head|
    decreases |head| - k
  {
    if k < |head| {
      assert s[k] == head[k];
      NextVarStops(s, head, k + 1);
    }
  }

  predicate ConsumerAt(ts: seq<Token>, i: nat)
    requires i < |ts|
  {
    ts[i].Variable? && IsConsumer(ts[i].v)
  }

  /** The last consumer among tokens 0..n-1, scanning down from n. */
  function LastConsumer(ts: seq<Token>, n: nat): (r: Option<nat>)
    requires n <= |ts|
    ensures r.Some? ==> r.value < n && ConsumerAt(ts, r.value)
    ensures r.Some? ==> forall j | r.value < j < n :: !ConsumerAt(ts, j)
    ensures r.None? ==> forall j | 0 <= j < n :: !ConsumerAt(ts, j)
  {
    if n == 0 then None
    else if ConsumerAt(ts, n - 1) then Some(n - 1)
    else LastConsumer(ts, n - 1)
  }

  /** maxConsumer: the index of the last '?', '/' or '*' token, if there is one. */
  function MaxConsumer(ts: seq<Token>): (r: Option<nat>)
    ensures r.Some? ==> r.value < |ts| && ConsumerAt(ts, r.value)
    ensures r.Some? ==> forall j | r.value < j < |ts| :: !ConsumerAt(ts, j)
    ensures r.None? ==> forall j | 0 <= j < |ts| :: !ConsumerAt(ts, j)
  {
    LastConsumer(ts, |ts|)
  }

  /** A token that needs a rule: '?' or ':'. */
  predicate RuleAt(ts: seq<Token>, i: nat)
    requires i < |ts|
  {
    ts[i].Variable? && (ts[i].v == '?' || ts[i].v == ':')
  }

  /** The number of rule tokens among i..n-1. */
  function RulesBetween(ts: seq<Token>, i: nat, n: nat): nat
    requires n <= |ts|
    decreases n - i
  {
    if n <= i then 0 else (if RuleAt(ts, i) then 1 else 0) + RulesBetween(ts, i + 1, n)
  }

  /** The rule variables of tokens i.., in order. */
  function RuleVarsFrom(ts: seq<Token>, i: nat): (r: seq<char>)
    requires i <= |ts|
    ensures |r| == RulesBetween(ts, i, |ts|)
    decreases |ts| - i
  {
    if i == |ts| then []
    else if RuleAt(ts, i) then [ts[i].v] + RuleVarsFrom(ts, i + 1)
    else RuleVarsFrom(ts, i + 1)
  }

  /** rulevars: the '?' and ':' variables of the replacement, in order. */
  function RuleVars(ts: seq<Token>): seq<char>
  {
    RuleVarsFrom(ts, 0)
  }

  /** Rule tokens before and after a split point add up. */
  lemma {:induction false} RulesBetweenSplit(ts: seq<Token>, i: nat, m: nat, n: nat)
    requires i <= m <= n <= |ts|
    ensures RulesBetween(ts, i, n) == RulesBetween(ts, i, m) + RulesBetween(ts, m, n)
    decreases m - i
  {
    if i < m {
      RulesBetweenSplit(ts, i + 1, m, n);
    }
  }

  /** The rule token at k is rule variable number RulesBetween(ts, i, k). */
  lemma {:induction false} RuleVarsIndex(ts: seq<Token>, i: nat, k: nat)
    requires i <= k < |ts| && RuleAt(ts, k)
    ensures RulesBetween(ts, i, k) < |RuleVarsFrom(ts, i)|
    ensures RuleVarsFrom(ts, i)[RulesBetween(ts, i, k)] == ts[k].v
    decreases k - i
  {
    RulesBetweenSplit(ts, i, k, |ts|);
    RulesBetweenSplit(ts, k, k + 1, |ts|);
    if i < k {
      RuleVarsIndex(ts, i + 1, k);
    }
  }

  /** The first -O index greater than maxFloat, from position i on. */
  function TooLarge(order: seq<int>, maxFloat: int, i: nat): (r: Option<nat>)
    requires i <= |order|
    ensures r.Some? ==> i <= r.value < |order| && order[r.value] > maxFloat
    ensures r.Some? ==> forall k | i <= k < r.value :: order[k] <= maxFloat
    ensures r.None? ==> forall k | i <= k < |order| :: order[k] <= maxFloat
    decreases |order| - i
  {
    if i == |order| then None
    else if order[i] > maxFloat then Some(i)
    else TooLarge(order, maxFloat, i + 1)
  }

  /**
   * The completion loop: each index from idx to maxFloat that the list does
   * not hold yet is appended while missing has not gone negative; missing
   * counts down with every append.
   */
  function Fill(acc: seq<int>, maxFloat: int, idx: nat, missing: int): (r: seq<int>)
    ensures |acc| <= |r| && r[..|acc|] == acc
    ensures forall k | |acc| <= k < |r| :: idx <= r[k] <= maxFloat && r[k] !in acc
    decreases if idx <= maxFloat then maxFloat + 1 - idx else 0
  {
    if maxFloat < idx || missing < 0 then acc
    else if idx in acc then Fill(acc, maxFloat, idx + 1, missing)
    else
      var r := Fill(acc + [idx], maxFloat, idx + 1, missing - 1);
      assert r[..|acc|] == (acc + [idx])[..|acc|];
      r
  }

  /**
   * -O: every index must be at most maxFloat; the indices not named are
   * then appended in increasing order, as many as maxFloat + 1 minus the
   * number named, plus one more when any is left.
   */
  function CompleteOrder(order: seq<int>, maxFloat: int): (r: Result<seq<int>, CompileError>)
    ensures r.Err? <==> exists k | 0 <= k < |order| :: order[k] > maxFloat
    ensures r.Err? ==> r.error.OrderTooLarge? && r.error.index in order && r.error.index > maxFloat
    ensures r.Ok? ==> |order| <= |r.value| && r.value[..|order|] == order
    ensures r.Ok? ==> forall k | 0 <= k < |r.value| :: r.value[k] <= maxFloat
    ensures r.Ok? ==> forall k | |order| <= k < |r.value| :: 0 <= r.value[k] && r.value[k] !in order
  {
    if order == [] then Ok([])
    else
      match TooLarge(order, maxFloat, 0)
      case Some(i) => Err(OrderTooLarge(order[i]))
      case None => Ok(Fill(order, maxFloat, 0, maxFloat + 1 - |order|))
  }

  predicate Distinct(s: seq<int>)
  {
    forall i, j | 0 <= i < j < |s| :: s[i] != s[j]
  }

  /** The number of indices in lo..hi-1 that s does not hold. */
  function Absent(s: seq<int>, lo: int, hi: int): nat
    decreases if lo < hi then hi - lo else 0
  {
    if hi <= lo then 0 else (if lo in s then 0 else 1) + Absent(s, lo + 1, hi)
  }

  /** Adding a new index in the range removes one absentee. */
  lemma {:induction false} AbsentAdd(s: seq<int>, x: int, lo: int, hi: int)
    requires x !in s && lo <= x < hi
    ensures Absent(s + [x], lo, hi) + 1 == Absent(s, lo, hi)
    decreases hi - lo
  {
    if lo < x {
      AbsentAdd(s, x, lo + 1, hi);
    } else {
      AbsentOutside(s, x, lo + 1, hi);
    }
  }

  /** Adding an index below the range changes nothing in it. */
  lemma {:induction false} AbsentOutside(s: seq<int>, x: int, lo: int, hi: int)
    requires x < lo
    ensures Absent(s + [x], lo, hi) == Absent(s, lo, hi)
    decreases if lo < hi then hi - lo else 0
  {
    if lo < hi {
      assert lo in s + [x] <==> lo in s;
      AbsentOutside(s, x, lo + 1, hi);
    }
  }

  lemma {:induction false} AbsentEmpty(lo: int, hi: int)
    ensures Absent([], lo, hi) == if lo < hi then hi - lo else 0
    decreases if lo < hi then hi - lo else 0
  {
    if lo < hi {
      AbsentEmpty(lo + 1, hi);
    }
  }

  /** Distinct indices in lo..hi-1 and the absentees make up the whole range. */
  lemma {:induction false} AbsentDistinct(s: seq<int>, lo: int, hi: int)
    requires lo <= hi && Distinct(s) && forall k | 0 <= k < |s| :: lo <= s[k] < hi
    ensures Absent(s, lo, hi) + |s| == hi - lo
    decreases |s|
  {
    if s == [] {
      AbsentEmpty(lo, hi);
    } else {
      var t := s[..|s| - 1];
      var x := s[|s| - 1];
      assert s == t + [x];
      assert x !in t by {
        forall k | 0 <= k < |t| ensures t[k] != x {
          assert t[k] == s[k];
        }
      }
      AbsentDistinct(t, lo, hi);
      AbsentAdd(t, x, lo, hi);
    }
  }

  /** The loop's invariant while it completes a list of distinct in-range indices. */
  predicate FillInvariant(acc: seq<int>, maxFloat: int, idx: nat, missing: int)
  {
    && idx <= maxFloat + 1
    && Distinct(acc)
    && (forall k | 0 <= k < |acc| :: 0 <= acc[k] <= maxFloat)
    && (forall k | 0 <= k < idx :: k in acc)
    && missing == maxFloat + 1 - |acc|
    && missing == Absent(acc, idx, maxFloat + 1)
  }

  /** Appending the absent index idx keeps the invariant. */
  lemma FillAppend(acc: seq<int>, maxFloat: int, idx: nat, missing: int)
    requires FillInvariant(acc, maxFloat, idx, missing) && idx <= maxFloat && idx !in acc
    ensures FillInvariant(acc + [idx], maxFloat, idx + 1, missing - 1)
  {
    var acc' := acc + [idx];
    AbsentOutside(acc, idx, idx + 1, maxFloat + 1);
    assert Distinct(acc') by {
      forall i, j | 0 <= i < j < |acc'| ensures acc'[i] != acc'[j] {
        assert acc'[i] == acc[i];
      }
    }
    forall k | 0 <= k < idx + 1 ensures k in acc' {
      if k < idx {
        assert k in acc;
      } else {
        assert acc'[|acc|] == k;
      }
    }
  }

  /** Passing over an index the list already holds keeps the invariant. */
  lemma FillSkip(acc: seq<int>, maxFloat: int, idx: nat, missing: int)
    requires FillInvariant(acc, maxFloat, idx, missing) && idx <= maxFloat && idx in acc
    ensures FillInvariant(acc, maxFloat, idx + 1, missing)
  {
  }

  lemma {:induction false} FillComplete(acc: seq<int>, maxFloat: int, idx: nat, missing: int)
    requires FillInvariant(acc, maxFloat, idx, missing)
    ensures FillInvariant(Fill(acc, maxFloat, idx, missing), maxFloat, maxFloat + 1, 0)
    decreases maxFloat + 1 - idx, 1
  {
    if idx <= maxFloat {
      if idx in acc {
        FillCompleteSkip(acc, maxFloat, idx, missing);
      } else {
        FillCompleteAppend(acc, maxFloat, idx, missing);
      }
    }
  }

  lemma {:induction false} FillCompleteSkip(acc: seq<int>, maxFloat: int, idx: nat, missing: int)
    requires FillInvariant(acc, maxFloat, idx, missing) && idx <= maxFloat && idx in acc
    ensures FillInvariant(Fill(acc, maxFloat, idx, missing), maxFloat, maxFloat + 1, 0)
    decreases maxFloat + 1 - idx, 0
  {
    FillSkip(acc, maxFloat, idx, missing);
    FillComplete(acc, maxFloat, idx + 1, missing);
    assert Fill(acc, maxFloat, idx, missing) == Fill(acc, maxFloat, idx + 1, missing);
  }

  lemma {:induction false} FillCompleteAppend(acc: seq<int>, maxFloat: int, idx: nat, missing: int)
    requires FillInvariant(acc, maxFloat, idx, missing) && idx <= maxFloat && idx !in acc
    ensures FillInvariant(Fill(acc, maxFloat, idx, missing), maxFloat, maxFloat + 1, 0)
    decreases maxFloat + 1 - idx, 0
  {
    FillAppend(acc, maxFloat, idx, missing);
    FillComplete(acc + [idx], maxFloat, idx + 1, missing - 1);
    assert Fill(acc, maxFloat, idx, missing) == Fill(acc + [idx], maxFloat, idx + 1, missing - 1);
  }

  /**
   * With distinct indices, the completed order is a permutation of
   * 0..maxFloat: each floater index exactly once.
   */
  lemma CompleteOrderPermutation(order: seq<int>, maxFloat: int)
    requires order != [] && Distinct(order)
    requires forall k | 0 <= k < |order| :: 0 <= order[k] <= maxFloat
    ensures CompleteOrder(order, maxFloat).Ok?
    ensures var r := CompleteOrder(order, maxFloat).value;
      && |r| == maxFloat + 1 && Distinct(r)
      && forall i | 0 <= i <= maxFloat :: i in r
  {
    assert 0 <= order[0] <= maxFloat;
    AbsentDistinct(order, 0, maxFloat + 1);
    FillComplete(order, maxFloat, 0, maxFloat + 1 - |order|);
  }

  /** With a repeated index, an index can be left out: [0, 0, 0] of three floaters completes to [0, 0, 0, 1]. */
  lemma CompleteOrderDuplicateExample()
    ensures CompleteOrder([0, 0, 0], 2) == Ok([0, 0, 0, 1])
  {
    var acc := [0, 0, 0];
    assert 1 !in acc;
    assert Fill(acc + [1], 2, 2, -1) == acc + [1];
    assert Fill(acc, 2, 1, 0) == acc + [1];
    assert Fill(acc, 2, 0, 0) == Fill(acc, 2, 1, 0);
    assert acc + [1] == [0, 0, 0, 1];
  }

  /** Everything the native mode compiles from the command line before it looks at a file. */
  datatype Compiled = Compiled(filter: Filter, order: seq<int>, tokens: seq<Token>, maxConsumer: Option<nat>, rules: seq<Rule>)

  /**
   * The compile after the filter: the -O check and completion (only when -O
   * was given), then the replacement's tokens, and last the rule arguments
   * against its '?' and ':' variables.
   */
  function CompileNativeFrom(filter: Result<Filter, CompileError>, aRep: string, ruleArgs: seq<string>, order: seq<int>)
    : (r: Result<Compiled, CompileError>)
    requires RuleArgs(ruleArgs)
    ensures filter.Err? ==> r == Err(filter.error)
    ensures r.Ok? ==> filter == Ok(r.value.filter)
    ensures r.Ok? ==> Spell(r.value.tokens) == aRep && Canonical(r.value.tokens)
    ensures r.Ok? ==> |order| <= |r.value.order| && r.value.order[..|order|] == order
    ensures r.Ok? ==> forall k | 0 <= k < |order| :: order[k] <= r.value.filter.maxFloat
    ensures r.Ok? ==> |r.value.rules| == |ruleArgs| == |RuleVars(r.value.tokens)|
    ensures r.Ok? ==> forall i | 0 <= i < |r.value.rules| ::
      && RuleVar(r.value.rules[i]) == RuleVars(r.value.tokens)[i]
      && ruleArgs[i] != [] && Letter(r.value.rules[i]) == ruleArgs[i][0]
    ensures r.Ok? ==> match r.value.maxConsumer
      case Some(m) => m < |r.value.tokens| && ConsumerAt(r.value.tokens, m)
        && forall j | m < j < |r.value.tokens| :: !ConsumerAt(r.value.tokens, j)
      case None => forall j | 0 <= j < |r.value.tokens| :: !ConsumerAt(r.value.tokens, j)
  {
    match filter
    case Err(e) => Err(e)
    case Ok(f) =>
      var done := if order == [] then Ok([]) else CompleteOrder(order, f.maxFloat);
      match done
      case Err(e) => Err(e)
      case Ok(full) =>
        var tokens := Tokenise(aRep);
        match CompileRules(ruleArgs, RuleVars(tokens))
        case Err(e) => Err(e)
        case Ok(rules) => Ok(Compiled(f, full, tokens, MaxConsumer(tokens), rules))
  }

  /**
   * The native compile as written: the filter's semantic rules may name the
   * group after their own. Otherwise it accepts, refuses and builds exactly
   * what the corrected compile does.
   */
  function CompileNative(arg: string, aRep: string, ruleArgs: seq<string>, order: seq<int>)
    : (r: Result<Compiled, CompileError>)
    requires LiteralSafe(arg) && RuleArgs(ruleArgs)
    ensures r.Ok? <==> CompileNativeIntended(arg, aRep, ruleArgs, order).Ok?
    ensures r.Err? ==> r == CompileNativeIntended(arg, aRep, ruleArgs, order)
    ensures r.Ok? ==> r.value == CompileNativeIntended(arg, aRep, ruleArgs, order).value.(filter := r.value.filter)
  {
    CompileNativeFrom(CompileFilter(arg, aRep), aRep, ruleArgs, order)
  }

  /** The native compile with the corrected filter. */
  function CompileNativeIntended(arg: string, aRep: string, ruleArgs: seq<string>, order: seq<int>)
    : (r: Result<Compiled, CompileError>)
    requires LiteralSafe(arg) && RuleArgs(ruleArgs)
  {
    CompileNativeFrom(CompileFilterIntended(arg, aRep), aRep, ruleArgs, order)
  }

  /** A compiled native setup whose filter can be applied to names. */
  predicate Ready(c: Compiled)
  {
    && WellFormed(c.filter) && Canonical(c.tokens)
    && -1 <= c.filter.maxFloat && Pattern.CaptureCount(c.filter.elems) == c.filter.maxFloat + 1
    && |c.rules| == |RuleVars(c.tokens)|
    && (forall i | 0 <= i < |c.rules| :: RuleVar(c.rules[i]) == RuleVars(c.tokens)[i])
    && c.maxConsumer == MaxConsumer(c.tokens)
  }

  /** The compile after a well-formed filter gives a ready setup. */
  lemma NativeFromReady(filter: Result<Filter, CompileError>, aRep: string, ruleArgs: seq<string>, order: seq<int>)
    requires RuleArgs(ruleArgs)
    requires filter.Ok? ==> WellFormed(filter.value) && Pattern.CaptureCount(filter.value.elems) == filter.value.maxFloat + 1
    ensures CompileNativeFrom(filter, aRep, ruleArgs, order).Ok? ==> Ready(CompileNativeFrom(filter, aRep, ruleArgs, order).value)
  {
  }

  /**
   * Both native compiles, when they succeed, give a setup ready to apply: a
   * well-formed filter with one floater per capture and one rule per rule
   * variable, of the kind that variable serves.
   */
  lemma CompileNativeReady(arg: string, aRep: string, ruleArgs: seq<string>, order: seq<int>)
    requires LiteralSafe(arg) && RuleArgs(ruleArgs)
    ensures CompileNative(arg, aRep, ruleArgs, order).Ok? ==> Ready(CompileNative(arg, aRep, ruleArgs, order).value)
    ensures CompileNativeIntended(arg, aRep, ruleArgs, order).Ok? ==>
      Ready(CompileNativeIntended(arg, aRep, ruleArgs, order).value)
  {
    CompileFilterWellFormed(arg, aRep);
    var filArg := BasePart(arg);
    var tag := if filArg != [] && EndsStarDot(filArg) then 2 else 1;
    if CompileFilter(arg, aRep).Ok? {
      CompileFilterShape(arg, aRep, tag);
    }
    if CompileFilterIntended(arg, aRep).Ok? {
      CompileFilterShape(arg, aRep, 1);
    }
    NativeFromReady(CompileFilter(arg, aRep), aRep, ruleArgs, order);
    NativeFromReady(CompileFilterIntended(arg, aRep), aRep, ruleArgs, order);
  }
}
