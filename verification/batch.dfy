/**
 * The decisions procDir takes for one directory (rene/rene.py procDir).
 * The names are visited in the order given; each one is either left alone
 * or paired with a new name. The new names accepted so far form the batch,
 * which starts empty in every directory: a proposal that collides with an
 * existing file (other than the file itself) or with the batch goes to
 * collision avoidance, except that the stop and continue policies refuse a
 * collision with an existing file outright. The rules are threaded from file
 * to file, so Insert counters keep counting through the directory.
 */
module Batch {
  import opened Wrappers
  import opened Text
  import opened Params
  import opened FilterCompile
  import opened Replacement
  import opened Synth
  import Avoid

  // ---------------------------------------------------------------------
  // Substitution mode (-S).

  /**
   * One substitution operation: U or u makes the name upper case, L or l
   * lower case, any other two-character operation replaces its first
   * character by its second, or deletes it when the two are the same;
   * anything else changes nothing.
   */
  function SubstOne(name: string, op: string): (r: string)
    ensures Upper(op) == "U" ==> |r| == |name| && forall i | 0 <= i < |r| :: !IsLower(r[i])
    ensures Upper(op) != "U" && Upper(op) == "L" ==> |r| == |name| && forall i | 0 <= i < |r| :: !IsUpper(r[i])
    ensures Upper(op) != "U" && Upper(op) != "L" && |op| == 2 ==> op[0] !in r || op[0] == op[1]
    ensures Upper(op) != "U" && Upper(op) != "L" && |op| != 2 ==> r == name
  {
    if Upper(op) == "U" then UpperHasNoLower(name); Upper(name)
    else if Upper(op) == "L" then LowerHasNoUpper(name); Lower(name)
    else if |op| == 2 then
      if op[0] != op[1] then ReplaceCharWithOther(name, op[0], op[1]); ReplaceChar(name, op[0], [op[1]])
      else ReplaceCharDeletes(name, op[0]); ReplaceChar(name, op[0], [])
    else name
  }

  /** The operations of -S applied in order, each to the result of the one before. */
  function Subst(ops: seq<string>, name: string): (r: string)
    ensures (forall k | 0 <= k < |ops| :: Inert(ops[k])) ==> r == name
    decreases |ops|
  {
    if ops == [] then name
    else
      assert forall k | 0 <= k < |ops[1..]| :: ops[1..][k] == ops[k + 1];
      Subst(ops[1..], SubstOne(name, ops[0]))
  }

  /** An operation -S does not recognise: neither a case change nor two characters. */
  predicate Inert(op: string)
  {
    Upper(op) != "U" && Upper(op) != "L" && |op| != 2
  }

  /** The last operation decides the case: after a final U no letter is lower case, after a final L none is upper case. */
  lemma SubstLastCase(ops: seq<string>, name: string)
    requires ops != []
    ensures Upper(ops[|ops| - 1]) == "U" ==> forall i | 0 <= i < |Subst(ops, name)| :: !IsLower(Subst(ops, name)[i])
    ensures Upper(ops[|ops| - 1]) == "L" ==> forall i | 0 <= i < |Subst(ops, name)| :: !IsUpper(Subst(ops, name)[i])
    ensures |ops[|ops| - 1]| == 2 && ops[|ops| - 1][0] != ops[|ops| - 1][1] && Upper(ops[|ops| - 1]) != "U" && Upper(ops[|ops| - 1]) != "L"
            ==> ops[|ops| - 1][0] !in Subst(ops, name)
  {
    var front := ops[..|ops| - 1];
    var last := ops[|ops| - 1];
    assert ops == front + [last];
    SubstAppend(front, [last], name);
    assert Subst(ops, name) == SubstOne(Subst(front, name), last);
  }

  lemma UpperHasNoLower(s: string)
    ensures forall i | 0 <= i < |Upper(s)| :: !IsLower(Upper(s)[i])
  {
  }

  lemma LowerHasNoUpper(s: string)
    ensures forall i | 0 <= i < |Lower(s)| :: !IsUpper(Lower(s)[i])
  {
  }

  /** Case changes on ASCII forget the previous case: lowering an upper-cased name lowers the name. */
  lemma CaseForgets(s: string)
    ensures Lower(Upper(s)) == Lower(s)
    ensures Upper(Lower(s)) == Upper(s)
    ensures Upper(Upper(s)) == Upper(s) && Lower(Lower(s)) == Lower(s)
  {
  }

  /** Replacing a character by another rewrites exactly the positions that held it. */
  lemma {:induction false} ReplaceCharPointwise(s: string, a: char, b: char)
    ensures |ReplaceChar(s, a, [b])| == |s|
    ensures forall i | 0 <= i < |s| :: ReplaceChar(s, a, [b])[i] == if s[i] == a then b else s[i]
    decreases |s|
  {
    if s != [] {
      ReplaceCharPointwise(s[1..], a, b);
      var r := ReplaceChar(s, a, [b]);
      assert r == [if s[0] == a then b else s[0]] + ReplaceChar(s[1..], a, [b]);
      forall i | 0 <= i < |s|
        ensures r[i] == if s[i] == a then b else s[i]
      {
        if 0 < i {
          assert r[i] == ReplaceChar(s[1..], a, [b])[i - 1];
          assert s[1..][i - 1] == s[i];
        }
      }
    }
  }

  lemma ReplaceCharWithOther(s: string, a: char, b: char)
    requires a != b
    ensures a !in ReplaceChar(s, a, [b])
  {
    ReplaceCharPointwise(s, a, b);
    var r := ReplaceChar(s, a, [b]);
    assert forall i | 0 <= i < |r| :: r[i] != a;
  }

  /** Deleting a character removes every occurrence of it and nothing else. */
  lemma {:induction false} ReplaceCharDeletes(s: string, a: char)
    ensures multiset(ReplaceChar(s, a, [])) == multiset(s)[a := 0]
    ensures a !in ReplaceChar(s, a, [])
    decreases |s|
  {
    if s != [] {
      var rest := ReplaceChar(s[1..], a, []);
      ReplaceCharDeletes(s[1..], a);
      assert s == [s[0]] + s[1..];
      assert multiset(s) == multiset([s[0]]) + multiset(s[1..]);
      if s[0] == a {
        assert ReplaceChar(s, a, []) == rest;
      } else {
        assert ReplaceChar(s, a, []) == [s[0]] + rest;
        assert multiset([s[0]] + rest) == multiset([s[0]]) + multiset(rest);
      }
    }
  }

  /** Replacement works on each part of a name separately. */
  lemma {:induction false} ReplaceCharAppend(x: string, y: string, a: char, with: string)
    ensures ReplaceChar(x + y, a, with) == ReplaceChar(x, a, with) + ReplaceChar(y, a, with)
    decreases |x|
  {
    if x != [] {
      ReplaceCharAppend(x[1..], y, a, with);
      assert (x + y)[1..] == x[1..] + y;
    } else {
      assert x + y == y;
    }
  }

  /** Operations compose left to right: the ops of a split list apply one part after the other. */
  lemma {:induction false} SubstAppend(p: seq<string>, q: seq<string>, name: string)
    ensures Subst(p + q, name) == Subst(q, Subst(p, name))
    decreases |p|
  {
    if p != [] {
      assert (p + q)[1..] == p[1..] + q;
      SubstAppend(p[1..], q, SubstOne(name, p[0]));
    } else {
      assert p + q == q;
    }
  }

  // ---------------------------------------------------------------------
  // What the mode proposes for one name.

  /** The renaming mode: substitution operations, or a compiled native setup with its case folding. */
  datatype Mode = Substitute(ops: seq<string>) | Native(setup: Compiled, fold: bool)

  predicate ModeOk(m: Mode)
  {
    m.Native? ==> WellFormed(m.setup.filter)
  }

  /**
   * The file system as procDir sees it: the names that exist in the
   * directory, the same-file test, and the -F exclusion test.
   */
  datatype Env = Env(disk: set<string>, same: (string, string) -> bool, excluded: string -> bool)

  /** The collision policy: stop or continue on a collision with an existing file, and the avoidance scheme. */
  datatype Policy = Policy(stop: bool, cont: bool, scheme: Avoid.Scheme)

  datatype Proposal =
    | Skipped(rules: seq<Rule>)                  // excluded, not selected, or synthesized empty
    | Proposed(name: string, rules: seq<Rule>)   // a new name to decide on
    | Failed                                     // the synthesiser raised

  /** The mode's proposal for one name, with the rules as the synthesiser leaves them. */
  function Propose(env: Env, mode: Mode, rules: seq<Rule>, name: string): (r: Proposal)
    requires ModeOk(mode)
    ensures env.excluded(name) ==> r == Skipped(rules)
    ensures mode.Substitute? && !env.excluded(name) ==> r == Proposed(Subst(mode.ops, name), rules)
    ensures mode.Native? && r.Proposed? ==> r.name != []
    ensures mode.Native? && !env.excluded(name) && Synthesize(mode.setup, rules, name, mode.fold).Rejected? ==>
      r == Skipped(rules)
    ensures mode.Native? && !env.excluded(name) ==>
      (r.Proposed? <==> Synthesize(mode.setup, rules, name, mode.fold).Produced?
                        && Synthesize(mode.setup, rules, name, mode.fold).name != [])
  {
    if env.excluded(name) then Skipped(rules)
    else
      match mode
      case Substitute(ops) => Proposed(Subst(ops, name), rules)
      case Native(setup, fold) =>
        match Synthesize(setup, rules, name, fold)
        case Rejected => Skipped(rules)
        case Fault => Failed
        case Produced(n, rs, _) =>
          if n == [] then Skipped(rs) else Proposed(n, rs)
  }

  // ---------------------------------------------------------------------
  // The collision policy for one proposal.

  datatype Decision =
    | Unchanged          // the proposal is the current name
    | Take(name: string) // rename to this name
    | Collide            // an existing file is in the way and the policy refuses
    | GiveUp             // avoidance found nothing, or the name came out empty
    | Raise              // avoidance raised

  /** A proposal collides with an existing file unless that file is the file being renamed. */
  predicate OnDisk(env: Env, orig: string, name: string)
  {
    name in env.disk && !env.same(orig, name)
  }

  /** The decision for a proposal, given the batch of new names accepted before it. */
  function Decide(env: Env, p: Policy, batch: seq<string>, orig: string, proposed: string): (r: Decision)
    ensures r.Unchanged? <==> proposed == orig
    ensures r.Collide? <==> proposed != orig && OnDisk(env, orig, proposed) && (p.stop || p.cont)
    ensures r.Take? ==> r.name != [] && r.name !in batch && !OnDisk(env, orig, r.name)
    ensures r.Take? && r.name != proposed ==> r.name !in env.disk
    ensures r == Take(proposed) <==> proposed != orig && proposed != [] && proposed !in batch && !OnDisk(env, orig, proposed)
  {
    if proposed == orig then Unchanged
    else if OnDisk(env, orig, proposed) && (p.stop || p.cont) then Collide
    else if OnDisk(env, orig, proposed) || proposed in batch then
      match Avoid.Avoid(p.scheme, proposed, batch, env.disk).result
      case Resolved(n) => if n == [] then GiveUp else Take(n)
      case Unresolved => GiveUp
      case Fault => Raise
    else if proposed == [] then GiveUp
    else Take(proposed)
  }

  // ---------------------------------------------------------------------
  // The loop over the directory.

  datatype DirResult =
    | Finished(pairs: seq<(string, string)>, rules: seq<Rule>)  // the renames, in order, and the rules after them
    | Halted                                                  // the stop policy met a collision: procDir returns 1
    | Crashed                                                 // Python raised

  function News(pairs: seq<(string, string)>): (r: seq<string>)
    ensures |r| == |pairs| && forall k | 0 <= k < |pairs| :: r[k] == pairs[k].1
  {
    seq(|pairs|, k requires 0 <= k < |pairs| => pairs[k].1)
  }

  function Olds(pairs: seq<(string, string)>): (r: seq<string>)
    ensures |r| == |pairs| && forall k | 0 <= k < |pairs| :: r[k] == pairs[k].0
  {
    seq(|pairs|, k requires 0 <= k < |pairs| => pairs[k].0)
  }

  /** What one file does to the loop: carry on with a batch and rules, or end the directory. */
  datatype Progress = Go(pairs: seq<(string, string)>, rules: seq<Rule>) | Stop(result: DirResult)

  /** The mode's proposals as a function of the rules and the name. */
  type Proposer = (seq<Rule>, string) -> Proposal

  /** Propose for a fixed mode; the guard only makes the function total, ProcDir rules it out. */
  function ProposerOf(env: Env, mode: Mode): (f: Proposer)
    ensures ModeOk(mode) ==> forall rules, name :: f(rules, name) == Propose(env, mode, rules, name)
  {
    (rules: seq<Rule>, name: string) => if ModeOk(mode) then Propose(env, mode, rules, name) else Failed
  }

  /** One pass of procDir's loop body for the file orig. */
  function FileStep(env: Env, p: Policy, propose: Proposer, orig: string, pairs: seq<(string, string)>, rules: seq<Rule>)
    : (r: Progress)
    ensures r.Stop? ==> r.result.Halted? || r.result.Crashed?
    ensures r.Go? ==> pairs <= r.pairs && |r.pairs| <= |pairs| + 1
  {
    match propose(rules, orig)
    case Failed => Stop(Crashed)
    case Skipped(rs) => Go(pairs, rs)
    case Proposed(proposed, rs) =>
      match Decide(env, p, News(pairs), orig, proposed)
      case Unchanged => Go(pairs, rs)
      case Collide => if p.stop then Stop(Halted) else Go(pairs, rs)
      case GiveUp => if p.stop then Stop(Halted) else Go(pairs, rs)
      case Raise => Stop(Crashed)
      case Take(n) => Go(pairs + [(orig, n)], rs)
  }

  /** Names i.. of the directory, with the pairs accepted so far and the rules as they stand. */
  function Loop(env: Env, p: Policy, propose: Proposer, names: seq<string>, i: nat,
                pairs: seq<(string, string)>, rules: seq<Rule>): (r: DirResult)
    requires i <= |names|
    ensures r.Finished? ==> pairs <= r.pairs && |r.pairs| <= |pairs| + (|names| - i)
    decreases |names| - i
  {
    if i == |names| then Finished(pairs, rules)
    else
      match FileStep(env, p, propose, names[i], pairs, rules)
      case Go(ps, rs) => Loop(env, p, propose, names, i + 1, ps, rs)
      case Stop(result) => result
  }

  /** procDir for one directory: the batch starts empty. */
  function ProcDir(env: Env, p: Policy, mode: Mode, rules: seq<Rule>, names: seq<string>): (r: DirResult)
    requires ModeOk(mode)
    ensures r.Finished? ==> |r.pairs| <= |names|
    ensures names == [] ==> r == Finished([], rules)
  {
    Loop(env, p, ProposerOf(env, mode), names, 0, [], rules)
  }

  // ---------------------------------------------------------------------
  // What the loop guarantees.

  predicate AllDistinct(s: seq<string>)
  {
    forall j, k | 0 <= j < k < |s| :: s[j] != s[k]
  }

  /** a is a subsequence of b: what remains of b after dropping some of its entries. */
  predicate Sub(a: seq<string>, b: seq<string>)
    decreases |b|
  {
    a == [] ||
    (b != [] &&
     ((a[|a| - 1] == b[|b| - 1] && Sub(a[..|a| - 1], b[..|b| - 1])) || Sub(a, b[..|b| - 1])))
  }

  /** An accepted rename: a non-empty name that no other existing file has, and a real change for an existing file. */
  predicate Accepted(env: Env, pair: (string, string))
  {
    pair.1 != [] && !OnDisk(env, pair.0, pair.1) && (pair.0 in env.disk ==> pair.1 != pair.0)
  }

  /** The batch so far: distinct new names, each an accepted rename. */
  predicate Safe(env: Env, pairs: seq<(string, string)>)
  {
    AllDistinct(News(pairs)) && forall k | 0 <= k < |pairs| :: Accepted(env, pairs[k])
  }

  lemma NewsAppend(pairs: seq<(string, string)>, pair: (string, string))
    ensures News(pairs + [pair]) == News(pairs) + [pair.1]
    ensures Olds(pairs + [pair]) == Olds(pairs) + [pair.0]
  {
  }

  lemma SafeExtend(env: Env, pairs: seq<(string, string)>, pair: (string, string))
    requires Safe(env, pairs) && pair.1 !in News(pairs) && Accepted(env, pair)
    ensures Safe(env, pairs + [pair])
  {
    NewsAppend(pairs, pair);
    var ns := News(pairs + [pair]);
    forall j, k | 0 <= j < k < |ns|
      ensures ns[j] != ns[k]
    {
      if k == |pairs| {
        assert ns[j] == News(pairs)[j];
      }
    }
  }

  /** A taken decision is an accepted rename that the batch does not hold yet. */
  lemma TakeAccepted(env: Env, p: Policy, batch: seq<string>, orig: string, proposed: string)
    requires Decide(env, p, batch, orig, proposed).Take?
    ensures Accepted(env, (orig, Decide(env, p, batch, orig, proposed).name))
    ensures Decide(env, p, batch, orig, proposed).name !in batch
  {
  }

  lemma SubKeep(a: seq<string>, b: seq<string>, x: string)
    requires Sub(a, b)
    ensures Sub(a, b + [x]) && Sub(a + [x], b + [x])
  {
    assert (b + [x])[..|b|] == b;
    assert (a + [x])[..|a|] == a;
  }

  /**
   * One file keeps the batch safe: a pair it adds is an accepted rename
   * whose new name is not in the batch yet, appended after the pairs of
   * earlier files; only the stop policy halts.
   */
  lemma FileStepSafe(env: Env, p: Policy, propose: Proposer, orig: string, pairs: seq<(string, string)>, rules: seq<Rule>)
    requires Safe(env, pairs)
    ensures FileStep(env, p, propose, orig, pairs, rules).Go? ==>
      var ps := FileStep(env, p, propose, orig, pairs, rules).pairs;
      Safe(env, ps) && (ps == pairs || ps == pairs + [(orig, ps[|ps| - 1].1)])
    ensures FileStep(env, p, propose, orig, pairs, rules) == Stop(Halted) ==> p.stop
  {
    match propose(rules, orig)
    case Failed =>
    case Skipped(rs) =>
    case Proposed(proposed, rs) =>
      match Decide(env, p, News(pairs), orig, proposed)
      case Unchanged =>
      case Collide =>
      case GiveUp =>
      case Raise =>
      case Take(n) =>
        TakeAccepted(env, p, News(pairs), orig, proposed);
        SafeExtend(env, pairs, (orig, n));
        assert (pairs + [(orig, n)])[|pairs|] == (orig, n);
  }

  /**
   * Names i.. of the loop keep the batch safe and the old names in
   * directory order, and only the stop policy halts.
   */
  lemma {:induction false} LoopSafe(env: Env, p: Policy, propose: Proposer, names: seq<string>, i: nat,
                                    pairs: seq<(string, string)>, rules: seq<Rule>)
    requires i <= |names|
    requires Safe(env, pairs) && Sub(Olds(pairs), names[..i])
    ensures Loop(env, p, propose, names, i, pairs, rules).Finished? ==>
      Safe(env, Loop(env, p, propose, names, i, pairs, rules).pairs)
      && Sub(Olds(Loop(env, p, propose, names, i, pairs, rules).pairs), names)
      && pairs <= Loop(env, p, propose, names, i, pairs, rules).pairs
    ensures Loop(env, p, propose, names, i, pairs, rules).Halted? ==> p.stop
    decreases |names| - i
  {
    if i == |names| {
      assert names[..i] == names;
    } else {
      var orig := names[i];
      var step := FileStep(env, p, propose, orig, pairs, rules);
      FileStepSafe(env, p, propose, orig, pairs, rules);
      if step.Go? {
        var ps, rs := step.pairs, step.rules;
        assert Loop(env, p, propose, names, i, pairs, rules) == Loop(env, p, propose, names, i + 1, ps, rs);
        assert Safe(env, ps) && pairs <= ps;
        assert Sub(Olds(ps), names[..i + 1]) by {
          assert names[..i + 1] == names[..i] + [orig];
          SubKeep(Olds(pairs), names[..i], orig);
          if ps != pairs {
            NewsAppend(pairs, (orig, ps[|ps| - 1].1));
          }
        }
        LoopSafe(env, p, propose, names, i + 1, ps, rs);
      } else {
        assert Loop(env, p, propose, names, i, pairs, rules) == step.result;
      }
    }
  }

  /**
   * procDir's batch: the new names are pairwise distinct, each is non-empty
   * and free on disk unless it names the file itself, the old names appear in
   * directory order, and only the stop policy returns 1.
   */
  lemma ProcDirSafe(env: Env, p: Policy, mode: Mode, rules: seq<Rule>, names: seq<string>)
    requires ModeOk(mode)
    ensures ProcDir(env, p, mode, rules, names).Finished? ==>
      Safe(env, ProcDir(env, p, mode, rules, names).pairs) && Sub(Olds(ProcDir(env, p, mode, rules, names).pairs), names)
    ensures ProcDir(env, p, mode, rules, names).Halted? ==> p.stop
  {
    assert names[..0] == [];
    LoopSafe(env, p, ProposerOf(env, mode), names, 0, [], rules);
  }
}
