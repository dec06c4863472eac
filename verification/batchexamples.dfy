/**
 * Worked examples of one directory's batch: the substitution tests of the test
 * suite (rene/renet.py test67 and test68), the collision policies on a
 * proposal that meets an existing file, and the default avoidance of a
 * collision (test29).
 */
module BatchExamples {
  import opened Text
  import opened Params
  import opened Batch
  import Avoid
  import AvoidExamples

  /** A two-character operation is never a case operation: it replaces its first character. */
  lemma PairReplaces(name: string, op: string)
    requires |op| == 2
    ensures SubstOne(name, op) == ReplaceChar(name, op[0], if op[0] != op[1] then [op[1]] else [])
  {
    assert |Upper(op)| == 2;
  }

  /** L lowers the name. */
  lemma LowerOp(name: string, op: string)
    requires op == "L"
    ensures SubstOne(name, op) == Lower(name)
  {
    assert Upper(op) == "L";
  }

  lemma LowerMyTestFile(name: string, low: string)
    requires name == "My_Test_File" && low == "my_test_file"
    ensures Lower(name) == low
  {
  }

  lemma DashMyTestFile(low: string, out: string)
    requires low == "my_test_file" && out == "my-test-file"
    ensures ReplaceChar(low, '_', ['-']) == out
  {
    ReplaceCharPointwise(low, '_', '-');
  }

  /** test67: -SL/_- lowers the name, then turns underscores into dashes. */
  lemma LowerDashExample(ops: seq<string>, name: string, low: string, out: string)
    requires ops == ["L", "_-"] && name == "My_Test_File" && low == "my_test_file" && out == "my-test-file"
    ensures Subst(ops, name) == out
  {
    LowerOp(name, ops[0]);
    LowerMyTestFile(name, low);
    PairReplaces(low, ops[1]);
    DashMyTestFile(low, out);
    assert Subst(ops, name) == Subst(ops[1..], low);
    assert Subst(ops[1..], low) == Subst([], out);
  }

  /** Replacing a character a name does not hold changes nothing. */
  lemma {:induction false} ReplaceCharAbsent(s: string, a: char, with: string)
    requires a !in s
    ensures ReplaceChar(s, a, with) == s
    decreases |s|
  {
    if s != [] {
      assert a !in s[1..] by {
        assert forall k | 0 <= k < |s[1..]| :: s[1..][k] == s[k + 1];
      }
      ReplaceCharAbsent(s[1..], a, with);
      assert s == [s[0]] + s[1..];
    }
  }

  /** Deleting a character after a part that does not hold it keeps the part. */
  lemma DeleteAfter(x: string, y: string, a: char)
    requires a !in x
    ensures ReplaceChar(x + [a] + y, a, []) == x + ReplaceChar(y, a, [])
  {
    var u: string := [a];
    var xu := x + u;
    ReplaceCharAppend(xu, y, a, []);
    ReplaceCharAppend(x, u, a, []);
    ReplaceCharAbsent(x, a, []);
    assert u[1..] == [] && u[0] == a;
    assert ReplaceChar(u, a, []) == [] + ReplaceChar([], a, []);
    assert ReplaceChar(xu, a, []) == x;
  }

  /** test68: -S/__/ deletes every underscore. */
  lemma DeleteExample(ops: seq<string>, name: string, out: string, x: string, y: string, z: string)
    requires ops == ["__"] && name == "My_Test_File" && out == "MyTestFile"
    requires x == "My" && y == "Test" && z == "File"
    ensures Subst(ops, name) == out
  {
    assert '_' !in x && '_' !in y && '_' !in z;
    var rest := y + ['_'] + z;
    assert name == x + ['_'] + rest;
    assert x + (y + z) == out;
    PairReplaces(name, ops[0]);
    DeleteAfter(x, rest, '_');
    DeleteAfter(y, z, '_');
    ReplaceCharAbsent(z, '_', []);
    assert Subst(ops, name) == Subst([], out);
  }

  /**
   * Two files x and y where substitution turns x into y, y already exists
   * and is not x, and y maps to itself: the stop policy halts the
   * directory at x, the continue policy skips x and leaves y unchanged.
   */
  lemma PolicyExample(env: Env, p: Policy, ops: seq<string>, rules: seq<Rule>, x: string, y: string)
    requires Subst(ops, x) == y && Subst(ops, y) == y && x != y
    requires y in env.disk && !env.same(x, y) && !env.excluded(x) && !env.excluded(y)
    requires p.stop || p.cont
    ensures p.stop ==> ProcDir(env, p, Substitute(ops), rules, [x, y]) == Halted
    ensures !p.stop ==> ProcDir(env, p, Substitute(ops), rules, [x, y]) == Finished([], rules)
  {
    var names := [x, y];
    var f := ProposerOf(env, Substitute(ops));
    assert f(rules, x) == Proposed(y, rules);
    assert Decide(env, p, News([]), x, y) == Collide;
    if !p.stop {
      assert FileStep(env, p, f, x, [], rules) == Go([], rules);
      assert f(rules, y) == Proposed(y, rules);
      assert FileStep(env, p, f, y, [], rules) == Go([], rules);
      assert Loop(env, p, f, names, 2, [], rules) == Finished([], rules);
      assert Loop(env, p, f, names, 1, [], rules) == Finished([], rules);
      assert Loop(env, p, f, names, 0, [], rules) == Finished([], rules);
    }
  }

  /**
   * test29: with the default avoidance (the digit 0 appended, then
   * stepped), renaming my-01.png to his-01.png where his-01.png exists
   * renames it to his-010.png.
   */
  lemma DefaultAvoidExample(env: Env, p: Policy, orig: string, proposed: string, disk: set<string>, batch: seq<string>,
                            root: string, ext: string, next: string)
    requires p == Policy(false, false, AvoidExamples.Append) && env.disk == disk && batch == []
    requires orig == "my-01.png" && proposed == "his-01.png" && disk == {"his-01.png"}
    requires root == "his-01" && ext == ".png" && next == "his-010"
    requires !env.same(orig, proposed)
    ensures Decide(env, p, batch, orig, proposed) == Take("his-010.png")
  {
    AvoidExamples.AppendOnceExample(proposed, batch, disk, root, ext, next);
    assert OnDisk(env, orig, proposed);
  }
}
