/**
 * Directory recursion (rene/rene.py procTree) over an abstract tree. A
 * directory is processed before its subdirectories, and the subdirectories
 * in the order listed: depth first, pre-order. On entering a directory the
 * Insert rules flagged R restart from their reload value; the others keep
 * counting from where the previous directory left them. Recursion stops
 * below the depth limit, skips subdirectories the include/exclude list
 * rules out, and ends the whole walk as soon as a directory returns 1.
 */
module Traverse {
  import opened Text
  import opened Params
  import opened Batch

  /**
   * A directory as the walk meets it: its name, the file system seen from
   * inside it, its entries in listing order, and its subdirectories in
   * listing order as they stand after its own renames.
   */
  datatype Tree = Tree(name: string, env: Env, names: seq<string>, subdirs: seq<Tree>)

  /**
   * The -R option: the depth limit, whether a directory list was given, the
   * name test against that list, and whether it includes (+) or excludes.
   */
  datatype Recursion = Recursion(depth: nat, hasList: bool, listed: string -> bool, inclusive: bool)

  datatype Status = Done | Stopped | Died

  /** One directory processed: its path from the starting directory, the rules it started with, and its result. */
  datatype Visit = Visit(path: seq<string>, rulesIn: seq<Rule>, result: DirResult)

  /** How a walk ended, the rules it leaves, and the directories it processed in order. */
  datatype Run = Run(status: Status, rules: seq<Rule>, log: seq<Visit>)

  /** An Insert rule whose mode has R. */
  predicate Reloads(r: Rule)
  {
    r.Insert? && Bit(r.bits, 1)
  }

  /** The rules on entry to a directory: flagged Insert rules restart from their reload value. */
  function Reload(rules: seq<Rule>): (r: seq<Rule>)
    ensures |r| == |rules| && Fresh(r)
    ensures forall k | 0 <= k < |rules| :: !Reloads(rules[k]) ==> r[k] == rules[k]
  {
    seq(|rules|, k requires 0 <= k < |rules| => if Reloads(rules[k]) then rules[k].(start := rules[k].reload) else rules[k])
  }

  /** Every flagged Insert rule stands at its reload value. */
  predicate Fresh(rules: seq<Rule>)
  {
    forall k | 0 <= k < |rules| :: Reloads(rules[k]) ==> rules[k].start == rules[k].reload
  }

  /** Reloading restarts exactly the flagged rules: the others, and every other field, are kept. */
  lemma ReloadRestarts(rules: seq<Rule>)
    ensures Fresh(Reload(rules))
    ensures forall k | 0 <= k < |rules| :: !Reloads(rules[k]) ==> Reload(rules)[k] == rules[k]
    ensures forall k | 0 <= k < |rules| :: rules[k].Insert? ==>
      Reload(rules)[k].Insert? && Reload(rules)[k] == rules[k].(start := Reload(rules)[k].start)
    ensures forall k | 0 <= k < |rules| :: !rules[k].Insert? ==> Reload(rules)[k] == rules[k]
    ensures Reload(Reload(rules)) == Reload(rules)
    ensures Fresh(rules) ==> Reload(rules) == rules
  {
  }

  /** Whether the walk enters a subdirectory: all are entered without a list; a listed one only with +. */
  predicate Enters(rc: Recursion, name: string)
  {
    !rc.hasList || (if rc.listed(name) then rc.inclusive else !rc.inclusive)
  }

  /** procDir as a function of the directory and the rules on entry. */
  type DirFn = (Tree, seq<Rule>) -> DirResult

  /** procDir for a fixed policy and mode; the guard only makes the function total, Recurse rules it out. */
  function DirOf(p: Policy, mode: Mode): (f: DirFn)
    ensures ModeOk(mode) ==> forall t, rules :: f(t, rules) == ProcDir(t.env, p, mode, rules, t.names)
  {
    (t: Tree, rules: seq<Rule>) => if ModeOk(mode) then ProcDir(t.env, p, mode, rules, t.names) else Crashed
  }

  /** procTree on t, reached by path at depth cur, with the rules and visits so far. */
  function ProcTree(dir: DirFn, rc: Recursion, t: Tree, path: seq<string>, cur: nat,
                    rules: seq<Rule>, log: seq<Visit>): (r: Run)
    ensures log < r.log && r.log[|log|] == Visit(path, Reload(rules), dir(t, Reload(rules)))
    ensures r.status == Stopped ==> r.log[|r.log| - 1].result.Halted?
    ensures r.status == Died ==> r.log[|r.log| - 1].result.Crashed?
    decreases t, 1
  {
    var entry := Reload(rules);
    var d := dir(t, entry);
    var log1 := log + [Visit(path, entry, d)];
    match d
    case Halted => Run(Stopped, entry, log1)
    case Crashed => Run(Died, entry, log1)
    case Finished(_, out) =>
      if cur >= rc.depth then Run(Done, out, log1)
      else Children(dir, rc, t, 0, path, cur + 1, out, log1)
  }

  /** The subdirectories j.. of parent, one level deeper; a walk that does not finish ends the loop. */
  function Children(dir: DirFn, rc: Recursion, parent: Tree, j: nat, path: seq<string>, cur: nat,
                    rules: seq<Rule>, log: seq<Visit>): (r: Run)
    requires j <= |parent.subdirs|
    ensures log <= r.log
    ensures |r.log| == |log| ==> r == Run(Done, rules, log)
    ensures r.status == Stopped ==> log < r.log && r.log[|r.log| - 1].result.Halted?
    ensures r.status == Died ==> log < r.log && r.log[|r.log| - 1].result.Crashed?
    decreases parent, 0, |parent.subdirs| - j
  {
    if j == |parent.subdirs| then Run(Done, rules, log)
    else
      var sub := parent.subdirs[j];
      if !Enters(rc, sub.name) then Children(dir, rc, parent, j + 1, path, cur, rules, log)
      else
        var r := ProcTree(dir, rc, sub, path + [sub.name], cur, rules, log);
        if r.status != Done then r
        else Children(dir, rc, parent, j + 1, path, cur, r.rules, r.log)
  }

  /** The walk from a starting directory: depth 0 means no recursion and a plain procDir. */
  function Recurse(p: Policy, mode: Mode, rc: Recursion, t: Tree, rules: seq<Rule>): (r: Run)
    requires ModeOk(mode) && 0 < rc.depth
    ensures r.log != [] && r.log[0] == Visit([t.name], Reload(rules), ProcDir(t.env, p, mode, Reload(rules), t.names))
    ensures r.status == Stopped ==> r.log[|r.log| - 1].result.Halted?
    ensures r.status == Died ==> r.log[|r.log| - 1].result.Crashed?
  {
    ProcTree(DirOf(p, mode), rc, t, [t.name], 0, rules, [])
  }

  // ---------------------------------------------------------------------
  // The order of the walk against a reference pre-order.

  /** The directories a complete walk from t visits, in order: t, then each entered subdirectory's walk. */
  function Visits(rc: Recursion, t: Tree, path: seq<string>, cur: nat): (r: seq<seq<string>>)
    ensures 0 < |r| && r[0] == path
    ensures forall k | 0 <= k < |r| :: path <= r[k] && (cur <= rc.depth ==> |r[k]| <= |path| + rc.depth - cur)
    decreases t, 1
  {
    [path] + (if cur >= rc.depth then [] else ChildVisits(rc, t, 0, path, cur + 1))
  }

  function ChildVisits(rc: Recursion, parent: Tree, j: nat, path: seq<string>, cur: nat): (r: seq<seq<string>>)
    requires j <= |parent.subdirs|
    ensures forall k | 0 <= k < |r| :: path < r[k] && (cur <= rc.depth ==> |r[k]| <= |path| + 1 + rc.depth - cur)
    decreases parent, 0, |parent.subdirs| - j
  {
    if j == |parent.subdirs| then []
    else
      var sub := parent.subdirs[j];
      (if Enters(rc, sub.name) then Visits(rc, sub, path + [sub.name], cur) else [])
      + ChildVisits(rc, parent, j + 1, path, cur)
  }

  function Paths(log: seq<Visit>): (r: seq<seq<string>>)
    ensures |r| == |log| && forall k | 0 <= k < |log| :: r[k] == log[k].path
  {
    seq(|log|, k requires 0 <= k < |log| => log[k].path)
  }

  lemma PathsAppend(log: seq<Visit>, v: Visit)
    ensures Paths(log + [v]) == Paths(log) + [v.path]
  {
  }

  /**
   * The walk from t visits the directories of the reference pre-order, in
   * that order: all of them when it finishes, a prefix of them when a
   * directory stops it.
   */
  lemma {:induction false} TreeOrder(dir: DirFn, rc: Recursion, t: Tree, path: seq<string>, cur: nat,
                                     rules: seq<Rule>, log: seq<Visit>)
    ensures Paths(ProcTree(dir, rc, t, path, cur, rules, log).log) <= Paths(log) + Visits(rc, t, path, cur)
    ensures ProcTree(dir, rc, t, path, cur, rules, log).status == Done ==>
      Paths(ProcTree(dir, rc, t, path, cur, rules, log).log) == Paths(log) + Visits(rc, t, path, cur)
    decreases t, 1
  {
    var entry := Reload(rules);
    var d := dir(t, entry);
    if d.Finished? && cur < rc.depth {
      ChildrenOrder(dir, rc, t, 0, path, cur + 1, d.rules, log + [Visit(path, entry, d)]);
      DescendOrder(dir, rc, t, path, cur, rules, log);
    } else {
      LeafOrder(dir, rc, t, path, cur, rules, log);
    }
  }

  /** A directory the walk descends from: its visit, then whatever the subdirectories' walk logs. */
  lemma DescendOrder(dir: DirFn, rc: Recursion, t: Tree, path: seq<string>, cur: nat, rules: seq<Rule>, log: seq<Visit>)
    requires var d := dir(t, Reload(rules)); d.Finished? && cur < rc.depth
    requires var d := dir(t, Reload(rules));
      var log1 := log + [Visit(path, Reload(rules), d)];
      var r := Children(dir, rc, t, 0, path, cur + 1, d.rules, log1);
      && Paths(r.log) <= Paths(log1) + ChildVisits(rc, t, 0, path, cur + 1)
      && (r.status == Done ==> Paths(r.log) == Paths(log1) + ChildVisits(rc, t, 0, path, cur + 1))
    ensures Paths(ProcTree(dir, rc, t, path, cur, rules, log).log) <= Paths(log) + Visits(rc, t, path, cur)
    ensures ProcTree(dir, rc, t, path, cur, rules, log).status == Done ==>
      Paths(ProcTree(dir, rc, t, path, cur, rules, log).log) == Paths(log) + Visits(rc, t, path, cur)
  {
    var entry := Reload(rules);
    var d := dir(t, entry);
    var log1 := log + [Visit(path, entry, d)];
    ProcTreeUnfold(dir, rc, t, path, cur, rules, log);
    assert Paths(log1) == Paths(log) + [path] by {
      PathsAppend(log, Visit(path, entry, d));
    }
    var below := ChildVisits(rc, t, 0, path, cur + 1);
    assert Paths(log) + Visits(rc, t, path, cur) == Paths(log1) + below;
  }

  /** A directory the walk does not descend from: its visit alone, and Done only when it finished at the depth limit. */
  lemma LeafOrder(dir: DirFn, rc: Recursion, t: Tree, path: seq<string>, cur: nat, rules: seq<Rule>, log: seq<Visit>)
    requires var d := dir(t, Reload(rules)); !(d.Finished? && cur < rc.depth)
    ensures Paths(ProcTree(dir, rc, t, path, cur, rules, log).log) <= Paths(log) + Visits(rc, t, path, cur)
    ensures ProcTree(dir, rc, t, path, cur, rules, log).status == Done ==>
      Paths(ProcTree(dir, rc, t, path, cur, rules, log).log) == Paths(log) + Visits(rc, t, path, cur)
  {
    var entry := Reload(rules);
    var d := dir(t, entry);
    var log1 := log + [Visit(path, entry, d)];
    ProcTreeUnfold(dir, rc, t, path, cur, rules, log);
    assert Paths(log1) == Paths(log) + [path] by {
      PathsAppend(log, Visit(path, entry, d));
    }
    assert (Paths(log) + Visits(rc, t, path, cur))[..|Paths(log1)|] == Paths(log1);
  }

  /** One directory of the walk: its visit, then the subdirectories when it finished above the depth limit. */
  lemma ProcTreeUnfold(dir: DirFn, rc: Recursion, t: Tree, path: seq<string>, cur: nat, rules: seq<Rule>, log: seq<Visit>)
    ensures var d := dir(t, Reload(rules));
      var log1 := log + [Visit(path, Reload(rules), d)];
      var r := ProcTree(dir, rc, t, path, cur, rules, log);
      && (d.Finished? && cur < rc.depth ==> r == Children(dir, rc, t, 0, path, cur + 1, d.rules, log1))
      && (!(d.Finished? && cur < rc.depth) ==> r.log == log1 && (r.status == Done ==> d.Finished?))
  {
  }

  lemma {:induction false} ChildrenOrder(dir: DirFn, rc: Recursion, parent: Tree, j: nat, path: seq<string>,
                                         cur: nat, rules: seq<Rule>, log: seq<Visit>)
    requires j <= |parent.subdirs|
    ensures Paths(Children(dir, rc, parent, j, path, cur, rules, log).log) <= Paths(log) + ChildVisits(rc, parent, j, path, cur)
    ensures Children(dir, rc, parent, j, path, cur, rules, log).status == Done ==>
      Paths(Children(dir, rc, parent, j, path, cur, rules, log).log) == Paths(log) + ChildVisits(rc, parent, j, path, cur)
    decreases parent, 0, |parent.subdirs| - j, 1
  {
    if j < |parent.subdirs| {
      if Enters(rc, parent.subdirs[j].name) {
        EnteredOrder(dir, rc, parent, j, path, cur, rules, log);
      } else {
        assert Children(dir, rc, parent, j, path, cur, rules, log) == Children(dir, rc, parent, j + 1, path, cur, rules, log);
        assert ChildVisits(rc, parent, j, path, cur) == ChildVisits(rc, parent, j + 1, path, cur) by {
          assert [] + ChildVisits(rc, parent, j + 1, path, cur) == ChildVisits(rc, parent, j + 1, path, cur);
        }
        ChildrenOrder(dir, rc, parent, j + 1, path, cur, rules, log);
      }
    } else {
      assert Children(dir, rc, parent, j, path, cur, rules, log) == Run(Done, rules, log);
      assert Paths(log) + ChildVisits(rc, parent, j, path, cur) == Paths(log);
    }
  }

  /** The entered subdirectory j: its own walk, then, if that finished, the siblings after it. */
  lemma {:induction false} EnteredOrder(dir: DirFn, rc: Recursion, parent: Tree, j: nat, path: seq<string>,
                                        cur: nat, rules: seq<Rule>, log: seq<Visit>)
    requires j < |parent.subdirs| && Enters(rc, parent.subdirs[j].name)
    ensures Paths(Children(dir, rc, parent, j, path, cur, rules, log).log) <= Paths(log) + ChildVisits(rc, parent, j, path, cur)
    ensures Children(dir, rc, parent, j, path, cur, rules, log).status == Done ==>
      Paths(Children(dir, rc, parent, j, path, cur, rules, log).log) == Paths(log) + ChildVisits(rc, parent, j, path, cur)
    decreases parent, 0, |parent.subdirs| - j, 0
  {
    var sub := parent.subdirs[j];
    var rest := ChildVisits(rc, parent, j + 1, path, cur);
    var mine := Visits(rc, sub, path + [sub.name], cur);
    assert ChildVisits(rc, parent, j, path, cur) == mine + rest;
    var r := ProcTree(dir, rc, sub, path + [sub.name], cur, rules, log);
    TreeOrder(dir, rc, sub, path + [sub.name], cur, rules, log);
    assert Paths(log) + mine + rest == Paths(log) + (mine + rest);
    if r.status == Done {
      ChildrenOrder(dir, rc, parent, j + 1, path, cur, r.rules, r.log);
    } else {
      PrefixGrows(Paths(r.log), Paths(log) + mine, rest);
    }
  }

  lemma PrefixGrows<T>(a: seq<T>, b: seq<T>, c: seq<T>)
    requires a <= b
    ensures a <= b + c
  {
    assert (b + c)[..|b|] == b;
  }

  // ---------------------------------------------------------------------
  // What the walk threads from directory to directory.

  /**
   * Every directory started from fresh flagged rules, and each one after the
   * first started from the rules the one before it finished with, reloaded.
   */
  predicate Threaded(log: seq<Visit>)
  {
    && (forall k | 0 <= k < |log| :: Fresh(log[k].rulesIn))
    && (forall k | 0 <= k < |log| - 1 :: log[k].result.Finished? && log[k + 1].rulesIn == Reload(log[k].result.rules))
  }

  /** The rules handed on are those the last directory finished with. */
  predicate Linked(log: seq<Visit>, rules: seq<Rule>)
  {
    log == [] || (log[|log| - 1].result.Finished? && log[|log| - 1].result.rules == rules)
  }

  ghost predicate FromDirVisit(dir: DirFn, v: Visit)
  {
    exists t :: v.result == dir(t, v.rulesIn)
  }

  /** Every result in the log is procDir's result for some directory and the rules it started with. */
  ghost predicate FromDir(dir: DirFn, log: seq<Visit>)
  {
    forall k | 0 <= k < |log| :: FromDirVisit(dir, log[k])
  }

  /** A finished walk hands on its last directory's rules; a stopped or dead one ends on the directory that stopped it. */
  predicate Ends(r: Run)
  {
    && (r.status == Done ==> Linked(r.log, r.rules))
    && (r.status == Stopped ==> r.log != [] && r.log[|r.log| - 1].result.Halted?)
    && (r.status == Died ==> r.log != [] && r.log[|r.log| - 1].result.Crashed?)
  }

  ghost predicate Good(dir: DirFn, r: Run)
  {
    Threaded(r.log) && FromDir(dir, r.log) && Ends(r)
  }

  /**
   * The walk from t keeps the log threaded: it adds at least the visit of t,
   * which starts from the reloaded rules, and it ends as Ends says.
   */
  lemma {:induction false} TreeThreads(dir: DirFn, rc: Recursion, t: Tree, path: seq<string>, cur: nat,
                                       rules: seq<Rule>, log: seq<Visit>)
    requires Threaded(log) && Linked(log, rules) && FromDir(dir, log)
    ensures Good(dir, ProcTree(dir, rc, t, path, cur, rules, log))
    ensures log < ProcTree(dir, rc, t, path, cur, rules, log).log
    ensures ProcTree(dir, rc, t, path, cur, rules, log).log[|log|] == Visit(path, Reload(rules), dir(t, Reload(rules)))
    decreases t, 1
  {
    var entry := Reload(rules);
    var d := dir(t, entry);
    var v := Visit(path, entry, d);
    var log1 := log + [v];
    ReloadRestarts(rules);
    assert Threaded(log1) by {
      assert forall k | 0 <= k < |log1| :: Fresh(log1[k].rulesIn) by {
        forall k | 0 <= k < |log1|
          ensures Fresh(log1[k].rulesIn)
        {
          if k < |log| {
            assert log1[k] == log[k];
          }
        }
      }
      forall k | 0 <= k < |log1| - 1
        ensures log1[k].result.Finished? && log1[k + 1].rulesIn == Reload(log1[k].result.rules)
      {
        assert log1[k] == log[k];
        if k + 1 < |log| {
          assert log1[k + 1] == log[k + 1];
        }
      }
    }
    assert FromDir(dir, log1) by {
      assert FromDirVisit(dir, v);
      forall k | 0 <= k < |log1|
        ensures FromDirVisit(dir, log1[k])
      {
        if k < |log| {
          assert log1[k] == log[k];
        }
      }
    }
    if d.Finished? && cur < rc.depth {
      ChildrenThreads(dir, rc, t, 0, path, cur + 1, d.rules, log1);
      PrefixIndex(log1, ProcTree(dir, rc, t, path, cur, rules, log).log, |log|);
    }
  }

  lemma {:induction false} ChildrenThreads(dir: DirFn, rc: Recursion, parent: Tree, j: nat, path: seq<string>,
                                           cur: nat, rules: seq<Rule>, log: seq<Visit>)
    requires j <= |parent.subdirs|
    requires Threaded(log) && Linked(log, rules) && FromDir(dir, log)
    ensures Good(dir, Children(dir, rc, parent, j, path, cur, rules, log))
    ensures log <= Children(dir, rc, parent, j, path, cur, rules, log).log
    decreases parent, 0, |parent.subdirs| - j
  {
    if j < |parent.subdirs| {
      var sub := parent.subdirs[j];
      if !Enters(rc, sub.name) {
        ChildrenThreads(dir, rc, parent, j + 1, path, cur, rules, log);
      } else {
        var r := ProcTree(dir, rc, sub, path + [sub.name], cur, rules, log);
        TreeThreads(dir, rc, sub, path + [sub.name], cur, rules, log);
        if r.status == Done {
          ChildrenThreads(dir, rc, parent, j + 1, path, cur, r.rules, r.log);
        }
      }
    }
  }

  lemma PrefixIndex<T>(a: seq<T>, b: seq<T>, k: nat)
    requires a <= b && k < |a|
    ensures b[k] == a[k]
  {
  }

  /**
   * The walk from a starting directory: it processes the directories of the
   * reference pre-order in that order, all of them with every result
   * finished unless a directory stops or crashes it, and stops only under
   * the stop policy. Each directory starts from the rules the previous one
   * finished with, flagged Insert rules reloaded, and the first from the
   * initial rules reloaded.
   */
  lemma RecurseSummary(p: Policy, mode: Mode, rc: Recursion, t: Tree, rules: seq<Rule>)
    requires ModeOk(mode) && 0 < rc.depth
    ensures Paths(Recurse(p, mode, rc, t, rules).log) <= Visits(rc, t, [t.name], 0)
    ensures Recurse(p, mode, rc, t, rules).status == Done ==>
      Paths(Recurse(p, mode, rc, t, rules).log) == Visits(rc, t, [t.name], 0)
      && forall k | 0 <= k < |Recurse(p, mode, rc, t, rules).log| :: Recurse(p, mode, rc, t, rules).log[k].result.Finished?
    ensures Recurse(p, mode, rc, t, rules).status == Stopped ==> p.stop
    ensures Threaded(Recurse(p, mode, rc, t, rules).log)
    ensures Recurse(p, mode, rc, t, rules).log != [] && Recurse(p, mode, rc, t, rules).log[0].rulesIn == Reload(rules)
  {
    var dir := DirOf(p, mode);
    var r := Recurse(p, mode, rc, t, rules);
    var visits := Visits(rc, t, [t.name], 0);
    assert Paths(r.log) <= visits && (r.status == Done ==> Paths(r.log) == visits) by {
      TreeOrder(dir, rc, t, [t.name], 0, rules, []);
      assert Paths([]) == [];
      assert [] + visits == visits;
    }
    assert Threaded(r.log) && (r.status == Done ==> Linked(r.log, r.rules)) by {
      TreeThreads(dir, rc, t, [t.name], 0, rules, []);
    }
    RecurseStops(p, mode, rc, t, rules);
  }

  /** A walk stops only when the directory it ended on halted, which only the stop policy does. */
  lemma RecurseStops(p: Policy, mode: Mode, rc: Recursion, t: Tree, rules: seq<Rule>)
    requires ModeOk(mode) && 0 < rc.depth
    ensures Recurse(p, mode, rc, t, rules).status == Stopped ==> p.stop
  {
    var dir := DirOf(p, mode);
    var r := Recurse(p, mode, rc, t, rules);
    TreeThreads(dir, rc, t, [t.name], 0, rules, []);
    if r.status == Stopped {
      var last := r.log[|r.log| - 1];
      assert FromDirVisit(dir, last);
      var u :| last.result == dir(u, last.rulesIn);
      ProcDirSafe(u.env, p, mode, last.rulesIn, u.names);
    }
  }
}
