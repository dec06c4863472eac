/**
 * The directory orders of the recursion tests (rene/renet.py test69 to
 * test73) on their tree: a directory recurse holding X_New and X_Old, each
 * of which holds an X_New and an X_Old of its own, listed in that order.
 */
module TraverseExamples {
  import opened Batch
  import opened Traverse

  /** A directory without subdirectories is the only directory its walk visits. */
  lemma LeafVisits(rc: Recursion, t: Tree, path: seq<string>, cur: nat)
    requires t.subdirs == []
    ensures Visits(rc, t, path, cur) == [path]
  {
  }

  /** The walk over a directory with two subdirectories, at a level the depth limit lets it go below. */
  lemma TwoVisits(rc: Recursion, t: Tree, path: seq<string>, cur: nat)
    requires |t.subdirs| == 2 && cur < rc.depth
    ensures Visits(rc, t, path, cur) ==
      [path]
      + (if Enters(rc, t.subdirs[0].name) then Visits(rc, t.subdirs[0], path + [t.subdirs[0].name], cur + 1) else [])
      + (if Enters(rc, t.subdirs[1].name) then Visits(rc, t.subdirs[1], path + [t.subdirs[1].name], cur + 1) else [])
  {
    var a := t.subdirs[0];
    var b := t.subdirs[1];
    assert ChildVisits(rc, t, 2, path, cur + 1) == [];
    assert ChildVisits(rc, t, 1, path, cur + 1) ==
      (if Enters(rc, b.name) then Visits(rc, b, path + [b.name], cur + 1) else []);
  }

  /** The tree of the tests: recurse / {X_New, X_Old} / {X_New, X_Old}. */
  predicate TestTree(t: Tree)
  {
    t.name == "recurse" && |t.subdirs| == 2
    && t.subdirs[0].name == "X_New" && t.subdirs[1].name == "X_Old"
    && (forall k | 0 <= k < 2 ::
          |t.subdirs[k].subdirs| == 2
          && t.subdirs[k].subdirs[0].name == "X_New" && t.subdirs[k].subdirs[1].name == "X_Old"
          && t.subdirs[k].subdirs[0].subdirs == [] && t.subdirs[k].subdirs[1].subdirs == [])
  }

  /** A middle directory of the test tree entered at level 1 with the depth limit 1: only itself. */
  lemma MidCut(rc: Recursion, m: Tree, path: seq<string>)
    requires rc.depth == 1
    ensures Visits(rc, m, path, 1) == [path]
  {
  }

  /** A middle directory of the test tree entered at level 1 with room below. */
  lemma MidVisits(rc: Recursion, m: Tree, path: seq<string>)
    requires 1 < rc.depth
    requires |m.subdirs| == 2 && m.subdirs[0].name == "X_New" && m.subdirs[1].name == "X_Old"
    requires m.subdirs[0].subdirs == [] && m.subdirs[1].subdirs == []
    ensures Visits(rc, m, path, 1) ==
      [path]
      + (if Enters(rc, "X_New") then [path + ["X_New"]] else [])
      + (if Enters(rc, "X_Old") then [path + ["X_Old"]] else [])
  {
    TwoVisits(rc, m, path, 1);
    LeafVisits(rc, m.subdirs[0], path + ["X_New"], 2);
    LeafVisits(rc, m.subdirs[1], path + ["X_Old"], 2);
  }

  /** test69: -R with no limit (depth 1000) walks all seven directories in pre-order. */
  lemma UnlimitedExample(rc: Recursion, t: Tree)
    requires TestTree(t) && rc.depth == 1000 && !rc.hasList
    ensures Visits(rc, t, ["recurse"], 0) ==
      [["recurse"],
       ["recurse", "X_New"], ["recurse", "X_New", "X_New"], ["recurse", "X_New", "X_Old"],
       ["recurse", "X_Old"], ["recurse", "X_Old", "X_New"], ["recurse", "X_Old", "X_Old"]]
  {
    var a := AllBelow(rc, t.subdirs[0], ["recurse", "X_New"]);
    var b := AllBelow(rc, t.subdirs[1], ["recurse", "X_Old"]);
    assert Visits(rc, t, ["recurse"], 0) == [["recurse"]] + a + b by {
      assert Enters(rc, "X_New") && Enters(rc, "X_Old");
      TwoVisits(rc, t, ["recurse"], 0);
      assert ["recurse"] + ["X_New"] == ["recurse", "X_New"];
      assert ["recurse"] + ["X_Old"] == ["recurse", "X_Old"];
    }
    ThreePaths("X_New", a);
    ThreePaths("X_Old", b);
    SevenPaths(a, b);
  }

  /** The seven paths of the unlimited walk, written out. */
  lemma SevenPaths(a: seq<seq<string>>, b: seq<seq<string>>)
    requires a == [["recurse", "X_New"], ["recurse", "X_New", "X_New"], ["recurse", "X_New", "X_Old"]]
    requires b == [["recurse", "X_Old"], ["recurse", "X_Old", "X_New"], ["recurse", "X_Old", "X_Old"]]
    ensures [["recurse"]] + a + b ==
      [["recurse"],
       ["recurse", "X_New"], ["recurse", "X_New", "X_New"], ["recurse", "X_New", "X_Old"],
       ["recurse", "X_Old"], ["recurse", "X_Old", "X_New"], ["recurse", "X_Old", "X_Old"]]
  {
  }

  /** The three paths a middle directory d of the test tree contributes, written out. */
  lemma ThreePaths(d: string, r: seq<seq<string>>)
    requires r == [["recurse", d], ["recurse", d] + ["X_New"], ["recurse", d] + ["X_Old"]]
    ensures r == [["recurse", d], ["recurse", d, "X_New"], ["recurse", d, "X_Old"]]
  {
    assert ["recurse", d] + ["X_New"] == ["recurse", d, "X_New"];
    assert ["recurse", d] + ["X_Old"] == ["recurse", d, "X_Old"];
  }

  /** A middle directory of the test tree with nothing excluded and room below: itself, then X_New, then X_Old. */
  lemma AllBelow(rc: Recursion, m: Tree, path: seq<string>) returns (r: seq<seq<string>>)
    requires 1 < rc.depth && !rc.hasList
    requires |m.subdirs| == 2 && m.subdirs[0].name == "X_New" && m.subdirs[1].name == "X_Old"
    requires m.subdirs[0].subdirs == [] && m.subdirs[1].subdirs == []
    ensures r == Visits(rc, m, path, 1) && r == [path, path + ["X_New"], path + ["X_Old"]]
  {
    MidVisits(rc, m, path);
    r := Visits(rc, m, path, 1);
  }

  /** test70: -R1 stops one level below the starting directory. */
  lemma DepthOneExample(rc: Recursion, t: Tree)
    requires TestTree(t) && rc.depth == 1 && !rc.hasList
    ensures Visits(rc, t, ["recurse"], 0) == [["recurse"], ["recurse", "X_New"], ["recurse", "X_Old"]]
  {
    TwoVisits(rc, t, ["recurse"], 0);
    MidCut(rc, t.subdirs[0], ["recurse", "X_New"]);
    MidCut(rc, t.subdirs[1], ["recurse", "X_Old"]);
    assert ["recurse"] + ["X_New"] == ["recurse", "X_New"];
    assert ["recurse"] + ["X_Old"] == ["recurse", "X_Old"];
  }

  /** test71: -R/X_Old/ excludes X_Old at every level. */
  lemma ExcludeExample(rc: Recursion, t: Tree)
    requires TestTree(t) && rc.depth == 1000 && rc.hasList && !rc.inclusive
    requires rc.listed("X_Old") && !rc.listed("X_New")
    ensures Visits(rc, t, ["recurse"], 0) ==
      [["recurse"], ["recurse", "X_New"], ["recurse", "X_New", "X_New"]]
  {
    TwoVisits(rc, t, ["recurse"], 0);
    MidVisits(rc, t.subdirs[0], ["recurse", "X_New"]);
    assert ["recurse"] + ["X_New"] == ["recurse", "X_New"];
    assert ["recurse", "X_New"] + ["X_New"] == ["recurse", "X_New", "X_New"];
  }

  /** test72: -R+/X_Old/ enters only X_Old, at every level. */
  lemma IncludeExample(rc: Recursion, t: Tree)
    requires TestTree(t) && rc.depth == 1000 && rc.hasList && rc.inclusive
    requires rc.listed("X_Old") && !rc.listed("X_New")
    ensures Visits(rc, t, ["recurse"], 0) ==
      [["recurse"], ["recurse", "X_Old"], ["recurse", "X_Old", "X_Old"]]
  {
    TwoVisits(rc, t, ["recurse"], 0);
    MidVisits(rc, t.subdirs[1], ["recurse", "X_Old"]);
    assert ["recurse"] + ["X_Old"] == ["recurse", "X_Old"];
    assert ["recurse", "X_Old"] + ["X_Old"] == ["recurse", "X_Old", "X_Old"];
  }

  /** test73: -R1/+/X_Old/ enters X_Old one level down and no further. */
  lemma IncludeDepthOneExample(rc: Recursion, t: Tree)
    requires TestTree(t) && rc.depth == 1 && rc.hasList && rc.inclusive
    requires rc.listed("X_Old") && !rc.listed("X_New")
    ensures Visits(rc, t, ["recurse"], 0) == [["recurse"], ["recurse", "X_Old"]]
  {
    TwoVisits(rc, t, ["recurse"], 0);
    MidCut(rc, t.subdirs[1], ["recurse", "X_Old"]);
    assert ["recurse"] + ["X_Old"] == ["recurse", "X_Old"];
  }
}
