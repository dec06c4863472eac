/**
 * Worked examples of collision avoidance on the file set of the test suite
 * (rene/renet.py test29 to test35): my-01.png renamed to his-01.png while
 * his-01.png, his-010.png and the like already exist.
 */
module AvoidExamples {
  import opened Wrappers
  import ExtSplit
  import Increment
  import opened Avoid

  /** The default scheme: no collision string, no merge, start string "0". */
  const Append: Scheme := Scheme("", RootSuffix, false, "0")

  lemma HisSplit()
    ensures ExtSplit.GreedyExt("his-01.png") == ("his-01", ".png")
  {
    assert ExtSplit.IsRoot("his-01");
    ExtSplit.GreedyExtOfParts("his-01", ".png");
    assert "his-01" + ".png" == "his-01.png";
  }

  /*
   * The examples take their names and sets as parameters fixed by their
   * preconditions: spelled as literals inside a call, they would let the
   * verifier unfold every round of the search at once.
   */

  /** The avoidance of his-01.png under a scheme without a collision string is the search from root his-01. */
  lemma HisAvoid(s: Scheme, name: string, batch: seq<string>, disk: set<string>, root: string, ext: string)
    requires s.pun == [] && name == "his-01.png" && root == "his-01" && ext == ".png"
    ensures Avoid.Avoid(s, name, batch, disk) == Search(s, ext, batch, disk, 0, root, 0)
  {
    HisSplit();
  }

  /** A first collision appends the start string once: his-01.png becomes his-010.png. */
  lemma AppendOnceExample(name: string, batch: seq<string>, disk: set<string>, root: string, ext: string, next: string)
    requires name == "his-01.png" && batch == [] && disk == {"his-01.png"}
    requires root == "his-01" && ext == ".png" && next == "his-010"
    ensures Avoid.Avoid(Append, name, batch, disk) == Avoidance(["his-01.png", "his-010.png"], Resolved("his-010.png"))
  {
    assert root + Tail(Append) + ext == "his-01.png";
    assert root + "0" == next;
    assert next + Tail(Append) + ext == "his-010.png";
    assert InUse("his-01.png", batch, disk) && !InUse("his-010.png", batch, disk);
    ResolvedSecond(Append, name, batch, disk, root, ext, next);
  }

  /**
   * A taken first candidate whose root plus the start string is free: the
   * search resolves in the second round.
   */
  lemma ResolvedSecond(s: Scheme, name: string, batch: seq<string>, disk: set<string>, root: string, ext: string, next: string)
    requires s.pun == [] && !s.merge && s.start != []
    requires name == "his-01.png" && root == "his-01" && ext == ".png" && next == root + s.start
    requires InUse(root + Tail(s) + ext, batch, disk) && !InUse(next + Tail(s) + ext, batch, disk)
    ensures Avoid.Avoid(s, name, batch, disk) == Avoidance([root + Tail(s) + ext, next + Tail(s) + ext], Resolved(next + Tail(s) + ext))
  {
    HisAvoid(s, name, batch, disk, root, ext);
    assert NextRoot(s, 0, root, 0) == Some((next, 6));
    SearchGoesOn(s, ext, batch, disk, 0, root, 0);
    SearchStops(s, ext, batch, disk, 1, next, 6);
  }

  /** The second round steps the appended digit at the remembered length 6. */
  lemma SecondRoot(next: string, last: string)
    requires next == "his-010" && last == "his-011"
    ensures NextRoot(Append, 1, next, 6) == Some((last, 6))
  {
    Increment.NextNameOffsetExample();
  }

  lemma SecondRound(batch: seq<string>, disk: set<string>, ext: string, next: string, last: string)
    requires batch == [] && disk == {"his-01.png", "his-010.png"}
    requires ext == ".png" && next == "his-010" && last == "his-011"
    ensures Search(Append, ext, batch, disk, 1, next, 6) == Avoidance(["his-010.png", "his-011.png"], Resolved("his-011.png"))
  {
    assert next + Tail(Append) + ext == "his-010.png";
    assert last + Tail(Append) + ext == "his-011.png";
    assert !InUse("his-011.png", batch, disk);
    SecondRoot(next, last);
    SearchGoesOn(Append, ext, batch, disk, 1, next, 6);
    SearchStops(Append, ext, batch, disk, 2, last, 6);
  }

  /**
   * A second collision steps only what the start string added, at the
   * remembered root length: his-010.png becomes his-011.png.
   */
  lemma AppendTwiceExample(name: string, batch: seq<string>, disk: set<string>,
                           root: string, ext: string, next: string, last: string)
    requires name == "his-01.png" && batch == [] && disk == {"his-01.png", "his-010.png"}
    requires root == "his-01" && ext == ".png" && next == "his-010" && last == "his-011"
    ensures Avoid.Avoid(Append, name, batch, disk)
      == Avoidance(["his-01.png", "his-010.png", "his-011.png"], Resolved("his-011.png"))
  {
    FirstRound(name, batch, disk, root, ext, next);
    SecondRound(batch, disk, ext, next, last);
    TwoRounds(Avoid.Avoid(Append, name, batch, disk), Search(Append, ext, batch, disk, 1, next, 6));
  }

  /** The first round's candidate followed by the two of the second round. */
  lemma TwoRounds(a: Avoidance, second: Avoidance)
    requires second == Avoidance(["his-010.png", "his-011.png"], Resolved("his-011.png"))
    requires a == Avoidance(["his-01.png"] + second.tried, second.result)
    ensures a == Avoidance(["his-01.png", "his-010.png", "his-011.png"], Resolved("his-011.png"))
  {
    assert ["his-01.png"] + ["his-010.png", "his-011.png"] == ["his-01.png", "his-010.png", "his-011.png"];
  }

  /** his-01.png taken: the search goes on from his-010 with the remembered root length 6. */
  lemma FirstRound(name: string, batch: seq<string>, disk: set<string>, root: string, ext: string, next: string)
    requires name == "his-01.png" && "his-01.png" in disk
    requires root == "his-01" && ext == ".png" && next == "his-010"
    ensures var second := Search(Append, ext, batch, disk, 1, next, 6);
      Avoid.Avoid(Append, name, batch, disk) == Avoidance(["his-01.png"] + second.tried, second.result)
  {
    assert root + Tail(Append) + ext == "his-01.png";
    assert NextRoot(Append, 0, root, 0) == Some((next, 6)) by {
      assert root + "0" == next;
    }
    HisAvoid(Append, name, batch, disk, root, ext);
    SearchGoesOn(Append, ext, batch, disk, 0, root, 0);
  }

  /** An alphabetic start string: his-01.png becomes his-01A.png. */
  lemma AppendLetterExample(s: Scheme, name: string, batch: seq<string>, disk: set<string>,
                            root: string, ext: string, next: string)
    requires s == Scheme("", RootSuffix, false, "A")
    requires name == "his-01.png" && batch == [] && disk == {"his-01.png"}
    requires root == "his-01" && ext == ".png" && next == "his-01A"
    ensures Avoid.Avoid(s, name, batch, disk) == Avoidance(["his-01.png", "his-01A.png"], Resolved("his-01A.png"))
  {
    assert root + Tail(s) + ext == "his-01.png";
    assert root + "A" == next;
    assert next + Tail(s) + ext == "his-01A.png";
    assert InUse("his-01.png", batch, disk) && !InUse("his-01A.png", batch, disk);
    ResolvedSecond(s, name, batch, disk, root, ext, next);
  }

  /** A name already taken earlier in the batch counts as a collision too. */
  lemma BatchCollisionExample(name: string, batch: seq<string>, disk: set<string>, root: string, ext: string, next: string)
    requires name == "his-01.png" && batch == ["his-01.png"] && disk == {}
    requires root == "his-01" && ext == ".png" && next == "his-010"
    ensures Avoid.Avoid(Append, name, batch, disk) == Avoidance(["his-01.png", "his-010.png"], Resolved("his-010.png"))
  {
    assert root + Tail(Append) + ext == "his-01.png";
    assert root + "0" == next;
    assert next + Tail(Append) + ext == "his-010.png";
    assert InUse("his-01.png", batch, disk) && !InUse("his-010.png", batch, disk);
    ResolvedSecond(Append, name, batch, disk, root, ext, next);
  }
}
