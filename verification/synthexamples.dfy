/**
 * Worked cases of the native synthesiser, on the floaters the filter
 * 08*33*7*.tif and *-0* give for the name 08493357-001.tif.
 */
module SynthExamples {
  import opened Wrappers
  import opened Text
  import opened Params
  import opened Replacement
  import opened Synth

  /** The replacement *A**B as tokens. */
  lemma TokeniseCopies()
    ensures Tokenise("*A**B") == [Variable('*'), Literal("A"), Variable('*'), Variable('*'), Literal("B")]
    ensures MaxConsumer([Variable('*'), Literal("A"), Variable('*'), Variable('*'), Literal("B")]) == Some(3)
  {
    var s := "*A**B";
    assert NextVar(s, 1) == 2;
    assert s[1..2] == "A";
    assert NextVar(s, 4) == 5;
    assert s[4..5] == "B";
    assert Tokens(s, 4) == [Literal("B")];
    assert Tokens(s, 3) == [Variable('*'), Literal("B")];
    assert Tokens(s, 2) == [Variable('*'), Variable('*'), Literal("B")];
    assert Tokens(s, 1) == [Literal("A"), Variable('*'), Variable('*'), Literal("B")];
    assert Tokens(s, 0) == [Variable('*'), Literal("A"), Variable('*'), Variable('*'), Literal("B")];
    assert Tokenise(s) == Tokens(s, 0);
  }

  /** 08493357-001.tif through 08*33*7*.tif gives the floaters 49, 5 and -001; *A**B makes them 49A5-001B. */
  lemma CopiesExample()
    ensures var c := Context([Variable('*'), Literal("A"), Variable('*'), Variable('*'), Literal("B")],
                             ["49", "5", "-001"], 2, Some(3));
      WalkTo(c, [], 5).Some? && WalkTo(c, [], 5).value.name == "49A5-001B"
  {
    var c := Context([Variable('*'), Literal("A"), Variable('*'), Variable('*'), Literal("B")],
                     ["49", "5", "-001"], 2, Some(3));
    assert WalkTo(c, [], 1).value.name == "49";
    assert WalkTo(c, [], 2).value.name == "49A";
    assert WalkTo(c, [], 3).value.name == "49A5";
    assert WalkTo(c, [], 4).value.name == "49A5-001";
  }

  /** S/3/6/0 on 08493357: one character more than the floater has, so a warning, and still 084 + 493357. */
  lemma SliceShortExample()
    ensures SliceText("08493357", FInt(3), FInt(6), FInt(0)) == Some(("084493357", true))
  {
    var src := "08493357";
    assert PySlice(src, 0, 3) == src[0..3] == "084";
    assert PySlice(src, -6, 8) == src[2..8] == "493357";
    assert "084" + "493357" == "084493357";
  }

  /** S/3/5/0 on 08493357: exactly the floater's length, no warning, the floater itself. */
  lemma SliceExactExample()
    ensures SliceText("08493357", FInt(3), FInt(5), FInt(0)) == Some(("08493357", false))
  {
    var src := "08493357";
    assert PySlice(src, 0, 3) == src[0..3] == "084";
    assert PySlice(src, -5, 8) == src[3..8] == "93357";
    assert "084" + "93357" == src;
  }

  /** S/4/9/1 warns (9 is past the end) and S/4/8/1 does not; both cut out 3357. */
  lemma SlicePythonicExamples()
    ensures SliceText("08493357", FInt(4), FInt(9), FInt(1)) == Some(("3357", true))
    ensures SliceText("08493357", FInt(4), FInt(8), FInt(1)) == Some(("3357", false))
  {
    var src := "08493357";
    assert PySlice(src, 4, 9) == src[4..8] == "3357";
    assert PySlice(src, 4, 8) == src[4..8];
  }

  /** S/4/3/1: a start past the stop warns and cuts out nothing. */
  lemma SliceBackwardsExample()
    ensures SliceText("08493357", FInt(4), FInt(3), FInt(1)) == Some(("", true))
  {
  }
}
