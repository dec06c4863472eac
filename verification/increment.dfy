/**
 * The name incrementer shared by the Bump and Insert rules and by collision
 * avoidance (rene/rene.py nextName). The last character of a name decides how
 * it steps: a trailing run of digits is read as a number and rewritten with
 * at least its old width; a trailing letter moves around its own case's
 * alphabet, a carry or borrow appending one letter instead of propagating;
 * anything else gets the step appended in decimal.
 */
module Increment {
  import opened Wrappers
  import opened Text

  /** Length of the maximal run of digits at the end of s. */
  function TrailingDigits(s: string): (k: nat)
    ensures k <= |s|
    ensures forall i | |s| - k <= i < |s| :: IsDigit(s[i])
    ensures k < |s| ==> !IsDigit(s[|s| - k - 1])
    ensures 0 < |s| && IsDigit(s[|s| - 1]) ==> 0 < k
    decreases |s|
  {
    if s == [] || !IsDigit(s[|s| - 1]) then 0
    else
      var k := TrailingDigits(s[..|s| - 1]);
      k + 1
  }

  /** 'a' for a lower-case letter, 'A' otherwise. */
  function LetterBase(c: char): char
  {
    if IsLower(c) then 'a' else 'A'
  }

  /** Position of a letter in its own case's alphabet, 0 for A. */
  function LetterIndex(c: char): nat
    requires IsAlpha(c)
  {
    c as int - LetterBase(c) as int
  }

  predicate SameCase(a: char, b: char)
  {
    (IsUpper(a) && IsUpper(b)) || (IsLower(a) && IsLower(b))
  }

  /** Stepping letter c forward by step mod 26 runs past the end of the alphabet. */
  predicate Carries(c: char, step: int)
    requires IsAlpha(c)
  {
    LetterIndex(c) + step % 26 >= 26
  }

  /** The digit run NextName rewrites: the trailing digits of s[offset..]. */
  function DigitRun(s: string, offset: nat): (k: nat)
    requires offset <= |s|
    ensures k <= |s| - offset
  {
    TrailingDigits(s[offset..])
  }

  /** Steps the trailing number of s[offset..], zero-padded to at least its old width. */
  function StepNumber(s: string, step: int, offset: nat): (r: string)
    requires 0 < |s| && offset < |s| && IsDigit(s[|s| - 1])
    ensures 0 < |r|
  {
    var k := DigitRun(s, offset);
    DigitRunFacts(s, offset);
    s[..|s| - k] + FormatInt(ValueOf(s[|s| - k..]) + step, k)
  }

  /**
   * Steps a trailing letter around its own case's alphabet; a carry (or, going
   * down, a borrow) appends one letter instead of propagating leftwards, so
   * Z + 1 = AA and A - 1 = ZZ.
   */
  function StepLetter(s: string, step: int): (r: string)
    requires 0 < |s| && IsAlpha(s[|s| - 1])
    ensures s[..|s| - 1] <= r
    ensures |r| == |s| + (if Carries(s[|s| - 1], step) == (step >= 0) then 1 else 0)
    ensures SameCase(r[|r| - 1], s[|s| - 1])
    ensures LetterIndex(r[|r| - 1]) == (LetterIndex(s[|s| - 1]) + step) % 26
    ensures |r| == |s| + 1 ==>
      r[|s| - 1] == if step >= 0 then LetterBase(s[|s| - 1]) else (LetterBase(s[|s| - 1]) as int + 25) as char
  {
    var c := s[|s| - 1];
    var first := LetterBase(c);
    var last := first as int + 25;
    var next := c as int + step % 26;
    if step < 0 then
      s[..|s| - 1] + (if next > last then [(next - 26) as char] else [last as char, next as char])
    else
      s[..|s| - 1] + (if next > last then [first, (next - 26) as char] else [next as char])
  }

  /** Appends the step as Python's '%d' writes it. */
  function AppendStep(s: string, step: int): (r: string)
    ensures s <= r && |s| < |r|
  {
    s + SignedDecimal(step)
  }

  /** What AppendStep appends reads back, through int(), as the step. */
  lemma AppendStepReadsBack(s: string, step: int)
    ensures PyInt(AppendStep(s, step)[|s|..], 10) == Some(step)
  {
    PyIntSignedDecimal(step);
    assert (s + SignedDecimal(step))[|s|..] == SignedDecimal(step);
  }

  /**
   * The next name after s by step; offset keeps the first offset characters
   * out of a trailing number (avoidance uses it to leave a number that was
   * already in the name alone). The last character picks the kind of step.
   * It never shortens a name and never touches its first offset characters:
   * collision avoidance relies on this to keep the original root in front
   * of the number it appends.
   */
  function NextName(s: string, step: int, offset: nat): (r: string)
    requires 0 < |s| && offset < |s|
    ensures 0 < |r|
    ensures |s| <= |r| && s[..offset] <= r
  {
    var c := s[|s| - 1];
    if IsDigit(c) then
      var k := DigitRun(s, offset);
      DigitRunFacts(s, offset);
      StepNumberSplit(s, step, offset);
      assert s[..offset] <= s[..|s| - k];
      StepNumber(s, step, offset)
    else if IsAlpha(c) then
      assert s[..offset] <= s[..|s| - 1];
      StepLetter(s, step)
    else AppendStep(s, step)
  }

  /** The trailing number StepNumber rewrites starts at offset or after a non-digit. */
  lemma DigitRunFacts(s: string, offset: nat)
    requires 0 < |s| && offset < |s|
    ensures AllDigits(s[|s| - DigitRun(s, offset)..])
    ensures IsDigit(s[|s| - 1]) ==> 0 < DigitRun(s, offset)
    ensures offset + DigitRun(s, offset) < |s| ==> !IsDigit(s[|s| - DigitRun(s, offset) - 1])
  {
    var t := s[offset..];
    var k := TrailingDigits(t);
    assert forall i | |s| - k <= i < |s| :: s[i] == t[i - offset];
    var run := s[|s| - k..];
    assert forall i | 0 <= i < |run| :: run[i] == s[|s| - k + i];
  }

  /**
   * A trailing number is replaced by its value plus the step, zero-padded to
   * at least its old width; everything before the number is kept.
   */
  lemma NextNameDigits(s: string, step: int, offset: nat)
    requires 0 < |s| && offset < |s| && IsDigit(s[|s| - 1])
    requires ValueOf(s[|s| - DigitRun(s, offset)..]) + step >= 0
    ensures var k := DigitRun(s, offset);
            var r := NextName(s, step, offset);
      && s[..|s| - k] <= r
      && AllDigits(r[|s| - k..])
      && ValueOf(r[|s| - k..]) == ValueOf(s[|s| - k..]) + step
      && k <= |r| - (|s| - k)
  {
    DigitRunFacts(s, offset);
    NextNameOfDigit(s, step, offset);
    StepNumberShape(s, step, offset);
    StepDigits(NextName(s, step, offset), s[..|s| - DigitRun(s, offset)],
               ValueOf(s[|s| - DigitRun(s, offset)..]) + step, DigitRun(s, offset));
  }

  /** A head followed by a formatted non-negative number: the number's digits read back as its value. */
  lemma StepDigits(r: string, head: string, v: int, k: nat)
    requires 0 <= v && r == head + FormatInt(v, k)
    ensures head <= r && AllDigits(r[|head|..]) && ValueOf(r[|head|..]) == v && k <= |r| - |head|
  {
    JoinParts(r, head, FormatInt(v, k));
    FormatIntRoundTrip(v, k);
  }

  lemma StepNumberSplit(s: string, step: int, offset: nat)
    requires 0 < |s| && offset < |s| && IsDigit(s[|s| - 1])
    ensures var k := DigitRun(s, offset);
      && AllDigits(s[|s| - k..])
      && s[..|s| - k] <= StepNumber(s, step, offset)
      && StepNumber(s, step, offset)[|s| - k..] == FormatInt(ValueOf(s[|s| - k..]) + step, k)
  {
    StepNumberShape(s, step, offset);
    var k := DigitRun(s, offset);
    JoinParts(StepNumber(s, step, offset), s[..|s| - k], FormatInt(ValueOf(s[|s| - k..]) + step, k));
  }

  lemma JoinParts(r: string, a: string, b: string)
    requires r == a + b
    ensures a <= r && r[|a|..] == b
  {
  }

  lemma StepNumberShape(s: string, step: int, offset: nat)
    requires 0 < |s| && offset < |s| && IsDigit(s[|s| - 1])
    ensures var k := DigitRun(s, offset);
      && AllDigits(s[|s| - k..])
      && StepNumber(s, step, offset) == s[..|s| - k] + FormatInt(ValueOf(s[|s| - k..]) + step, k)
  {
  }

  lemma SuffixOfJoin(a: string, b: string)
    ensures (a + b)[|a|..] == b
    ensures a <= a + b
  {
  }

  lemma NextNameOfDigit(s: string, step: int, offset: nat)
    requires 0 < |s| && offset < |s| && IsDigit(s[|s| - 1])
    ensures NextName(s, step, offset) == StepNumber(s, step, offset)
  {
  }

  /** Digit strings of the same length and value are the same string. */
  lemma {:induction false} ValueOfInjective(a: string, b: string)
    requires AllDigits(a) && AllDigits(b) && |a| == |b|
    requires ValueOf(a) == ValueOf(b)
    ensures a == b
    decreases |a|
  {
    if a != [] {
      var a', b' := a[..|a| - 1], b[..|b| - 1];
      var da, db := DigitValue(a[|a| - 1]), DigitValue(b[|b| - 1]);
      assert ValueOf(a) == 10 * ValueOf(a') + da;
      assert ValueOf(b) == 10 * ValueOf(b') + db;
      assert da == db && ValueOf(a') == ValueOf(b');
      ValueOfInjective(a', b');
      assert a == a' + [a[|a| - 1]] && b == b' + [b[|b| - 1]];
    }
  }

  /** Formatting a digit string's value at the string's own width gives it back. */
  lemma FormatIntOfDigits(d: string)
    requires IsNumeric(d)
    ensures FormatInt(ValueOf(d), |d|) == d
  {
    var v := ValueOf(d);
    FormatIntRoundTrip(v, |d|);
    var f := FormatInt(v, |d|);
    assert |Decimal(v)| <= |d| by {
      // A number needs no more digits than any string that denotes it.
      DecimalShortest(d);
    }
    ValueOfInjective(f, d);
  }

  /** str(ValueOf(d)) is no longer than d. */
  lemma {:induction false} DecimalShortest(d: string)
    requires AllDigits(d)
    ensures |Decimal(ValueOf(d))| <= if d == [] then 1 else |d|
    decreases |d|
  {
    if |d| > 1 {
      var d' := d[..|d| - 1];
      DecimalShortest(d');
      var v := ValueOf(d);
      if v >= 10 {
        assert v / 10 == ValueOf(d');
        assert Decimal(v) == Decimal(v / 10) + [DigitChar(v % 10)];
      }
    }
  }

  /**
   * Stepping a number down by the amount it was stepped up restores the name,
   * provided the number did not grow wider on the way up.
   */
  lemma NextNameDigitsInverse(s: string, n: int)
    requires 0 < |s| && IsDigit(s[|s| - 1]) && 0 <= n
    requires |NextName(s, n, 0)| == |s|
    ensures NextName(NextName(s, n, 0), -n, 0) == s
  {
    var r := NextName(s, n, 0);
    var k := DigitRun(s, 0);
    var run := s[|s| - k..];
    NextNameDigitsShape(s, n);
    StepDownRun(r, n, k, s[..|s| - k], ValueOf(run));
    FormatIntOfDigits(run);
    SplitJoin(s, |s| - k);
  }

  lemma SplitJoin(s: string, j: nat)
    requires j <= |s|
    ensures s == s[..j] + s[j..]
  {
  }

  /** Stepping down a name whose trailing run of k digits has value v + n. */
  lemma StepDownRun(r: string, n: int, k: nat, prefix: string, v: nat)
    requires 0 < k <= |r| && IsDigit(r[|r| - 1]) && DigitRun(r, 0) == k
    requires r == prefix + r[|r| - k..]
    requires AllDigits(r[|r| - k..]) && ValueOf(r[|r| - k..]) == v + n
    ensures NextName(r, -n, 0) == prefix + FormatInt(v, k)
  {
    NextNameOfDigit(r, -n, 0);
    StepNumberShape(r, -n, 0);
    assert r[..|r| - k] == prefix;
    assert ValueOf(r[|r| - k..]) + -n == v;
  }

  /** Stepping a number up without widening it leaves a digit run of the same length. */
  lemma NextNameDigitsShape(s: string, n: int)
    requires 0 < |s| && IsDigit(s[|s| - 1]) && 0 <= n
    requires |NextName(s, n, 0)| == |s|
    ensures var k := DigitRun(s, 0);
            var r := NextName(s, n, 0);
      && 0 < k
      && AllDigits(s[|s| - k..])
      && r == s[..|s| - k] + r[|r| - k..]
      && AllDigits(r[|r| - k..])
      && ValueOf(r[|r| - k..]) == ValueOf(s[|s| - k..]) + n
      && IsDigit(r[|r| - 1])
      && DigitRun(r, 0) == k
  {
    assert s[0..] == s;
    var k := DigitRun(s, 0);
    DigitRunFacts(s, 0);
    NextNameDigits(s, n, 0);
    var prefix := s[..|s| - k];
    var r := NextName(s, n, 0);
    var d := r[|s| - k..];
    assert r == prefix + d;
    assert |d| == k && IsDigit(d[k - 1]);
    if 0 < |prefix| {
      assert prefix[|prefix| - 1] == s[|s| - k - 1];
    }
    TrailingDigitsOfJoin(prefix, d);
    assert r[0..] == r;
    assert r[|r| - 1] == d[k - 1];
  }

  /** The trailing digits of p + d are exactly d when p does not end in a digit. */
  lemma {:induction false} TrailingDigitsOfJoin(p: string, d: string)
    requires AllDigits(d)
    requires p == [] || !IsDigit(p[|p| - 1])
    ensures TrailingDigits(p + d) == |d|
    decreases |d|
  {
    if d == [] {
      assert p + d == p;
    } else {
      var d' := d[..|d| - 1];
      assert (p + d)[..|p + d| - 1] == p + d';
      TrailingDigitsOfJoin(p, d');
    }
  }

  /**
   * Stepping a letter forward and back by less than a full alphabet restores
   * the name when the forward step did not carry.
   */
  lemma NextNameLetterInverse(s: string, n: int)
    requires 0 < |s| && IsAlpha(s[|s| - 1])
    requires 0 < n < 26 && !Carries(s[|s| - 1], n)
    ensures NextName(NextName(s, n, 0), -n, 0) == s
  {
    var r := NextName(s, n, 0);
    var c := s[|s| - 1];
    assert r == s[..|s| - 1] + [(c as int + n) as char];
    assert r[..|r| - 1] == s[..|s| - 1];
    assert (-n) % 26 == 26 - n;
    assert s == s[..|s| - 1] + [c];
  }

  lemma NextNameLetterExamples()
    ensures NextName("Z", 1, 0) == "AA"
    ensures NextName("z", 1, 0) == "aa"
    ensures NextName("A", -1, 0) == "ZZ"
    ensures NextName("my1ABC", 10, 0) == "my1ABM"
    ensures NextName("my1ABZ", 10, 0) == "my1ABAJ"
    ensures NextName("F", -10, 0) == "ZV"
    ensures NextName("L", -10, 0) == "B"
  {
  }

  lemma NextNameNumberExample()
    ensures NextName("01", 997, 0) == "998"
  {
    NumberStepShape("01");
    NumberValue("01");
    NumberFormat(998);
  }

  /** "01" is one digit run: the step reformats its whole value at width 2. */
  lemma NumberStepShape(s: string)
    requires s == "01"
    ensures AllDigits(s) && NextName(s, 997, 0) == FormatInt(ValueOf(s) + 997, 2)
  {
    assert s[0..] == s && s[..0] == "";
    assert DigitRun(s, 0) == 2;
    NextNameOfDigit(s, 997, 0);
    StepNumberShape(s, 997, 0);
  }

  /** The value of "01" is 1. */
  lemma NumberValue(s: string)
    requires s == "01"
    ensures AllDigits(s) && ValueOf(s) == 1
  {
    assert s[..1] == "0";
    assert "0"[..0] == "";
  }

  /** 998 needs no padding at width 2. */
  lemma NumberFormat(v: int)
    requires v == 998
    ensures FormatInt(v, 2) == "998"
  {
    assert Decimal(99) == "99";
    assert Decimal(998) == "998";
  }

  lemma NextNameOffsetExample()
    ensures NextName("his-010", 1, 6) == "his-011"
  {
    var s := "his-010";
    assert s[6..] == "0";
    assert "0"[..0] == "";
    assert DigitRun(s, 6) == 1;
    assert s[..6] == "his-01" && s[6..] == "0";
    assert Decimal(0) == "0";
    ValueOfDecimal(0);
    assert Decimal(1) == "1";
    assert FormatInt(1, 1) == "1";
  }

  lemma NextNameWidensExample()
    ensures NextName("999", 1, 0) == "1000"
  {
    NinesRun();
    ThousandFormat();
    assert "999"[..0] == "";
  }

  lemma NinesRun()
    ensures DigitRun("999", 0) == 3
    ensures ValueOf("999") == 999
  {
    var s := "999";
    assert s[0..] == s;
    assert s[..2] == "99" && s[..1] == "9" && s[..0] == "";
    assert Decimal(9) == "9";
    assert Decimal(99) == "99";
    assert Decimal(999) == "999";
    ValueOfDecimal(999);
  }

  lemma ThousandFormat()
    ensures FormatInt(1000, 3) == "1000"
  {
    assert Decimal(1) == "1";
    assert Decimal(10) == "10";
    assert Decimal(100) == "100";
    assert Decimal(1000) == "1000";
  }

  lemma NextNameAppendExample()
    ensures NextName("{}", 1, 0) == "{}1"
  {
  }
}
