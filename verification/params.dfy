/**
 * Rule arguments of the rename engine (rene/rene.py scanint, parmList,
 * bitmapChars, prepRule and the rule loop of the module-level compile).
 * A rule argument such as S/1/-2 or I/a//3/ER names a rule kind by its
 * letter and gives its fields separated by '/'. An empty or missing field
 * takes the kind's default, a field that starts like a number is converted
 * by scanint, and any other field stays a string: Python only notices a
 * string used as a number when a file reaches the rule.
 */
module Params {
  import opened Wrappers
  import opened Text

  /** A rule field as prepRule leaves it: an int or an unconverted string. */
  datatype Field = FInt(n: int) | FStr(s: string)

  /**
   * The three rule kinds with their fields in argument order. An Insert's
   * mode is the E/R bitmap (bit 0 E: append, bit 1 R: reload per directory)
   * and reload is the hidden copy of the start value.
   */
  datatype Rule =
    | Slice(lead: Field, trail: Field, mode: Field)
    | Bump(step: Field, mode: Field)
    | Insert(start: Field, step: Field, width: Field, bits: int, reload: Field)

  /** Uncaught Python exceptions that end compilation with a traceback. */
  datatype CrashKind =
    | EmptyFilter          // an empty filter base: filArg[-1] has nothing to index
    | EmptyRangeLow        // a "-n" extension range has no low bound to test for '#'
    | RepeatOrder          // ?m,n with m > n: re.error from re.compile
    | RepeatTooLarge       // a repeat count at or above re's MAXREPEAT
    | DashField            // a rule field that is just "-"
    | ModeNotLetters       // an I rule mode given as a nonzero number
    | EmptyArgument        // an empty rule argument

  /** Why compiling the command line ends before any file is looked at. */
  datatype CompileError =
    | TooManyClauses                          // more extension clauses than ?s
    | IllegalChar(inFilter: bool, c: char)    // a character the shell or file system rejects
    | AdjacentStars                           // ** in the filter
    | BadNumericRange(clause: string)         // #m-n whose bounds are not integers
    | UnrecognizedRange(clause: string)       // an extension rule that is not lo-hi
    | OrderTooLarge(index: int)               // an -O index beyond the last floater
    | MoreRules                               // more rule arguments than ? and : variables
    | UnknownRule(arg: string)                // the letter names no rule kind
    | BadRuleSyntax(arg: string)              // more than one letter before the first '/'
    | RuleKindMismatch(arg: string, rv: char) // an S or B for ':' or an I for '?'
    | BadRuleNumber(arg: string)              // scanint raised ValueError
    | TooFewRules(defined: nat, needed: nat)  // fewer rule arguments than variables
    | Crash(kind: CrashKind)

  /**
   * scanint: an optional '-', then decimal, 0x hexadecimal, or (any other
   * leading 0) binary. None where Python's int() raises ValueError.
   */
  function ScanInt(s: string): (r: Option<int>)
    requires s != "-"
    ensures s == [] ==> r == Some(0)
    ensures IsNumeric(s) && s[0] != '0' ==> r == Some(ValueOf(s))
    ensures 1 < |s| && s[0] == '-' && IsNumeric(s[1..]) && s[1] != '0' ==> r == Some(-(ValueOf(s[1..]) as int))
  {
    if s == [] then Some(0)
    else
      var neg := s[0] == '-';
      var v := if neg then s[1..] else s;
      assert IsNumeric(v) ==> PyInt(v, 10) == Some(ValueOf(v)) by {
        if IsNumeric(v) {
          PyIntDigits(v);
        }
      }
      var x := if v[0] != '0' then PyInt(v, 10)
               else if 1 < |v| && UpperChar(v[1]) == 'X' then PyInt(v, 16)
               else PyInt(v, 2);
      match x
      case Some(n) => Some(if neg then -n else n)
      case None => None
  }

  /** Writing an int in decimal and scanning it back gives the int. */
  lemma ScanIntSignedDecimal(n: int)
    ensures SignedDecimal(n) != "-"
    ensures ScanInt(SignedDecimal(n)) == Some(n)
  {
    SignedDecimalShape(n);
    if n < 0 {
      ScanIntNegative(-n, Decimal(-n));
    } else if n == 0 {
      ScanIntZero();
    } else {
      var d := Decimal(n);
      assert IsNumeric(d) && d[0] != '0';
      assert ValueOf(d) == n by {
        ValueOfDecimal(n);
      }
    }
  }

  lemma ScanIntZero()
    ensures Decimal(0) == "0"
    ensures ScanInt("0") == Some(0)
  {
    assert StripRight(StripLeft("0")) == "0";
    assert Grouped("0", 2);
  }

  lemma ScanIntNegative(m: nat, d: string)
    requires 0 < m && d == Decimal(m)
    ensures ScanInt("-" + d) == Some(-(m as int))
  {
    var s := "-" + d;
    assert s[0] == '-' && s[1..] == d;
    assert d[0] != '0';
    assert PyInt(d, 10) == Some(m) by {
      PyIntDigits(d);
      ValueOfDecimal(m);
    }
  }

  lemma ScanIntHexExample()
    ensures ScanInt("0x1F") == Some(31)
  {
    assert StripRight(StripLeft("0x1F")) == "0x1F";
    assert "0x1F"[2..] == "1F";
    assert Grouped("1F", 16);
    assert GroupedValue("1F", 16) == 31 by {
      assert "1F"[..1] == "1";
      assert "1"[..0] == "";
    }
  }

  /** A leading zero without x makes the digits binary, so 09 is not a number. */
  lemma ScanIntBinaryExamples()
    ensures ScanInt("0101") == Some(5)
    ensures ScanInt("09") == None
  {
    assert StripRight(StripLeft("0101")) == "0101";
    assert Grouped("0101", 2);
    assert GroupedValue("0101", 2) == 5 by {
      assert "0101"[..3] == "010";
      assert "010"[..2] == "01";
      assert "01"[..1] == "0";
      assert "0"[..0] == "";
    }
    assert StripRight(StripLeft("09")) == "09";
    assert BaseDigit('9', 2).None?;
  }

  lemma ScanIntNegativeHexExample()
    ensures ScanInt("-0x10") == Some(-16)
  {
    assert "-0x10"[1..] == "0x10";
    assert StripRight(StripLeft("0x10")) == "0x10";
    assert "0x10"[2..] == "10";
    assert Grouped("10", 16);
    assert GroupedValue("10", 16) == 16 by {
      assert "10"[..1] == "1";
      assert "1"[..0] == "";
    }
  }

  /** The parts of s between separators. */
  function NonEmpty(parts: seq<string>): (r: seq<string>)
    ensures forall i | 0 <= i < |r| :: r[i] != [] && r[i] in parts
    decreases |parts|
  {
    if parts == [] then []
    else if parts[0] == [] then NonEmpty(parts[1..])
    else [parts[0]] + NonEmpty(parts[1..])
  }

  /** parmList: the '/'-separated parts of a parameter, dropping empty ones unless allowed. */
  function ParmList(parm: string, emptyOk: bool): (r: seq<string>)
    ensures forall i | 0 <= i < |r| :: '/' !in r[i]
    ensures !emptyOk ==> forall i | 0 <= i < |r| :: r[i] != []
  {
    var parts := Split(parm, '/');
    if emptyOk then parts else NonEmpty(parts)
  }

  /** Dropping empty parts does not change what they spell. */
  lemma {:induction false} ConcatNonEmpty(parts: seq<string>)
    ensures Concat(NonEmpty(parts)) == Concat(parts)
    decreases |parts|
  {
    if parts != [] {
      ConcatNonEmpty(parts[1..]);
    }
  }

  /** Splitting on sep and concatenating the parts deletes every sep. */
  lemma {:induction false} ConcatSplit(s: string, sep: char)
    ensures Concat(Split(s, sep)) == ReplaceChar(s, sep, [])
    decreases |s|
  {
    if s != [] {
      ConcatSplit(s[1..], sep);
      var rest := Split(s[1..], sep);
      if s[0] != sep {
        assert Concat(rest) == rest[0] + Concat(rest[1..]);
      }
    }
  }

  /** Whichever parts are kept, the parameter's text is all there, in order, minus the separators. */
  lemma ParmListText(parm: string, emptyOk: bool)
    ensures Concat(ParmList(parm, emptyOk)) == ReplaceChar(parm, '/', [])
  {
    ConcatSplit(parm, '/');
    ConcatNonEmpty(Split(parm, '/'));
  }

  /** bitmapChars: bit k is set when the k-th character of pat occurs in s. */
  function BitmapChars(s: string, pat: string): (bm: nat)
    ensures bm < Pow2(|pat|)
    decreases |pat|
  {
    if pat == [] then 0
    else (if pat[0] in s then 1 else 0) + 2 * BitmapChars(s, pat[1..])
  }

  lemma {:induction false} BitmapCharsBits(s: string, pat: string, k: nat)
    ensures Bit(BitmapChars(s, pat), k) <==> k < |pat| && pat[k] in s
    decreases k
  {
    var bm := BitmapChars(s, pat);
    if pat == [] {
      ZeroBits(k);
    } else if k > 0 {
      var rest := BitmapChars(s, pat[1..]);
      assert bm / 2 == rest;
      BitmapCharsBits(s, pat[1..], k - 1);
    }
  }

  lemma {:induction false} ZeroBits(k: nat)
    ensures !Bit(0, k)
    decreases k
  {
    if k > 0 {
      ZeroBits(k - 1);
    }
  }

  /** The letter that names a rule kind in a rule argument. */
  function Letter(r: Rule): char
  {
    match r
    case Slice(_, _, _) => 'S'
    case Bump(_, _) => 'B'
    case Insert(_, _, _, _, _) => 'I'
  }

  /** The replacement variable a rule kind serves: '?' transforms a floater, ':' inserts. */
  function RuleVar(r: Rule): char
  {
    if r.Insert? then ':' else '?'
  }

  predicate IsRuleLetter(c: char)
  {
    c == 'S' || c == 'B' || c == 'I'
  }

  /** The default field values of each rule kind. */
  function Defaults(letter: char): (d: seq<Field>)
    requires IsRuleLetter(letter)
    ensures |d| == (if letter == 'S' then 3 else if letter == 'B' then 2 else 5)
  {
    if letter == 'S' then [FInt(2), FInt(2), FInt(0)]
    else if letter == 'B' then [FInt(1), FInt(0)]
    else [FInt(0), FInt(1), FInt(1), FInt(0), FInt(0)]
  }

  /** A field that prepRule reads as a number: it starts with a digit, or with '-' and a digit. */
  predicate NumberLike(v: string)
  {
    0 < |v| && (IsDigit(v[0]) || (1 < |v| && v[0] == '-' && IsDigit(v[1])))
  }

  /**
   * One non-empty field: a number read by scanint if it is number-like, else
   * the string itself. A lone '-' crashes prepRule and a number-like field
   * scanint rejects is a bad rule number.
   */
  function ConvertField(v: string): (r: Result<Field, CompileError>)
    requires v != []
    ensures r == Err(Crash(DashField)) <==> v == "-"
    ensures v != "-" && !NumberLike(v) ==> r == Ok(FStr(v))
    ensures NumberLike(v) ==> v != "-" && (r.Ok? <==> ScanInt(v).Some?)
    ensures NumberLike(v) && r.Ok? ==> r.value == FInt(ScanInt(v).value)
    ensures NumberLike(v) && r.Err? ==> r.error == BadRuleNumber(v)
  {
    if v == "-" then Err(Crash(DashField))
    else if IsDigit(v[0]) || (v[0] == '-' && IsDigit(v[1])) then
      match ScanInt(v)
      case Some(n) => Ok(FInt(n))
      case None => Err(BadRuleNumber(v))
    else Ok(FStr(v))
  }

  /** Part i of a rule argument is present and not empty. */
  predicate Given(wlist: seq<string>, i: nat)
  {
    i < |wlist| && wlist[i] != []
  }

  /**
   * Fields k.. of a rule, converted left to right; the first failure wins.
   * Field i sits after the letter, at part i + 1, and a missing or empty
   * part takes the default.
   */
  function FieldsFrom(wlist: seq<string>, defaults: seq<Field>, k: nat): (r: Result<seq<Field>, CompileError>)
    requires k <= |defaults|
    ensures r.Ok? ==> |r.value| == |defaults| - k
    ensures r.Ok? ==> forall i | 0 <= i < |r.value| ::
      if Given(wlist, k + 1 + i) then ConvertField(wlist[k + 1 + i]) == Ok(r.value[i])
      else r.value[i] == defaults[k + i]
    decreases |defaults| - k
  {
    if k == |defaults| then Ok([])
    else
      var head := if Given(wlist, k + 1) then ConvertField(wlist[k + 1]) else Ok(defaults[k]);
      match head
      case Err(e) => Err(e)
      case Ok(f) =>
        match FieldsFrom(wlist, defaults, k + 1)
        case Err(e) => Err(e)
        case Ok(rest) =>
          FieldsCons(wlist, defaults, k, f, rest);
          Ok([f] + rest)
  }

  /** Field k in front of the fields k + 1.. is, index by index, what FieldsFrom promises for k.. */
  lemma FieldsCons(wlist: seq<string>, defaults: seq<Field>, k: nat, f: Field, rest: seq<Field>)
    requires k < |defaults| && |rest| == |defaults| - k - 1
    requires (if Given(wlist, k + 1) then ConvertField(wlist[k + 1]) else Ok(defaults[k])) == Ok(f)
    requires forall i | 0 <= i < |rest| ::
      if Given(wlist, k + 1 + 1 + i) then ConvertField(wlist[k + 1 + 1 + i]) == Ok(rest[i])
      else rest[i] == defaults[k + 1 + i]
    ensures forall i | 0 <= i < |[f] + rest| ::
      if Given(wlist, k + 1 + i) then ConvertField(wlist[k + 1 + i]) == Ok(([f] + rest)[i])
      else ([f] + rest)[i] == defaults[k + i]
  {
    var all := [f] + rest;
    forall i | 0 < i < |all|
      ensures if Given(wlist, k + 1 + i) then ConvertField(wlist[k + 1 + i]) == Ok(all[i]) else all[i] == defaults[k + i]
    {
      assert all[i] == rest[i - 1];
    }
  }

  /**
   * The field conversion fails exactly when some given field among k.. fails
   * to convert, and then with that field's error.
   */
  lemma {:induction false} FieldsFromFails(wlist: seq<string>, defaults: seq<Field>, k: nat)
    requires k <= |defaults|
    ensures FieldsFrom(wlist, defaults, k).Err? <==>
      exists i | k < i <= |defaults| && Given(wlist, i) :: ConvertField(wlist[i]).Err?
    ensures FieldsFrom(wlist, defaults, k).Err? ==>
      exists i | k < i <= |defaults| && Given(wlist, i) :: ConvertField(wlist[i]) == Err(FieldsFrom(wlist, defaults, k).error)
    decreases |defaults| - k
  {
    if k < |defaults| {
      FieldsFromFails(wlist, defaults, k + 1);
      var head := if Given(wlist, k + 1) then ConvertField(wlist[k + 1]) else Ok(defaults[k]);
      if head.Err? {
        assert FieldsFrom(wlist, defaults, k) == Err(head.error);
        assert Given(wlist, k + 1) && ConvertField(wlist[k + 1]) == head;
      } else {
        assert FieldsFrom(wlist, defaults, k).Err? <==> FieldsFrom(wlist, defaults, k + 1).Err?;
        assert FieldsFrom(wlist, defaults, k).Err? ==> FieldsFrom(wlist, defaults, k) == FieldsFrom(wlist, defaults, k + 1);
        assert !(Given(wlist, k + 1) && ConvertField(wlist[k + 1]).Err?);
      }
    }
  }

  /**
   * prepRule: parses one rule argument for the replacement variable rv.
   * An I rule's mode, when not 0, must be a string; its E and R letters
   * become the bitmap and the start value is copied to reload.
   */
  function PrepRule(arg: string, rv: char): (r: Result<Rule, CompileError>)
    requires arg != [] && IsRuleLetter(arg[0])
    ensures r.Ok? ==> Letter(r.value) == arg[0] && RuleVar(r.value) == rv
    ensures r.Ok? && r.value.Insert? ==>
      r.value.bits < 4 && (r.value.bits != 0 ==> r.value.reload == r.value.start)
  {
    var wlist := Split(arg, '/');
    var letter := arg[0];
    var kindVar := if letter == 'I' then ':' else '?';
    if 1 < |wlist[0]| then Err(BadRuleSyntax(arg))
    else if kindVar != rv then Err(RuleKindMismatch(arg, rv))
    else
      var f :- FieldsFrom(wlist, Defaults(letter), 0);
      if letter == 'S' then Ok(Slice(f[0], f[1], f[2]))
      else if letter == 'B' then Ok(Bump(f[0], f[1]))
      else
        match f[3]
        case FInt(m) =>
          if m == 0 then Ok(Insert(f[0], f[1], f[2], 0, f[4]))
          else Err(Crash(ModeNotLetters))
        case FStr(m) =>
          var bm := BitmapChars(m, "ER");
          assert Pow2(2) == 4;
          Ok(Insert(f[0], f[1], f[2], bm, f[0]))
  }

  /** A parsed rule carries the fields of its argument, as FieldsFrom reads them; an I rule's mode field becomes its bitmap. */
  lemma PrepRuleFields(arg: string, rv: char)
    requires arg != [] && IsRuleLetter(arg[0])
    ensures PrepRule(arg, rv).Ok? ==> FieldsFrom(Split(arg, '/'), Defaults(arg[0]), 0).Ok?
    ensures PrepRule(arg, rv).Ok? && !PrepRule(arg, rv).value.Insert? ==>
      Fields(PrepRule(arg, rv).value) == FieldsFrom(Split(arg, '/'), Defaults(arg[0]), 0).value
    ensures PrepRule(arg, rv).Ok? && PrepRule(arg, rv).value.Insert? ==>
      Fields(PrepRule(arg, rv).value)[..3] == FieldsFrom(Split(arg, '/'), Defaults(arg[0]), 0).value[..3]
  {
  }

  /** The E and R letters of an I rule mode string are bits 0 and 1 of the bitmap. */
  lemma InsertModeBits(arg: string, rv: char, m: string)
    requires arg != [] && arg[0] == 'I'
    requires PrepRule(arg, rv).Ok?
    requires FieldsFrom(Split(arg, '/'), Defaults('I'), 0).value[3] == FStr(m)
    ensures Bit(PrepRule(arg, rv).value.bits, 0) <==> 'E' in m
    ensures Bit(PrepRule(arg, rv).value.bits, 1) <==> 'R' in m
  {
    BitmapCharsBits(m, "ER", 0);
    BitmapCharsBits(m, "ER", 1);
  }

  /** A string field that reads back as itself: not empty, no '/', and not number-like. */
  predicate Word(s: string)
  {
    && s != [] && '/' !in s && s != "-"
    && !IsDigit(s[0]) && !(s[0] == '-' && IsDigit(s[1]))
  }

  predicate Renderable(f: Field)
  {
    f.FStr? ==> Word(f.s)
  }

  function RenderField(f: Field): string
  {
    match f
    case FInt(n) => SignedDecimal(n)
    case FStr(s) => s
  }

  /** The mode string of an I rule bitmap. */
  function ModeWord(mode: int): string
  {
    if mode == 1 then "E" else if mode == 2 then "R" else "ER"
  }

  /** The fields of a rule, as the argument writes them. */
  function Fields(r: Rule): seq<Field>
  {
    match r
    case Slice(a, b, c) => [a, b, c]
    case Bump(a, b) => [a, b]
    case Insert(a, b, c, m, d) =>
      [a, b, c, if m == 0 then FInt(0) else FStr(ModeWord(m)), if m == 0 then d else FInt(0)]
  }

  /** A rule whose fields can be written as an argument and read back unchanged. */
  predicate RuleRenderable(r: Rule)
  {
    && (forall i | 0 <= i < |Fields(r)| :: Renderable(Fields(r)[i]))
    && (r.Insert? ==> 0 <= r.bits < 4 && (r.bits != 0 ==> r.reload == r.start))
  }

  lemma ConvertRendered(f: Field)
    requires Renderable(f)
    ensures RenderField(f) != [] && '/' !in RenderField(f)
    ensures ConvertField(RenderField(f)) == Ok(f)
  {
    match f
    case FInt(n) =>
      ScanIntSignedDecimal(n);
      SignedDecimalShape(n);
      if n < 0 {
        assert ("-" + Decimal(-n))[1] == Decimal(-n)[0];
      }
    case FStr(s) =>
  }

  lemma FieldsFromStep(wlist: seq<string>, defaults: seq<Field>, k: nat, f: Field, rest: seq<Field>)
    requires k < |defaults| && Given(wlist, k + 1) && ConvertField(wlist[k + 1]) == Ok(f)
    requires FieldsFrom(wlist, defaults, k + 1) == Ok(rest)
    ensures FieldsFrom(wlist, defaults, k) == Ok([f] + rest)
  {
  }

  lemma {:induction false} FieldsFromRendered(wlist: seq<string>, fs: seq<Field>, defaults: seq<Field>, k: nat)
    requires |fs| == |defaults| && k <= |fs| && |wlist| == |fs| + 1
    requires forall i | 0 <= i < |fs| :: Renderable(fs[i]) && wlist[i + 1] == RenderField(fs[i])
    ensures FieldsFrom(wlist, defaults, k) == Ok(fs[k..])
    decreases |fs| - k
  {
    if k < |fs| {
      ConvertRendered(fs[k]);
      FieldsFromRendered(wlist, fs, defaults, k + 1);
      FieldsFromStep(wlist, defaults, k, fs[k], fs[k + 1..]);
      assert fs[k..] == [fs[k]] + fs[k + 1..];
    } else {
      assert fs[k..] == [];
    }
  }

  /** The strings of a rule argument: the letter, then each rendered field. */
  function RenderParts(r: Rule): (parts: seq<string>)
    ensures |parts| == |Fields(r)| + 1
  {
    [[Letter(r)]] + seq(|Fields(r)|, i requires 0 <= i < |Fields(r)| => RenderField(Fields(r)[i]))
  }

  /** A rule argument: the letter, then every field after a '/'. */
  function Render(r: Rule): string
  {
    Join(RenderParts(r), '/')
  }

  lemma RenderSplits(r: Rule)
    requires RuleRenderable(r)
    ensures Render(r) != [] && Render(r)[0] == Letter(r)
    ensures Split(Render(r), '/') == RenderParts(r)
  {
    var parts := RenderParts(r);
    forall i | 0 <= i < |parts| ensures '/' !in parts[i] {
      if i > 0 {
        ConvertRendered(Fields(r)[i - 1]);
      }
    }
    SplitJoinParts(parts, '/');
    assert Render(r) == parts[0] + ['/'] + Join(parts[1..], '/');
  }

  /** Writing a rule as an argument and parsing it for its own variable gives the rule back. */
  lemma PrepRuleRender(r: Rule)
    requires RuleRenderable(r)
    ensures Render(r) != [] && Render(r)[0] == Letter(r)
    ensures PrepRule(Render(r), RuleVar(r)) == Ok(r)
  {
    var fs := Fields(r);
    var arg := Render(r);
    RenderSplits(r);
    assert |Split(arg, '/')[0]| <= 1 && FieldsFrom(Split(arg, '/'), Defaults(arg[0]), 0) == Ok(fs) by {
      FieldsFromRendered(RenderParts(r), fs, Defaults(Letter(r)), 0);
      assert fs[0..] == fs;
    }
    PrepRuleOfFields(arg, RuleVar(r), fs);
    if r.Insert? && r.bits != 0 {
      ModeWordBits(r.bits);
    }
  }

  /** The mode word written for a nonzero bitmap reads back as that bitmap. */
  lemma ModeWordBits(m: int)
    requires 0 < m < 4
    ensures BitmapChars(ModeWord(m), "ER") == m
  {
    assert "ER"[1..] == "R";
    assert "R"[1..] == "";
  }

  /** prepRule once the letter is checked and the fields are read. */
  lemma PrepRuleOfFields(arg: string, rv: char, fs: seq<Field>)
    requires arg != [] && IsRuleLetter(arg[0]) && |Split(arg, '/')[0]| <= 1
    requires rv == (if arg[0] == 'I' then ':' else '?')
    requires FieldsFrom(Split(arg, '/'), Defaults(arg[0]), 0) == Ok(fs)
    ensures arg[0] == 'S' ==> PrepRule(arg, rv) == Ok(Slice(fs[0], fs[1], fs[2]))
    ensures arg[0] == 'B' ==> PrepRule(arg, rv) == Ok(Bump(fs[0], fs[1]))
    ensures arg[0] == 'I' && fs[3] == FInt(0) ==> PrepRule(arg, rv) == Ok(Insert(fs[0], fs[1], fs[2], 0, fs[4]))
    ensures arg[0] == 'I' && fs[3].FStr? ==>
      PrepRule(arg, rv) == Ok(Insert(fs[0], fs[1], fs[2], BitmapChars(fs[3].s, "ER"), fs[0]))
  {
  }

  lemma PrepRuleDefaultsExample()
    ensures PrepRule("S", '?') == Ok(Slice(FInt(2), FInt(2), FInt(0)))
  {
    SplitNoSep("S", '/');
    var d := Defaults('S');
    var w := ["S"];
    assert FieldsFrom(w, d, 3) == Ok([]);
    assert FieldsFrom(w, d, 2).Ok?;
    assert FieldsFrom(w, d, 2).value == [FInt(0)];
    assert FieldsFrom(w, d, 1).Ok?;
    assert FieldsFrom(w, d, 1).value == [FInt(2), FInt(0)];
  }

  /** An empty field keeps the default; later fields still count. */
  lemma PrepRuleBlankFieldExample()
    ensures PrepRule("B//1", '?') == Ok(Bump(FInt(1), FInt(1)))
  {
    BlankFieldSplit("B//1");
    BlankFieldFields(["B", "", "1"]);
    PrepRuleOfFields("B//1", '?', [FInt(1), FInt(1)]);
  }

  /** "B//1" splits into the letter, an empty field and "1". */
  lemma BlankFieldSplit(arg: string)
    requires arg == "B//1"
    ensures Split(arg, '/') == ["B", "", "1"]
  {
    SplitNoSep("1", '/');
    SplitAfterSep("", "1", '/');
    assert "" + ['/'] + "1" == "/1";
    SplitAfterSep("B", "/1", '/');
    assert "B" + ['/'] + "/1" == "B//1";
  }

  /** The empty first field keeps the B default 1; the second reads as 1. */
  lemma BlankFieldFields(w: seq<string>)
    requires w == ["B", "", "1"]
    ensures FieldsFrom(w, Defaults('B'), 0) == Ok([FInt(1), FInt(1)])
  {
    ScanIntSignedDecimal(1);
    assert SignedDecimal(1) == "1" by { SignedDecimalShape(1); }
    var d := Defaults('B');
    assert |d| == 2 && d[0] == FInt(1);
    assert ConvertField(w[2]) == Ok(FInt(1));
    assert FieldsFrom(w, d, 2) == Ok([]);
    FieldsFromStep(w, d, 1, FInt(1), []);
    assert [FInt(1)] + [] == [FInt(1)];
    assert !Given(w, 1) && FieldsFrom(w, d, 0) == Ok([FInt(1)] + [FInt(1)]);
    assert [FInt(1)] + [FInt(1)] == [FInt(1), FInt(1)];
  }

  lemma PrepRuleErrorExamples()
    ensures PrepRule("Sx/1", '?') == Err(BadRuleSyntax("Sx/1"))
    ensures PrepRule("I/a", '?') == Err(RuleKindMismatch("I/a", '?'))
    ensures PrepRule("S/-", '?') == Err(Crash(DashField))
  {
    SyntaxErrorExample();
    KindErrorExample();
    DashErrorExample();
  }

  lemma SyntaxErrorExample()
    ensures PrepRule("Sx/1", '?') == Err(BadRuleSyntax("Sx/1"))
  {
    SplitAfterSep("Sx", "1", '/');
    assert "Sx" + ['/'] + "1" == "Sx/1";
  }

  lemma KindErrorExample()
    ensures PrepRule("I/a", '?') == Err(RuleKindMismatch("I/a", '?'))
  {
    SplitAfterSep("I", "a", '/');
    assert "I" + ['/'] + "a" == "I/a";
  }

  lemma DashErrorExample()
    ensures PrepRule("S/-", '?') == Err(Crash(DashField))
  {
    SplitAfterSep("S", "-", '/');
    assert "S" + ['/'] + "-" == "S/-";
    SplitNoSep("-", '/');
  }

  /** Rule arguments left after options are removed: each is empty or does not start with '-'. */
  predicate RuleArgs(args: seq<string>)
  {
    forall i | 0 <= i < |args| :: args[i] == [] || args[i][0] != '-'
  }

  /** Parses rule arguments k.. against replacement variables k..: one rule per argument, in order. */
  function RulesFrom(args: seq<string>, rulevars: seq<char>, k: nat): (r: Result<seq<Rule>, CompileError>)
    requires k <= |args|
    ensures r.Ok? ==> |r.value| == |args| - k
    ensures r.Ok? && k < |args| ==> |args| <= |rulevars|
    ensures r.Ok? ==> forall j | k <= j < |args| ::
      && j < |rulevars| && args[j] != []
      && Letter(r.value[j - k]) == args[j][0] && RuleVar(r.value[j - k]) == rulevars[j]
    decreases |args| - k
  {
    if k == |args| then Ok([])
    else if args[k] == [] then Err(Crash(EmptyArgument))
    else if |rulevars| <= k then Err(MoreRules)
    else if !IsRuleLetter(args[k][0]) then Err(UnknownRule(args[k]))
    else
      var rule :- PrepRule(args[k], rulevars[k]);
      var rest :- RulesFrom(args, rulevars, k + 1);
      RulesCons(args, rulevars, k, rule, rest);
      Ok([rule] + rest)
  }

  /** The rule for argument k in front of the rules for k + 1.. matches arguments and variables k.. */
  lemma RulesCons(args: seq<string>, rulevars: seq<char>, k: nat, rule: Rule, rest: seq<Rule>)
    requires k < |args| && k < |rulevars| && args[k] != []
    requires Letter(rule) == args[k][0] && RuleVar(rule) == rulevars[k]
    requires |rest| == |args| - k - 1
    requires forall j | k + 1 <= j < |args| ::
      && j < |rulevars| && args[j] != []
      && Letter(rest[j - k - 1]) == args[j][0] && RuleVar(rest[j - k - 1]) == rulevars[j]
    ensures forall j | k <= j < |args| ::
      && j < |rulevars| && args[j] != []
      && Letter(([rule] + rest)[j - k]) == args[j][0] && RuleVar(([rule] + rest)[j - k]) == rulevars[j]
  {
    var all := [rule] + rest;
    assert forall i | 0 < i < |all| :: all[i] == rest[i - 1];
  }

  /**
   * The rule loop of the compile: every rule argument in order, then the
   * check that each '?' and ':' variable of the replacement has its rule.
   */
  function CompileRules(args: seq<string>, rulevars: seq<char>): (r: Result<seq<Rule>, CompileError>)
    requires RuleArgs(args)
    ensures r.Ok? ==> |r.value| == |rulevars| == |args|
    ensures r.Ok? ==> forall i | 0 <= i < |rulevars| ::
      args[i] != [] && RuleVar(r.value[i]) == rulevars[i] && Letter(r.value[i]) == args[i][0]
  {
    match RulesFrom(args, rulevars, 0)
    case Err(e) => Err(e)
    case Ok(rules) =>
      if |rules| < |rulevars| then Err(TooFewRules(|rules|, |rulevars|)) else Ok(rules)
  }

  lemma RulesFromStep(args: seq<string>, rulevars: seq<char>, k: nat, rule: Rule, rest: seq<Rule>)
    requires k < |args| && k < |rulevars| && args[k] != [] && IsRuleLetter(args[k][0])
    requires PrepRule(args[k], rulevars[k]) == Ok(rule) && RulesFrom(args, rulevars, k + 1) == Ok(rest)
    ensures RulesFrom(args, rulevars, k) == Ok([rule] + rest)
  {
  }

  /** Argument i, for variable i, parses as the given rule. */
  predicate ParsesAs(args: seq<string>, rulevars: seq<char>, i: nat, rule: Rule)
  {
    i < |args| && i < |rulevars| && args[i] != [] && IsRuleLetter(args[i][0]) && PrepRule(args[i], rulevars[i]) == Ok(rule)
  }

  /** Arguments that each parse as their rule give those rules, in order. */
  lemma {:induction false} RulesFromParsed(rules: seq<Rule>, args: seq<string>, rulevars: seq<char>, k: nat)
    requires k <= |rules| == |args|
    requires forall i | 0 <= i < |rules| :: ParsesAs(args, rulevars, i, rules[i])
    ensures RulesFrom(args, rulevars, k) == Ok(rules[k..])
    decreases |rules| - k
  {
    if k < |rules| {
      var rest := rules[k + 1..];
      RulesFromParsed(rules, args, rulevars, k + 1);
      assert RulesFrom(args, rulevars, k) == Ok([rules[k]] + rest) by {
        assert ParsesAs(args, rulevars, k, rules[k]);
        RulesFromStep(args, rulevars, k, rules[k], rest);
      }
      assert rules[k..] == [rules[k]] + rest;
    } else {
      assert rules[k..] == [];
    }
  }

  /** Rendered rules for their variables compile back to themselves. */
  lemma RulesFromRendered(rules: seq<Rule>, args: seq<string>, rulevars: seq<char>, k: nat)
    requires k <= |rules| && |args| == |rules| && |rulevars| == |rules|
    requires forall i | 0 <= i < |rules| ::
      RuleRenderable(rules[i]) && args[i] == Render(rules[i]) && rulevars[i] == RuleVar(rules[i])
    ensures RulesFrom(args, rulevars, k) == Ok(rules[k..])
  {
    forall i | 0 <= i < |rules|
      ensures ParsesAs(args, rulevars, i, rules[i])
    {
      PrepRuleRender(rules[i]);
    }
    RulesFromParsed(rules, args, rulevars, k);
  }

  lemma CompileRulesRender(rules: seq<Rule>)
    requires forall i | 0 <= i < |rules| :: RuleRenderable(rules[i])
    ensures var args := seq(|rules|, i requires 0 <= i < |rules| => Render(rules[i]));
      RuleArgs(args) &&
      CompileRules(args, seq(|rules|, i requires 0 <= i < |rules| => RuleVar(rules[i]))) == Ok(rules)
  {
    var args := seq(|rules|, i requires 0 <= i < |rules| => Render(rules[i]));
    forall i | 0 <= i < |rules| ensures args[i] != [] && args[i][0] != '-' {
      PrepRuleRender(rules[i]);
    }
    RulesFromRendered(rules, args, seq(|rules|, i requires 0 <= i < |rules| => RuleVar(rules[i])), 0);
    assert rules[0..] == rules;
  }
}
