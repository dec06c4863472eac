/**
 * String and number helpers that reproduce the Python built-ins the rename
 * engine relies on: ASCII character classes, str(n) and '%0*d' formatting,
 * int(s, base), str.split, slicing with clamping, and string ordering.
 * Names are assumed to be ASCII, so isdigit/isalpha/upper/lower are the
 * ASCII versions.
 */
module Text {
  import opened Wrappers

  predicate IsDigit(c: char) { '0' <= c <= '9' }
  predicate IsUpper(c: char) { 'A' <= c <= 'Z' }
  predicate IsLower(c: char) { 'a' <= c <= 'z' }
  predicate IsAlpha(c: char) { IsUpper(c) || IsLower(c) }

  predicate AllDigits(s: string)
  {
    forall i | 0 <= i < |s| :: IsDigit(s[i])
  }

  /** Python's str.isnumeric() on an ASCII string: non-empty and all digits. */
  predicate IsNumeric(s: string)
  {
    0 < |s| && AllDigits(s)
  }

  function DigitChar(d: nat): (c: char)
    requires d < 10
    ensures IsDigit(c)
  {
    (48 + d) as char
  }

  function DigitValue(c: char): (d: nat)
    requires IsDigit(c)
    ensures d < 10 && DigitChar(d) == c
  {
    c as int - 48
  }

  /** Python's str(n) for a natural number: its digits without leading zeros. */
  function Decimal(n: nat): (r: string)
    ensures 0 < |r| && AllDigits(r)
    ensures 0 < n ==> r[0] != '0'
    ensures n < 10 <==> |r| == 1
    decreases n
  {
    if n < 10 then [DigitChar(n)] else Decimal(n / 10) + [DigitChar(n % 10)]
  }

  /** The number a string of decimal digits denotes (leading zeros allowed). */
  function ValueOf(s: string): nat
    requires AllDigits(s)
    decreases |s|
  {
    if s == [] then 0 else 10 * ValueOf(s[..|s| - 1]) + DigitValue(s[|s| - 1])
  }

  function Pow10(k: nat): (r: nat)
    ensures 0 < r
  {
    if k == 0 then 1 else 10 * Pow10(k - 1)
  }

  /** Reading back the digits str(n) writes gives n. */
  lemma {:induction false} ValueOfDecimal(n: nat)
    ensures ValueOf(Decimal(n)) == n
    decreases n
  {
    if n >= 10 {
      var d := Decimal(n / 10);
      var r := d + [DigitChar(n % 10)];
      assert r[..|r| - 1] == d;
      ValueOfDecimal(n / 10);
    }
  }

  /** Digit strings are closed under concatenation. */
  lemma AllDigitsAppend(a: string, b: string)
    requires AllDigits(a) && AllDigits(b)
    ensures AllDigits(a + b)
  {
    forall i | 0 <= i < |a + b| ensures IsDigit((a + b)[i]) {
      if i < |a| { assert (a + b)[i] == a[i]; } else { assert (a + b)[i] == b[i - |a|]; }
    }
  }

  /** Shifting a place-value sum one more digit to the left. */
  lemma PlaceShift(va: int, p: int, vb: int, d: int)
    ensures 10 * (va * p + vb) + d == va * (10 * p) + (10 * vb + d)
  {
    assert 10 * (va * p) == va * (10 * p);
  }

  /** The value of a concatenation of digit strings, place by place. */
  lemma {:induction false} ValueOfAppend(a: string, b: string)
    requires AllDigits(a) && AllDigits(b)
    ensures AllDigits(a + b)
    ensures ValueOf(a + b) == ValueOf(a) * Pow10(|b|) + ValueOf(b)
    decreases |b|
  {
    AllDigitsAppend(a, b);
    if b == [] {
      assert a + b == a;
    } else {
      var b' := b[..|b| - 1];
      var d := DigitValue(b[|b| - 1]);
      assert AllDigits(b');
      ValueOfAppend(a, b');
      assert (a + b)[..|a + b| - 1] == a + b';
      assert (a + b)[|a + b| - 1] == b[|b| - 1];
      assert ValueOf(a + b) == 10 * ValueOf(a + b') + d;
      assert ValueOf(b) == 10 * ValueOf(b') + d;
      assert Pow10(|b|) == 10 * Pow10(|b'|);
      PlaceShift(ValueOf(a), Pow10(|b'|), ValueOf(b'), d);
    }
  }

  /** k copies of c; empty when k is not positive. */
  function Repeat(c: char, k: int): (r: string)
    ensures |r| == (if k < 0 then 0 else k)
    ensures forall i | 0 <= i < |r| :: r[i] == c
    decreases k
  {
    if k <= 0 then [] else [c] + Repeat(c, k - 1)
  }

  lemma {:induction false} ValueOfZeros(k: int)
    ensures AllDigits(Repeat('0', k))
    ensures ValueOf(Repeat('0', k)) == 0
    decreases k
  {
    if k > 0 {
      var z := Repeat('0', k);
      assert z[..|z| - 1] == Repeat('0', k - 1);
      ValueOfZeros(k - 1);
    }
  }

  /**
   * Python's '%0*d' % (width, v): the sign, then zeros up to the width, then
   * the digits; a negative width left-justifies with spaces instead.
   */
  function FormatInt(v: int, width: int): (r: string)
    ensures 0 < |r| && width <= |r|
  {
    var sign := if v < 0 then "-" else "";
    var digits := Decimal(if v < 0 then -v else v);
    if width >= 0 then sign + Repeat('0', width - |sign| - |digits|) + digits
    else sign + digits + Repeat(' ', -width - |sign| - |digits|)
  }

  /** A non-negative value formatted with a non-negative width reads back as itself. */
  lemma FormatIntRoundTrip(v: nat, width: nat)
    ensures AllDigits(FormatInt(v, width))
    ensures ValueOf(FormatInt(v, width)) == v
    ensures |FormatInt(v, width)| == if |Decimal(v)| < width then width else |Decimal(v)|
  {
    var digits := Decimal(v);
    var zeros := Repeat('0', width - |digits|);
    var r := FormatInt(v, width);
    FormatIntUnsigned(v, width);
    assert r == zeros + digits;
    ValueOfZeros(width - |digits|);
    ValueOfAppend(zeros, digits);
    ValueOfDecimal(v);
    assert ValueOf(zeros + digits) == 0 * Pow10(|digits|) + v;
    assert ValueOf(r) == v;
    assert |r| == |zeros| + |digits|;
  }

  lemma FormatIntUnsigned(v: nat, width: nat)
    ensures FormatInt(v, width) == Repeat('0', width - |Decimal(v)|) + Decimal(v)
  {
    var sign: string := "";
    assert FormatInt(v, width) == sign + Repeat('0', width - |Decimal(v)|) + Decimal(v);
  }

  /** Python's '%d' % v. */
  function SignedDecimal(v: int): string
  {
    FormatInt(v, 0)
  }

  /** Python's whitespace for int(): ASCII space, \t..\r and the separators 0x1c..0x1f. */
  predicate IsSpace(c: char)
  {
    c == ' ' || (9 <= c as int <= 13) || (28 <= c as int <= 31)
  }

  function StripLeft(s: string): (r: string)
    ensures |r| <= |s|
    decreases |s|
  {
    if 0 < |s| && IsSpace(s[0]) then StripLeft(s[1..]) else s
  }

  function StripRight(s: string): (r: string)
    ensures |r| <= |s|
    decreases |s|
  {
    if 0 < |s| && IsSpace(s[|s| - 1]) then StripRight(s[..|s| - 1]) else s
  }

  /** The value of c as a digit of the given base, if it is one. */
  function BaseDigit(c: char, base: nat): (d: Option<nat>)
    ensures d.Some? ==> d.value < base
  {
    var v := if IsDigit(c) then c as int - 48
             else if 'a' <= c <= 'z' then c as int - 87
             else if 'A' <= c <= 'Z' then c as int - 55
             else 99;
    if v < base then Some(v) else None
  }

  /** Digits of the base with single underscores allowed between two digits. */
  predicate Grouped(s: string, base: nat)
  {
    && 0 < |s|
    && BaseDigit(s[0], base).Some?
    && BaseDigit(s[|s| - 1], base).Some?
    && forall i | 0 <= i < |s| ::
         BaseDigit(s[i], base).Some? || (s[i] == '_' && i + 1 < |s| && s[i + 1] != '_')
  }

  /** The value of the digits of s in the given base, underscores ignored. */
  function GroupedValue(s: string, base: nat): nat
    decreases |s|
  {
    if s == [] then 0
    else
      var rest := GroupedValue(s[..|s| - 1], base);
      match BaseDigit(s[|s| - 1], base)
      case Some(d) => rest * base + d
      case None => rest
  }

  /**
   * Python's int(s, base) for base 2, 10 or 16 on an ASCII string: surrounding
   * whitespace, one sign, the 0x / 0b prefix of its base, digits with single
   * underscores. None where Python raises ValueError.
   */
  function PyInt(s: string, base: nat): Option<int>
  {
    SignedValue(StripRight(StripLeft(s)), base)
  }

  /** An optional sign followed by an unsigned literal of the base. */
  function SignedValue(t: string, base: nat): Option<int>
  {
    if 0 < |t| && t[0] == '-' then
      match UnsignedValue(t[1..], base)
      case Some(v) => Some(-v)
      case None => None
    else if 0 < |t| && t[0] == '+' then UnsignedValue(t[1..], base)
    else UnsignedValue(t, base)
  }

  /** Digits of the base, after the base's 0x / 0b prefix and one underscore if present. */
  function UnsignedValue(u: string, base: nat): Option<int>
  {
    var prefixed := 2 <= |u| && u[0] == '0'
                    && ((base == 16 && (u[1] == 'x' || u[1] == 'X'))
                        || (base == 2 && (u[1] == 'b' || u[1] == 'B')));
    var w := if prefixed then u[2..] else u;
    var w' := if prefixed && 0 < |w| && w[0] == '_' then w[1..] else w;
    if Grouped(w', base) then Some(GroupedValue(w', base)) else None
  }

  lemma {:induction false} GroupedValueDecimal(s: string)
    requires AllDigits(s)
    ensures GroupedValue(s, 10) == ValueOf(s)
    decreases |s|
  {
    if s != [] {
      GroupedValueDecimal(s[..|s| - 1]);
    }
  }

  /** int() reads a plain run of decimal digits as the number it denotes. */
  lemma PyIntDigits(s: string)
    requires IsNumeric(s)
    ensures PyInt(s, 10) == Some(ValueOf(s))
  {
    assert StripLeft(s) == s;
    assert StripRight(s) == s;
    GroupedDigits(s);
    GroupedValueDecimal(s);
  }

  /** int() reads a minus sign and a run of decimal digits as the negated number. */
  lemma PyIntNegDigits(s: string)
    requires IsNumeric(s)
    ensures PyInt("-" + s, 10) == Some(-(ValueOf(s) as int))
  {
    var m := "-" + s;
    assert StripLeft(m) == m;
    assert m[|m| - 1] == s[|s| - 1];
    assert StripRight(m) == m;
    assert m[1..] == s;
    assert UnsignedValue(s, 10) == Some(ValueOf(s) as int) by {
      GroupedDigits(s);
      GroupedValueDecimal(s);
    }
    assert PyInt(m, 10) == SignedValue(m, 10);
  }

  lemma GroupedDigits(s: string)
    requires IsNumeric(s)
    ensures Grouped(s, 10)
  {
  }

  /** int() reads back what str() writes, sign included. */
  lemma PyIntSignedDecimal(v: int)
    ensures PyInt(SignedDecimal(v), 10) == Some(v)
  {
    SignedDecimalShape(v);
    if v < 0 {
      PyIntNegative(-v, Decimal(-v));
    } else {
      ValueOfDecimal(v);
      PyIntDigits(Decimal(v));
    }
  }

  lemma PyIntNegative(n: nat, d: string)
    requires d == Decimal(n)
    ensures PyInt("-" + d, 10) == Some(-(n as int))
  {
    ValueOfDecimal(n);
    PyIntNegDigits(d);
  }

  lemma SignedDecimalShape(v: int)
    ensures SignedDecimal(v) == if v < 0 then "-" + Decimal(-v) else Decimal(v)
  {
    var sign: string := if v < 0 then "-" else "";
    assert Repeat('0', 0 - |sign| - |Decimal(if v < 0 then -v else v)|) == "";
  }

  /** Python's a < b on strings: code-point lexicographic order. */
  predicate LexLess(a: string, b: string)
    decreases |a|
  {
    0 < |b| && (|a| == 0 || a[0] < b[0] || (a[0] == b[0] && LexLess(a[1..], b[1..])))
  }

  /** LexLess is a strict total order on strings. */
  lemma {:induction false} LexLessStrictTotal(a: string, b: string)
    ensures !(LexLess(a, b) && LexLess(b, a))
    ensures a != b ==> LexLess(a, b) || LexLess(b, a)
    decreases |a|
  {
    if 0 < |a| && 0 < |b| {
      LexLessStrictTotal(a[1..], b[1..]);
      if a[0] == b[0] && a != b {
        assert a == [a[0]] + a[1..] && b == [b[0]] + b[1..];
      }
    }
  }

  lemma LexLessIrreflexive(a: string)
    ensures !LexLess(a, a)
  {
    LexLessStrictTotal(a, a);
  }

  /** Position i of Python slicing: negative counts from the end, then clamped. */
  function ClampIndex(i: int, n: nat): (k: nat)
    ensures k <= n
  {
    if i < 0 then (if n + i < 0 then 0 else n + i) else if i > n then n else i
  }

  /** Python's s[start:stop]. */
  function PySlice(s: string, start: int, stop: int): (r: string)
    ensures |r| <= |s|
    ensures 0 <= start <= stop <= |s| ==> r == s[start..stop]
  {
    var a := ClampIndex(start, |s|);
    var b := ClampIndex(stop, |s|);
    if a < b then s[a..b] else []
  }

  /** Python's s.split(sep) for a one-character separator. */
  function Split(s: string, sep: char): (parts: seq<string>)
    ensures 0 < |parts|
    ensures forall i | 0 <= i < |parts| :: sep !in parts[i]
    decreases |s|
  {
    if s == [] then [[]]
    else
      var rest := Split(s[1..], sep);
      if s[0] == sep then [[]] + rest else [[s[0]] + rest[0]] + rest[1..]
  }

  /** Python's sep.join(parts). */
  function Join(parts: seq<string>, sep: char): string
    requires 0 < |parts|
    decreases |parts|
  {
    if |parts| == 1 then parts[0] else parts[0] + [sep] + Join(parts[1..], sep)
  }

  /** Python's s.find(c, i): the first position of c at or after i. */
  function Find(s: string, c: char, i: nat): (r: Option<nat>)
    requires i <= |s|
    ensures r.Some? ==> i <= r.value < |s| && s[r.value] == c
    ensures r.Some? ==> forall k | i <= k < r.value :: s[k] != c
    ensures r.None? ==> forall k | i <= k < |s| :: s[k] != c
    decreases |s| - i
  {
    if i == |s| then None else if s[i] == c then Some(i) else Find(s, c, i + 1)
  }

  /** Occurrences of c in s. */
  function Count(s: string, c: char): nat
    decreases |s|
  {
    if s == [] then 0 else (if s[0] == c then 1 else 0) + Count(s[1..], c)
  }

  /** Splitting and re-joining on the same separator gives back the string. */
  lemma {:induction false} JoinSplit(s: string, sep: char)
    ensures Join(Split(s, sep), sep) == s
    ensures |Split(s, sep)| == Count(s, sep) + 1
    decreases |s|
  {
    if s != [] {
      var rest := Split(s[1..], sep);
      JoinSplit(s[1..], sep);
      var parts := Split(s, sep);
      if s[0] == sep {
        assert parts[1..] == rest;
        assert s == [sep] + s[1..];
      } else {
        if |rest| == 1 {
          assert s == [s[0]] + s[1..];
        } else {
          assert parts[1..] == rest[1..];
          assert Join(rest, sep) == rest[0] + [sep] + Join(rest[1..], sep);
          assert s == [s[0]] + s[1..];
        }
      }
    }
  }

  /** A string without the separator splits into itself alone. */
  lemma {:induction false} SplitNoSep(a: string, sep: char)
    requires sep !in a
    ensures Split(a, sep) == [a]
    decreases |a|
  {
    if a != [] {
      assert sep !in a[1..] by {
        forall c | c in a[1..] ensures c != sep { assert c in a; }
      }
      SplitNoSep(a[1..], sep);
      assert a[0] != sep by { assert a[0] in a; }
      assert [a[0]] + a[1..] == a;
    }
  }

  /** Splitting a part, a separator and the rest gives the part followed by the rest's parts. */
  lemma {:induction false} SplitAfterSep(a: string, b: string, sep: char)
    requires sep !in a
    ensures Split(a + [sep] + b, sep) == [a] + Split(b, sep)
    decreases |a|
  {
    var s := a + [sep] + b;
    if a == [] {
      assert s[1..] == b;
    } else {
      assert s[1..] == a[1..] + [sep] + b;
      assert sep !in a[1..] by {
        forall c | c in a[1..] ensures c != sep { assert c in a; }
      }
      SplitAfterSep(a[1..], b, sep);
      assert [a[0]] + a[1..] == a;
    }
  }

  /** Joining parts free of the separator and splitting again gives back the parts. */
  lemma {:induction false} SplitJoinParts(parts: seq<string>, sep: char)
    requires 0 < |parts|
    requires forall i | 0 <= i < |parts| :: sep !in parts[i]
    ensures Split(Join(parts, sep), sep) == parts
    decreases |parts|
  {
    if |parts| == 1 {
      SplitNoSep(parts[0], sep);
    } else {
      SplitJoinParts(parts[1..], sep);
      SplitAfterSep(parts[0], Join(parts[1..], sep), sep);
      assert [parts[0]] + parts[1..] == parts;
    }
  }

  function Pow2(k: nat): (r: nat)
    ensures 0 < r
  {
    if k == 0 then 1 else 2 * Pow2(k - 1)
  }

  /**
   * Bit k of n as Python's n & (1 << k) sees it: n >> k halves with floor
   * division (Dafny's / by a positive divisor), so negative n behaves as
   * two's complement.
   */
  predicate Bit(n: int, k: nat)
    decreases k
  {
    if k == 0 then n % 2 == 1 else Bit(n / 2, k - 1)
  }

  /** The concatenation of a list of strings (Python's "".join). */
  function Concat(parts: seq<string>): string
    decreases |parts|
  {
    if parts == [] then [] else parts[0] + Concat(parts[1..])
  }

  lemma {:induction false} ConcatAppend(a: seq<string>, b: seq<string>)
    ensures Concat(a + b) == Concat(a) + Concat(b)
    decreases |a|
  {
    if a == [] {
      assert a + b == b;
    } else {
      assert (a + b)[1..] == a[1..] + b;
      ConcatAppend(a[1..], b);
    }
  }

  function UpperChar(c: char): char
  {
    if IsLower(c) then (c as int - 32) as char else c
  }

  function LowerChar(c: char): char
  {
    if IsUpper(c) then (c as int + 32) as char else c
  }

  /** Python's str.upper() on ASCII. */
  function Upper(s: string): (r: string)
    ensures |r| == |s|
  {
    seq(|s|, i requires 0 <= i < |s| => UpperChar(s[i]))
  }

  /** Python's str.lower() on ASCII. */
  function Lower(s: string): (r: string)
    ensures |r| == |s|
  {
    seq(|s|, i requires 0 <= i < |s| => LowerChar(s[i]))
  }

  /** Python's s.replace(a, with) for a one-character a. */
  function ReplaceChar(s: string, a: char, with: string): string
    decreases |s|
  {
    if s == [] then [] else (if s[0] == a then with else [s[0]]) + ReplaceChar(s[1..], a, with)
  }
}
