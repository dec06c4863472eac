/**
 * The regular expressions the native filter compiles to, and Python's re
 * matcher on them. A compiled filter is a sequence of elements: literal
 * characters and capturing groups (.*?), (.{m}), (.{m,n}) and ([^.]*). The
 * match is anchored at both ends (re.match plus the final $) and follows
 * re's backtracking order: a lazy group tries its shortest text first, a
 * greedy group its longest, and the first success in that order decides
 * what every group captures.
 */
module Pattern {
  import opened Wrappers
  import opened Text
  import ExtSplit

  datatype Elem =
    | Lit(c: char)            // a literal character; the filter's '.' is \.
    | Lazy                    // (.*?)
    | Exact(n: nat)           // (.{n}); the default (.) is Exact(1)
    | Span(lo: nat, hi: nat)  // (.{lo,hi}), greedy
    | NoDotTail               // ([^.]*), greedy

  function CaptureCount(p: seq<Elem>): (n: nat)
    ensures n <= |p|
    decreases |p|
  {
    if p == [] then 0 else (if p[0].Lit? then 0 else 1) + CaptureCount(p[1..])
  }

  /** A literal matches a character equal to it, or equal ignoring ASCII case when folding. */
  predicate CharMatch(c: char, x: char, fold: bool)
  {
    c == x || (fold && LowerChar(c) == LowerChar(x))
  }

  /** The texts a capturing element accepts, whatever surrounds it. */
  predicate Admits(e: Elem, t: string)
  {
    match e
    case Lit(_) => false
    case Lazy => true
    case Exact(n) => |t| == n
    case Span(lo, hi) => lo <= |t| <= hi
    case NoDotTail => forall i | 0 <= i < |t| :: t[i] != '.'
  }

  /**
   * Declarative meaning of a match: caps are the captured texts, one per
   * capturing element, that together with the literals spell out s exactly.
   */
  predicate Fits(p: seq<Elem>, s: string, caps: seq<string>, fold: bool)
    decreases |p|
  {
    if p == [] then s == [] && caps == []
    else if p[0].Lit? then
      0 < |s| && CharMatch(p[0].c, s[0], fold) && Fits(p[1..], s[1..], caps, fold)
    else
      && 0 < |caps| && |caps[0]| <= |s| && caps[0] == s[..|caps[0]|]
      && Admits(p[0], caps[0])
      && Fits(p[1..], s[|caps[0]|..], caps[1..], fold)
  }

  function Min(a: nat, b: nat): nat
  {
    if a <= b then a else b
  }

  /** Python's re.match(pattern + '$', s).groups(), or None when it does not match. */
  function Match(p: seq<Elem>, s: string, fold: bool): Option<seq<string>>
    decreases |p|, 1, 0
  {
    if p == [] then
      if s == [] then Some([]) else None
    else
      match p[0]
      case Lit(c) =>
        if 0 < |s| && CharMatch(c, s[0], fold) then Match(p[1..], s[1..], fold) else None
      case Lazy => Shortest(p[1..], s, 0, fold)
      case Exact(n) => if n <= |s| then Longest(p[1..], s, n, n, fold) else None
      case Span(lo, hi) => Longest(p[1..], s, lo, Min(hi, |s|), fold)
      case NoDotTail => Longest(p[1..], s, 0, ExtSplit.SkipNonDots(s, 0), fold)
  }

  /** A lazy group: the first capture length from k upwards after which the rest matches. */
  function Shortest(rest: seq<Elem>, s: string, k: nat, fold: bool): Option<seq<string>>
    requires k <= |s|
    decreases |rest| + 1, 0, |s| - k
  {
    match Match(rest, s[k..], fold)
    case Some(caps) => Some([s[..k]] + caps)
    case None => if k < |s| then Shortest(rest, s, k + 1, fold) else None
  }

  /** A greedy group: the first capture length from k downwards to lo after which the rest matches. */
  function Longest(rest: seq<Elem>, s: string, lo: nat, k: nat, fold: bool): Option<seq<string>>
    requires k <= |s|
    decreases |rest| + 1, 0, k
  {
    if k < lo then None
    else
      match Match(rest, s[k..], fold)
      case Some(caps) => Some([s[..k]] + caps)
      case None => if k == 0 then None else Longest(rest, s, lo, k - 1, fold)
  }

  /** What a lazy search returns: the shortest length from k that lets the rest match. */
  lemma {:induction false} ShortestFacts(rest: seq<Elem>, s: string, k: nat, fold: bool)
    requires k <= |s|
    ensures var r := Shortest(rest, s, k, fold);
      r.Some? ==>
        && 0 < |r.value| && k <= |r.value[0]| <= |s| && r.value[0] == s[..|r.value[0]|]
        && Match(rest, s[|r.value[0]|..], fold) == Some(r.value[1..])
        && forall j | k <= j < |r.value[0]| :: Match(rest, s[j..], fold).None?
    ensures Shortest(rest, s, k, fold).None? ==>
      forall j | k <= j <= |s| :: Match(rest, s[j..], fold).None?
    decreases |s| - k
  {
    if Match(rest, s[k..], fold).None? && k < |s| {
      ShortestFacts(rest, s, k + 1, fold);
    }
  }

  /** What a greedy search returns: the longest length from k down to lo that lets the rest match. */
  lemma {:induction false} LongestFacts(rest: seq<Elem>, s: string, lo: nat, k: nat, fold: bool)
    requires k <= |s|
    ensures var r := Longest(rest, s, lo, k, fold);
      r.Some? ==>
        && 0 < |r.value| && lo <= |r.value[0]| <= k && r.value[0] == s[..|r.value[0]|]
        && Match(rest, s[|r.value[0]|..], fold) == Some(r.value[1..])
        && forall j | |r.value[0]| < j <= k :: Match(rest, s[j..], fold).None?
    ensures Longest(rest, s, lo, k, fold).None? ==>
      forall j | lo <= j <= k :: Match(rest, s[j..], fold).None?
    decreases k
  {
    if lo <= k && Match(rest, s[k..], fold).None? && k > 0 {
      LongestFacts(rest, s, lo, k - 1, fold);
    }
  }

  /** The dot-free prefixes of s are exactly those no longer than its first dot. */
  lemma NoDotPrefix(s: string, j: nat)
    requires j <= |s|
    ensures Admits(NoDotTail, s[..j]) <==> j <= ExtSplit.SkipNonDots(s, 0)
  {
    var d := ExtSplit.SkipNonDots(s, 0);
    if d < j {
      assert s[..j][d] == '.';
    }
  }

  /** Whatever the matcher returns is a fit of the pattern. */
  lemma {:induction false} MatchSound(p: seq<Elem>, s: string, fold: bool)
    ensures Match(p, s, fold).Some? ==> Fits(p, s, Match(p, s, fold).value, fold)
    decreases |p|
  {
    if p != [] && Match(p, s, fold).Some? {
      var caps := Match(p, s, fold).value;
      var rest := p[1..];
      match p[0]
      case Lit(c) =>
        MatchSound(rest, s[1..], fold);
      case Lazy =>
        ShortestFacts(rest, s, 0, fold);
        MatchSound(rest, s[|caps[0]|..], fold);
      case Exact(n) =>
        LongestFacts(rest, s, n, n, fold);
        MatchSound(rest, s[|caps[0]|..], fold);
      case Span(lo, hi) =>
        LongestFacts(rest, s, lo, Min(hi, |s|), fold);
        MatchSound(rest, s[|caps[0]|..], fold);
      case NoDotTail =>
        LongestFacts(rest, s, 0, ExtSplit.SkipNonDots(s, 0), fold);
        NoDotPrefix(s, |caps[0]|);
        MatchSound(rest, s[|caps[0]|..], fold);
    }
  }

  /** Whenever some fit exists, the matcher succeeds. */
  lemma {:induction false} MatchComplete(p: seq<Elem>, s: string, caps: seq<string>, fold: bool)
    requires Fits(p, s, caps, fold)
    ensures Match(p, s, fold).Some?
    decreases |p|
  {
    if p != [] {
      var rest := p[1..];
      if p[0].Lit? {
        MatchComplete(rest, s[1..], caps, fold);
      } else {
        var j := |caps[0]|;
        MatchComplete(rest, s[j..], caps[1..], fold);
        match p[0]
        case Lazy =>
          ShortestFacts(rest, s, 0, fold);
        case Exact(n) =>
          LongestFacts(rest, s, n, n, fold);
        case Span(lo, hi) =>
          LongestFacts(rest, s, lo, Min(hi, |s|), fold);
        case NoDotTail =>
          NoDotPrefix(s, j);
          LongestFacts(rest, s, 0, ExtSplit.SkipNonDots(s, 0), fold);
      }
    }
  }

  /** A pattern matches exactly when some way of capturing fits it. */
  lemma MatchIffFits(p: seq<Elem>, s: string, fold: bool)
    ensures Match(p, s, fold).Some? ==> exists caps :: Fits(p, s, caps, fold)
    ensures (exists caps :: Fits(p, s, caps, fold)) ==> Match(p, s, fold).Some?
  {
    MatchSound(p, s, fold);
    forall caps | Fits(p, s, caps, fold) ensures Match(p, s, fold).Some? {
      MatchComplete(p, s, caps, fold);
    }
  }

  /** A fit has one captured text per capturing element. */
  lemma {:induction false} FitsCount(p: seq<Elem>, s: string, caps: seq<string>, fold: bool)
    requires Fits(p, s, caps, fold)
    ensures |caps| == CaptureCount(p)
    decreases |p|
  {
    if p != [] {
      if p[0].Lit? {
        FitsCount(p[1..], s[1..], caps, fold);
      } else {
        FitsCount(p[1..], s[|caps[0]|..], caps[1..], fold);
      }
    }
  }

  /** The matcher yields one group per capturing element, as groups() does. */
  lemma MatchCount(p: seq<Elem>, s: string, fold: bool)
    ensures Match(p, s, fold).Some? ==> |Match(p, s, fold).value| == CaptureCount(p)
  {
    MatchSound(p, s, fold);
    if Match(p, s, fold).Some? {
      FitsCount(p, s, Match(p, s, fold).value, fold);
    }
  }

  /** A leading lazy group takes the shortest text of every possible fit. */
  lemma LazyTakesShortest(p: seq<Elem>, s: string, caps: seq<string>, fold: bool)
    requires p != [] && p[0] == Lazy && Fits(p, s, caps, fold)
    ensures Match(p, s, fold).Some? && 0 < |Match(p, s, fold).value|
    ensures |Match(p, s, fold).value[0]| <= |caps[0]|
  {
    var rest := p[1..];
    MatchComplete(rest, s[|caps[0]|..], caps[1..], fold);
    ShortestFacts(rest, s, 0, fold);
  }

  /** A leading greedy group takes the longest text of every possible fit. */
  lemma GreedyTakesLongest(p: seq<Elem>, s: string, caps: seq<string>, fold: bool)
    requires p != [] && (p[0].Span? || p[0] == NoDotTail) && Fits(p, s, caps, fold)
    ensures Match(p, s, fold).Some? && 0 < |Match(p, s, fold).value|
    ensures |caps[0]| <= |Match(p, s, fold).value[0]|
  {
    var rest := p[1..];
    var j := |caps[0]|;
    MatchComplete(rest, s[j..], caps[1..], fold);
    if p[0].Span? {
      LongestFacts(rest, s, p[0].lo, Min(p[0].hi, |s|), fold);
    } else {
      NoDotPrefix(s, j);
      LongestFacts(rest, s, 0, ExtSplit.SkipNonDots(s, 0), fold);
    }
  }
}
