/**
 * Collision avoidance (rene/rene.py avoid). A proposed name that is taken,
 * on disk or earlier in the directory's batch, is altered step by step
 * until it is free: the proposal itself is tried first, then up to ten
 * modifications of its root, and the search gives up after the eleventh
 * taken candidate. The extension is never touched. Without merge, the
 * start string is appended to the root once and later candidates step only
 * what follows the original root; with merge, nextName steps the root's own
 * tail. An optional string goes before the root, after it, or after the
 * avoidance characters.
 */
module Avoid {
  import opened Wrappers
  import opened Text
  import ExtSplit
  import Increment

  /** Where the collision string goes: before the root, after it, or after the avoidance characters. */
  datatype PunPosition = RootPrefix | RootSuffix | AvoidSuffix

  /** The -X scheme: the collision string and its position, merge or not, and the start appended without merge. */
  datatype Scheme = Scheme(pun: string, pos: PunPosition, merge: bool, start: string)

  /**
   * The command line moves a root-suffix string after the avoidance
   * characters when merging, so that nextName never steps the string itself.
   */
  function Normalise(s: Scheme): (r: Scheme)
    ensures r.merge ==> r.pos != RootSuffix
    ensures r.pun == s.pun && r.merge == s.merge && r.start == s.start
    ensures !s.merge || s.pos != RootSuffix ==> r == s
  {
    if s.merge && s.pos == RootSuffix then s.(pos := AvoidSuffix) else s
  }

  datatype Resolution =
    | Resolved(name: string)  // a free name
    | Unresolved              // eleven candidates were all taken: avoid returns ""
    | Fault                   // nextName raised on an empty or unsuitable root

  /** The candidates tried, in order, and how the search ended. */
  datatype Avoidance = Avoidance(tried: seq<string>, result: Resolution)

  /** A name is taken when an existing file or an earlier rename in the batch has it. */
  predicate InUse(t: string, batch: seq<string>, disk: set<string>)
  {
    t in batch || t in disk
  }

  predicate EndsWith(a: string, b: string)
  {
    |b| <= |a| && a[|a| - |b|..] == b
  }

  /** The string added after the avoidance characters, if the scheme puts it there. */
  function Tail(s: Scheme): string
  {
    if s.pun != [] && s.pos == AvoidSuffix then s.pun else []
  }

  /** The root the search starts from: the collision string in front of it or after it. */
  function StartRoot(s: Scheme, root: string): string
  {
    if s.pun == [] then root
    else
      match s.pos
      case RootPrefix => s.pun + root
      case RootSuffix => root + s.pun
      case AvoidSuffix => root
  }

  /**
   * The root for round i + 1. With merge, nextName steps the root itself.
   * Without merge, round 0 appends the start string and remembers the root
   * length; later rounds step only what follows it. None where the source
   * fails: nextName on an empty root, or an offset at or past the end of a
   * digit-final root, where nextName returns None.
   */
  function NextRoot(s: Scheme, i: nat, root: string, rootLen: nat): (r: Option<(string, nat)>)
    ensures r.None? <==>
              (s.merge || 0 < i) && (root == [] || (!s.merge && |root| <= rootLen && IsDigit(root[|root| - 1])))
    ensures r.Some? ==> |root| <= |r.value.0|
    ensures !s.merge && i == 0 ==> r.Some? && root <= r.value.0 && r.value.1 == |root|
    ensures !s.merge && 0 < i && rootLen < |root| ==> r.Some? && root[..rootLen] <= r.value.0 && r.value.1 == rootLen
  {
    if s.merge then
      if root == [] then None else Some((Increment.NextName(root, 1, 0), rootLen))
    else if i == 0 then Some((root + s.start, |root|))
    else if root == [] || (rootLen >= |root| && IsDigit(root[|root| - 1])) then None
    else Some((Increment.NextName(root, 1, if rootLen < |root| then rootLen else 0), rootLen))
  }

  /** Every candidate ends with the given suffix. */
  predicate AllEndWith(tried: seq<string>, suffix: string)
  {
    forall k | 0 <= k < |tried| :: EndsWith(tried[k], suffix)
  }

  /** Every candidate but the last was taken. */
  predicate TakenBeforeLast(tried: seq<string>, batch: seq<string>, disk: set<string>)
  {
    forall k | 0 <= k < |tried| - 1 :: InUse(tried[k], batch, disk)
  }

  /** Rounds i.. of the search: test root + Tail + ext, and go on with the next root while rounds remain. */
  function Search(s: Scheme, ext: string, batch: seq<string>, disk: set<string>, i: nat, root: string, rootLen: nat)
    : (r: Avoidance)
    requires i <= 10
    ensures 0 < |r.tried| <= 11 - i && r.tried[0] == root + Tail(s) + ext
    ensures AllEndWith(r.tried, Tail(s) + ext)
    ensures TakenBeforeLast(r.tried, batch, disk)
    ensures r.result.Resolved? ==> r.result.name == r.tried[|r.tried| - 1] && !InUse(r.result.name, batch, disk)
    ensures r.result.Unresolved? ==> |r.tried| == 11 - i && InUse(r.tried[|r.tried| - 1], batch, disk)
    decreases 10 - i
  {
    var t := root + Tail(s) + ext;
    assert EndsWith(t, Tail(s) + ext) by {
      assert t == root + (Tail(s) + ext);
    }
    if !InUse(t, batch, disk) then Avoidance([t], Resolved(t))
    else if i == 10 then Avoidance([t], Unresolved)
    else
      match NextRoot(s, i, root, rootLen)
      case None => Avoidance([t], Fault)
      case Some(next) =>
        var rest := Search(s, ext, batch, disk, i + 1, next.0, next.1);
        Avoidance([t] + rest.tried, rest.result)
  }

  /** avoid(name): the search from the proposal's root, with its extension kept aside. */
  function Avoid(s: Scheme, name: string, batch: seq<string>, disk: set<string>): (r: Avoidance)
    ensures 1 <= |r.tried| <= 11
    ensures r.tried[0] == StartRoot(s, ExtSplit.GreedyExt(name).0) + Tail(s) + ExtSplit.GreedyExt(name).1
    ensures AllEndWith(r.tried, Tail(s) + ExtSplit.GreedyExt(name).1)
    ensures TakenBeforeLast(r.tried, batch, disk)
    ensures r.result.Resolved? ==> r.result.name == r.tried[|r.tried| - 1] && !InUse(r.result.name, batch, disk)
    ensures r.result.Unresolved? ==> |r.tried| == 11 && forall k | 0 <= k < 11 :: InUse(r.tried[k], batch, disk)
  {
    var parts := ExtSplit.GreedyExt(name);
    var r := Search(s, parts.1, batch, disk, 0, StartRoot(s, parts.0), 0);
    UnresolvedAllTaken(r, batch, disk);
    r
  }

  /** Eleven candidates, each one before the last taken and the last taken too: all eleven were taken. */
  lemma UnresolvedAllTaken(r: Avoidance, batch: seq<string>, disk: set<string>)
    requires 0 < |r.tried| && TakenBeforeLast(r.tried, batch, disk)
    requires r.result.Unresolved? ==> |r.tried| == 11 && InUse(r.tried[|r.tried| - 1], batch, disk)
    ensures r.result.Unresolved? ==> forall k | 0 <= k < 11 :: InUse(r.tried[k], batch, disk)
  {
  }

  predicate AllStartWith(tried: seq<string>, base: string)
  {
    forall k | 0 <= k < |tried| :: base <= tried[k]
  }

  /** A round that finds its candidate free, or is the last, ends the search there without a fault. */
  lemma SearchStops(s: Scheme, ext: string, batch: seq<string>, disk: set<string>, i: nat, root: string, rootLen: nat)
    requires i <= 10 && (!InUse(root + Tail(s) + ext, batch, disk) || i == 10)
    ensures Search(s, ext, batch, disk, i, root, rootLen).tried == [root + Tail(s) + ext]
    ensures !Search(s, ext, batch, disk, i, root, rootLen).result.Fault?
    ensures !InUse(root + Tail(s) + ext, batch, disk) ==>
      Search(s, ext, batch, disk, i, root, rootLen).result == Resolved(root + Tail(s) + ext)
  {
  }

  /** A taken candidate with a next root hands over to the next round. */
  lemma SearchGoesOn(s: Scheme, ext: string, batch: seq<string>, disk: set<string>, i: nat, root: string, rootLen: nat)
    requires i < 10 && InUse(root + Tail(s) + ext, batch, disk) && NextRoot(s, i, root, rootLen).Some?
    ensures var next := NextRoot(s, i, root, rootLen).value;
      Search(s, ext, batch, disk, i, root, rootLen)
      == Avoidance([root + Tail(s) + ext] + Search(s, ext, batch, disk, i + 1, next.0, next.1).tried,
                   Search(s, ext, batch, disk, i + 1, next.0, next.1).result)
  {
  }

  /**
   * Without merge and with a start string, the search never fails: every
   * later round steps a root that is longer than the remembered length.
   */
  lemma {:induction false} SearchNoFault(s: Scheme, ext: string, batch: seq<string>, disk: set<string>,
                                         i: nat, root: string, rootLen: nat)
    requires i <= 10 && !s.merge && s.start != []
    requires 0 < i ==> rootLen < |root|
    ensures !Search(s, ext, batch, disk, i, root, rootLen).result.Fault?
    decreases 10 - i
  {
    var t := root + Tail(s) + ext;
    if InUse(t, batch, disk) && i < 10 {
      NextRootGrows(s, i, root, rootLen);
      var next := NextRoot(s, i, root, rootLen).value;
      SearchGoesOn(s, ext, batch, disk, i, root, rootLen);
      SearchNoFault(s, ext, batch, disk, i + 1, next.0, next.1);
    } else {
      SearchStops(s, ext, batch, disk, i, root, rootLen);
    }
  }

  /**
   * Without merge and with a start string, every candidate keeps the root it
   * started from: only what the start string added is ever stepped.
   */
  lemma {:induction false} SearchKeepsRoot(s: Scheme, ext: string, batch: seq<string>, disk: set<string>,
                                           i: nat, root: string, rootLen: nat, base: string)
    requires i <= 10 && !s.merge && s.start != []
    requires i == 0 ==> base == root
    requires 0 < i ==> base <= root && rootLen == |base| < |root|
    ensures AllStartWith(Search(s, ext, batch, disk, i, root, rootLen).tried, base)
    decreases 10 - i, 1
  {
    var t := root + Tail(s) + ext;
    CandidateStarts(root, Tail(s), ext, base);
    if InUse(t, batch, disk) && i < 10 {
      SearchKeepsRootOn(s, ext, batch, disk, i, root, rootLen, base);
    } else {
      SearchStops(s, ext, batch, disk, i, root, rootLen);
      PrependStarts(t, [], base);
      assert [t] + [] == [t];
    }
  }

  /** The candidate of a round begins with whatever its root begins with. */
  lemma CandidateStarts(root: string, tail: string, ext: string, base: string)
    requires base <= root
    ensures base <= root + tail + ext
  {
    assert root + tail + ext == root + (tail + ext);
  }

  lemma {:induction false} SearchKeepsRootOn(s: Scheme, ext: string, batch: seq<string>, disk: set<string>,
                                             i: nat, root: string, rootLen: nat, base: string)
    requires i < 10 && !s.merge && s.start != []
    requires i == 0 ==> base == root
    requires 0 < i ==> base <= root && rootLen == |base| < |root|
    requires InUse(root + Tail(s) + ext, batch, disk)
    ensures AllStartWith(Search(s, ext, batch, disk, i, root, rootLen).tried, base)
    decreases 10 - i, 0
  {
    var t := root + Tail(s) + ext;
    assert base <= t by {
      CandidateStarts(root, Tail(s), ext, base);
    }
    var r := NextRoot(s, i, root, rootLen);
    assert r.Some? && base <= r.value.0 && r.value.1 == |base| < |r.value.0| by {
      NextRootKeepsRoot(s, i, root, rootLen, base);
    }
    var next := r.value;
    var rest := Search(s, ext, batch, disk, i + 1, next.0, next.1).tried;
    assert AllStartWith(rest, base) by {
      SearchKeepsRoot(s, ext, batch, disk, i + 1, next.0, next.1, base);
    }
    assert Search(s, ext, batch, disk, i, root, rootLen).tried == [t] + rest by {
      SearchGoesOn(s, ext, batch, disk, i, root, rootLen);
    }
    PrependStarts(t, rest, base);
  }

  lemma PrependStarts(t: string, rest: seq<string>, base: string)
    requires base <= t && AllStartWith(rest, base)
    ensures AllStartWith([t] + rest, base)
  {
    forall k | 0 <= k < |[t] + rest|
      ensures base <= ([t] + rest)[k]
    {
      if 0 < k {
        assert ([t] + rest)[k] == rest[k - 1];
      }
    }
  }

  /** One step without merge: the next root exists and is longer than the length it remembers. */
  lemma NextRootGrows(s: Scheme, i: nat, root: string, rootLen: nat)
    requires !s.merge && s.start != []
    requires 0 < i ==> rootLen < |root|
    ensures NextRoot(s, i, root, rootLen).Some?
    ensures NextRoot(s, i, root, rootLen).value.1 < |NextRoot(s, i, root, rootLen).value.0|
  {
  }

  /** One step without merge: the next root exists, extends the base, and remembers its length. */
  lemma NextRootKeepsRoot(s: Scheme, i: nat, root: string, rootLen: nat, base: string)
    requires !s.merge && s.start != []
    requires i == 0 ==> base == root
    requires 0 < i ==> base <= root && rootLen == |base| < |root|
    ensures NextRoot(s, i, root, rootLen).Some?
    ensures base <= NextRoot(s, i, root, rootLen).value.0
    ensures NextRoot(s, i, root, rootLen).value.1 == |base| < |NextRoot(s, i, root, rootLen).value.0|
  {
    if 0 < i {
      assert root[..rootLen] == base;
    }
  }

  /** With merge, the search fails only when it has to step an empty root. */
  lemma {:induction false} SearchMergeNoFault(s: Scheme, ext: string, batch: seq<string>, disk: set<string>,
                                              i: nat, root: string, rootLen: nat)
    requires i <= 10 && s.merge && root != []
    ensures !Search(s, ext, batch, disk, i, root, rootLen).result.Fault?
    decreases 10 - i
  {
    var t := root + Tail(s) + ext;
    if InUse(t, batch, disk) && i < 10 {
      SearchMergeNoFault(s, ext, batch, disk, i + 1, Increment.NextName(root, 1, 0), rootLen);
    }
  }

  /**
   * avoid fails only on a merge from an empty root or on an empty start
   * string; with a start string and no merge, every candidate begins with
   * the proposal's root.
   */
  lemma AvoidFaults(s: Scheme, name: string, batch: seq<string>, disk: set<string>)
    ensures Avoid(s, name, batch, disk).result.Fault? ==>
      if s.merge then StartRoot(s, ExtSplit.GreedyExt(name).0) == [] else s.start == []
    ensures !s.merge && s.start != [] ==> AllStartWith(Avoid(s, name, batch, disk).tried, StartRoot(s, ExtSplit.GreedyExt(name).0))
  {
    var parts := ExtSplit.GreedyExt(name);
    var root := StartRoot(s, parts.0);
    if s.merge {
      if root != [] {
        SearchMergeNoFault(s, parts.1, batch, disk, 0, root, 0);
      }
    } else if s.start != [] {
      SearchNoFault(s, parts.1, batch, disk, 0, root, 0);
      SearchKeepsRoot(s, parts.1, batch, disk, 0, root, 0, root);
    }
  }
}
