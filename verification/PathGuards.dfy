/**
 The nested `if`s that guard a block: one for each condition all paths to it begin with, one for each condition they
 all end with, and a disjunction for what lies between.
 */
module PathGuards {
  import opened Expressions
  import opened Statements
  import opened ConsecutiveCombiner
  import opened ReachingConditions
  import Disjunction

  // ----- Common prefix and suffix -----

  /** How many leading conditions the test finds equal. */
  function AgreeFront(same: Equality, a: Path, b: Path): (n: nat)
    ensures n <= |a| && n <= |b|
    ensures forall i :: 0 <= i < n ==> same(a[i], b[i])
    ensures n < |a| && n < |b| ==> !same(a[n], b[n])
  {
    if a == [] || b == [] || !same(a[0], b[0]) then 0 else 1 + AgreeFront(same, a[1..], b[1..])
  }

  /** The prefix left of the first path after comparing it with the first `n` paths. */
  function Prefix(same: Equality, paths: seq<Path>, n: nat): Path
    requires 0 < n <= |paths|
  {
    if n == 1 then paths[0]
    else
      var p := Prefix(same, paths, n - 1);
      p[..AgreeFront(same, p, paths[n - 1])]
  }

  function Reversed(p: Path): (r: Path)
    ensures |r| == |p| && forall i :: 0 <= i < |p| ==> r[i] == p[|p| - 1 - i]
  {
    seq(|p|, i requires 0 <= i < |p| => p[|p| - 1 - i])
  }

  function ReversedAll(paths: seq<Path>): (r: seq<Path>)
    ensures |r| == |paths| && forall j :: 0 <= j < |paths| ==> r[j] == Reversed(paths[j])
  {
    seq(|paths|, j requires 0 <= j < |paths| => Reversed(paths[j]))
  }

  function CommonPrefix(same: Equality, paths: seq<Path>): Path
    requires paths != []
  {
    Prefix(same, paths, |paths|)
  }

  /** The reverse iterators make the suffix the prefix of the reversed paths. */
  function WholeSuffix(same: Equality, paths: seq<Path>): Path
    requires paths != []
  {
    Reversed(Prefix(same, ReversedAll(paths), |paths|))
  }

  /** Cleared if the prefix is the whole first path, so that no condition is tested twice. */
  function CommonSuffix(same: Equality, paths: seq<Path>): Path
    requires paths != []
  {
    if |CommonPrefix(same, paths)| == |paths[0]| then []
    else WholeSuffix(same, paths)
  }

  // ----- What they are -----

  /** The paths have `n` conditions at their fronts that the test finds equal. */
  ghost predicate SameFront(same: Equality, a: Path, b: Path, n: nat) {
    n <= |a| && n <= |b| && forall i :: 0 <= i < n ==> same(a[i], b[i])
  }

  /** The same for the conditions at their ends. */
  ghost predicate SameEnd(same: Equality, a: Path, b: Path, n: nat) {
    n <= |a| && n <= |b| && forall i :: |a| - n <= i < |a| ==> same(a[i], b[i - |a| + |b|])
  }

  /** All paths begin as the first one does, for `n` conditions. */
  ghost predicate BeginAlike(same: Equality, paths: seq<Path>, n: nat)
    requires paths != []
  {
    n <= |paths[0]| && forall j :: 0 < j < |paths| ==> SameFront(same, paths[0], paths[j], n)
  }

  /** All paths end as the first one does, for `n` conditions. */
  ghost predicate EndAlike(same: Equality, paths: seq<Path>, n: nat)
    requires paths != []
  {
    n <= |paths[0]| && forall j :: 0 < j < |paths| ==> SameEnd(same, paths[0], paths[j], n)
  }

  /** `p` conditions are common to the fronts of all paths and no more, and so are `q` to their ends unless the front is all. */
  ghost predicate Lengths(same: Equality, paths: seq<Path>, p: nat, q: nat)
    requires paths != []
  {
    && p <= |paths[0]| && q <= |paths[0]|
    && BeginAlike(same, paths, p) && !BeginAlike(same, paths, p + 1)
    && if p == |paths[0]| then q == 0 else EndAlike(same, paths, q) && !EndAlike(same, paths, q + 1)
  }

  lemma AlikeFewer(same: Equality, paths: seq<Path>, m: nat, n: nat)
    requires paths != [] && m <= n
    ensures BeginAlike(same, paths, n) ==> BeginAlike(same, paths, m)
    ensures EndAlike(same, paths, n) ==> EndAlike(same, paths, m)
  {
    forall j | 0 < j < |paths|
      ensures SameFront(same, paths[0], paths[j], n) ==> SameFront(same, paths[0], paths[j], m)
      ensures SameEnd(same, paths[0], paths[j], n) ==> SameEnd(same, paths[0], paths[j], m)
    {
    }
  }

  lemma LengthsUnique(same: Equality, paths: seq<Path>, p: nat, q: nat, p': nat, q': nat)
    requires paths != [] && Lengths(same, paths, p, q) && Lengths(same, paths, p', q')
    ensures p == p' && q == q'
  {
    AlikeFewer(same, paths, if p < p' then p + 1 else 0, p');
    AlikeFewer(same, paths, if p' < p then p' + 1 else 0, p);
    AlikeFewer(same, paths, if q < q' then q + 1 else 0, q');
    AlikeFewer(same, paths, if q' < q then q' + 1 else 0, q);
  }

  lemma {:induction false} PrefixLongest(same: Equality, paths: seq<Path>, n: nat)
    requires 0 < n <= |paths|
    ensures |Prefix(same, paths, n)| <= |paths[0]| && Prefix(same, paths, n) == paths[0][..|Prefix(same, paths, n)|]
    ensures BeginAlike(same, paths[..n], |Prefix(same, paths, n)|) && !BeginAlike(same, paths[..n], |Prefix(same, paths, n)| + 1)
    decreases n
  {
    if n > 1 {
      PrefixLongest(same, paths, n - 1);
      var before, last := Prefix(same, paths, n - 1), paths[n - 1];
      var k := AgreeFront(same, before, last);
      assert paths[..n][n - 1] == last && paths[..n][..n - 1] == paths[..n - 1];
      assert forall j :: 0 <= j < n - 1 ==> paths[..n][j] == paths[..n - 1][j];
      if BeginAlike(same, paths[..n], k + 1) {
        assert k + 1 <= |last|;
        AlikeFewer(same, paths[..n - 1], |before| + 1, k + 1);
      }
    }
  }

  lemma ReversedSame(same: Equality, a: Path, b: Path, n: nat)
    ensures SameFront(same, Reversed(a), Reversed(b), n) <==> SameEnd(same, a, b, n)
  {
    var ra, rb := Reversed(a), Reversed(b);
    if n <= |a| && n <= |b| {
      if SameFront(same, ra, rb, n) {
        forall i | |a| - n <= i < |a| ensures same(a[i], b[i - |a| + |b|]) {
          assert same(ra[|a| - 1 - i], rb[|a| - 1 - i]);
        }
      }
      if SameEnd(same, a, b, n) {
        forall i | 0 <= i < n ensures same(ra[i], rb[i]) {
          assert same(a[|a| - 1 - i], b[|a| - 1 - i - |a| + |b|]);
        }
      }
    }
  }

  lemma ReversedAlike(same: Equality, paths: seq<Path>, n: nat)
    requires paths != []
    ensures BeginAlike(same, ReversedAll(paths), n) <==> EndAlike(same, paths, n)
  {
    forall j | 0 < j < |paths|
      ensures SameFront(same, ReversedAll(paths)[0], ReversedAll(paths)[j], n) <==> SameEnd(same, paths[0], paths[j], n)
    {
      ReversedSame(same, paths[0], paths[j], n);
    }
  }

  lemma FrontIsPrefix(same: Equality, paths: seq<Path>)
    requires paths != []
    ensures var p := |CommonPrefix(same, paths)|;
      p <= |paths[0]| && CommonPrefix(same, paths) == paths[0][..p] && BeginAlike(same, paths, p) && !BeginAlike(same, paths, p + 1)
  {
    PrefixLongest(same, paths, |paths|);
    assert paths[..|paths|] == paths;
  }

  lemma EndIsSuffix(same: Equality, paths: seq<Path>)
    requires paths != []
    ensures var q := |WholeSuffix(same, paths)|;
      && q <= |paths[0]| && WholeSuffix(same, paths) == paths[0][|paths[0]| - q..]
      && EndAlike(same, paths, q) && !EndAlike(same, paths, q + 1)
  {
    var reversed, q := ReversedAll(paths), |WholeSuffix(same, paths)|;
    FrontIsPrefix(same, reversed);
    ReversedAlike(same, paths, q);
    ReversedAlike(same, paths, q + 1);
    assert reversed[0] == Reversed(paths[0]);
  }

  /** The loops find the longest common front, and the longest common end unless the front is all of the first path. */
  lemma CommonLengths(same: Equality, paths: seq<Path>)
    requires paths != []
    ensures var p, q := |CommonPrefix(same, paths)|, |CommonSuffix(same, paths)|;
      && Lengths(same, paths, p, q)
      && CommonPrefix(same, paths) == paths[0][..p] && CommonSuffix(same, paths) == paths[0][|paths[0]| - q..]
  {
    FrontIsPrefix(same, paths);
    EndIsSuffix(same, paths);
  }

  /** No other lengths are. */
  lemma OnlyLengths(same: Equality, paths: seq<Path>)
    requires paths != []
    ensures forall p: nat, q: nat :: Lengths(same, paths, p, q) <==> p == |CommonPrefix(same, paths)| && q == |CommonSuffix(same, paths)|
  {
    CommonLengths(same, paths);
    forall p: nat, q: nat | Lengths(same, paths, p, q) ensures p == |CommonPrefix(same, paths)| && q == |CommonSuffix(same, paths)| {
      LengthsUnique(same, paths, p, q, |CommonPrefix(same, paths)|, |CommonSuffix(same, paths)|);
    }
  }

  lemma FrontHolds(same: Equality, a: Path, b: Path, n: nat, v: Valuation)
    requires Sound(same) && SameFront(same, a, b, n)
    ensures AllHold(a[..n], v) <==> AllHold(b[..n], v)
  {
    forall i | 0 <= i < n ensures Holds(a[..n][i], v) <==> Holds(b[..n][i], v) {
      assert same(a[i], b[i]);
    }
  }

  lemma EndHolds(same: Equality, a: Path, b: Path, n: nat, v: Valuation)
    requires Sound(same) && SameEnd(same, a, b, n)
    ensures AllHold(a[|a| - n..], v) <==> AllHold(b[|b| - n..], v)
  {
    var x, y := a[|a| - n..], b[|b| - n..];
    forall i | 0 <= i < n ensures Holds(x[i], v) <==> Holds(y[i], v) {
      var k := |a| - n + i;
      assert same(a[k], b[k - |a| + |b|]);
    }
  }

  // ----- What lies between -----

  /** The conditions of a path between its first `p` and its last `q`. */
  function Middle(path: Path, p: nat, q: nat): Path
    requires p + q <= |path|
  {
    path[p..|path| - q]
  }

  /** No path is so short that prefix and suffix overlap on it; the source would copy a range of negative length. */
  predicate NoOverlap(paths: seq<Path>, p: nat, q: nat) {
    forall path :: path in paths ==> p + q <= |path|
  }

  /** The middles as conjunctions; a path with nothing in the middle is left out. */
  function Terms(paths: seq<Path>, p: nat, q: nat): seq<Expr>
    requires NoOverlap(paths, p, q)
  {
    if paths == [] then []
    else
      var rest := Terms(paths[1..], p, q);
      if |paths[0]| == p + q then rest else [And(Middle(paths[0], p, q))] + rest
  }

  lemma {:induction false} TermsSnoc(paths: seq<Path>, path: Path, p: nat, q: nat)
    requires NoOverlap(paths, p, q) && p + q <= |path|
    ensures NoOverlap(paths + [path], p, q)
    ensures Terms(paths + [path], p, q) == Terms(paths, p, q) + if |path| == p + q then [] else [And(path[p..|path| - q])]
    decreases |paths|
  {
    if paths == [] {
      assert [] + [path] == [path] && [path][1..] == [];
    } else {
      assert (paths + [path])[1..] == paths[1..] + [path];
      TermsSnoc(paths[1..], path, p, q);
    }
  }

  ghost predicate MiddleHolds(path: Path, p: nat, q: nat, v: Valuation)
    requires p + q <= |path|
  {
    |path| > p + q && AllHold(Middle(path, p, q), v)
  }

  lemma {:induction false} TermsHold(paths: seq<Path>, p: nat, q: nat, v: Valuation)
    requires NoOverlap(paths, p, q)
    ensures AnyHolds(Terms(paths, p, q), v) <==> exists path :: path in paths && MiddleHolds(path, p, q, v)
    decreases |paths|
  {
    if paths != [] {
      var rest, term := paths[1..], And(Middle(paths[0], p, q));
      TermsHold(rest, p, q, v);
      AndOrHold(Middle(paths[0], p, q), v);
      AnyHoldsConcat([term], Terms(rest, p, q), v);
      assert AnyHolds([term], v) <==> Holds(term, v) by { assert [term][0] == term; }
      assert forall path :: path in paths <==> path == paths[0] || path in rest;
    }
  }

  lemma {:induction false} TermsEmpty(paths: seq<Path>, p: nat, q: nat)
    requires NoOverlap(paths, p, q)
    ensures Terms(paths, p, q) == [] <==> forall path :: path in paths ==> |path| == p + q
    decreases |paths|
  {
    if paths != [] {
      TermsEmpty(paths[1..], p, q);
      assert forall path :: path in paths <==> path == paths[0] || path in paths[1..];
    }
  }

  // ----- The guard and when it is right -----

  /** The truth of the nested conditions: all of the prefix, all of the suffix, and one of the terms if there are any. */
  ghost predicate GuardHolds(prefix: Path, suffix: Path, terms: seq<Expr>, v: Valuation) {
    AllHold(prefix, v) && AllHold(suffix, v) && (terms == [] || AnyHolds(terms, v))
  }

  /** Either no path has anything between prefix and suffix, or all of them do. */
  predicate AllOrNone(paths: seq<Path>, p: nat, q: nat) {
    || (forall path :: path in paths ==> |path| == p + q)
    || (forall path :: path in paths ==> |path| > p + q)
  }

  /** Every path to a block begins with the prefix and ends with the suffix, up to the truth of each condition. */
  lemma PathSplits(same: Equality, paths: seq<Path>, p: nat, q: nat, path: Path, v: Valuation)
    requires Sound(same) && path in paths && Lengths(same, paths, p, q) && p + q <= |path|
    ensures AllHold(path, v) <==>
            AllHold(paths[0][..p], v) && AllHold(paths[0][|paths[0]| - q..], v) && AllHold(Middle(path, p, q), v)
  {
    var j :| 0 <= j < |paths| && paths[j] == path;
    if j > 0 {
      assert SameFront(same, paths[0], paths[j], p);
      FrontHolds(same, paths[0], path, p, v);
      if q > 0 {
        assert SameEnd(same, paths[0], paths[j], q);
        EndHolds(same, paths[0], path, q, v);
      }
    }
    SplitsByParts(path, paths[0][..p], paths[0][|paths[0]| - q..], v);
  }

  lemma SplitsByParts(path: Path, prefix: Path, suffix: Path, v: Valuation)
    requires |prefix| + |suffix| <= |path|
    requires AllHold(prefix, v) <==> AllHold(path[..|prefix|], v)
    requires AllHold(suffix, v) <==> AllHold(path[|path| - |suffix|..], v)
    ensures AllHold(path, v) <==>
            AllHold(prefix, v) && AllHold(suffix, v) && AllHold(Middle(path, |prefix|, |suffix|), v)
  {
    SplitInThree(path, |prefix|, |suffix|, v);
  }

  lemma SplitInThree(path: Path, p: nat, q: nat, v: Valuation)
    requires p + q <= |path|
    ensures AllHold(path, v) <==>
            AllHold(path[..p], v) && AllHold(Middle(path, p, q), v) && AllHold(path[|path| - q..], v)
  {
    var last := path[|path| - q..];
    assert path == path[..p] + (Middle(path, p, q) + last);
    AllHoldConcat(path[..p], Middle(path, p, q) + last, v);
    AllHoldConcat(Middle(path, p, q), last, v);
  }

  /**
   Under each valuation the guard agrees with "some path holds" exactly if either no path or every path has a middle,
   or the common conditions fail, or some middle holds anyway: a path that is all prefix and suffix is dropped.
   */
  lemma GuardExact(same: Equality, paths: seq<Path>, p: nat, q: nat, v: Valuation)
    requires Sound(same) && paths != [] && Lengths(same, paths, p, q) && NoOverlap(paths, p, q)
    ensures var prefix, suffix, terms := paths[0][..p], paths[0][|paths[0]| - q..], Terms(paths, p, q);
            (GuardHolds(prefix, suffix, terms, v) <==> AnyPath(paths, v)) <==>
            || AllOrNone(paths, p, q)
            || !AllHold(prefix, v) || !AllHold(suffix, v) || AnyHolds(terms, v)
  {
    PathsSplit(same, paths, p, q, v);
    GuardExactFor(paths, paths[0][..p], paths[0][|paths[0]| - q..], v);
  }

  ghost predicate SplitsAs(paths: seq<Path>, prefix: Path, suffix: Path, v: Valuation) {
    && NoOverlap(paths, |prefix|, |suffix|)
    && forall path :: path in paths ==>
         (AllHold(path, v) <==>
          AllHold(prefix, v) && AllHold(suffix, v) && AllHold(Middle(path, |prefix|, |suffix|), v))
  }

  lemma PathsSplit(same: Equality, paths: seq<Path>, p: nat, q: nat, v: Valuation)
    requires Sound(same) && paths != [] && Lengths(same, paths, p, q) && NoOverlap(paths, p, q)
    ensures SplitsAs(paths, paths[0][..p], paths[0][|paths[0]| - q..], v)
  {
    forall path | path in paths
      ensures AllHold(path, v) <==>
              AllHold(paths[0][..p], v) && AllHold(paths[0][|paths[0]| - q..], v) && AllHold(Middle(path, p, q), v)
    {
      PathSplits(same, paths, p, q, path, v);
    }
  }

  lemma AnyPathIn(paths: seq<Path>, v: Valuation)
    ensures AnyPath(paths, v) <==> exists path :: path in paths && AllHold(path, v)
  {
    if path :| path in paths && AllHold(path, v) {
      var j :| 0 <= j < |paths| && paths[j] == path;
    }
  }

  lemma WithBarePath(paths: seq<Path>, prefix: Path, suffix: Path, path: Path, v: Valuation)
    requires SplitsAs(paths, prefix, suffix, v) && path in paths && |path| == |prefix| + |suffix|
    ensures AnyPath(paths, v) <==> AllHold(prefix, v) && AllHold(suffix, v)
  {
    AnyPathIn(paths, v);
    assert AllHold(Middle(path, |prefix|, |suffix|), v);
  }

  lemma WithoutBarePath(paths: seq<Path>, prefix: Path, suffix: Path, v: Valuation)
    requires SplitsAs(paths, prefix, suffix, v) && forall path :: path in paths ==> |path| > |prefix| + |suffix|
    ensures AnyPath(paths, v) <==>
            AllHold(prefix, v) && AllHold(suffix, v) && AnyHolds(Terms(paths, |prefix|, |suffix|), v)
  {
    AnyPathIn(paths, v);
    TermsHold(paths, |prefix|, |suffix|, v);
  }

  lemma GuardExactFor(paths: seq<Path>, prefix: Path, suffix: Path, v: Valuation)
    requires paths != [] && SplitsAs(paths, prefix, suffix, v)
    ensures var terms := Terms(paths, |prefix|, |suffix|);
            (GuardHolds(prefix, suffix, terms, v) <==> AnyPath(paths, v)) <==>
            || AllOrNone(paths, |prefix|, |suffix|)
            || !AllHold(prefix, v) || !AllHold(suffix, v) || AnyHolds(terms, v)
  {
    var p, q := |prefix|, |suffix|;
    TermsEmpty(paths, p, q);
    assert paths[0] in paths;
    if path :| path in paths && |path| == p + q {
      WithBarePath(paths, prefix, suffix, path, v);
    } else {
      WithoutBarePath(paths, prefix, suffix, v);
    }
  }

  lemma PrefixOfTwo(same: Equality, a: Expr, b: Expr)
    requires same(a, a)
    ensures CommonPrefix(same, [[a], [a, b]]) == [a] && CommonSuffix(same, [[a], [a, b]]) == []
  {
    var paths: seq<Path> := [[a], [a, b]];
    assert Prefix(same, paths, 1) == [a];
    assert AgreeFront(same, [a], [a, b]) == 1;
  }

  /** Of the paths `a` and `a && b` only the longer one is left in the guard. */
  lemma ShortPathDropped(same: Equality, a: Expr, b: Expr, v: Valuation)
    requires same(a, a) && Holds(a, v) && !Holds(b, v)
    ensures var paths: seq<Path> := [[a], [a, b]];
      && CommonPrefix(same, paths) == [a] && CommonSuffix(same, paths) == []
      && AnyPath(paths, v) && !GuardHolds([a], [], Terms(paths, 1, 0), v)
  {
    var paths: seq<Path> := [[a], [a, b]];
    PrefixOfTwo(same, a, b);
    assert AllHold(paths[0], v);
    var term := And(Middle([a, b], 1, 0));
    assert Middle([a, b], 1, 0) == [b];
    AndOrHold([b], v);
    assert [b][0] == b && !Holds(term, v);
    assert paths[1..] == [[a, b]] && [[a, b]][1..] == [];
    assert Terms(paths[1..], 1, 0) == [term] + [];
    assert Terms(paths, 1, 0) == [term];
  }

  /** On the paths `a && b && a` and `a` the prefix and the suffix are `a`, and the second path is too short for both. */
  lemma ShortPathOverlaps(same: Equality, a: Expr, b: Expr)
    requires same(a, a)
    ensures var paths: seq<Path> := [[a, b, a], [a]];
      CommonPrefix(same, paths) == [a] && CommonSuffix(same, paths) == [a] && !NoOverlap(paths, 1, 1)
  {
    var paths: seq<Path> := [[a, b, a], [a]];
    assert Prefix(same, paths, 1) == [a, b, a];
    assert AgreeFront(same, [a, b, a], [a]) == 1;
    assert [a, b, a][..1] == [a] && CommonPrefix(same, paths) == [a];
    var reversed := ReversedAll(paths);
    assert reversed[0] == [a, b, a] && reversed[1] == [a] && reversed == paths;
    assert Reversed([a]) == [a];
    assert paths[1] in paths && |paths[1]| == 1;
  }
}
