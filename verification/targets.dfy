/** `getTargets`: which batch files one run processes. With a target name the file must exist
    under the data directory, end in `.csv` and not be the full dataset; without one every
    `.csv` entry of the data directory but the full dataset is taken, in sorted order. Either
    way the batches the ledger already records are skipped. */
module Targets {
  import opened Strings
  import opened Results

  /* ---------- Code-point order on strings ---------- */

  /** `s <= t` in Python's ordering of `str`: the first differing code point decides, and a
      proper prefix comes first. */
  predicate LessEq(s: string, t: string)
    decreases |s|
  {
    if s == [] then true
    else if t == [] then false
    else if s[0] != t[0] then s[0] < t[0]
    else LessEq(s[1..], t[1..])
  }

  lemma {:induction false} LessEqTotal(s: string, t: string)
    ensures LessEq(s, t) || LessEq(t, s)
    decreases |s|
  {
    if s != [] && t != [] && s[0] == t[0] {
      LessEqTotal(s[1..], t[1..]);
    }
  }

  lemma {:induction false} LessEqTransitive(s: string, t: string, u: string)
    requires LessEq(s, t) && LessEq(t, u)
    ensures LessEq(s, u)
    decreases |s|
  {
    if s != [] && t != [] && u != [] && s[0] == t[0] && t[0] == u[0] {
      LessEqTransitive(s[1..], t[1..], u[1..]);
    }
  }

  lemma {:induction false} LessEqAntisymmetric(s: string, t: string)
    requires LessEq(s, t) && LessEq(t, s)
    ensures s == t
    decreases |s|
  {
    if s != [] {
      LessEqAntisymmetric(s[1..], t[1..]);
      assert s == [s[0]] + s[1..] && t == [t[0]] + t[1..];
    }
  }

  predicate Sorted(xs: seq<string>) {
    forall i, j | 0 <= i < j < |xs| :: LessEq(xs[i], xs[j])
  }

  /* ---------- sorted() ---------- */

  function Insert(x: string, xs: seq<string>): (r: seq<string>)
    requires Sorted(xs)
    ensures Sorted(r)
    ensures multiset(r) == multiset(xs) + multiset{x}
    decreases |xs|
  {
    if xs == [] then [x]
    else if LessEq(x, xs[0]) then
      BelowHead(x, xs);
      ConsSorted(x, xs);
      [x] + xs
    else
      var rest := Insert(x, xs[1..]);
      assert xs == [xs[0]] + xs[1..];
      HeadBelowInsert(x, xs, rest);
      ConsSorted(xs[0], rest);
      [xs[0]] + rest
  }

  /** Below the head of a sorted sequence is below all of it. */
  lemma BelowHead(x: string, xs: seq<string>)
    requires Sorted(xs) && xs != [] && LessEq(x, xs[0])
    ensures forall j | 0 <= j < |xs| :: LessEq(x, xs[j])
  {
    forall j | 0 < j < |xs|
      ensures LessEq(x, xs[j])
    {
      LessEqTransitive(x, xs[0], xs[j]);
    }
  }

  /** The head of a sorted sequence is below everything inserting a larger `x` into its tail
      gives. */
  lemma HeadBelowInsert(x: string, xs: seq<string>, rest: seq<string>)
    requires Sorted(xs) && xs != [] && !LessEq(x, xs[0])
    requires multiset(rest) == multiset(xs[1..]) + multiset{x}
    ensures forall j | 0 <= j < |rest| :: LessEq(xs[0], rest[j])
  {
    LessEqTotal(x, xs[0]);
    forall j | 0 <= j < |rest|
      ensures LessEq(xs[0], rest[j])
    {
      var y := rest[j];
      assert y in multiset(rest);
      if y != x {
        assert y in multiset(xs[1..]);
        var k :| 0 <= k < |xs[1..]| && xs[1..][k] == y;
        assert xs[k + 1] == y;
      }
    }
  }

  /** A sorted sequence stays sorted behind an element below all of it. */
  lemma ConsSorted(h: string, rest: seq<string>)
    requires Sorted(rest) && forall j | 0 <= j < |rest| :: LessEq(h, rest[j])
    ensures Sorted([h] + rest)
  {
    var r := [h] + rest;
    forall i, j | 0 <= i < j < |r|
      ensures LessEq(r[i], r[j])
    {
      assert r[j] == rest[j - 1];
      if i > 0 {
        assert r[i] == rest[i - 1];
      }
    }
  }

  /** `sorted(xs)` by insertion. */
  function Sort(xs: seq<string>): (r: seq<string>)
    ensures Sorted(r)
    ensures multiset(r) == multiset(xs)
    decreases |xs|
  {
    if xs == [] then []
    else
      assert xs == [xs[0]] + xs[1..];
      Insert(xs[0], Sort(xs[1..]))
  }

  lemma {:induction false} LessEqReflexive(s: string)
    ensures LessEq(s, s)
    decreases |s|
  {
    if s != [] {
      LessEqReflexive(s[1..]);
    }
  }

  /** The head of a sorted sequence is at most each of its elements. */
  lemma SortedHead(a: seq<string>, x: string)
    requires Sorted(a) && x in a
    ensures LessEq(a[0], x)
  {
    var i :| 0 <= i < |a| && a[i] == x;
    if i == 0 {
      LessEqReflexive(x);
    }
  }

  lemma SplitHead(a: seq<string>)
    requires a != []
    ensures multiset(a) == multiset{a[0]} + multiset(a[1..])
    ensures multiset(a[1..]) == multiset(a) - multiset{a[0]}
  {
    assert a == [a[0]] + a[1..];
  }

  /** A sorted sequence is the only sorted arrangement of its elements, so any correct sort of
      the directory listing gives the order `Sort` gives. */
  lemma {:induction false} SortedUnique(a: seq<string>, b: seq<string>)
    requires Sorted(a) && Sorted(b) && multiset(a) == multiset(b)
    ensures a == b
    decreases |a|
  {
    assert |a| == |multiset(a)| == |b|;
    if a != [] {
      SortedHeadsAgree(a, b);
      SplitHead(a);
      SplitHead(b);
      SortedTail(a);
      SortedTail(b);
      SortedUnique(a[1..], b[1..]);
      assert a == [a[0]] + a[1..] && b == [b[0]] + b[1..];
    }
  }

  /** Two sorted arrangements of the same elements start alike. */
  lemma SortedHeadsAgree(a: seq<string>, b: seq<string>)
    requires Sorted(a) && Sorted(b) && multiset(a) == multiset(b) && a != [] && b != []
    ensures a[0] == b[0]
  {
    assert a[0] in multiset(b) && b[0] in multiset(a);
    SortedHead(b, a[0]);
    SortedHead(a, b[0]);
    LessEqAntisymmetric(a[0], b[0]);
  }

  lemma SortedTail(a: seq<string>)
    requires Sorted(a) && a != []
    ensures Sorted(a[1..])
  {
    forall i, j | 0 <= i < j < |a[1..]|
      ensures LessEq(a[1..][i], a[1..][j])
    {
      assert a[1..][i] == a[i + 1] && a[1..][j] == a[j + 1];
    }
  }

  lemma SortIsTheSortedPermutation(xs: seq<string>, ys: seq<string>)
    requires Sorted(ys) && multiset(ys) == multiset(xs)
    ensures Sort(xs) == ys
  {
    SortedUnique(Sort(xs), ys);
  }

  /* ---------- List comprehensions ---------- */

  predicate Distinct(xs: seq<string>) {
    forall i, j | 0 <= i < j < |xs| :: xs[i] != xs[j]
  }

  /** `[x for x in xs if p(x)]`. */
  function Filter(xs: seq<string>, p: string -> bool): (r: seq<string>)
    ensures forall x :: x in r <==> x in xs && p(x)
    ensures |r| <= |xs|
    decreases |xs|
  {
    if xs == [] then []
    else if p(xs[0]) then [xs[0]] + Filter(xs[1..], p)
    else Filter(xs[1..], p)
  }

  /** Each element of a filtered tail comes from the tail. */
  lemma FilterTail(xs: seq<string>, p: string -> bool, j: nat)
    requires xs != [] && p(xs[0]) && 0 < j < |Filter(xs, p)|
    ensures Filter(xs, p)[j] == Filter(xs[1..], p)[j - 1] && Filter(xs, p)[j] in xs[1..]
  {
  }

  lemma InTail(xs: seq<string>, x: string) returns (k: nat)
    requires xs != [] && x in xs[1..]
    ensures 0 < k < |xs| && xs[k] == x
  {
    var i :| 0 <= i < |xs[1..]| && xs[1..][i] == x;
    k := i + 1;
  }

  /** Filtering keeps the order. */
  lemma {:induction false} FilterKeepsSorted(xs: seq<string>, p: string -> bool)
    requires Sorted(xs)
    ensures Sorted(Filter(xs, p))
    decreases |xs|
  {
    if xs != [] {
      FilterKeepsSorted(xs[1..], p);
      if p(xs[0]) {
        var r := Filter(xs, p);
        forall i, j | 0 <= i < j < |r|
          ensures LessEq(r[i], r[j])
        {
          FilterTail(xs, p, j);
          if i > 0 {
            FilterTail(xs, p, i);
          } else {
            var k := InTail(xs, r[j]);
          }
        }
      }
    }
  }

  /** Filtering introduces no repetition. */
  lemma {:induction false} FilterKeepsDistinct(xs: seq<string>, p: string -> bool)
    requires Distinct(xs)
    ensures Distinct(Filter(xs, p))
    decreases |xs|
  {
    if xs != [] {
      FilterKeepsDistinct(xs[1..], p);
      if p(xs[0]) {
        var r := Filter(xs, p);
        forall i, j | 0 <= i < j < |r|
          ensures r[i] != r[j]
        {
          FilterTail(xs, p, j);
          if i > 0 {
            FilterTail(xs, p, i);
          } else {
            var k := InTail(xs, r[j]);
          }
        }
      }
    }
  }

  /** Filters agreeing on the elements give the same list. */
  lemma {:induction false} FilterCongruent(xs: seq<string>, p: string -> bool, q: string -> bool)
    requires forall x | x in xs :: p(x) == q(x)
    ensures Filter(xs, p) == Filter(xs, q)
    decreases |xs|
  {
    if xs != [] {
      assert forall x | x in xs[1..] :: x in xs;
      FilterCongruent(xs[1..], p, q);
    }
  }

  /** Filtering twice is filtering once by both conditions. */
  lemma {:induction false} FilterTwice(xs: seq<string>, p: string -> bool, q: string -> bool, pq: string -> bool)
    requires forall x :: pq(x) == (p(x) && q(x))
    ensures Filter(Filter(xs, p), q) == Filter(xs, pq)
    decreases |xs|
  {
    if xs != [] {
      FilterTwice(xs[1..], p, q, pq);
      if p(xs[0]) {
        assert ([xs[0]] + Filter(xs[1..], p))[1..] == Filter(xs[1..], p);
      }
    }
  }

  /* ---------- getTargets ---------- */

  const DataDir := "../data/"
  const FullDataset := "usedcars_dataset.csv"
  const FullDatasetPath := DataDir + FullDataset

  /** `os.path.join("..", "data", t)`: an absolute name replaces the directory. */
  function Join(t: string): (r: string)
    ensures EndsWith(r, ".csv") <==> EndsWith(t, ".csv")
    ensures StartsWith(t, "/") ==> r == t
    ensures !StartsWith(t, "/") ==> StartsWith(r, DataDir) && r[|DataDir|..] == t
  {
    if StartsWith(t, "/") then t
    else
      PrefixedSuffix(t);
      DataDir + t
  }

  /** The directory prefix cannot supply any part of a `.csv` suffix. */
  lemma PrefixedSuffix(t: string)
    ensures EndsWith(DataDir + t, ".csv") <==> EndsWith(t, ".csv")
    ensures StartsWith(DataDir + t, DataDir) && (DataDir + t)[|DataDir|..] == t
  {
    var r := DataDir + t;
    assert r[..|DataDir|] == DataDir;
    if |t| < 4 {
      assert r[|r| - |t| - 1] == '/';
      assert r[|r| - 4..][3 - |t|] == '/';
      assert ".csv"[3 - |t|] != '/';
    } else {
      assert r[|r| - 4..] == t[|t| - 4..];
    }
  }

  /** `lambda t: t not in ledger`. */
  function NotIn(ledger: seq<string>): string -> bool {
    t => t !in ledger
  }

  /** A directory entry the listing mode takes. */
  predicate Candidate(name: string) {
    EndsWith(name, ".csv") && name != FullDataset
  }

  /** A named target the explicit mode accepts; `isFile` is `os.path.isfile`. */
  predicate Accepted(t: string, isFile: string -> bool) {
    var p := Join(t);
    isFile(p) && EndsWith(p, ".csv") && p != FullDatasetPath
  }

  /** The batches one run processes. `target` is the command-line name (None or the empty
      string when not given), `ledger` the batches already merged, `listing` the entries of
      the data directory. */
  function GetTargets(target: Option<string>, ledger: seq<string>, listing: seq<string>, isFile: string -> bool): (r: seq<string>)
    ensures forall t | t in r :: t !in ledger
  {
    var chosen :=
      if target.Some? && target.value != "" then
        if Accepted(target.value, isFile) then [target.value] else []
      else Filter(Sort(listing), Candidate);
    Filter(chosen, NotIn(ledger))
  }

  /** With a name, the run takes exactly that batch when the file is acceptable and not yet
      merged, and nothing otherwise. */
  lemma ExplicitTarget(t: string, ledger: seq<string>, listing: seq<string>, isFile: string -> bool)
    requires t != ""
    ensures GetTargets(Some(t), ledger, listing, isFile)
         == (if Accepted(t, isFile) && t !in ledger then [t] else [])
    ensures GetTargets(Some(t), ledger, listing, isFile) != [] ==> EndsWith(t, ".csv")
  {
    var p := NotIn(ledger);
    assert [t][1..] == [];
    assert Filter([t], p) == (if t !in ledger then [t] else []);
    assert Filter([], p) == [];
  }

  /** The accepted name never leads to the full dataset under the data directory. */
  lemma AcceptedIsNotFullDataset(t: string, isFile: string -> bool)
    requires Accepted(t, isFile)
    ensures t != FullDataset
  {
    assert !StartsWith(FullDataset, "/") by {
      assert FullDataset[0] == 'u';
    }
    assert Join(FullDataset) == FullDatasetPath;
  }

  /** Without a name, the run takes the `.csv` entries other than the full dataset that the
      ledger does not record, in sorted order, and each once when the listing names it once. */
  lemma ListingTargets(target: Option<string>, ledger: seq<string>, listing: seq<string>, isFile: string -> bool)
    requires target == None || target == Some("")
    ensures forall t :: t in GetTargets(target, ledger, listing, isFile)
                    <==> t in listing && Candidate(t) && t !in ledger
    ensures Sorted(GetTargets(target, ledger, listing, isFile))
    ensures Distinct(listing) ==> Distinct(GetTargets(target, ledger, listing, isFile))
  {
    var sorted := Sort(listing);
    assert forall t :: t in sorted <==> t in listing by {
      forall t
        ensures t in sorted <==> t in listing
      {
        assert t in sorted <==> t in multiset(sorted);
        assert t in listing <==> t in multiset(listing);
      }
    }
    var chosen := Filter(sorted, Candidate);
    FilterKeepsSorted(sorted, Candidate);
    FilterKeepsSorted(chosen, NotIn(ledger));
    if Distinct(listing) {
      DistinctSort(listing);
      FilterKeepsDistinct(sorted, Candidate);
      FilterKeepsDistinct(chosen, NotIn(ledger));
    }
  }

  /** Sorting a list without repetition gives one without repetition. */
  lemma DistinctSort(xs: seq<string>)
    requires Distinct(xs)
    ensures Distinct(Sort(xs))
  {
    var s := Sort(xs);
    forall i, j | 0 <= i < j < |s|
      ensures s[i] != s[j]
    {
      if s[i] == s[j] {
        TwiceCounted(s, i, j);
        MultiplicityOne(xs, s[i]);
      }
    }
  }

  /** A value at two positions occurs at least twice. */
  lemma TwiceCounted(s: seq<string>, i: nat, j: nat)
    requires i < j < |s| && s[i] == s[j]
    ensures multiset(s)[s[i]] >= 2
  {
    assert s == s[..j] + s[j..];
    assert s[..j][i] == s[i] && s[j..][0] == s[j];
    assert multiset(s) == multiset(s[..j]) + multiset(s[j..]);
  }

  lemma {:induction false} MultiplicityOne(xs: seq<string>, x: string)
    requires Distinct(xs)
    ensures multiset(xs)[x] <= 1
    decreases |xs|
  {
    if xs != [] {
      assert xs == [xs[0]] + xs[1..];
      assert Distinct(xs[1..]);
      MultiplicityOne(xs[1..], x);
      if x == xs[0] {
        assert x !in xs[1..] by {
          forall k | 0 <= k < |xs[1..]|
            ensures xs[1..][k] != x
          {
            assert xs[1..][k] == xs[k + 1];
          }
        }
      }
    }
  }

  /** Targets with the given batches added to the ledger are the earlier targets the
      additions do not name. */
  lemma MoreRecorded(target: Option<string>, ledger: seq<string>, added: seq<string>, listing: seq<string>, isFile: string -> bool)
    ensures GetTargets(target, ledger + added, listing, isFile)
         == Filter(GetTargets(target, ledger, listing, isFile), NotIn(added))
  {
    var chosen :=
      if target.Some? && target.value != "" then
        if Accepted(target.value, isFile) then [target.value] else []
      else Filter(Sort(listing), Candidate);
    FilterTwice(chosen, NotIn(ledger), NotIn(added), NotIn(ledger + added));
  }

  /** A run never takes a batch twice when the directory lists each name once. */
  lemma TargetsDistinct(target: Option<string>, ledger: seq<string>, listing: seq<string>, isFile: string -> bool)
    requires Distinct(listing)
    ensures Distinct(GetTargets(target, ledger, listing, isFile))
  {
    if target.Some? && target.value != "" {
      ExplicitTarget(target.value, ledger, listing, isFile);
    } else {
      ListingTargets(target, ledger, listing, isFile);
    }
  }
}
