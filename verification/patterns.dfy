/** The fragment of Python regular expressions the cleaner's extraction patterns use: a
    sequence of single-character-class tokens, each matched once (`x`), optionally (`x?`),
    any number of times (`x*`) or at least once (`x+`), with one capturing group.

    `re.search` semantics are stated by `Path` (the ways the tokens can consume the text),
    `LexLeq` (backtracking tries larger repetition counts first, earlier tokens first, so
    the match it reports is the lexicographically greatest path) and the leftmost start.
    `Extract` computes the same result with one greedy pass per start position; the two
    agree whenever the greedy pass fails only where no path exists (`Complete`), which
    `ExtractIsRegexSearch` proves; `Deterministic` is a checkable sufficient condition: no
    repeated token can give back characters that the rest of the pattern could use. */
module Patterns {
  import opened Strings
  import opened Results

  datatype Class = Digit | Space | Char(c: char)

  datatype Token = One(cls: Class) | Opt(cls: Class) | Star(cls: Class) | Plus(cls: Class)

  /** `pre (group) post` */
  datatype Pattern = Pattern(pre: seq<Token>, group: seq<Token>, post: seq<Token>)

  function Tokens(p: Pattern): seq<Token> {
    p.pre + p.group + p.post
  }

  predicate In(c: char, k: Class) {
    match k
    case Digit => IsDigit(c)
    case Space => IsSpace(c)
    case Char(x) => c == x
  }

  /** Length of the longest run of `k` characters starting at `i`. */
  function Run(s: string, i: nat, k: Class): (n: nat)
    requires i <= |s|
    ensures i + n <= |s|
    ensures forall j {:trigger In(s[j], k)} | i <= j < i + n :: In(s[j], k)
    ensures i + n < |s| ==> !In(s[i + n], k)
    decreases |s| - i
  {
    if i < |s| && In(s[i], k) then 1 + Run(s, i + 1, k) else 0
  }

  /** No run of `k` characters from `i` is longer than `Run`. */
  lemma {:induction false} RunIsLongest(s: string, i: nat, k: Class, m: nat)
    requires i + m <= |s|
    requires forall j | i <= j < i + m :: In(s[j], k)
    ensures m <= Run(s, i, k)
    decreases m
  {
    if m > 0 {
      RunIsLongest(s, i + 1, k, m - 1);
    }
  }

  /** Token `t` can consume exactly `s[i..i+n]`. */
  predicate Takes(t: Token, s: string, i: nat, n: nat) {
    && i + n <= |s|
    && (forall j {:trigger In(s[j], t.cls)} | i <= j < i + n :: In(s[j], t.cls))
    && match t
       case One(_) => n == 1
       case Opt(_) => n <= 1
       case Star(_) => true
       case Plus(_) => n >= 1
  }

  /** The tokens `ts` consume the text from `i` on, token `k` taking `lens[k]` characters. */
  predicate Path(ts: seq<Token>, s: string, i: nat, lens: seq<nat>)
    decreases |ts|
  {
    && |lens| == |ts|
    && (ts == [] || (Takes(ts[0], s, i, lens[0]) && Path(ts[1..], s, i + lens[0], lens[1..])))
  }

  function Sum(l: seq<nat>): nat
    decreases |l|
  {
    if l == [] then 0 else l[0] + Sum(l[1..])
  }

  /** The order in which backtracking tries repetition counts: larger first, earlier first. */
  predicate LexLeq(a: seq<nat>, b: seq<nat>)
    decreases |a|
  {
    && |a| == |b|
    && (a == [] || a[0] < b[0] || (a[0] == b[0] && LexLeq(a[1..], b[1..])))
  }

  /** Greedy choice for one token: as many characters as it may take. */
  function Step(t: Token, s: string, i: nat): (r: Option<nat>)
    requires i <= |s|
    ensures r.Some? ==> Takes(t, s, i, r.value)
    ensures r.Some? ==> forall m: nat | Takes(t, s, i, m) :: m <= r.value
    ensures r.None? ==> forall m: nat :: !Takes(t, s, i, m)
  {
    var n := Run(s, i, t.cls);
    assert forall m: nat | Takes(t, s, i, m) :: m <= n by {
      forall m: nat | Takes(t, s, i, m)
        ensures m <= n
      {
        RunIsLongest(s, i, t.cls, m);
      }
    }
    match t
    case One(_) => if n >= 1 then Some(1) else None
    case Opt(_) => Some(if n >= 1 then 1 else 0)
    case Star(_) => Some(n)
    case Plus(_) => if n >= 1 then Some(n) else None
  }

  /** One greedy left-to-right pass with no backtracking. */
  function Greedy(ts: seq<Token>, s: string, i: nat): (r: Option<seq<nat>>)
    requires i <= |s|
    ensures r.Some? ==> Path(ts, s, i, r.value)
    decreases |ts|
  {
    if ts == [] then Some([])
    else
      match Step(ts[0], s, i)
      case None => None
      case Some(n) =>
        match Greedy(ts[1..], s, i + n)
        case None => None
        case Some(rest) =>
          assert ([n] + rest)[1..] == rest;
          Some([n] + rest)
  }

  /** Whenever the greedy pass succeeds, it finds the path backtracking would report. */
  lemma {:induction false} GreedyFirst(ts: seq<Token>, s: string, i: nat, lens: seq<nat>)
    requires i <= |s| && Greedy(ts, s, i).Some?
    requires Path(ts, s, i, lens)
    ensures LexLeq(lens, Greedy(ts, s, i).value)
    decreases |ts|
  {
    if ts != [] {
      var g := Greedy(ts, s, i).value;
      var n := Step(ts[0], s, i).value;
      var rest := Greedy(ts[1..], s, i + n).value;
      assert g == [n] + rest;
      assert g[0] == n && g[1..] == rest;
      assert Takes(ts[0], s, i, lens[0]);
      if lens[0] == n {
        GreedyFirst(ts[1..], s, i + n, lens[1..]);
      }
    }
  }

  /** Tokens that can all match the empty string. */
  predicate Nullable(ts: seq<Token>) {
    forall j | 0 <= j < |ts| :: ts[j].Opt? || ts[j].Star?
  }

  /** The classes one of which must hold the first character any path of `ts` consumes. */
  function First(ts: seq<Token>): seq<Class>
    decreases |ts|
  {
    if ts == [] then []
    else [ts[0].cls] + (if ts[0].Opt? || ts[0].Star? then First(ts[1..]) else [])
  }

  predicate InAny(c: char, ks: seq<Class>) {
    exists j | 0 <= j < |ks| :: In(c, ks[j])
  }

  /** No character is in both classes. */
  predicate Disjoint(a: Class, b: Class) {
    match (a, b)
    case (Digit, Digit) => false
    case (Space, Space) => false
    case (Digit, Space) => true
    case (Space, Digit) => true
    case (Char(x), Digit) => !IsDigit(x)
    case (Digit, Char(x)) => !IsDigit(x)
    case (Char(x), Space) => !IsSpace(x)
    case (Space, Char(x)) => !IsSpace(x)
    case (Char(x), Char(y)) => x != y
  }

  predicate DisjointAll(a: Class, ks: seq<Class>) {
    forall j | 0 <= j < |ks| :: Disjoint(a, ks[j])
  }

  /** Every token that can take a variable number of characters is followed either by tokens
      that can all match nothing, or by tokens that cannot start with a character of its
      class: then giving characters back can never let the rest of the pattern match. */
  predicate Deterministic(ts: seq<Token>)
    decreases |ts|
  {
    || ts == []
    || (&& (ts[0].One? || Nullable(ts[1..]) || DisjointAll(ts[0].cls, First(ts[1..])))
        && Deterministic(ts[1..]))
  }

  /** A token in front of a deterministic sequence keeps it deterministic when it takes one
      character, or when nothing after it can start with a character of its class. */
  lemma Prepend(t: Token, ts: seq<Token>)
    requires Deterministic(ts)
    requires t.One? || Nullable(ts) || DisjointAll(t.cls, First(ts))
    ensures Deterministic([t] + ts)
  {
    assert ([t] + ts)[1..] == ts;
  }

  /** Literal characters in front of a deterministic sequence keep it deterministic. */
  lemma {:induction false} PrependOnes(ones: seq<Token>, ts: seq<Token>)
    requires forall j | 0 <= j < |ones| :: ones[j].One?
    requires Deterministic(ts)
    ensures Deterministic(ones + ts)
    decreases |ones|
  {
    if ones != [] {
      PrependOnes(ones[1..], ts);
      assert ones + ts == [ones[0]] + (ones[1..] + ts);
      Prepend(ones[0], ones[1..] + ts);
    } else {
      assert ones + ts == ts;
    }
  }

  lemma DisjointSound(a: Class, b: Class, c: char)
    requires Disjoint(a, b) && In(c, a)
    ensures !In(c, b)
  {
  }

  lemma {:induction false} NullableGreedy(ts: seq<Token>, s: string, i: nat)
    requires i <= |s| && Nullable(ts)
    ensures Greedy(ts, s, i).Some?
    decreases |ts|
  {
    if ts != [] {
      var n := Step(ts[0], s, i).value;
      NullableGreedy(ts[1..], s, i + n);
    }
  }

  /** A path through tokens that cannot all match nothing consumes a character, and that
      character is in one of the `First` classes. */
  lemma {:induction false} PathStartsInFirst(ts: seq<Token>, s: string, i: nat, lens: seq<nat>)
    requires Path(ts, s, i, lens) && !Nullable(ts)
    ensures i < |s| && InAny(s[i], First(ts))
    decreases |ts|
  {
    if lens[0] > 0 {
      assert In(s[i], First(ts)[0]);
    } else {
      assert ts[0].Opt? || ts[0].Star?;
      assert !Nullable(ts[1..]) by {
        if Nullable(ts[1..]) {
          forall j | 0 <= j < |ts|
            ensures ts[j].Opt? || ts[j].Star?
          {
            if j > 0 {
              assert ts[1..][j - 1] == ts[j];
            }
          }
        }
      }
      PathStartsInFirst(ts[1..], s, i, lens[1..]);
      var j :| 0 <= j < |First(ts[1..])| && In(s[i], First(ts[1..])[j]);
      assert First(ts)[j + 1] == First(ts[1..])[j];
    }
  }

  /** Under `Deterministic`, when the rest must consume a character, the first token takes
      exactly as much as greedily: any less and the rest would start in its class. */
  lemma StepIsTaken(ts: seq<Token>, s: string, i: nat, lens: seq<nat>)
    requires ts != [] && i <= |s| && Deterministic(ts)
    requires Path(ts, s, i, lens) && !Nullable(ts[1..])
    ensures Step(ts[0], s, i) == Some(lens[0])
  {
    assert Takes(ts[0], s, i, lens[0]);
    var n := Step(ts[0], s, i).value;
    if lens[0] < n {
      var j := i + lens[0];
      assert In(s[j], ts[0].cls);
      PathStartsInFirst(ts[1..], s, j, lens[1..]);
      var k :| 0 <= k < |First(ts[1..])| && In(s[j], First(ts[1..])[k]);
      DisjointSound(ts[0].cls, First(ts[1..])[k], s[j]);
      assert false;
    }
  }

  /** Under `Deterministic`, the greedy pass fails only where no path exists at all. */
  lemma {:induction false} GreedyComplete(ts: seq<Token>, s: string, i: nat, lens: seq<nat>)
    requires i <= |s| && Deterministic(ts)
    requires Path(ts, s, i, lens)
    ensures Greedy(ts, s, i).Some?
    decreases |ts|
  {
    if ts != [] {
      var n := Step(ts[0], s, i).value;
      if Nullable(ts[1..]) {
        NullableGreedy(ts[1..], s, i + n);
      } else {
        StepIsTaken(ts, s, i, lens);
        GreedyComplete(ts[1..], s, i + n, lens[1..]);
      }
    }
  }

  /** The greedy pass succeeds wherever some path exists. */
  ghost predicate Complete(ts: seq<Token>) {
    forall s: string, i: nat, lens: seq<nat> | i <= |s| && Path(ts, s, i, lens) :: Greedy(ts, s, i).Some?
  }

  lemma DeterministicComplete(ts: seq<Token>)
    requires Deterministic(ts)
    ensures Complete(ts)
  {
    forall s: string, i: nat, lens: seq<nat> | i <= |s| && Path(ts, s, i, lens)
      ensures Greedy(ts, s, i).Some?
    {
      GreedyComplete(ts, s, i, lens);
    }
  }

  /** Some way for the tokens to match from `q`. */
  ghost predicate Matches(ts: seq<Token>, s: string, q: nat) {
    exists lens :: Path(ts, s, q, lens)
  }

  /** `g` is the path backtracking reports when the match starts at `q`. */
  ghost predicate Preferred(ts: seq<Token>, s: string, q: nat, g: seq<nat>) {
    Path(ts, s, q, g) && forall lens :: Path(ts, s, q, lens) ==> LexLeq(lens, g)
  }

  lemma GreedyIffMatches(ts: seq<Token>, s: string, q: nat)
    requires q <= |s| && Complete(ts)
    ensures Greedy(ts, s, q).Some? <==> Matches(ts, s, q)
    ensures Greedy(ts, s, q).Some? ==> Preferred(ts, s, q, Greedy(ts, s, q).value)
  {
    if Matches(ts, s, q) {
      var lens :| Path(ts, s, q, lens);
    }
    if Greedy(ts, s, q).Some? {
      forall lens | Path(ts, s, q, lens)
        ensures LexLeq(lens, Greedy(ts, s, q).value)
      {
        GreedyFirst(ts, s, q, lens);
      }
    }
  }

  /** `re.search`: the first start position, from `p` on, at which the greedy pass succeeds. */
  function Search(ts: seq<Token>, s: string, p: nat): (r: Option<(nat, seq<nat>)>)
    requires p <= |s|
    ensures r.Some? ==> p <= r.value.0 <= |s| && Greedy(ts, s, r.value.0) == Some(r.value.1)
    ensures r.Some? ==> forall q: nat | p <= q < r.value.0 :: Greedy(ts, s, q).None?
    ensures r.None? ==> forall q: nat | p <= q <= |s| :: Greedy(ts, s, q).None?
    decreases |s| - p
  {
    var here := Greedy(ts, s, p);
    if here.Some? then Some((p, here.value))
    else if p == |s| then None
    else Search(ts, s, p + 1)
  }

  lemma {:induction false} SumSplit(l: seq<nat>, k: nat)
    requires k <= |l|
    ensures Sum(l[..k]) + Sum(l[k..]) == Sum(l)
    decreases k
  {
    if k > 0 {
      SumSplit(l[1..], k - 1);
      assert l[..k][1..] == l[1..][..k - 1];
      assert l[1..][k - 1..] == l[k..];
    }
  }

  lemma {:induction false} PathFits(ts: seq<Token>, s: string, i: nat, lens: seq<nat>)
    requires i <= |s| && Path(ts, s, i, lens)
    ensures i + Sum(lens) <= |s|
    decreases |ts|
  {
    if ts != [] {
      PathFits(ts[1..], s, i + lens[0], lens[1..]);
      assert Sum(lens) == lens[0] + Sum(lens[1..]);
    }
  }

  /** The lengths `g` cover the tokens up to the group and stay within the text from `q`. */
  predicate Fits(p: Pattern, s: string, q: nat, g: seq<nat>) {
    |p.pre| + |p.group| <= |g| && q + Sum(g) <= |s|
  }

  lemma PathFitsCapture(p: Pattern, s: string, q: nat, g: seq<nat>)
    requires q <= |s| && Path(Tokens(p), s, q, g)
    ensures Fits(p, s, q, g)
  {
    PathFits(Tokens(p), s, q, g);
  }

  /** The text the capturing group consumed when token `k` took `g[k]` characters from `q`. */
  function Capture(p: Pattern, s: string, q: nat, g: seq<nat>): string
    requires Fits(p, s, q, g)
  {
    var a := |p.pre|;
    var b := |p.pre| + |p.group|;
    SumSplit(g, b);
    SumSplit(g[..b], a);
    assert g[..b][..a] == g[..a];
    s[q + Sum(g[..a])..q + Sum(g[..b])]
  }

  /** A path through `a + b` is a path through `a` followed by a path through `b`. */
  lemma {:induction false} PathSplit(a: seq<Token>, b: seq<Token>, s: string, i: nat, lens: seq<nat>)
    requires Path(a + b, s, i, lens)
    ensures |a| <= |lens|
    ensures Path(a, s, i, lens[..|a|])
    ensures Path(b, s, i + Sum(lens[..|a|]), lens[|a|..])
    decreases |a|
  {
    if a == [] {
      assert a + b == b;
      assert lens[|a|..] == lens;
    } else {
      assert (a + b)[1..] == a[1..] + b;
      PathSplit(a[1..], b, s, i + lens[0], lens[1..]);
      assert lens[..|a|][1..] == lens[1..][..|a| - 1];
      assert lens[1..][|a| - 1..] == lens[|a|..];
    }
  }

  /** The capture is the text the group's own tokens consumed, starting where `pre` ended. */
  lemma CaptureIsGroupPath(p: Pattern, s: string, q: nat, g: seq<nat>)
    requires q <= |s| && Path(Tokens(p), s, q, g)
    ensures |p.pre| + |p.group| <= |g| && Fits(p, s, q, g)
    ensures Path(p.group, s, q + Sum(g[..|p.pre|]), g[|p.pre|..|p.pre| + |p.group|])
    ensures q + Sum(g[..|p.pre|]) + Sum(g[|p.pre|..|p.pre| + |p.group|]) <= |s|
    ensures Capture(p, s, q, g)
         == s[q + Sum(g[..|p.pre|])..q + Sum(g[..|p.pre|]) + Sum(g[|p.pre|..|p.pre| + |p.group|])]
  {
    var a := |p.pre|;
    var b := |p.pre| + |p.group|;
    GroupPath(p, s, q, g);
    PathFits(Tokens(p), s, q, g);
    SumSplit(g, b);
    SumSplit(g[..b], a);
    assert g[..b][..a] == g[..a] && g[..b][a..] == g[a..b];
    CaptureBetween(p, s, q, g, Sum(g[..a]), Sum(g[..b]));
  }

  /** The group's own tokens have a path from where `pre` ended. */
  lemma GroupPath(p: Pattern, s: string, q: nat, g: seq<nat>)
    requires Path(Tokens(p), s, q, g)
    ensures |p.pre| + |p.group| <= |g|
    ensures Path(p.group, s, q + Sum(g[..|p.pre|]), g[|p.pre|..|p.pre| + |p.group|])
  {
    var a := |p.pre|;
    var b := |p.pre| + |p.group|;
    PathSplit(p.pre + p.group, p.post, s, q, g);
    PathSplit(p.pre, p.group, s, q, g[..b]);
    assert g[..b][..a] == g[..a] && g[..b][a..] == g[a..b];
  }

  /** `m.group(1)` of `re.search(p, s)`, or None when nothing matches. */
  function Extract(p: Pattern, s: string): (r: Option<string>)
    ensures r.Some? ==>
      exists q: nat, g :: q <= |s| && Path(Tokens(p), s, q, g) && Fits(p, s, q, g) && r.value == Capture(p, s, q, g)
  {
    match Search(Tokens(p), s, 0)
    case None => None
    case Some((q, g)) =>
      PathFitsCapture(p, s, q, g);
      Some(Capture(p, s, q, g))
  }

  /** What `Extract` reports is text that the group's own tokens consume. */
  lemma ExtractIsGroupText(p: Pattern, s: string) returns (st: nat, gg: seq<nat>)
    requires Extract(p, s).Some?
    ensures Path(p.group, s, st, gg) && st + Sum(gg) <= |s|
    ensures Extract(p, s).value == s[st..st + Sum(gg)]
  {
    var q: nat, g :| q <= |s| && Path(Tokens(p), s, q, g) && Fits(p, s, q, g) && Extract(p, s).value == Capture(p, s, q, g);
    CaptureIsGroupPath(p, s, q, g);
    st := q + Sum(g[..|p.pre|]);
    gg := g[|p.pre|..|p.pre| + |p.group|];
  }

  /** No start position admits a match. */
  ghost predicate NoMatch(p: Pattern, s: string) {
    forall q: nat | q <= |s| :: !Matches(Tokens(p), s, q)
  }

  /** `cap` is what `re.search(p, s).group(1)` reports: the group of the preferred path at the
      leftmost start position that admits a match. */
  ghost predicate LeftmostCapture(p: Pattern, s: string, cap: string) {
    exists q: nat, g ::
      && q <= |s|
      && Preferred(Tokens(p), s, q, g)
      && (forall q': nat | q' < q :: !Matches(Tokens(p), s, q'))
      && Fits(p, s, q, g)
      && cap == Capture(p, s, q, g)
  }

  /** `Extract` is `re.search`: it finds nothing exactly when no start position admits a
      match, and otherwise reports the group of the preferred path at the leftmost start. */
  lemma ExtractIsRegexSearch(p: Pattern, s: string)
    requires Complete(Tokens(p))
    ensures Extract(p, s).None? <==> NoMatch(p, s)
    ensures Extract(p, s).Some? ==> LeftmostCapture(p, s, Extract(p, s).value)
  {
    var ts := Tokens(p);
    match Search(ts, s, 0)
    case None =>
      forall q: nat | q <= |s|
        ensures !Matches(ts, s, q)
      {
        GreedyIffMatches(ts, s, q);
      }
    case Some((q, g)) =>
      GreedyIffMatches(ts, s, q);
      forall q': nat | q' < q
        ensures !Matches(ts, s, q')
      {
        GreedyIffMatches(ts, s, q');
      }
      assert Preferred(ts, s, q, g);
      PathFitsCapture(p, s, q, g);
  }

  /** Path lengths are ordered totally and antisymmetrically by `LexLeq`. */
  lemma {:induction false} LexLeqAntisymmetric(a: seq<nat>, b: seq<nat>)
    requires LexLeq(a, b) && LexLeq(b, a)
    ensures a == b
    decreases |a|
  {
    if a != [] {
      LexLeqAntisymmetric(a[1..], b[1..]);
      assert a == [a[0]] + a[1..] && b == [b[0]] + b[1..];
    }
  }

  /** `re.search` reports one capture at most. */
  lemma LeftmostCaptureUnique(p: Pattern, s: string, c1: string, c2: string)
    requires LeftmostCapture(p, s, c1) && LeftmostCapture(p, s, c2)
    ensures c1 == c2
  {
    var q1: nat, g1 :| && q1 <= |s| && Preferred(Tokens(p), s, q1, g1)
                       && (forall q': nat | q' < q1 :: !Matches(Tokens(p), s, q')) && Fits(p, s, q1, g1) && c1 == Capture(p, s, q1, g1);
    var q2: nat, g2 :| && q2 <= |s| && Preferred(Tokens(p), s, q2, g2)
                       && (forall q': nat | q' < q2 :: !Matches(Tokens(p), s, q')) && Fits(p, s, q2, g2) && c2 == Capture(p, s, q2, g2);
    assert Matches(Tokens(p), s, q1) && Matches(Tokens(p), s, q2);
    assert q1 == q2;
    LexLeqAntisymmetric(g1, g2);
  }

  /* ---------- Evaluation aids for concrete texts ---------- */

  /** A run of exactly `n` characters of `k` starting at `i`. */
  lemma RunAt(s: string, i: nat, k: Class, n: nat)
    requires i + n <= |s|
    requires forall j | i <= j < i + n :: In(s[j], k)
    requires i + n < |s| ==> !In(s[i + n], k)
    ensures Run(s, i, k) == n
  {
    RunIsLongest(s, i, k, n);
  }

  /** The search from the start reports the first position where the greedy pass succeeds. */
  lemma SearchFinds(ts: seq<Token>, s: string, q: nat, g: seq<nat>)
    requires q <= |s| && Greedy(ts, s, q) == Some(g)
    requires forall j: nat | j < q :: Greedy(ts, s, j).None?
    ensures Search(ts, s, 0) == Some((q, g))
  {
    var r := Search(ts, s, 0);
    assert r.Some?;
    var p := r.value.0;
    assert !(p < q);
    assert !(q < p);
  }

  /** Tokens that each take one character match a text whose characters are in their classes
      one by one. */
  lemma {:induction false} GreedyLiteral(ts: seq<Token>, s: string, i: nat)
    requires forall j | 0 <= j < |ts| :: ts[j].One?
    requires i + |ts| <= |s|
    requires forall j | 0 <= j < |ts| :: In(s[i + j], ts[j].cls)
    ensures Greedy(ts, s, i) == Some(Ones(|ts|))
    decreases |ts|
  {
    if ts != [] {
      assert forall j | 0 <= j < |ts| - 1 :: In(s[i + 1 + j], ts[1..][j].cls) by {
        forall j | 0 <= j < |ts| - 1
          ensures In(s[i + 1 + j], ts[1..][j].cls)
        {
          assert ts[1..][j] == ts[j + 1];
        }
      }
      GreedyLiteral(ts[1..], s, i + 1);
      OneStep(ts[0], s, i);
      GreedyCons(ts, s, i, 1, Ones(|ts| - 1));
    }
  }

  /** The path of a literal: one character per token. */
  function Ones(n: nat): (r: seq<nat>)
    ensures |r| == n
  {
    if n == 0 then [] else [1] + Ones(n - 1)
  }

  /** A token taking one character, on a character of its class. */
  lemma OneStep(t: Token, s: string, i: nat)
    requires t.One? && i < |s| && In(s[i], t.cls)
    ensures Step(t, s, i) == Some(1)
  {
    RunIsLongest(s, i, t.cls, 1);
  }

  /** One step of the greedy pass. */
  lemma GreedyCons(ts: seq<Token>, s: string, i: nat, n: nat, g: seq<nat>)
    requires ts != [] && i <= |s| && Step(ts[0], s, i) == Some(n) && Greedy(ts[1..], s, i + n) == Some(g)
    ensures Greedy(ts, s, i) == Some([n] + g)
  {
  }

  /** The search reports the first position where the greedy pass succeeds. */
  lemma ExtractAt(p: Pattern, s: string, q: nat, g: seq<nat>)
    requires q <= |s| && Greedy(Tokens(p), s, q) == Some(g)
    requires forall j: nat | j < q :: Greedy(Tokens(p), s, j).None?
    ensures Fits(p, s, q, g)
    ensures Extract(p, s) == Some(Capture(p, s, q, g))
  {
    PathFitsCapture(p, s, q, g);
    SearchFinds(Tokens(p), s, q, g);
  }

  /** The capture lies between the lengths the tokens before the group and the group itself
      consumed. */
  lemma CaptureBetween(p: Pattern, s: string, q: nat, g: seq<nat>, a: nat, b: nat)
    requires Fits(p, s, q, g)
    requires Sum(g[..|p.pre|]) == a && Sum(g[..|p.pre| + |p.group|]) == b
    ensures a <= b && q + b <= |s|
    ensures Capture(p, s, q, g) == s[q + a..q + b]
  {
    SumSplit(g, |p.pre| + |p.group|);
    SumSplit(g[..|p.pre| + |p.group|], |p.pre|);
    assert g[..|p.pre| + |p.group|][..|p.pre|] == g[..|p.pre|];
  }

  /** What the search reports, given the greedy path at the first position that admits one
      and the lengths consumed before and through the group. */
  lemma ExtractGives(p: Pattern, s: string, q: nat, g: seq<nat>, a: nat, b: nat)
    requires q <= |s| && Greedy(Tokens(p), s, q) == Some(g)
    requires forall j: nat | j < q :: Greedy(Tokens(p), s, j).None?
    requires |p.pre| + |p.group| <= |g|
    requires Sum(g[..|p.pre|]) == a && Sum(g[..|p.pre| + |p.group|]) == b
    ensures a <= b && q + b <= |s|
    ensures Extract(p, s) == Some(s[q + a..q + b])
  {
    ExtractAt(p, s, q, g);
    CaptureBetween(p, s, q, g, a, b);
  }
}
