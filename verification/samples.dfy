/** Listing fields as the scraper stores them, and what the cleaner makes of them. */
module Samples {
  import opened Strings
  import opened Patterns
  import opened Results
  import opened Table
  import opened Fields

  /** An integer field whose pattern captures the digits `d` reads as their value. */
  lemma IntFieldReads(column: string, u: Quantity, dropDots: bool, s: string, d: string)
    requires d != [] && AllDigits(d)
    requires Extract(PatternOf(u), Prepared(dropDots, s)) == Some(d)
    ensures IntField(column, u, dropDots, Text(s)) == Ok(Num(DigitsValue(d) as real))
  {
  }

  lemma Digits45000()
    ensures AllDigits("45000") && DigitsValue("45000") == 45000
  {
    assert "45000"[..4] == "4500" && "4500"[..3] == "450" && "450"[..2] == "45" && "45"[..1] == "4" && "4"[..0] == "";
  }

  /** A field with one thousands point is its two halves joined. */
  lemma OnePoint(s: string, a: string, b: string)
    requires s == a + ['.'] + b && '.' !in a && '.' !in b
    ensures Prepared(true, s) == a + b
  {
    DeleteCharBetween(a, b, '.');
  }

  /** `45.000 km` is a mileage of 45000: the thousands point is deleted before the match. */
  lemma MileageSample(s: string)
    requires s == "45.000 km"
    ensures IntField("Chilometraggio", Mileage, true, Text(s)) == Ok(Num(45000.0))
  {
    var t := Prepared(true, s);
    OnePoint(s, "45", "000 km");
    Digits45000();
    UnitAt("km", t, "45000", " ", "");
    IntFieldReads("Chilometraggio", Mileage, true, s, "45000");
  }

  lemma Digits12500()
    ensures AllDigits("12500") && DigitsValue("12500") == 12500
  {
    assert "12500"[..4] == "1250" && "1250"[..3] == "125" && "125"[..2] == "12" && "12"[..1] == "1" && "1"[..0] == "";
  }

  lemma Digits120()
    ensures AllDigits("120") && DigitsValue("120") == 120
  {
    assert "120"[..2] == "12" && "12"[..1] == "1" && "1"[..0] == "";
  }

  lemma Digits163()
    ensures AllDigits("163") && DigitsValue("163") == 163
  {
    assert "163"[..2] == "16" && "16"[..1] == "1" && "1"[..0] == "";
  }

  /** The digit run at `i` is exactly `d` when no digit follows it. */
  lemma DigitsAt(s: string, i: nat, d: string)
    requires AllDigits(d) && i + |d| <= |s| && s[i..i + |d|] == d
    requires i + |d| < |s| ==> !IsDigit(s[i + |d|])
    ensures Run(s, i, Digit) == |d|
  {
    forall j | i <= j < i + |d|
      ensures In(s[j], Digit)
    {
      assert s[j] == s[i..i + |d|][j - i];
    }
    RunAt(s, i, Digit, |d|);
  }


  /** `Step` without its postconditions. The worked values below unfold this copy, which
      brings no quantified postcondition into each concrete pass; `WalkIsGreedy` proves the
      two agree, so every sample is a statement about `Greedy`. */
  function StepOf(t: Token, s: string, i: nat): Option<nat>
    requires i <= |s|
  {
    var n := Run(s, i, t.cls);
    match t
    case One(_) => if n >= 1 then Some(1) else None
    case Opt(_) => Some(if n >= 1 then 1 else 0)
    case Star(_) => Some(n)
    case Plus(_) => if n >= 1 then Some(n) else None
  }

  /** `Greedy` without its postconditions, built from `StepOf`; equal to `Greedy` by
      `WalkIsGreedy`. */
  function Walk(ts: seq<Token>, s: string, i: nat): Option<seq<nat>>
    requires i <= |s|
    decreases |ts|
  {
    if ts == [] then Some([])
    else
      match StepOf(ts[0], s, i)
      case None => None
      case Some(n) =>
        if i + n > |s| then None
        else
          match Walk(ts[1..], s, i + n)
          case None => None
          case Some(rest) => Some([n] + rest)
  }

  lemma {:induction false} WalkIsGreedy(ts: seq<Token>, s: string, i: nat)
    requires i <= |s|
    ensures Walk(ts, s, i) == Greedy(ts, s, i)
    decreases |ts|
  {
    if ts != [] {
      assert StepOf(ts[0], s, i) == Step(ts[0], s, i);
      match Step(ts[0], s, i)
      case None =>
      case Some(n) =>
        WalkIsGreedy(ts[1..], s, i + n);
    }
  }

  /** The counts of a four-token path, built the way the greedy pass builds them. */
  function Four(m0: nat, m1: nat, m2: nat, m3: nat): (g: seq<nat>)
    ensures |g| == 4 && g[0] == m0 && g[1] == m1 && g[2] == m2 && g[3] == m3
  {
    [m0] + ([m1] + ([m2] + ([m3] + [])))
  }

  lemma FourSums(m0: nat, m1: nat, m2: nat, m3: nat)
    ensures Sum(Four(m0, m1, m2, m3)[..2]) == m0 + m1
    ensures Sum(Four(m0, m1, m2, m3)[..3]) == m0 + m1 + m2
  {
    var g := Four(m0, m1, m2, m3);
    assert g[..2] == [m0, m1] && g[..3] == [m0, m1, m2];
    assert [m2][1..] == [] && Sum([m2]) == m2;
    assert [m1][1..] == [] && Sum([m1]) == m1;
    assert [m1, m2][1..] == [m2] && Sum([m1, m2]) == m1 + m2;
    assert [m0, m1][1..] == [m1] && [m0, m1, m2][1..] == [m1, m2];
  }

  /** A greedy pass over four tokens is four steps in a row. */
  lemma GreedyFour(ts: seq<Token>, s: string, m0: nat, m1: nat, m2: nat, m3: nat)
    requires |ts| == 4 && m0 + m1 + m2 + m3 <= |s|
    requires StepOf(ts[0], s, 0) == Some(m0)
    requires StepOf(ts[1], s, m0) == Some(m1)
    requires StepOf(ts[2], s, m0 + m1) == Some(m2)
    requires StepOf(ts[3], s, m0 + m1 + m2) == Some(m3)
    ensures Greedy(ts, s, 0) == Some(Four(m0, m1, m2, m3))
  {
    var tail := [ts[2]] + ([ts[3]] + []);
    FourParts(ts);
    WalkLastTwo(ts[2], ts[3], s, m0 + m1, m2, m3);
    WalkCons(ts[1], tail, s, m0, m1, [m2] + ([m3] + []));
    WalkCons(ts[0], [ts[1]] + tail, s, 0, m0, [m1] + ([m2] + ([m3] + [])));
    WalkIsGreedy(ts, s, 0);
  }

  lemma FourParts<T>(ts: seq<T>)
    requires |ts| == 4
    ensures ts == [ts[0]] + ([ts[1]] + ([ts[2]] + ([ts[3]] + [])))
  {
  }

  /** The last two steps of a pass. */
  lemma WalkLastTwo(t2: Token, t3: Token, s: string, i: nat, n2: nat, n3: nat)
    requires i + n2 + n3 <= |s|
    requires StepOf(t2, s, i) == Some(n2) && StepOf(t3, s, i + n2) == Some(n3)
    ensures Walk([t2] + ([t3] + []), s, i) == Some([n2] + ([n3] + []))
  {
    assert Walk([], s, i + n2 + n3) == Some([]);
    WalkCons(t3, [], s, i + n2, n3, []);
    WalkCons(t2, [t3] + [], s, i, n2, [n3] + []);
  }

  /** The token layout of the price pattern, one token at a time. */
  predicate PriceShape(p: Pattern) {
    && |Tokens(p)| == 4 && |p.pre| == 2 && |p.group| == 1
    && Tokens(p)[0] == One(Char('€')) && Tokens(p)[1] == Star(Space)
    && Tokens(p)[2] == Star(Digit) && Tokens(p)[3] == Star(Char(','))
  }

  lemma PriceTokens(p: Pattern)
    requires p == PatternOf(Price)
    ensures PriceShape(p)
  {
  }

  /** The greedy pass over the price tokens from the euro sign at the start. */
  lemma PriceGreedy(p: Pattern, s: string, m: nat, n: nat)
    requires PriceShape(p)
    requires |s| > 0 && s[0] == '€'
    requires 1 + m <= |s| && m == Run(s, 1, Space)
    requires 1 + m + n <= |s| && n == Run(s, 1 + m, Digit)
    ensures Greedy(Tokens(p), s, 0) == Some(Four(1, m, n, Run(s, 1 + m + n, Char(','))))
  {
    var ts := Tokens(p);
    GreedyFour(ts, s, 1, m, n, Run(s, 1 + m + n, Char(',')));
  }

  /** The white-space run at `i` is exactly `sp` when a digit follows it. */
  lemma SpacesAt(s: string, i: nat, sp: string)
    requires (forall k | 0 <= k < |sp| :: IsSpace(sp[k])) && i + |sp| < |s| && s[i..i + |sp|] == sp
    requires IsDigit(s[i + |sp|])
    ensures Run(s, i, Space) == |sp|
  {
    forall j | i <= j < i + |sp|
      ensures In(s[j], Space)
    {
      assert s[j] == s[i..i + |sp|][j - i];
    }
    if IsSpace(s[i + |sp|]) {
      SpaceIsNoDigit(s[i + |sp|]);
    }
    RunAt(s, i, Space, |sp|);
  }

  /** Where the pieces of `c + sp + d + rest` sit. */
  lemma PriceLayout(s: string, c: char, sp: string, d: string, rest: string)
    requires d != [] && s == [c] + sp + d + rest
    ensures s[0] == c && s[1..1 + |sp|] == sp && s[1 + |sp|..1 + |sp| + |d|] == d
    ensures s[1 + |sp|] == d[0]
    ensures 1 + |sp| + |d| < |s| ==> s[1 + |sp| + |d|] == rest[0]
  {
  }

  /** A price field: the euro sign, white space, the digits, and no further digit. */
  lemma PriceAt(p: Pattern, s: string, sp: string, d: string, rest: string)
    requires p == PatternOf(Price)
    requires forall k | 0 <= k < |sp| :: IsSpace(sp[k])
    requires d != [] && AllDigits(d)
    requires rest == [] || !IsDigit(rest[0])
    requires s == ['€'] + sp + d + rest
    ensures Extract(p, s) == Some(d)
  {
    PriceTokens(p);
    var i2 := 1 + |sp|;
    var i3 := i2 + |d|;
    PriceLayout(s, '€', sp, d, rest);
    SpacesAt(s, 1, sp);
    DigitsAt(s, i2, d);
    PriceGreedy(p, s, |sp|, |d|);
    PriceCapture(p, s, |sp|, |d|, Run(s, i3, Char(',')));
  }

  /** The greedy path at the start of the field gives the capture between its second and third
      counts. */
  lemma PriceCapture(p: Pattern, s: string, m: nat, n: nat, c: nat)
    requires PriceShape(p) && Greedy(Tokens(p), s, 0) == Some(Four(1, m, n, c))
    ensures 1 + m + n <= |s| && Extract(p, s) == Some(s[1 + m..1 + m + n])
  {
    assert |p.pre| == 2 && |p.pre| + |p.group| == 3;
    FourSums(1, m, n, c);
    ExtractGives(p, s, 0, Four(1, m, n, c), 1 + m, 1 + m + n);
  }

  /** `€ 12.500` is a price of 12500: the thousands point goes before the match. */
  lemma PriceSample(s: string)
    requires s == "€ 12.500"
    ensures IntField("Prezzo_auto", Price, true, Text(s)) == Ok(Num(12500.0))
  {
    var t := Prepared(true, s);
    OnePoint(s, "€ 12", "500");
    Digits12500();
    PriceAt(PatternOf(Price), t, " ", "12500", "");
    IntFieldReads("Prezzo_auto", Price, true, s, "12500");
  }

  /** The token layout of the horsepower pattern, one token at a time. */
  predicate CvShape(p: Pattern) {
    && |Tokens(p)| == 6 && |p.pre| == 1 && |p.group| == 1
    && Tokens(p)[0] == One(Char('(')) && Tokens(p)[1] == Star(Digit) && Tokens(p)[2] == Star(Space)
    && Tokens(p)[3] == One(Char('C')) && Tokens(p)[4] == One(Char('V')) && Tokens(p)[5] == One(Char(')'))
  }

  lemma CvTokens(p: Pattern)
    requires p == PatternOf(PowerCv)
    ensures CvShape(p)
  {
  }

  /** Where no opening parenthesis stands, the pattern of the horsepower field cannot start. */
  lemma NoOpenAt(p: Pattern, s: string, j: nat)
    requires CvShape(p) && j < |s| && s[j] != '('
    ensures Greedy(Tokens(p), s, j).None?
  {
    assert Run(s, j, Char('(')) == 0;
  }

  lemma NoOpenBefore(p: Pattern, s: string, q: nat)
    requires CvShape(p) && q <= |s| && forall j | 0 <= j < q :: s[j] != '('
    ensures forall j: nat | j < q :: Greedy(Tokens(p), s, j).None?
  {
    forall j: nat | j < q
      ensures Greedy(Tokens(p), s, j).None?
    {
      NoOpenAt(p, s, j);
    }
  }

  /** A one-character token on its character. */
  lemma OneOf(c: char, s: string, i: nat)
    requires i < |s| && s[i] == c
    ensures StepOf(One(Char(c)), s, i) == Some(1)
  {
    assert Run(s, i, Char(c)) >= 1;
  }

  /** The counts of the horsepower path: the parenthesis, the digits, the white space and
      the three characters of `CV)`. */
  function CvCounts(n: nat, k: nat): (g: seq<nat>)
    ensures |g| == 6 && g[..1] == [1] && g[..2] == [1, n]
  {
    [1] + ([n] + ([k] + ([1] + ([1] + ([1] + [])))))
  }

  /** What the horsepower tokens see from an opening parenthesis at `q`: `n` digits, `k` white
      space characters and `CV)`. */
  predicate CvRuns(s: string, q: nat, n: nat, k: nat) {
    && q + 1 + n + k + 3 <= |s| && s[q] == '('
    && Run(s, q + 1, Digit) == n && Run(s, q + 1 + n, Space) == k
    && s[q + 1 + n + k] == 'C' && s[q + 1 + n + k + 1] == 'V' && s[q + 1 + n + k + 2] == ')'
  }

  /** The greedy pass over the horsepower tokens from an opening parenthesis at `q`. */
  lemma CvGreedy(p: Pattern, s: string, q: nat, n: nat, k: nat)
    requires CvShape(p)
    requires CvRuns(s, q, n, k)
    ensures Greedy(Tokens(p), s, q) == Some(CvCounts(n, k))
  {
    CvWalk(p, s, q, n, k);
    WalkIsGreedy(Tokens(p), s, q);
  }

  lemma CvWalk(p: Pattern, s: string, q: nat, n: nat, k: nat)
    requires CvShape(p)
    requires CvRuns(s, q, n, k)
    ensures Walk(Tokens(p), s, q) == Some(CvCounts(n, k))
  {
    var ts := Tokens(p);
    CvWalkTail(p, s, q + 1 + n, k);
    OneOf('(', s, q);
    assert ts[2..] == ts[1..][1..] && ts[1..] == ts[1..];
    assert Walk(ts[1..], s, q + 1) == Some([n] + ([k] + ([1] + ([1] + ([1] + []))))) by {
      assert ts[1..][0] == Star(Digit);
    }
  }

  /** From the white space on, the horsepower tokens take it and then `CV)`. */
  lemma CvWalkTail(p: Pattern, s: string, i: nat, k: nat)
    requires CvShape(p)
    requires i + k + 3 <= |s| && Run(s, i, Space) == k
    requires s[i + k] == 'C' && s[i + k + 1] == 'V' && s[i + k + 2] == ')'
    ensures Walk(Tokens(p)[2..], s, i) == Some([k] + ([1] + ([1] + ([1] + []))))
  {
    var ts := Tokens(p);
    var j := i + k;
    OneOf('C', s, j);
    OneOf('V', s, j + 1);
    OneOf(')', s, j + 2);
    assert ts[5..][1..] == [] && ts[4..][1..] == ts[5..] && ts[3..][1..] == ts[4..];
    assert ts[2..][1..] == ts[3..];
    assert Walk(ts[5..], s, j + 2) == Some([1] + []);
    assert Walk(ts[4..], s, j + 1) == Some([1] + ([1] + []));
    assert Walk(ts[3..], s, j) == Some([1] + ([1] + ([1] + [])));
  }

  /** Where the pieces of `pre + "(" + d + sp + "CV)" + rest` sit. */
  lemma CvLayout(s: string, pre: string, d: string, sp: string, rest: string)
    requires '(' !in pre && s == pre + ['('] + d + sp + "CV)" + rest
    ensures forall j | 0 <= j < |pre| :: s[j] != '('
    ensures s[|pre|] == '(' && s[|pre| + 1..|pre| + 1 + |d|] == d
    ensures s[|pre| + 1 + |d|..|pre| + 1 + |d| + |sp| + 3] == sp + "CV)"
  {
    var i3 := |pre| + 1 + |d|;
    assert forall j | 0 <= j < |pre| :: s[j] == pre[j];
    assert s[i3..i3 + |sp| + 3] == (sp + "CV)" + rest)[..|sp| + 3];
  }

  /** The capture of the horsepower path at `q`. */
  lemma CvCapture(p: Pattern, s: string, q: nat, n: nat, k: nat)
    requires CvShape(p) && q <= |s|
    requires Greedy(Tokens(p), s, q) == Some(CvCounts(n, k))
    requires forall j: nat | j < q :: Greedy(Tokens(p), s, j).None?
    ensures q + 1 + n <= |s| && Extract(p, s) == Some(s[q + 1..q + (1 + n)])
  {
    var g := CvCounts(n, k);
    assert [1][1..] == [] && [1, n][1..] == [n] && [n][1..] == [];
    assert Sum(g[..1]) == 1 && Sum(g[..2]) == 1 + n;
    ExtractGives(p, s, q, g, 1, 1 + n);
  }

  /** A horsepower field: text without an opening parenthesis, then `(`, the digits, white
      space and `CV)`. */
  lemma CvAt(p: Pattern, s: string, pre: string, d: string, sp: string, rest: string)
    requires p == PatternOf(PowerCv)
    requires '(' !in pre && AllDigits(d) && forall k | 0 <= k < |sp| :: IsSpace(sp[k])
    requires s == pre + ['('] + d + sp + "CV)" + rest
    ensures Extract(p, s) == Some(d)
  {
    CvTokens(p);
    CvLayout(s, pre, d, sp, rest);
    CvFrom(p, s, |pre|, d, sp);
    assert s[|pre| + 1..|pre| + (1 + |d|)] == d;
  }

  /** The same, stated by positions in the field. */
  lemma CvFrom(p: Pattern, s: string, q: nat, d: string, sp: string)
    requires CvShape(p)
    requires AllDigits(d) && forall k | 0 <= k < |sp| :: IsSpace(sp[k])
    requires q + 1 + |d| + |sp| + 3 <= |s| && forall j | 0 <= j < q :: s[j] != '('
    requires s[q] == '(' && s[q + 1..q + 1 + |d|] == d
    requires s[q + 1 + |d|..q + 1 + |d| + |sp| + 3] == sp + "CV)"
    ensures Extract(p, s) == Some(s[q + 1..q + (1 + |d|)])
  {
    CvRunsAt(s, q, d, sp);
    NoOpenBefore(p, s, q);
    CvGreedy(p, s, q, |d|, |sp|);
    CvCapture(p, s, q, |d|, |sp|);
  }

  lemma CvRunsAt(s: string, q: nat, d: string, sp: string)
    requires AllDigits(d) && forall k | 0 <= k < |sp| :: IsSpace(sp[k])
    requires q + 1 + |d| + |sp| + 3 <= |s| && s[q] == '('
    requires s[q + 1..q + 1 + |d|] == d
    requires s[q + 1 + |d|..q + 1 + |d| + |sp| + 3] == sp + "CV)"
    ensures CvRuns(s, q, |d|, |sp|)
  {
    CvSpaceRun(s, q + 1 + |d|, sp);
    DigitsAt(s, q + 1, d);
  }

  /** White space and then `CV)` at `i`: the space run, no digit first, and the three letters. */
  lemma CvSpaceRun(s: string, i: nat, sp: string)
    requires forall k | 0 <= k < |sp| :: IsSpace(sp[k])
    requires i + |sp| + 3 <= |s| && s[i..i + |sp| + 3] == sp + "CV)"
    ensures Run(s, i, Space) == |sp| && !IsDigit(s[i])
    ensures s[i + |sp|] == 'C' && s[i + |sp| + 1] == 'V' && s[i + |sp| + 2] == ')'
  {
    SpacesThenUnit("CV)", s, i, sp);
    ThreeChars(s, i + |sp|, "CV)");
    if sp != [] {
      assert s[i] == s[i..i + |sp| + 3][0] == sp[0];
      SpaceIsNoDigit(sp[0]);
    }
  }

  lemma ThreeChars(s: string, j: nat, w: string)
    requires |w| == 3 && j + 3 <= |s| && s[j..j + 3] == w
    ensures s[j] == w[0] && s[j + 1] == w[1] && s[j + 2] == w[2]
  {
    assert s[j..j + 3][0] == s[j] && s[j..j + 3][1] == s[j + 1] && s[j..j + 3][2] == s[j + 2];
  }

  /** `120 kW (163 CV)` has no thousands point, so it is matched as it stands. */
  lemma PowerText(s: string)
    requires s == "120 kW (163 CV)"
    ensures Prepared(true, s) == s
  {
    assert forall k | 0 <= k < |s| :: s[k] != '.';
    DeleteCharAbsent(s, '.');
  }

  /** `120 kW (163 CV)` is a power of 120 kW. */
  lemma PowerKwSample(s: string)
    requires s == "120 kW (163 CV)"
    ensures IntField("potenza_kw", PowerKw, true, Text(s)) == Ok(Num(120.0))
  {
    PowerText(s);
    Digits120();
    UnitAt("kW", s, "120", " ", " (163 CV)");
    IntFieldReads("potenza_kw", PowerKw, true, s, "120");
  }

  /** `120 kW (163 CV)` is a power of 163 CV: the horsepower pattern starts at the parenthesis. */
  lemma PowerCvSample(s: string)
    requires s == "120 kW (163 CV)"
    ensures IntField("potenza_cv", PowerCv, true, Text(s)) == Ok(Num(163.0))
  {
    PowerText(s);
    Digits163();
    CvAt(PatternOf(PowerCv), s, "120 kW ", "163", " ", "");
    IntFieldReads("potenza_cv", PowerCv, true, s, "163");
  }

  /** A spaced literal matches where the text spells it, a blank matching the blank. */
  lemma SpacedWordAt(w: string, s: string, i: nat)
    requires i + |w| <= |s| && s[i..i + |w|] == w
    ensures Greedy(SpacedTokens(w), s, i) == Some(Ones(|w|))
  {
    var ts := SpacedTokens(w);
    forall j | 0 <= j < |ts|
      ensures In(s[i + j], ts[j].cls)
    {
      assert s[i + j] == s[i..i + |w|][j] == w[j];
    }
    GreedyLiteral(ts, s, i);
  }

  /** Where the pieces of a decimal `d.e` followed by the text `w` sit. */
  predicate DecimalText(s: string, d: string, e: string, w: string) {
    && |d| + 1 + |e| + |w| <= |s| && s[0..|d| + 1 + |e|] == d + "." + e
    && s[0..|d|] == d && s[|d|] == '.' && s[|d| + 1..|d| + 1 + |e|] == e
    && s[|d| + 1 + |e|..|d| + 1 + |e| + |w|] == w
  }

  lemma DecimalLayout(s: string, d: string, e: string, w: string, rest: string)
    requires s == d + "." + e + (w + rest)
    ensures DecimalText(s, d, e, w)
  {
    var i3 := |d| + 1 + |e|;
    assert s[i3..] == w + rest;
    assert s[i3..i3 + |w|] == s[i3..][..|w|];
  }

  /** The three group tokens of the consumption pattern on `d.e` followed by white space. */
  lemma DecimalSteps(s: string, d: string, e: string, w: string)
    requires d != [] && AllDigits(d) && AllDigits(e) && w != [] && w[0] == ' '
    requires DecimalText(s, d, e, w)
    ensures StepOf(Plus(Digit), s, 0) == Some(|d|)
    ensures StepOf(Opt(Char('.')), s, |d|) == Some(1)
    ensures StepOf(Star(Digit), s, |d| + 1) == Some(|e|)
  {
    var i3 := |d| + 1 + |e|;
    assert s[i3] == s[i3..i3 + |w|][0] == ' ';
    DigitsAt(s, |d| + 1, e);
    DigitsAt(s, 0, d);
    assert In(s[|d|], Char('.'));
  }

  lemma ThreeSums(a: nat, b: nat, c: nat, g: seq<nat>)
    ensures Sum(([a] + ([b] + ([c] + g)))[..0]) == 0
    ensures Sum(([a] + ([b] + ([c] + g)))[..3]) == a + b + c
  {
    var h := [a] + ([b] + ([c] + g));
    assert h[..0] == [] && h[..3] == [a, b, c];
    assert [c][1..] == [] && Sum([c]) == c;
    assert [b, c][1..] == [c] && Sum([b, c]) == b + c;
    assert [a, b, c][1..] == [b, c];
  }

  /** The decimal group and then a spaced literal that starts with a blank. */
  lemma DecimalGreedy(ts: seq<Token>, s: string, a: nat, c: nat, w: string)
    requires ts == [Plus(Digit), Opt(Char('.')), Star(Digit)] + SpacedTokens(w)
    requires DecimalThen(s, a, c, w)
    ensures Greedy(ts, s, 0) == Some([a] + ([1] + ([c] + Ones(|w|))))
  {
    WalkIsGreedy(SpacedTokens(w), s, a + 1 + c);
    DecimalCons(SpacedTokens(w), s, a, c, Ones(|w|));
    ThreeThen(Plus(Digit), Opt(Char('.')), Star(Digit), SpacedTokens(w));
    WalkIsGreedy(ts, s, 0);
  }

  /** The three decimal group steps in front of the pass over the rest. */
  lemma DecimalCons(rest: seq<Token>, s: string, a: nat, c: nat, g: seq<nat>)
    requires a + 1 + c <= |s|
    requires StepOf(Plus(Digit), s, 0) == Some(a) && StepOf(Opt(Char('.')), s, a) == Some(1)
    requires StepOf(Star(Digit), s, a + 1) == Some(c) && Walk(rest, s, a + 1 + c) == Some(g)
    ensures Walk([Plus(Digit)] + ([Opt(Char('.'))] + ([Star(Digit)] + rest)), s, 0) == Some([a] + ([1] + ([c] + g)))
  {
    PointThenDigits(rest, s, a, c, g);
    WalkCons(Plus(Digit), [Opt(Char('.'))] + ([Star(Digit)] + rest), s, 0, a, [1] + ([c] + g));
  }

  lemma PointThenDigits(rest: seq<Token>, s: string, a: nat, c: nat, g: seq<nat>)
    requires a + 1 + c <= |s|
    requires StepOf(Opt(Char('.')), s, a) == Some(1)
    requires StepOf(Star(Digit), s, a + 1) == Some(c) && Walk(rest, s, a + 1 + c) == Some(g)
    ensures Walk([Opt(Char('.'))] + ([Star(Digit)] + rest), s, a) == Some([1] + ([c] + g))
  {
    WalkCons(Star(Digit), rest, s, a + 1, c, g);
    WalkCons(Opt(Char('.')), [Star(Digit)] + rest, s, a, 1, [c] + g);
  }

  /** One more step in front of a pass. */
  lemma WalkCons(t: Token, rest: seq<Token>, s: string, i: nat, n: nat, g: seq<nat>)
    requires i + n <= |s| && StepOf(t, s, i) == Some(n) && Walk(rest, s, i + n) == Some(g)
    ensures Walk([t] + rest, s, i) == Some([n] + g)
  {
    ConsParts(t, rest);
  }

  lemma ConsParts<T>(x: T, r: seq<T>)
    ensures [x] + r != [] && ([x] + r)[0] == x && ([x] + r)[1..] == r
  {
  }

  lemma ThreeThen<T>(x: T, y: T, z: T, r: seq<T>)
    ensures [x, y, z] + r == [x] + ([y] + ([z] + r))
  {
  }

  /** What the greedy pass sees in `d.e` followed by the spaced literal `w`, with `|d| == a`
      and `|e| == c`. */
  predicate DecimalThen(s: string, a: nat, c: nat, w: string) {
    && a + 1 + c + |w| <= |s|
    && StepOf(Plus(Digit), s, 0) == Some(a) && StepOf(Opt(Char('.')), s, a) == Some(1)
    && StepOf(Star(Digit), s, a + 1) == Some(c) && Greedy(SpacedTokens(w), s, a + 1 + c) == Some(Ones(|w|))
  }

  lemma DecimalThenAt(s: string, d: string, e: string, w: string)
    requires d != [] && AllDigits(d) && AllDigits(e) && w != [] && w[0] == ' '
    requires DecimalText(s, d, e, w)
    ensures DecimalThen(s, |d|, |e|, w)
  {
    SpacedWordAt(w, s, |d| + 1 + |e|);
    DecimalSteps(s, d, e, w);
  }

  /** The words after the decimal in a consumption field of cycle `cy`. */
  function CycleWords(cy: Cycle): (w: string)
    ensures w != [] && w[0] == ' '
    ensures ConsumptionPattern(cy) == Pattern([], [Plus(Digit), Opt(Char('.')), Star(Digit)], SpacedTokens(w))
  {
    " l/100 km (" + Qualifier(cy)
  }

  /** The greedy pass of a consumption pattern over a field that starts with a decimal and the
      cycle's words. */
  lemma ConsumptionGreedy(cy: Cycle, s: string, d: string, e: string, rest: string)
    requires d != [] && AllDigits(d) && AllDigits(e)
    requires s == d + "." + e + (CycleWords(cy) + rest)
    ensures |d| + 1 + |e| <= |s| && s[0..|d| + 1 + |e|] == d + "." + e
    ensures Greedy(Tokens(ConsumptionPattern(cy)), s, 0) == Some([|d|] + ([1] + ([|e|] + Ones(|CycleWords(cy)|))))
  {
    var w := CycleWords(cy);
    assert Tokens(ConsumptionPattern(cy)) == [Plus(Digit), Opt(Char('.')), Star(Digit)] + SpacedTokens(w);
    DecimalLayout(s, d, e, w, rest);
    DecimalThenAt(s, d, e, w);
    DecimalGreedy(Tokens(ConsumptionPattern(cy)), s, |d|, |e|, w);
  }

  /** A consumption field that starts with a decimal and the cycle's words captures the
      decimal. */
  lemma ConsumptionAt(cy: Cycle, s: string, d: string, e: string, rest: string)
    requires d != [] && AllDigits(d) && AllDigits(e)
    requires s == d + "." + e + (CycleWords(cy) + rest)
    ensures Extract(ConsumptionPattern(cy), s) == Some(d + "." + e)
  {
    var g := [|d|] + ([1] + ([|e|] + Ones(|CycleWords(cy)|)));
    ConsumptionGreedy(cy, s, d, e, rest);
    ThreeSums(|d|, 1, |e|, Ones(|CycleWords(cy)|));
    ExtractGives(ConsumptionPattern(cy), s, 0, g, 0, |d| + 1 + |e|);
  }

  /** One comma between two texts without one becomes a point. */
  lemma CommaToPoint(a: string, b: string)
    requires ',' !in a && ',' !in b
    ensures ReplaceChar(a + [','] + b, ',', '.') == a + ['.'] + b
  {
    ReplaceCharConcat(a + [','], b, ',', '.');
    ReplaceCharConcat(a, [','], ',', '.');
  }

  /** A consumption field whose decimal group captures `d.e` reads as that decimal. */
  lemma ConsumptionFieldReads(cy: Cycle, s: string, d: string, e: string)
    requires d != [] && AllDigits(d) && AllDigits(e)
    requires Extract(ConsumptionPattern(cy), ReplaceChar(s, ',', '.')) == Some(d + "." + e)
    ensures ConsumptionField(cy, Text(s)) == Num(DigitsValue(d) as real + FractionValue(e))
  {
    DecimalOfPoint(d, e);
  }

  /** `5,5 l/100 km (comb` is a combined consumption of 5.5: the decimal comma becomes a point
      before the match. */
  lemma ConsumptionSample(s: string)
    requires s == "5,5 l/100 km (comb"
    ensures ConsumptionField(Comb, Text(s)) == Num(5.5)
  {
    var w := CycleWords(Comb);
    assert w == " l/100 km (comb";
    assert s == "5" + [','] + ("5" + (w + ""));
    CommaToPoint("5", "5" + (w + ""));
    assert "5" + ['.'] + ("5" + (w + "")) == "5" + "." + "5" + (w + "");
    ConsumptionAt(Comb, "5" + "." + "5" + (w + ""), "5", "5", "");
    assert AllDigits("5") && DigitsValue("5") == 5;
    ConsumptionFieldReads(Comb, s, "5", "5");
    OneDigitFraction("5");
  }

  /** One digit after the point is that many tenths. */
  lemma OneDigitFraction(e: string)
    requires |e| == 1 && AllDigits(e)
    ensures FractionValue(e) == DigitsValue(e) as real / 10.0
  {
    assert Pow10(1) == 10;
  }

  /** A pattern whose first token needs the character `c` matches nowhere in a text without
      `c`. */
  lemma AbsentFirst(p: Pattern, s: string, c: char)
    requires Tokens(p) != [] && Tokens(p)[0] == One(Char(c)) && c !in s
    ensures Extract(p, s) == None
  {
    var ts := Tokens(p);
    forall q: nat | q <= |s|
      ensures Greedy(ts, s, q).None?
    {
      assert q < |s| ==> !In(s[q], Char(c));
      assert Run(s, q, Char(c)) == 0;
    }
  }

  /** Deleting points leaves every other character out that was out. */
  lemma PreparedAbsent(s: string, c: char)
    requires c != '.' && c !in s
    ensures c !in Prepared(true, s)
  {
    DeleteCharKeepsOthers(s, '.', c);
  }

  /** A price field without the euro sign is missing. */
  lemma PriceMissingWithoutEuro(column: string, s: string)
    requires '€' !in s
    ensures IntField(column, Price, true, Text(s)) == Ok(Missing)
  {
    var p := PatternOf(Price);
    PriceTokens(p);
    PreparedAbsent(s, '€');
    AbsentFirst(p, Prepared(true, s), '€');
  }

  /** A power field without an opening parenthesis has no horsepower reading. */
  lemma CvMissingWithoutParenthesis(column: string, s: string)
    requires '(' !in s
    ensures IntField(column, PowerCv, true, Text(s)) == Ok(Missing)
  {
    var p := PatternOf(PowerCv);
    CvTokens(p);
    PreparedAbsent(s, '(');
    AbsentFirst(p, Prepared(true, s), '(');
  }
}
