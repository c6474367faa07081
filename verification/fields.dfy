/** The unit-specific extractors of `extract_text_data`: the eleven patterns, and what a
    field becomes once its thousands separators are deleted (or its decimal commas turned
    into points) and the pattern's group is read as a number. */
module Fields {
  import opened Strings
  import opened Patterns
  import opened Results
  import opened Table

  function LitTokens(s: string): (ts: seq<Token>)
    ensures |ts| == |s|
    ensures forall j | 0 <= j < |s| :: ts[j] == One(Char(s[j]))
  {
    seq(|s|, j requires 0 <= j < |s| => One(Char(s[j])))
  }

  /** The quantities read with an integer pattern, whose group is `(\d*)`. */
  datatype Quantity = Price | Mileage | PowerKw | PowerCv | Displacement | Weight | Emissions | Warranty

  /** The quantities whose pattern is `(\d*)\s*<unit>`. */
  predicate HasUnit(u: Quantity) {
    u.Mileage? || u.PowerKw? || u.Displacement? || u.Weight? || u.Warranty?
  }

  function UnitOf(u: Quantity): (w: string)
    requires HasUnit(u)
    ensures w != [] && !IsSpace(w[0]) && !IsDigit(w[0])
  {
    match u
    case Mileage => "km"
    case PowerKw => "kW"
    case Displacement => "cm"
    case Weight => "kg"
    case Warranty => "mesi"
  }

  /** `(\d*)\s*<unit>`: a digit group, optional white space, then the unit. */
  function UnitPattern(unit: string): Pattern {
    Pattern([], [Star(Digit)], [Star(Space)] + LitTokens(unit))
  }

  function PatternOf(u: Quantity): (p: Pattern)
    ensures p.group == [Star(Digit)]
    ensures HasUnit(u) ==> p == UnitPattern(UnitOf(u))
  {
    match u
    // `\€\s*(\d*),*`
    case Price => Pattern([One(Char('€')), Star(Space)], [Star(Digit)], [Star(Char(','))])
    // `\((\d*)\s*CV\)`
    case PowerCv => Pattern([One(Char('('))], [Star(Digit)], [Star(Space)] + LitTokens("CV)"))
    // `(\d*)\s*g/km\s*\(comb`
    case Emissions =>
      Pattern([], [Star(Digit)], [Star(Space)] + LitTokens("g/km") + [Star(Space)] + LitTokens("(comb"))
    // `(\d*)\s*km`, `(\d*)\s*kW`, `(\d*)\s*cm`, `(\d*)\s*kg`, `(\d*)\s*mesi`
    case _ => UnitPattern(UnitOf(u))
  }

  /** The drive cycles of the consumption field, as their qualifiers are spelt. */
  datatype Cycle = Comb | Urb | Extraurb

  function Qualifier(c: Cycle): string {
    match c
    case Comb => "comb"
    case Urb => "urb"
    case Extraurb => "extraurb"
  }

  /** `(\d+\.?\d*)\sl/100\skm\s\(<qualifier>` */
  function ConsumptionPattern(c: Cycle): Pattern {
    Pattern([], [Plus(Digit), Opt(Char('.')), Star(Digit)], ConsumptionTail(c))
  }

  /** Everything after the decimal: `\sl/100\skm\s\(<qualifier>`. */
  function ConsumptionTail(c: Cycle): seq<Token> {
    SpacedTokens(" l/100 km (" + Qualifier(c))
  }

  /** One token per character of `w`, a blank standing for `\s`. */
  function SpacedTokens(w: string): (ts: seq<Token>)
    ensures |ts| == |w|
    ensures forall j | 0 <= j < |w| :: ts[j] == One(if w[j] == ' ' then Space else Char(w[j]))
  {
    seq(|w|, j requires 0 <= j < |w| => One(if w[j] == ' ' then Space else Char(w[j])))
  }

  /* ---------- The greedy pass is complete for every pattern ---------- */

  /** White space, then a word that starts with neither white space nor a digit. */
  lemma SpacedWord(w: string)
    requires w != [] && !IsSpace(w[0]) && !IsDigit(w[0])
    ensures Deterministic([Star(Space)] + LitTokens(w))
    ensures First([Star(Space)] + LitTokens(w)) == [Space, Char(w[0])]
  {
    var lit := LitTokens(w);
    PrependOnes(lit, []);
    assert lit + [] == lit;
    assert First(lit) == [Char(w[0])];
    assert ([Star(Space)] + lit)[1..] == lit;
    Prepend(Star(Space), lit);
  }

  lemma UnitPatternDeterministic(unit: string)
    requires unit != [] && !IsSpace(unit[0]) && !IsDigit(unit[0])
    ensures Deterministic(Tokens(UnitPattern(unit)))
  {
    var post := [Star(Space)] + LitTokens(unit);
    SpacedWord(unit);
    Prepend(Star(Digit), post);
    assert Tokens(UnitPattern(unit)) == [Star(Digit)] + post;
  }

  lemma PriceDeterministic()
    ensures Deterministic(Tokens(PatternOf(Price)))
  {
    var ts := [One(Char('€')), Star(Space), Star(Digit), Star(Char(','))];
    assert Tokens(PatternOf(Price)) == ts;
    assert Deterministic(ts[3..]);
    Prepend(ts[2], ts[3..]);
    assert ts[2..] == [ts[2]] + ts[3..];
    Prepend(ts[1], ts[2..]);
    assert ts[1..] == [ts[1]] + ts[2..];
    Prepend(ts[0], ts[1..]);
    assert ts == [ts[0]] + ts[1..];
  }

  lemma CvDeterministic()
    ensures Deterministic(Tokens(PatternOf(PowerCv)))
  {
    var rest := Tokens(UnitPattern("CV)"));
    UnitPatternDeterministic("CV)");
    Prepend(One(Char('(')), rest);
    assert Tokens(PatternOf(PowerCv)) == [One(Char('('))] + rest;
  }

  lemma EmissionsDeterministic()
    ensures Deterministic(Tokens(PatternOf(Emissions)))
  {
    var post := EmissionsPost();
    Prepend(Star(Digit), post);
    assert Tokens(PatternOf(Emissions)) == [Star(Digit)] + post;
  }

  /** The tokens after the emissions group: `\s*g/km\s*\(comb`. */
  lemma EmissionsPost() returns (post: seq<Token>)
    ensures post == [Star(Space)] + LitTokens("g/km") + [Star(Space)] + LitTokens("(comb")
    ensures Deterministic(post) && First(post) == [Space, Char('g')]
  {
    var comb := [Star(Space)] + LitTokens("(comb");
    var gkm := LitTokens("g/km");
    GkmThenComb(gkm, comb);
    Prepend(Star(Space), gkm + comb);
    post := [Star(Space)] + (gkm + comb);
    assert post[1..] == gkm + comb;
    assert First(post) == [Space, Char('g')];
  }

  lemma GkmThenComb(gkm: seq<Token>, comb: seq<Token>)
    requires gkm == LitTokens("g/km") && comb == [Star(Space)] + LitTokens("(comb")
    ensures Deterministic(gkm + comb) && First(gkm + comb) == [Char('g')]
  {
    SpacedWord("(comb");
    PrependOnes(gkm, comb);
    assert (gkm + comb)[0] == One(Char('g'));
  }

  /** Every integer pattern admits the greedy pass. */
  lemma IntPatternComplete(u: Quantity)
    ensures Complete(Tokens(PatternOf(u)))
  {
    match u {
      case Price => PriceDeterministic();
      case PowerCv => CvDeterministic();
      case Emissions => EmissionsDeterministic();
      case _ => UnitPatternDeterministic(UnitOf(u));
    }
    DeterministicComplete(Tokens(PatternOf(u)));
  }

  /** The consumption tail takes one character per token, the first one white space. */
  lemma ConsumptionTailFacts(c: Cycle)
    ensures forall j | 0 <= j < |ConsumptionTail(c)| :: ConsumptionTail(c)[j].One?
    ensures ConsumptionTail(c)[0] == One(Space)
    ensures Deterministic(ConsumptionTail(c))
    ensures First(ConsumptionTail(c)) == [Space]
  {
    var r := ConsumptionTail(c);
    PrependOnes(r, []);
    assert r + [] == r;
  }

  /** Only the repeated digits of the integer part compete with what follows them. */
  lemma ConsumptionRestDeterministic(c: Cycle)
    ensures Deterministic([Opt(Char('.')), Star(Digit)] + ConsumptionTail(c))
  {
    var r := ConsumptionTail(c);
    ConsumptionTailFacts(c);
    Prepend(Star(Digit), r);
    var t2 := [Star(Digit)] + r;
    assert t2[1..] == r;
    assert First(t2) == [Digit, Space];
    Prepend(Opt(Char('.')), t2);
    assert [Opt(Char('.')), Star(Digit)] + r == [Opt(Char('.'))] + t2;
  }

  /** `\d+` may give back digits only to `\d*`, and then the white space after the decimal
      forces `\d*` to end where `\d+` would have: so the greedy choice for `\d+` is never
      wrong, although the pattern is not `Deterministic`. */
  lemma DecimalGreedyComplete(r: seq<Token>, s: string, i: nat, lens: seq<nat>)
    requires r != [] && r[0] == One(Space)
    requires Deterministic([Opt(Char('.')), Star(Digit)] + r)
    requires i <= |s| && Path([Plus(Digit), Opt(Char('.')), Star(Digit)] + r, s, i, lens)
    ensures Greedy([Plus(Digit), Opt(Char('.')), Star(Digit)] + r, s, i).Some?
  {
    var ts := [Plus(Digit), Opt(Char('.')), Star(Digit)] + r;
    var t1 := [Opt(Char('.')), Star(Digit)] + r;
    assert ts[0] == Plus(Digit) && ts[1..] == t1;
    var d, tail := DigitsPath(r, s, i, lens);
    GreedyComplete(t1, s, i + d, tail);
    GreedyCons(ts, s, i, d, Greedy(t1, s, i + d).value);
  }

  /** Whatever `\d+` took on a path, the rest of the pattern has a path from the end of the
      whole digit run, which is what `\d+` takes greedily. */
  lemma DigitsPath(r: seq<Token>, s: string, i: nat, lens: seq<nat>) returns (d: nat, tail: seq<nat>)
    requires r != [] && r[0] == One(Space)
    requires i <= |s| && Path([Plus(Digit), Opt(Char('.')), Star(Digit)] + r, s, i, lens)
    ensures i + d <= |s| && Step(Plus(Digit), s, i) == Some(d)
    ensures Path([Opt(Char('.')), Star(Digit)] + r, s, i + d, tail)
  {
    var ts := [Plus(Digit), Opt(Char('.')), Star(Digit)] + r;
    var t1 := [Opt(Char('.')), Star(Digit)] + r;
    assert ts[0] == Plus(Digit) && ts[1..] == t1;
    assert Takes(Plus(Digit), s, i, lens[0]);
    d := Run(s, i, Digit);
    RunIsLongest(s, i, Digit, lens[0]);
    if lens[0] == d {
      tail := lens[1..];
    } else {
      tail := ShorterDigitsPath(r, s, i, lens);
    }
  }

  /** When `\d+` stops short of the digit run, the rest of the path can be moved to start
      at the end of the run, with `\.?` and `\d*` taking nothing. */
  lemma ShorterDigitsPath(r: seq<Token>, s: string, i: nat, lens: seq<nat>) returns (tail: seq<nat>)
    requires r != [] && r[0] == One(Space)
    requires i <= |s| && Path([Plus(Digit), Opt(Char('.')), Star(Digit)] + r, s, i, lens)
    requires lens[0] < Run(s, i, Digit)
    ensures i + Run(s, i, Digit) <= |s|
    ensures Path([Opt(Char('.')), Star(Digit)] + r, s, i + Run(s, i, Digit), tail)
  {
    var ts := [Plus(Digit), Opt(Char('.')), Star(Digit)] + r;
    var t1 := [Opt(Char('.')), Star(Digit)] + r;
    var t2 := [Star(Digit)] + r;
    assert ts[1..] == t1 && t1[1..] == t2 && t2[1..] == r;
    var d := Run(s, i, Digit);
    var l0 := lens[0];
    assert In(s[i + l0], Digit);
    assert Path(t1, s, i + l0, lens[1..]);
    assert lens[1] > 0 ==> In(s[i + l0], Char('.'));
    assert lens[1] == 0;
    var l2 := lens[2];
    assert Path(t2, s, i + l0, lens[2..]);
    var j := i + l0 + l2;
    assert Path(r, s, j, lens[3..]);
    assert Takes(One(Space), s, j, lens[3]);
    assert In(s[j], Space);
    RunIsLongest(s, i, Digit, l0 + l2);
    assert !IsDigit(s[j]);
    assert j < i + d ==> In(s[j], Digit);
    assert j == i + d;
    tail := [0, 0] + lens[3..];
    SkipOptionalParts(r, s, j, lens[3..]);
  }

  /** `\.?` and `\d*` may both take nothing. */
  lemma SkipOptionalParts(r: seq<Token>, s: string, j: nat, rest: seq<nat>)
    requires j <= |s| && Path(r, s, j, rest)
    ensures Path([Opt(Char('.')), Star(Digit)] + r, s, j, [0, 0] + rest)
  {
    var t1 := [Opt(Char('.')), Star(Digit)] + r;
    var t2 := [Star(Digit)] + r;
    assert t1[1..] == t2 && t2[1..] == r;
    assert ([0, 0] + rest)[1..] == [0] + rest && ([0] + rest)[1..] == rest;
    assert Path(t2, s, j, [0] + rest);
  }

  lemma ConsumptionGreedyComplete(c: Cycle, s: string, i: nat, lens: seq<nat>)
    requires i <= |s| && Path(Tokens(ConsumptionPattern(c)), s, i, lens)
    ensures Greedy(Tokens(ConsumptionPattern(c)), s, i).Some?
  {
    var r := ConsumptionTail(c);
    assert Tokens(ConsumptionPattern(c)) == [Plus(Digit), Opt(Char('.')), Star(Digit)] + r;
    ConsumptionTailFacts(c);
    ConsumptionRestDeterministic(c);
    DecimalGreedyComplete(r, s, i, lens);
  }

  lemma ConsumptionComplete(c: Cycle)
    ensures Complete(Tokens(ConsumptionPattern(c)))
  {
    forall s: string, i: nat, lens: seq<nat> | i <= |s| && Path(Tokens(ConsumptionPattern(c)), s, i, lens)
      ensures Greedy(Tokens(ConsumptionPattern(c)), s, i).Some?
    {
      ConsumptionGreedyComplete(c, s, i, lens);
    }
  }

  /* ---------- Integer fields ---------- */

  /** The group of an integer pattern captures digits only. */
  lemma IntCaptureDigits(u: Quantity, s: string)
    ensures Extract(PatternOf(u), s).Some? ==> AllDigits(Extract(PatternOf(u), s).value)
  {
    var p := PatternOf(u);
    if Extract(p, s).Some? {
      var st, gg := ExtractIsGroupText(p, s);
      assert Takes(Star(Digit), s, st, gg[0]);
      assert Sum(gg) == gg[0] + Sum(gg[1..]);
      var v := Extract(p, s).value;
      forall k | 0 <= k < |v|
        ensures IsDigit(v[k])
      {
        assert v[k] == s[st + k] && In(s[st + k], Digit);
      }
    }
  }

  /** The text the pattern is applied to: the integer extractors delete `.` first, except the
      warranty's. */
  function Prepared(dropDots: bool, s: string): (r: string)
    ensures dropDots ==> '.' !in r && ('.' !in s ==> r == s)
    ensures !dropDots ==> r == s
  {
    if dropDots then DeleteChar(s, '.') else s
  }

  /** One cell under `.str.replace('.', '')` (when `dropDots`), `.str.extract(p)` and
      `.astype(float)`: Missing when nothing matches or the cell holds no text, the number the
      digits spell otherwise, and an error when the group matched the empty string. */
  function IntField(column: string, u: Quantity, dropDots: bool, c: Cell): (r: Result<Cell, Error>)
    ensures !c.Text? ==> r == Ok(Missing)
    ensures r.Err? ==> r.error == NotANumber(column)
    ensures r.Ok? ==> r.value.Missing? || (r.value.Num? && 0.0 <= r.value.x && r.value.x == r.value.x.Floor as real)
  {
    match c
    case Text(s) =>
      var t := Prepared(dropDots, s);
      IntCaptureDigits(u, t);
      var m := Extract(PatternOf(u), t);
      if m.None? then Ok(Missing)
      else if m.value == [] then Err(NotANumber(column))
      else Ok(Num(DigitsValue(m.value) as real))
    case _ => Ok(Missing)
  }

  /** An integer field is `re.search` on the prepared text: Missing exactly when no position
      matches, an error exactly when the leftmost preferred match captures nothing, and
      otherwise the value of the digits it captures. */
  lemma IntFieldIsRegexSearch(column: string, u: Quantity, dropDots: bool, s: string)
    ensures IntField(column, u, dropDots, Text(s)) == Ok(Missing) <==> NoMatch(PatternOf(u), Prepared(dropDots, s))
    ensures IntField(column, u, dropDots, Text(s)).Err? <==> LeftmostCapture(PatternOf(u), Prepared(dropDots, s), "")
    ensures IntField(column, u, dropDots, Text(s)).Ok? && IntField(column, u, dropDots, Text(s)).value.Num? ==>
      exists d :: && d != [] && AllDigits(d) && LeftmostCapture(PatternOf(u), Prepared(dropDots, s), d)
                  && IntField(column, u, dropDots, Text(s)).value.x == DigitsValue(d) as real
  {
    var p := PatternOf(u);
    var t := Prepared(dropDots, s);
    var m := Extract(p, t);
    IntPatternComplete(u);
    ExtractIsRegexSearch(p, t);
    IntCaptureDigits(u, t);
    assert IntField(column, u, dropDots, Text(s))
        == if m.None? then Ok(Missing)
           else if m.value == [] then Err(NotANumber(column))
           else Ok(Num(DigitsValue(m.value) as real));
    if m.Some? && LeftmostCapture(p, t, "") {
      LeftmostCaptureUnique(p, t, "", m.value);
    }
  }

  /* ---------- Consumption ---------- */

  /** Length of the longest prefix of decimal digits. */
  function LeadingDigits(t: string): (k: nat)
    ensures k <= |t| && AllDigits(t[..k])
    ensures k < |t| ==> !IsDigit(t[k])
    decreases |t|
  {
    if t != [] && IsDigit(t[0]) then 1 + LeadingDigits(t[1..]) else 0
  }

  lemma {:induction false} LeadingDigitsAt(t: string, k: nat)
    requires k <= |t| && AllDigits(t[..k])
    requires k < |t| ==> !IsDigit(t[k])
    ensures LeadingDigits(t) == k
    decreases k
  {
    if k > 0 {
      assert IsDigit(t[..k][0]);
      assert t[1..][..k - 1] == t[..k][1..];
      LeadingDigitsAt(t[1..], k - 1);
    }
  }

  /** What `\d+\.?\d*` can capture: digits, then possibly a point and more digits. */
  predicate IsDecimal(t: string) {
    var k := LeadingDigits(t);
    0 < k && (k == |t| || (t[k] == '.' && AllDigits(t[k + 1..])))
  }

  /** `float("0." + e)`: the digits after the point, as a fraction. */
  function FractionValue(e: string): (r: real)
    requires AllDigits(e)
    ensures 0.0 <= r
  {
    DigitsValue(e) as real / Pow10(|e|) as real
  }

  /** `float(t)` for such a text: the integer part plus the fraction after the point. */
  function DecimalValue(t: string): (r: real)
    requires IsDecimal(t)
    ensures 0.0 <= r
  {
    var k := LeadingDigits(t);
    DigitsValue(t[..k]) as real + if k == |t| then 0.0 else FractionValue(t[k + 1..])
  }

  /** Digits alone read as the integer they spell. */
  lemma DecimalOfDigits(d: string)
    requires d != [] && AllDigits(d)
    ensures IsDecimal(d) && DecimalValue(d) == DigitsValue(d) as real
  {
    LeadingDigitsAt(d, |d|);
    assert d[..|d|] == d;
  }

  /** `d.e` reads as `d + e / 10^|e|`. */
  lemma DecimalOfPoint(d: string, e: string)
    requires d != [] && AllDigits(d) && AllDigits(e)
    ensures IsDecimal(d + "." + e)
    ensures DecimalValue(d + "." + e) == DigitsValue(d) as real + FractionValue(e)
  {
    var t := d + "." + e;
    assert t[..|d|] == d;
    assert t[|d|] == '.';
    LeadingDigitsAt(t, |d|);
    assert t[|d| + 1..] == e;
  }

  /** A path through three tokens is three consecutive takes. */
  lemma PathOfThree(t0: Token, t1: Token, t2: Token, s: string, st: nat, gg: seq<nat>)
    requires Path([t0, t1, t2], s, st, gg)
    ensures |gg| == 3 && Sum(gg) == gg[0] + gg[1] + gg[2]
    ensures Takes(t0, s, st, gg[0]) && Takes(t1, s, st + gg[0], gg[1]) && Takes(t2, s, st + gg[0] + gg[1], gg[2])
  {
    assert [t0, t1, t2][1..] == [t1, t2] && [t1, t2][1..] == [t2] && [t2][1..] == [];
    assert Path([t1, t2], s, st + gg[0], gg[1..]);
    assert Path([t2], s, st + gg[0] + gg[1], gg[1..][1..]);
    assert Sum(gg) == gg[0] + Sum(gg[1..]);
    assert Sum(gg[1..]) == gg[1] + Sum(gg[1..][1..]);
    assert Sum(gg[1..][1..]) == gg[2] + Sum(gg[1..][1..][1..]);
  }

  /** Digits, at most one point, and digits again, at least one digit first: a decimal. */
  lemma DigitsPointDigits(t: string, a: nat, b: nat)
    requires 0 < a && a + b <= |t| && b <= 1
    requires AllDigits(t[..a]) && AllDigits(t[a + b..])
    requires b == 1 ==> t[a] == '.'
    ensures IsDecimal(t)
  {
    if b == 0 {
      assert t == t[..a] + t[a..];
      assert AllDigits(t);
      DecimalOfDigits(t);
    } else {
      assert t == t[..a] + "." + t[a + 1..];
      DecimalOfPoint(t[..a], t[a + 1..]);
    }
  }

  /** Text consumed by the decimal group is a decimal. */
  lemma GroupDecimal(s: string, st: nat, gg: seq<nat>)
    requires Path([Plus(Digit), Opt(Char('.')), Star(Digit)], s, st, gg)
    requires st + Sum(gg) <= |s|
    ensures IsDecimal(s[st..st + Sum(gg)])
  {
    PathOfThree(Plus(Digit), Opt(Char('.')), Star(Digit), s, st, gg);
    var a, b, c := gg[0], gg[1], gg[2];
    var t := s[st..st + a + b + c];
    assert t[..a] == s[st..st + a];
    assert t[a + b..] == s[st + a + b..st + a + b + c];
    assert b == 1 ==> t[a] == s[st + a] && In(s[st + a], Char('.'));
    forall k | 0 <= k < a
      ensures IsDigit(t[..a][k])
    {
      assert t[..a][k] == s[st + k] && In(s[st + k], Digit);
    }
    var r := t[a + b..];
    forall k | 0 <= k < |r|
      ensures IsDigit(r[k])
    {
      assert r[k] == s[st + a + b + k] && In(s[st + a + b + k], Digit);
    }
    DigitsPointDigits(t, a, b);
  }

  /** A pattern whose group is the decimal group captures a decimal. */
  lemma DecimalGroupCapture(p: Pattern, s: string)
    requires p.group == [Plus(Digit), Opt(Char('.')), Star(Digit)]
    ensures Extract(p, s).Some? ==> IsDecimal(Extract(p, s).value)
  {
    var e := Extract(p, s);
    if e.Some? {
      var st, gg := ExtractIsGroupText(p, s);
      var d := s[st..st + Sum(gg)];
      assert e.value == d;
      GroupDecimal(s, st, gg);
      assert IsDecimal(d);
    }
  }

  /** The consumption group captures a decimal. */
  lemma DecimalCapture(cy: Cycle, s: string)
    ensures Extract(ConsumptionPattern(cy), s).Some? ==> IsDecimal(Extract(ConsumptionPattern(cy), s).value)
  {
    DecimalGroupCapture(ConsumptionPattern(cy), s);
  }

  /** One cycle of the consumption field: `,` becomes `.`, then the cycle's pattern is applied
      and its group read as a decimal. The group always holds a digit, so there is no error
      case. */
  function ConsumptionField(cy: Cycle, c: Cell): (r: Cell)
    ensures !c.Text? ==> r == Missing
    ensures r.Missing? || (r.Num? && r.x >= 0.0)
  {
    match c
    case Text(s) =>
      var t := ReplaceChar(s, ',', '.');
      DecimalCapture(cy, t);
      var m := Extract(ConsumptionPattern(cy), t);
      if m.None? then Missing else Num(DecimalValue(m.value))
    case _ => Missing
  }

  /** The consumption field is `re.search` on the text with commas made points. */
  lemma ConsumptionFieldIsRegexSearch(cy: Cycle, s: string)
    ensures ConsumptionField(cy, Text(s)).Missing? <==> NoMatch(ConsumptionPattern(cy), ReplaceChar(s, ',', '.'))
    ensures ConsumptionField(cy, Text(s)).Num? ==>
      exists d :: && IsDecimal(d) && LeftmostCapture(ConsumptionPattern(cy), ReplaceChar(s, ',', '.'), d)
                  && ConsumptionField(cy, Text(s)).x == DecimalValue(d)
  {
    var t := ReplaceChar(s, ',', '.');
    var p := ConsumptionPattern(cy);
    var m := Extract(p, t);
    ConsumptionComplete(cy);
    ExtractIsRegexSearch(p, t);
    DecimalCapture(cy, t);
    assert ConsumptionField(cy, Text(s)) == if m.None? then Missing else Num(DecimalValue(m.value));
    if m.Some? {
      assert IsDecimal(m.value) && LeftmostCapture(p, t, m.value);
    }
  }

  /** `np.where(x < 0.1, nan, x)`: readings below a tenth are treated as not given. */
  function DropBelowTenth(c: Cell): (r: Cell)
    ensures r.Num? ==> r.x >= 0.1
    ensures c.Num? && c.x >= 0.1 ==> r == c
    ensures !c.Num? ==> r == c
    ensures c.Num? && c.x < 0.1 ==> r == Missing
  {
    if c.Num? && c.x < 0.1 then Missing else c
  }

  /* ---------- What the extractors read from well-formed fields ---------- */

  lemma SpaceIsNoDigit(c: char)
    requires IsSpace(c)
    ensures !IsDigit(c)
  {
  }

  lemma SumPair(a: nat, b: nat, rest: seq<nat>)
    ensures Sum([a, b] + rest) == a + b + Sum(rest)
    ensures ([a, b] + rest)[..0] == [] && ([a, b] + rest)[..1] == [a]
    ensures Sum([a]) == a
  {
    assert ([a, b] + rest)[1..] == [b] + rest;
    assert ([b] + rest)[1..] == rest;
    assert [a][1..] == [];
  }

  /** A literal word matches where the text spells it. */
  lemma WordAt(w: string, s: string, i: nat)
    requires i + |w| <= |s| && s[i..i + |w|] == w
    ensures Greedy(LitTokens(w), s, i) == Some(Ones(|w|))
  {
    var lit := LitTokens(w);
    forall j | 0 <= j < |lit|
      ensures In(s[i + j], lit[j].cls)
    {
      assert s[i + j] == s[i..i + |w|][j];
    }
    GreedyLiteral(lit, s, i);
  }

  /** White space, then the unit. */
  lemma SpacedUnitGreedy(unit: string, s: string, i: nat, sp: string)
    requires unit != [] && !IsSpace(unit[0])
    requires forall k | 0 <= k < |sp| :: IsSpace(sp[k])
    requires i + |sp| + |unit| <= |s| && s[i..i + |sp| + |unit|] == sp + unit
    ensures Greedy([Star(Space)] + LitTokens(unit), s, i) == Some([|sp|] + Ones(|unit|))
  {
    var lit := LitTokens(unit);
    SpacesThenUnit(unit, s, i, sp);
    WordAt(unit, s, i + |sp|);
    var t1 := [Star(Space)] + lit;
    assert t1[0] == Star(Space) && t1[1..] == lit;
    GreedyCons(t1, s, i, |sp|, Ones(|unit|));
  }

  /** The white-space run at `i` is exactly `sp`, and the unit follows it. */
  lemma SpacesThenUnit(unit: string, s: string, i: nat, sp: string)
    requires unit != [] && !IsSpace(unit[0])
    requires forall k | 0 <= k < |sp| :: IsSpace(sp[k])
    requires i + |sp| + |unit| <= |s| && s[i..i + |sp| + |unit|] == sp + unit
    ensures Run(s, i, Space) == |sp|
    ensures s[i + |sp|..i + |sp| + |unit|] == unit
  {
    var j := i + |sp|;
    assert s[j..j + |unit|] == (sp + unit)[|sp|..];
    assert s[j] == (sp + unit)[|sp|];
    forall k | i <= k < j
      ensures In(s[k], Space)
    {
      assert s[k] == (sp + unit)[k - i];
    }
    RunAt(s, i, Space, |sp|);
  }

  /** The greedy pass over a unit pattern on digits, white space and the unit. */
  lemma UnitGreedy(unit: string, s: string, d: string, sp: string, rest: string)
    requires unit != [] && !IsSpace(unit[0]) && !IsDigit(unit[0])
    requires AllDigits(d) && forall k | 0 <= k < |sp| :: IsSpace(sp[k])
    requires s == d + sp + unit + rest
    ensures Greedy(Tokens(UnitPattern(unit)), s, 0) == Some([|d|, |sp|] + Ones(|unit|))
  {
    var ones := Ones(|unit|);
    MiddleSlice(d, sp + unit, rest);
    SpacedUnitGreedy(unit, s, |d|, sp);
    DigitsThenNoDigit(unit, s, d, sp, rest);
    var ts := Tokens(UnitPattern(unit));
    UnitTokens(unit);
    assert Step(ts[0], s, 0) == Some(|d|);
    GreedyCons(ts, s, 0, |d|, [|sp|] + ones);
    assert [|d|] + ([|sp|] + ones) == [|d|, |sp|] + ones;
  }

  lemma MiddleSlice(a: string, b: string, c: string)
    ensures (a + b + c)[|a|..|a| + |b|] == b
  {
  }

  lemma UnitTokens(unit: string)
    ensures Tokens(UnitPattern(unit))[0] == Star(Digit)
    ensures Tokens(UnitPattern(unit))[1..] == [Star(Space)] + LitTokens(unit)
  {
  }

  /** The digit run at the start of `d + sp + unit + rest` is exactly `d`. */
  lemma DigitsThenNoDigit(unit: string, s: string, d: string, sp: string, rest: string)
    requires unit != [] && !IsDigit(unit[0])
    requires AllDigits(d) && forall k | 0 <= k < |sp| :: IsSpace(sp[k])
    requires s == d + sp + unit + rest
    ensures Run(s, 0, Digit) == |d|
  {
    forall j | 0 <= j < |d|
      ensures In(s[j], Digit)
    {
      assert s[j] == d[j];
    }
    if sp != [] {
      assert s[|d|] == sp[0];
      SpaceIsNoDigit(sp[0]);
    } else {
      assert s[|d|] == unit[0];
    }
    RunAt(s, 0, Digit, |d|);
  }

  /** A field that starts with digits, optional white space and the unit reads as those
      digits. */
  lemma UnitAt(unit: string, s: string, d: string, sp: string, rest: string)
    requires unit != [] && !IsSpace(unit[0]) && !IsDigit(unit[0])
    requires AllDigits(d) && forall k | 0 <= k < |sp| :: IsSpace(sp[k])
    requires s == d + sp + unit + rest
    ensures Extract(UnitPattern(unit), s) == Some(d)
  {
    var g := [|d|, |sp|] + Ones(|unit|);
    UnitGreedy(unit, s, d, sp, rest);
    SumPair(|d|, |sp|, Ones(|unit|));
    ExtractGives(UnitPattern(unit), s, 0, g, 0, |d|);
    assert s[0..|d|] == d;
  }
}
