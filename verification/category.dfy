/** `getFuel` and `getCarBody`: a non-string maps to `Altro`; a string is lower-cased and
    the first rule whose keyword it contains gives the category, `Altro` when none does. */
module Categories {
  import opened Strings
  import opened Table

  /** A keyword and the category it selects. */
  datatype Rule = Rule(keyword: string, category: string)

  const Other := "Altro"

  /** The fuel rules in the order they are tried. */
  const FuelRules: seq<Rule> := [
    Rule("benz", "Benzina"), Rule("super", "Benzina"), Rule("diesel", "Diesel"),
    Rule("gpl", "GPL"), Rule("liqu", "GPL"), Rule("metano", "Metano"),
    Rule("naturale", "Metano"), Rule("elettr", "Elettrica")
  ]

  /** The body rules in the order they are tried. */
  const BodyRules: seq<Rule> := [
    Rule("suv", "SUV/Fuoristrada"), Rule("fuoristrada", "SUV/Fuoristrada"),
    Rule("wagon", "Station Wagon"), Rule("city", "City Car"), Rule("berl", "Berlina"),
    Rule("cabrio", "Cabrio"), Rule("coup", "Coupe"), Rule("mono", "Monovolume"),
    Rule("furg", "Furgone")
  ]

  const FuelLabels: set<string> := {"Benzina", "Diesel", "GPL", "Metano", "Elettrica", "Altro"}

  const BodyLabels: set<string> := {
    "SUV/Fuoristrada", "Station Wagon", "City Car", "Berlina", "Cabrio", "Coupe",
    "Monovolume", "Furgone", "Altro"
  }

  function LabelsOf(rules: seq<Rule>): set<string> {
    set i | 0 <= i < |rules| :: rules[i].category
  }

  /** Rule `i` is the first one whose keyword `s` contains. */
  predicate FirstHit(rules: seq<Rule>, s: string, i: int) {
    && 0 <= i < |rules|
    && Contains(s, rules[i].keyword)
    && forall j | 0 <= j < i :: !Contains(s, rules[j].keyword)
  }

  /** The if/elif chain over the rules. */
  function FirstMatch(rules: seq<Rule>, s: string): (r: string)
    ensures r in LabelsOf(rules) || r == Other
    decreases |rules|
  {
    if rules == [] then Other
    else if Contains(s, rules[0].keyword) then rules[0].category
    else
      var r := FirstMatch(rules[1..], s);
      assert LabelsOf(rules[1..]) <= LabelsOf(rules) by {
        forall x | x in LabelsOf(rules[1..])
          ensures x in LabelsOf(rules)
        {
          var i :| 0 <= i < |rules[1..]| && rules[1..][i].category == x;
          assert rules[i + 1].category == x;
        }
      }
      r
  }

  /** The chain picks the category of the first rule that fires, and `Altro` exactly when none
      fires. */
  lemma {:induction false} FirstMatchIsFirstHit(rules: seq<Rule>, s: string)
    ensures forall i | FirstHit(rules, s, i) :: FirstMatch(rules, s) == rules[i].category
    ensures (forall j | 0 <= j < |rules| :: !Contains(s, rules[j].keyword)) ==> FirstMatch(rules, s) == Other
    ensures (exists i :: FirstHit(rules, s, i)) || forall j | 0 <= j < |rules| :: !Contains(s, rules[j].keyword)
    decreases |rules|
  {
    if rules != [] {
      var tail := rules[1..];
      FirstMatchIsFirstHit(tail, s);
      forall i | FirstHit(rules, s, i)
        ensures FirstMatch(rules, s) == rules[i].category
      {
        if i > 0 {
          assert FirstHit(tail, s, i - 1) by {
            forall j | 0 <= j < i - 1
              ensures !Contains(s, tail[j].keyword)
            {
              assert tail[j] == rules[j + 1];
            }
          }
        }
      }
      if !Contains(s, rules[0].keyword) {
        if i :| FirstHit(tail, s, i) {
          assert FirstHit(rules, s, i + 1) by {
            forall j | 0 <= j < i + 1
              ensures !Contains(s, rules[j].keyword)
            {
              if j > 0 {
                assert rules[j] == tail[j - 1];
              }
            }
          }
        } else {
          forall j | 0 <= j < |rules|
            ensures !Contains(s, rules[j].keyword)
          {
            if j > 0 {
              assert rules[j] == tail[j - 1];
            }
          }
        }
      } else {
        assert FirstHit(rules, s, 0);
      }
    }
  }

  /** `getFuel` on one cell. */
  function Fuel(c: Cell): (r: string)
    ensures r in FuelLabels
    ensures !c.Text? ==> r == Other
  {
    assert LabelsOf(FuelRules) == FuelLabels - {Other} by {
      assert FuelRules[0].category == "Benzina" && FuelRules[2].category == "Diesel";
      assert FuelRules[3].category == "GPL" && FuelRules[5].category == "Metano";
      assert FuelRules[7].category == "Elettrica";
    }
    if c.Text? then FirstMatch(FuelRules, Lower(c.s)) else Other
  }

  /** `getCarBody` on one cell. */
  function Body(c: Cell): (r: string)
    ensures r in BodyLabels
    ensures !c.Text? ==> r == Other
  {
    assert LabelsOf(BodyRules) == BodyLabels - {Other} by {
      assert BodyRules[0].category == "SUV/Fuoristrada" && BodyRules[2].category == "Station Wagon";
      assert BodyRules[3].category == "City Car" && BodyRules[4].category == "Berlina";
      assert BodyRules[5].category == "Cabrio" && BodyRules[6].category == "Coupe";
      assert BodyRules[7].category == "Monovolume" && BodyRules[8].category == "Furgone";
    }
    if c.Text? then FirstMatch(BodyRules, Lower(c.s)) else Other
  }

  /** Both mappings ignore the case of ASCII letters. */
  lemma CaseInsensitive(s: string, t: string)
    requires Lower(s) == Lower(t)
    ensures Fuel(Text(s)) == Fuel(Text(t))
    ensures Body(Text(s)) == Body(Text(t))
    ensures Fuel(Text(Lower(s))) == Fuel(Text(s)) && Body(Text(Lower(s))) == Body(Text(s))
  {
    LowerIdempotent(s);
  }

  /** The fuel is the category of the first fuel rule whose keyword the lower-cased text
      contains, and `Altro` when it contains none. */
  lemma FuelIsFirstHit(s: string)
    ensures forall i | FirstHit(FuelRules, Lower(s), i) :: Fuel(Text(s)) == FuelRules[i].category
    ensures (forall j | 0 <= j < |FuelRules| :: !Contains(Lower(s), FuelRules[j].keyword)) ==> Fuel(Text(s)) == Other
  {
    FirstMatchIsFirstHit(FuelRules, Lower(s));
  }

  /** The body is the category of the first body rule whose keyword the lower-cased text
      contains, and `Altro` when it contains none. */
  lemma BodyIsFirstHit(s: string)
    ensures forall i | FirstHit(BodyRules, Lower(s), i) :: Body(Text(s)) == BodyRules[i].category
    ensures (forall j | 0 <= j < |BodyRules| :: !Contains(Lower(s), BodyRules[j].keyword)) ==> Body(Text(s)) == Other
  {
    FirstMatchIsFirstHit(BodyRules, Lower(s));
  }

  /** `benz` wins over every later keyword, `diesel` among them. */
  lemma BenzFirst(s: string)
    requires Contains(Lower(s), "benz")
    ensures Fuel(Text(s)) == "Benzina"
  {
    FirstMatchIsFirstHit(FuelRules, Lower(s));
    assert FirstHit(FuelRules, Lower(s), 0);
  }

  /** `diesel` decides when neither petrol keyword occurs. */
  lemma DieselUnlessPetrol(s: string)
    requires Contains(Lower(s), "diesel")
    requires !Contains(Lower(s), "benz") && !Contains(Lower(s), "super")
    ensures Fuel(Text(s)) == "Diesel"
  {
    FirstMatchIsFirstHit(FuelRules, Lower(s));
    assert FirstHit(FuelRules, Lower(s), 2);
  }

  /** `suv` and `fuoristrada` both give the off-road category, whatever else occurs. */
  lemma OffRoadFirst(s: string)
    requires Contains(Lower(s), "suv") || Contains(Lower(s), "fuoristrada")
    ensures Body(Text(s)) == "SUV/Fuoristrada"
  {
    FirstMatchIsFirstHit(BodyRules, Lower(s));
    if Contains(Lower(s), "suv") {
      assert FirstHit(BodyRules, Lower(s), 0);
    } else {
      assert FirstHit(BodyRules, Lower(s), 1);
    }
  }
}
