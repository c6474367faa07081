/** `extract_text_data`, `replace_values` and `clean_data`. Each statement of the form
    `df[dst] = <expression over df[src]>` is a `Step`: it fails with a KeyError when the frame
    has no column `src`, fails when the expression fails on some row, and otherwise sets
    `dst` in every row. The statements run in source order, so the first failing statement
    decides the error. */
module Clean {
  import opened Strings
  import opened Results
  import opened Table
  import opened Fields
  import opened Categories
  import opened Headers
  import opened Schema

  /* ---------- Statements over whole columns ---------- */

  /** What a statement computes from a row. */
  datatype Op =
    | AnnoOp                                  // pd.to_datetime(x, format="%m/%Y")
    | IntOp(u: Quantity, dropDots: bool)      // [.str.replace('.', '')].str.extract(pat).astype(float)
    | ConsumptionOp(cy: Cycle)                // .str.replace(',', '.').str.extract(pat).astype(float)
    | CutoffOp                                // np.where(x < 0.1, nan, x)
    | FuelOp                                  // .map(getFuel)
    | HybridOp                                // np.where(other.str.contains('elettr').notnull(), 'Ibrida', x)
    | BodyOp                                  // .map(getCarBody)
    | ServiceOp                               // np.where(x == 'Sì', True, False)
    | OwnerOp                                 // np.where(x < 1.1, True, False)
    | DriveOp                                 // .replace(regex='4x4', value='Integrale')

  /** `df[dst] = <op over df[src]>`. */
  datatype Step = Step(src: string, dst: string, op: Op)

  /** `pd.to_datetime(..., format="%m/%Y")` on one cell; `parse` reads month/year text. */
  function AnnoCell(parse: string -> Option<Date>, c: Cell): (r: Result<Cell, Error>)
    ensures r.Ok? ==> r.value.Missing? || r.value.Stamp?
    ensures r.Err? ==> r.error == BadDate("Anno")
    ensures c.Missing? ==> r == Ok(Missing)
    ensures c.Text? ==> (r.Ok? <==> parse(c.s).Some?)
  {
    match c
    case Missing => Ok(Missing)
    case Stamp(_) => Ok(c)
    case Text(s) => if parse(s).Some? then Ok(Stamp(parse(s).value)) else Err(BadDate("Anno"))
    case _ => Err(BadDate("Anno"))
  }

  /** `np.where(x < 1.1, True, False)` on one cell: a missing value compares false, a number
      compares as a number, a boolean as 0 or 1, and text or a date cannot be compared. */
  function OwnerCell(c: Cell): (r: Result<Cell, Error>)
    ensures r.Ok? ==> r.value.Flag?
    ensures r.Err? <==> c.Text? || c.Stamp?
    ensures c.Num? ==> r == Ok(Flag(c.x < 1.1))
    ensures c.Missing? ==> r == Ok(Flag(false))
  {
    match c
    case Missing => Ok(Flag(false))
    case Num(x) => Ok(Flag(x < 1.1))
    case Flag(_) => Ok(Flag(true))
    case _ => Err(NotComparable("unico_proprietario"))
  }

  /** `Series.replace(regex='4x4', value='Integrale')` rewrites text and leaves other values. */
  function DriveCell(c: Cell): (r: Cell)
    ensures !c.Text? ==> r == c
    ensures c.Text? ==> r.Text? && (!Contains(c.s, "4x4") ==> r == c)
  {
    if c.Text? then
      var t := ReplaceAll(c.s, "4x4", "Integrale");
      if Contains(c.s, "4x4") then Text(t)
      else
        ReplaceAllAbsent(c.s, "4x4", "Integrale");
        Text(t)
    else c
  }

  /** `.str.contains('elettr').notnull()` holds of every string, matching or not, so every
      listing with any text under the other-energy column becomes a hybrid. */
  function HybridCell(other: Cell, fuel: Cell): (r: Cell)
    ensures other.Text? ==> r == Text("Ibrida")
    ensures !other.Text? ==> r == fuel
  {
    if other.Text? then Text("Ibrida") else fuel
  }

  /** The value a statement assigns in one row. */
  function Eval(s: Step, parse: string -> Option<Date>, m: map<string, Cell>): Result<Cell, Error> {
    var x := Get(m, s.src);
    match s.op
    case AnnoOp => AnnoCell(parse, x)
    case IntOp(u, dropDots) => IntField(s.dst, u, dropDots, x)
    case ConsumptionOp(cy) => Ok(ConsumptionField(cy, x))
    case CutoffOp => Ok(DropBelowTenth(x))
    case FuelOp => Ok(Text(Fuel(x)))
    case HybridOp => Ok(HybridCell(x, Get(m, s.dst)))
    case BodyOp => Ok(Text(Body(x)))
    case ServiceOp => Ok(Flag(x == Text("S\U{EC}")))
    case OwnerOp => OwnerCell(x)
    case DriveOp => Ok(DriveCell(x))
  }

  /** Row `i` is the first on which statement `s` fails, and it fails with `e`. */
  predicate FailsFirstAt(rows: seq<Row>, s: Step, parse: string -> Option<Date>, i: nat, e: Error) {
    i < |rows| && Eval(s, parse, rows[i].cells) == Err(e) &&
    forall j | 0 <= j < i :: Eval(s, parse, rows[j].cells).Ok?
  }

  /** Each row with `s.dst` set to what the statement makes of it, or the error of the first
      row on which it fails. */
  function MapRows(rows: seq<Row>, s: Step, parse: string -> Option<Date>): (r: Result<seq<Row>, Error>)
    ensures r.Ok? <==> forall i | 0 <= i < |rows| :: Eval(s, parse, rows[i].cells).Ok?
    ensures r.Ok? ==> |r.value| == |rows|
    ensures r.Ok? ==> forall i | 0 <= i < |rows| ::
              r.value[i] == Row(rows[i].key, rows[i].cells[s.dst := Eval(s, parse, rows[i].cells).value])
    ensures r.Err? ==> exists i: nat :: FailsFirstAt(rows, s, parse, i, r.error)
    decreases |rows|
  {
    if rows == [] then Ok([])
    else
      var c := Eval(s, parse, rows[0].cells);
      if c.Err? then
        assert FailsFirstAt(rows, s, parse, 0, c.error);
        Err(c.error)
      else
        var rest := MapRows(rows[1..], s, parse);
        if rest.Err? then
          FailureShifts(rows, s, parse, rest.error);
          Err(rest.error)
        else
          var r := [Row(rows[0].key, rows[0].cells[s.dst := c.value])] + rest.value;
          MappedShifts(rows, s, parse, r);
          Ok(r)
  }

  /** A first failure in the tail, after a head that succeeds, is a first failure of the whole. */
  lemma FailureShifts(rows: seq<Row>, s: Step, parse: string -> Option<Date>, e: Error)
    requires rows != [] && Eval(s, parse, rows[0].cells).Ok?
    requires exists i: nat :: FailsFirstAt(rows[1..], s, parse, i, e)
    ensures exists i: nat :: FailsFirstAt(rows, s, parse, i, e)
  {
    var i: nat :| FailsFirstAt(rows[1..], s, parse, i, e);
    assert rows[i + 1] == rows[1..][i];
    forall j | 0 <= j < i + 1
      ensures Eval(s, parse, rows[j].cells).Ok?
    {
      if j > 0 {
        assert rows[j] == rows[1..][j - 1];
      }
    }
    assert FailsFirstAt(rows, s, parse, i + 1, e);
  }

  /** The mapped head followed by the mapped tail is every row mapped. */
  lemma MappedShifts(rows: seq<Row>, s: Step, parse: string -> Option<Date>, r: seq<Row>)
    requires rows != [] && forall i | 0 <= i < |rows| :: Eval(s, parse, rows[i].cells).Ok?
    requires |r| == |rows| && r[0] == Row(rows[0].key, rows[0].cells[s.dst := Eval(s, parse, rows[0].cells).value])
    requires forall i | 0 <= i < |rows| - 1 ::
               r[1..][i] == Row(rows[1..][i].key, rows[1..][i].cells[s.dst := Eval(s, parse, rows[1..][i].cells).value])
    ensures forall i | 0 <= i < |rows| ::
              r[i] == Row(rows[i].key, rows[i].cells[s.dst := Eval(s, parse, rows[i].cells).value])
  {
    forall i | 0 < i < |rows|
      ensures r[i] == Row(rows[i].key, rows[i].cells[s.dst := Eval(s, parse, rows[i].cells).value])
    {
      assert r[i] == r[1..][i - 1] && rows[i] == rows[1..][i - 1];
    }
  }

  /** One statement on a frame: a KeyError when the column it reads is missing. */
  function Derive(f: Frame, s: Step, parse: string -> Option<Date>): (r: Result<Frame, Error>)
    ensures s.src !in f.columns ==> r == Err(MissingColumn(s.src))
    ensures s.src in f.columns ==> (r.Ok? <==> forall i | 0 <= i < |f.rows| :: Eval(s, parse, f.rows[i].cells).Ok?)
    ensures r.Ok? ==> r.value.columns == f.columns + {s.dst} && |r.value.rows| == |f.rows|
    ensures r.Ok? ==> forall i | 0 <= i < |f.rows| ::
              r.value.rows[i] == Row(f.rows[i].key, f.rows[i].cells[s.dst := Eval(s, parse, f.rows[i].cells).value])
    ensures r.Ok? ==> KeysOf(r.value.rows) == KeysOf(f.rows)
    ensures r.Ok? && Shaped(f) ==> Shaped(r.value)
  {
    if s.src !in f.columns then Err(MissingColumn(s.src))
    else
      var rows :- MapRows(f.rows, s, parse);
      Ok(Frame(f.columns + {s.dst}, rows))
  }

  function Dsts(steps: seq<Step>): set<string> {
    set k | 0 <= k < |steps| :: steps[k].dst
  }

  lemma DstsCons(s: Step, steps: seq<Step>)
    ensures Dsts([s] + steps) == {s.dst} + Dsts(steps)
  {
    var all := [s] + steps;
    assert all[0] == s;
    forall x | x in Dsts(all)
      ensures x in {s.dst} + Dsts(steps)
    {
      var k :| 0 <= k < |all| && all[k].dst == x;
      if k > 0 {
        assert steps[k - 1].dst == x;
      }
    }
    forall x | x in Dsts(steps)
      ensures x in Dsts(all)
    {
      var k :| 0 <= k < |steps| && steps[k].dst == x;
      assert all[k + 1].dst == x;
    }
  }

  /** The statements one after the other, stopping at the first that fails. */
  function Apply(f: Frame, steps: seq<Step>, parse: string -> Option<Date>): (r: Result<Frame, Error>)
    ensures r.Ok? ==> r.value.columns == f.columns + Dsts(steps)
    ensures r.Ok? ==> |r.value.rows| == |f.rows| && KeysOf(r.value.rows) == KeysOf(f.rows)
    ensures r.Ok? && Shaped(f) ==> Shaped(r.value)
    decreases |steps|
  {
    if steps == [] then Ok(f)
    else
      var g :- Derive(f, steps[0], parse);
      DstsCons(steps[0], steps[1..]);
      assert [steps[0]] + steps[1..] == steps;
      Apply(g, steps[1..], parse)
  }

  /** A statement whose source column is missing, and not written by an earlier statement,
      makes the sequence fail. */
  lemma {:induction false} ApplyNeeds(f: Frame, steps: seq<Step>, parse: string -> Option<Date>, k: nat)
    requires k < |steps| && steps[k].src !in f.columns
    requires forall j | 0 <= j < k :: steps[j].dst != steps[k].src
    ensures Apply(f, steps, parse).Err?
    decreases k
  {
    if k > 0 {
      var g := Derive(f, steps[0], parse);
      if g.Ok? {
        assert steps[1..][k - 1] == steps[k];
        ApplyNeeds(g.value, steps[1..], parse, k - 1);
      }
    }
  }

  /** A column no statement writes keeps its cells. */
  lemma {:induction false} ApplyKeeps(f: Frame, steps: seq<Step>, parse: string -> Option<Date>, c: string)
    requires c !in Dsts(steps)
    requires Apply(f, steps, parse).Ok?
    ensures forall i | 0 <= i < |f.rows| :: Get(Apply(f, steps, parse).value.rows[i].cells, c) == Get(f.rows[i].cells, c)
    decreases |steps|
  {
    if steps != [] {
      var g := Derive(f, steps[0], parse).value;
      DstsCons(steps[0], steps[1..]);
      assert [steps[0]] + steps[1..] == steps;
      ApplyKeeps(g, steps[1..], parse, c);
    }
  }

  /** In every row, every column of `cs` satisfies the invariant `Inv` stated for it. */
  ghost predicate Holds(f: Frame, cs: set<string>, Inv: (string, Cell) -> bool) {
    forall c, i | c in cs && 0 <= i < |f.rows| :: Inv(c, Get(f.rows[i].cells, c))
  }

  /** Statement `s` assigns a value satisfying `Inv` for its column in any row whose columns of
      `cs` satisfy theirs. */
  ghost predicate Keeps(s: Step, parse: string -> Option<Date>, Inv: (string, Cell) -> bool, cs: set<string>) {
    forall m: map<string, Cell> | (forall c | c in cs :: Inv(c, Get(m, c))) && Eval(s, parse, m).Ok? ::
      Inv(s.dst, Eval(s, parse, m).value)
  }

  /** Column invariants survive a sequence of statements in which each statement keeps the
      invariant of what it writes, given the columns established before it. */
  lemma {:induction false} ApplyHolds(f: Frame, steps: seq<Step>, parse: string -> Option<Date>,
                                      Inv: (string, Cell) -> bool, cs: set<string>)
    requires Apply(f, steps, parse).Ok?
    requires Holds(f, cs, Inv)
    requires forall k | 0 <= k < |steps| :: Keeps(steps[k], parse, Inv, cs + Dsts(steps[..k]))
    ensures Holds(Apply(f, steps, parse).value, cs + Dsts(steps), Inv)
    decreases |steps|
  {
    if steps == [] {
      assert Dsts(steps) == {};
    } else {
      var s := steps[0];
      var g := Derive(f, s, parse).value;
      assert steps[..0] == [];
      assert Dsts(steps[..0]) == {};
      DeriveHolds(f, s, parse, Inv, cs);
      KeepsShift(steps, parse, Inv, cs);
      ApplyHolds(g, steps[1..], parse, Inv, cs + {s.dst});
      HoldsUnfold(f, steps, parse, Inv, cs);
    }
  }

  /** What holds after the first statement and then the rest holds after all of them. */
  lemma HoldsUnfold(f: Frame, steps: seq<Step>, parse: string -> Option<Date>, Inv: (string, Cell) -> bool, cs: set<string>)
    requires steps != [] && Apply(f, steps, parse).Ok?
    requires Derive(f, steps[0], parse).Ok?
    requires Apply(Derive(f, steps[0], parse).value, steps[1..], parse).Ok?
    requires Holds(Apply(Derive(f, steps[0], parse).value, steps[1..], parse).value, cs + {steps[0].dst} + Dsts(steps[1..]), Inv)
    ensures Holds(Apply(f, steps, parse).value, cs + Dsts(steps), Inv)
  {
    assert Apply(f, steps, parse) == Apply(Derive(f, steps[0], parse).value, steps[1..], parse);
    DstsCons(steps[0], steps[1..]);
    assert [steps[0]] + steps[1..] == steps;
    assert cs + {steps[0].dst} + Dsts(steps[1..]) == cs + Dsts(steps);
  }

  /** One statement that keeps its column's invariant extends the columns that hold. */
  lemma DeriveHolds(f: Frame, s: Step, parse: string -> Option<Date>, Inv: (string, Cell) -> bool, cs: set<string>)
    requires Derive(f, s, parse).Ok? && Holds(f, cs, Inv) && Keeps(s, parse, Inv, cs)
    ensures Holds(Derive(f, s, parse).value, cs + {s.dst}, Inv)
  {
    var g := Derive(f, s, parse).value;
    forall c, i | c in cs + {s.dst} && 0 <= i < |g.rows|
      ensures Inv(c, Get(g.rows[i].cells, c))
    {
      var m := f.rows[i].cells;
      assert forall c' | c' in cs :: Inv(c', Get(m, c'));
      if c != s.dst {
        assert Get(g.rows[i].cells, c) == Get(m, c);
      }
    }
  }

  /** What the statements after the first keep, counted from the columns the first adds. */
  lemma KeepsShift(steps: seq<Step>, parse: string -> Option<Date>, Inv: (string, Cell) -> bool, cs: set<string>)
    requires steps != []
    requires forall k | 0 <= k < |steps| :: Keeps(steps[k], parse, Inv, cs + Dsts(steps[..k]))
    ensures forall k | 0 <= k < |steps| - 1 :: Keeps(steps[1..][k], parse, Inv, cs + {steps[0].dst} + Dsts(steps[1..][..k]))
  {
    var s := steps[0];
    var rest := steps[1..];
    forall k | 0 <= k < |rest|
      ensures Keeps(rest[k], parse, Inv, cs + {s.dst} + Dsts(rest[..k]))
    {
      assert rest[k] == steps[k + 1];
      assert steps[..k + 1] == [s] + rest[..k];
      DstsCons(s, rest[..k]);
      assert cs + {s.dst} + Dsts(rest[..k]) == cs + Dsts(steps[..k + 1]);
    }
  }

  /** Statements `k` onwards applied to one row on its own. */
  function RowFold(m: map<string, Cell>, steps: seq<Step>, parse: string -> Option<Date>, k: nat): Result<map<string, Cell>, Error>
    requires k <= |steps|
    decreases |steps| - k
  {
    if k == |steps| then Ok(m)
    else
      var v :- Eval(steps[k], parse, m);
      RowFold(m[steps[k].dst := v], steps, parse, k + 1)
  }

  /** One statement of a row fold taken on its own. */
  lemma RowFoldStep(m: map<string, Cell>, steps: seq<Step>, parse: string -> Option<Date>, k: nat, s: Step, v: Cell)
    requires k < |steps| && steps[k] == s && Eval(s, parse, m) == Ok(v)
    ensures RowFold(m, steps, parse, k) == RowFold(m[s.dst := v], steps, parse, k + 1)
  {
  }

  /** Each row of the result is what the statements make of that row alone: no statement
      looks at another row. */
  lemma {:induction false} ApplyIsRowFold(f: Frame, steps: seq<Step>, parse: string -> Option<Date>, k: nat, i: nat)
    requires k <= |steps| && Apply(f, steps[k..], parse).Ok? && i < |f.rows|
    ensures RowFold(f.rows[i].cells, steps, parse, k) == Ok(Apply(f, steps[k..], parse).value.rows[i].cells)
    decreases |steps| - k
  {
    if k < |steps| {
      assert steps[k..][0] == steps[k] && steps[k..][1..] == steps[k + 1..];
      var g := Derive(f, steps[k], parse).value;
      ApplyIsRowFold(g, steps, parse, k + 1, i);
    }
  }

  /** Running two lists of statements is running their concatenation. */
  lemma {:induction false} ApplySplit(f: Frame, a: seq<Step>, b: seq<Step>, parse: string -> Option<Date>)
    ensures Apply(f, a + b, parse)
         == (if Apply(f, a, parse).Ok? then Apply(Apply(f, a, parse).value, b, parse) else Apply(f, a, parse))
    decreases |a|
  {
    if a == [] {
      assert a + b == b;
    } else {
      assert (a + b)[0] == a[0] && (a + b)[1..] == a[1..] + b;
      var g := Derive(f, a[0], parse);
      if g.Ok? {
        ApplySplit(g.value, a[1..], b, parse);
      }
    }
  }

  /** Every statement but the hybrid override reads only its source column. */
  lemma EvalLocal(s: Step, parse: string -> Option<Date>, m: map<string, Cell>, m': map<string, Cell>)
    requires !s.op.HybridOp? && Get(m, s.src) == Get(m', s.src)
    ensures Eval(s, parse, m) == Eval(s, parse, m')
  {
  }

  /** A column no statement from `k` on writes keeps its value. */
  lemma {:induction false} RowFoldUntouched(m: map<string, Cell>, steps: seq<Step>, parse: string -> Option<Date>, k: nat, c: string)
    requires k <= |steps| && RowFold(m, steps, parse, k).Ok?
    requires forall l | k <= l < |steps| :: steps[l].dst != c
    ensures Get(RowFold(m, steps, parse, k).value, c) == Get(m, c)
    decreases |steps| - k
  {
    if k < |steps| {
      var v := Eval(steps[k], parse, m).value;
      RowFoldUntouched(m[steps[k].dst := v], steps, parse, k + 1, c);
    }
  }

  /** Statement `j` reads its source as the row held it before statement `k`, and nothing after
      it overwrites its result. */
  ghost predicate ReadsOriginal(steps: seq<Step>, k: nat, j: nat) {
    k <= j < |steps| && !steps[j].op.HybridOp?
    && (forall l | k <= l < j :: steps[l].dst != steps[j].src)
    && (forall l | j < l < |steps| :: steps[l].dst != steps[j].dst)
  }

  /** Such a statement's column ends up holding what the statement makes of the row as it was
      before statement `k`. */
  lemma {:induction false} RowFoldReads(m: map<string, Cell>, steps: seq<Step>, parse: string -> Option<Date>, k: nat, j: nat)
    requires ReadsOriginal(steps, k, j) && RowFold(m, steps, parse, k).Ok?
    ensures Eval(steps[j], parse, m).Ok?
    ensures Get(RowFold(m, steps, parse, k).value, steps[j].dst) == Eval(steps[j], parse, m).value
    decreases j - k
  {
    var v := Eval(steps[k], parse, m).value;
    var m' := m[steps[k].dst := v];
    if k == j {
      RowFoldUntouched(m', steps, parse, k + 1, steps[j].dst);
    } else {
      EvalLocal(steps[j], parse, m, m');
      RowFoldReads(m', steps, parse, k + 1, j);
    }
  }

  /* ---------- extract_text_data ---------- */

  const CombColumn := "Consumo_comb_L100km"
  const UrbColumn := "Consumo_urb_L100km"
  const ExtraurbColumn := "Consumo_extraurb_L100km"

  /** The columns read as whole numbers. */
  const IntColumns: set<string> := {
    "Chilometraggio", "Prezzo_auto", "price", "Acconto", "Cilindrata_cm3", "potenza_kw", "potenza_cv",
    "Peso_a_vuoto_kg", "Emissioni_CO2_gKm", "garanzia_mesi"
  }

  const ConsumptionColumns: set<string> := {CombColumn, UrbColumn, ExtraurbColumn}

  /** The statements of `extract_text_data`, in source order. */
  const ExtractSteps: seq<Step> := [
    Step("Anno", "Anno", AnnoOp),
    Step("Chilometraggio", "Chilometraggio", IntOp(Mileage, true)),
    Step("Prezzo_auto", "Prezzo_auto", IntOp(Price, true)),
    Step("price", "price", IntOp(Price, true)),
    Step("Acconto", "Acconto", IntOp(Price, true)),
    Step("Cilindrata_cm3", "Cilindrata_cm3", IntOp(Displacement, true)),
    Step(Potenza, "potenza_kw", IntOp(PowerKw, true)),
    Step(Potenza, "potenza_cv", IntOp(PowerCv, true)),
    Step("Peso_a_vuoto_kg", "Peso_a_vuoto_kg", IntOp(Weight, true)),
    Step("Emissioni_CO2_gKm", "Emissioni_CO2_gKm", IntOp(Emissions, true)),
    Step("garanzia_mesi", "garanzia_mesi", IntOp(Warranty, false)),
    Step(Consumption, CombColumn, ConsumptionOp(Comb)),
    Step(Consumption, UrbColumn, ConsumptionOp(Urb)),
    Step(Consumption, ExtraurbColumn, ConsumptionOp(Extraurb))
  ]

  /** `extract_text_data`: adds its fourteen result columns, keeps the rows and their keys, and
      fails when the frame lacks `Potenza` or the consumption text. */
  function ExtractTextData(f: Frame, parse: string -> Option<Date>): (r: Result<Frame, Error>)
    ensures r.Ok? ==> r.value.columns == f.columns + IntColumns + ConsumptionColumns + {"Anno"}
    ensures r.Ok? ==> |r.value.rows| == |f.rows| && KeysOf(r.value.rows) == KeysOf(f.rows)
    ensures r.Ok? && Shaped(f) ==> Shaped(r.value)
    ensures Potenza !in f.columns || Consumption !in f.columns ==> r.Err?
  {
    ExtractDsts();
    ExtractNeeds(f, parse);
    Apply(f, ExtractSteps, parse)
  }

  predicate IsDate(c: Cell) {
    c.Missing? || c.Stamp?
  }

  predicate IsCount(c: Cell) {
    c.Missing? || (c.Num? && 0.0 <= c.x && c.x == c.x.Floor as real)
  }

  predicate IsMeasured(c: Cell) {
    c.Missing? || (c.Num? && 0.0 <= c.x)
  }

  /** What each extracted column holds. */
  predicate Extracted(c: string, x: Cell) {
    && (c == "Anno" ==> IsDate(x))
    && (c in IntColumns ==> IsCount(x))
    && (c in ConsumptionColumns ==> IsMeasured(x))
  }

  lemma ExtractDsts()
    ensures Dsts(ExtractSteps) == IntColumns + ConsumptionColumns + {"Anno"}
  {
    var s := ExtractSteps;
    assert s[0].dst == "Anno" && s[1].dst == "Chilometraggio" && s[2].dst == "Prezzo_auto";
    assert s[3].dst == "price" && s[4].dst == "Acconto" && s[5].dst == "Cilindrata_cm3";
    assert s[6].dst == "potenza_kw" && s[7].dst == "potenza_cv" && s[8].dst == "Peso_a_vuoto_kg";
    assert s[9].dst == "Emissioni_CO2_gKm" && s[10].dst == "garanzia_mesi";
    assert s[11].dst == CombColumn && s[12].dst == UrbColumn && s[13].dst == ExtraurbColumn;
  }

  /** The extracted column names are told apart by their invariants. */
  lemma ExtractedKinds()
    ensures "Anno" !in IntColumns && "Anno" !in ConsumptionColumns
    ensures forall c | c in IntColumns :: c !in ConsumptionColumns
  {
  }

  lemma ExtractStepKeeps(k: nat, parse: string -> Option<Date>, cs: set<string>)
    requires k < |ExtractSteps|
    ensures Keeps(ExtractSteps[k], parse, Extracted, cs)
  {
    var s := ExtractSteps[k];
    ExtractedKinds();
    ExtractDsts();
    assert s.dst in Dsts(ExtractSteps);
    forall m: map<string, Cell> | Eval(s, parse, m).Ok?
      ensures Extracted(s.dst, Eval(s, parse, m).value)
    {
      if k == 0 {
        assert s.dst == "Anno";
      } else if k <= 10 {
        assert s.op.IntOp? && s.dst in IntColumns;
      } else {
        assert s.op.ConsumptionOp? && s.dst in ConsumptionColumns;
      }
    }
  }

  /** The statements reading `Potenza` and the consumption text, and nothing before them
      writing those columns. */
  lemma ExtractReads()
    ensures ExtractSteps[6].src == Potenza && forall j | 0 <= j < 6 :: ExtractSteps[j].dst != Potenza
    ensures ExtractSteps[11].src == Consumption && forall j | 0 <= j < 11 :: ExtractSteps[j].dst != Consumption
  {
  }

  lemma ExtractReadsOriginal()
    ensures forall j | 0 <= j < |ExtractSteps| :: ReadsOriginal(ExtractSteps, 0, j)
  {
  }

  /** The statements reading `Potenza` and the consumption text raise when the column is absent:
      no earlier statement writes it. */
  lemma ExtractNeeds(f: Frame, parse: string -> Option<Date>)
    ensures Potenza !in f.columns ==> Apply(f, ExtractSteps, parse).Err?
    ensures Consumption !in f.columns ==> Apply(f, ExtractSteps, parse).Err?
  {
    ExtractReads();
    if Potenza !in f.columns {
      ApplyNeeds(f, ExtractSteps, parse, 6);
    }
    if Consumption !in f.columns {
      ApplyNeeds(f, ExtractSteps, parse, 11);
    }
  }

  /** Each extracted cell is what its extractor makes of the row's ORIGINAL text: no statement
      of `extract_text_data` reads a column an earlier one rewrote, and none is overwritten. */
  lemma ExtractTextDataRows(f: Frame, parse: string -> Option<Date>, i: nat, j: nat)
    requires ExtractTextData(f, parse).Ok? && i < |f.rows| && j < |ExtractSteps|
    ensures Eval(ExtractSteps[j], parse, f.rows[i].cells).Ok?
    ensures Get(ExtractTextData(f, parse).value.rows[i].cells, ExtractSteps[j].dst)
         == Eval(ExtractSteps[j], parse, f.rows[i].cells).value
  {
    assert ExtractSteps[0..] == ExtractSteps;
    ApplyIsRowFold(f, ExtractSteps, parse, 0, i);
    ExtractReadsOriginal();
    RowFoldReads(f.rows[i].cells, ExtractSteps, parse, 0, j);
  }

  /** Both power columns are read from the same `Potenza` text, one in kW and one in CV. */
  lemma ExtractPower(f: Frame, parse: string -> Option<Date>, i: nat)
    requires ExtractTextData(f, parse).Ok? && i < |f.rows|
    ensures IntField("potenza_kw", PowerKw, true, Get(f.rows[i].cells, Potenza)).Ok?
    ensures IntField("potenza_cv", PowerCv, true, Get(f.rows[i].cells, Potenza)).Ok?
    ensures Get(ExtractTextData(f, parse).value.rows[i].cells, "potenza_kw")
         == IntField("potenza_kw", PowerKw, true, Get(f.rows[i].cells, Potenza)).value
    ensures Get(ExtractTextData(f, parse).value.rows[i].cells, "potenza_cv")
         == IntField("potenza_cv", PowerCv, true, Get(f.rows[i].cells, Potenza)).value
  {
    var m := f.rows[i].cells;
    PowerSteps();
    EvalInt(ExtractSteps[6], parse, m);
    EvalInt(ExtractSteps[7], parse, m);
    ExtractTextDataRows(f, parse, i, 6);
    ExtractTextDataRows(f, parse, i, 7);
  }

  lemma PowerSteps()
    ensures ExtractSteps[6] == Step(Potenza, "potenza_kw", IntOp(PowerKw, true))
    ensures ExtractSteps[7] == Step(Potenza, "potenza_cv", IntOp(PowerCv, true))
  {
  }

  /** An integer extraction reads its source column through `IntField`. */
  lemma EvalInt(s: Step, parse: string -> Option<Date>, m: map<string, Cell>)
    requires s.op.IntOp?
    ensures Eval(s, parse, m) == IntField(s.dst, s.op.u, s.op.dropDots, Get(m, s.src))
  {
  }

  /** All three readings are read from the same consumption text. */
  lemma ExtractReadings(f: Frame, parse: string -> Option<Date>, i: nat)
    requires ExtractTextData(f, parse).Ok? && i < |f.rows|
    ensures Get(ExtractTextData(f, parse).value.rows[i].cells, CombColumn)
         == ConsumptionField(Comb, Get(f.rows[i].cells, Consumption))
    ensures Get(ExtractTextData(f, parse).value.rows[i].cells, UrbColumn)
         == ConsumptionField(Urb, Get(f.rows[i].cells, Consumption))
    ensures Get(ExtractTextData(f, parse).value.rows[i].cells, ExtraurbColumn)
         == ConsumptionField(Extraurb, Get(f.rows[i].cells, Consumption))
  {
    ExtractTextDataRows(f, parse, i, 11);
    ExtractTextDataRows(f, parse, i, 12);
    ExtractTextDataRows(f, parse, i, 13);
  }

  /** Each extracted column holds what its extractor can produce: a month and year, a
      nonnegative whole number or a nonnegative reading, each possibly Missing. */
  lemma ExtractTextDataValues(f: Frame, parse: string -> Option<Date>)
    requires ExtractTextData(f, parse).Ok?
    ensures Holds(ExtractTextData(f, parse).value, Dsts(ExtractSteps), Extracted)
  {
    forall k | 0 <= k < |ExtractSteps|
      ensures Keeps(ExtractSteps[k], parse, Extracted, {} + Dsts(ExtractSteps[..k]))
    {
      ExtractStepKeeps(k, parse, {} + Dsts(ExtractSteps[..k]));
    }
    ApplyHolds(f, ExtractSteps, parse, Extracted, {});
    assert {} + Dsts(ExtractSteps) == Dsts(ExtractSteps);
  }

  /* ---------- replace_values ---------- */

  /** The statements of `replace_values`, in source order. */
  const ReplaceSteps: seq<Step> := [
    Step(CombColumn, CombColumn, CutoffOp),
    Step(UrbColumn, UrbColumn, CutoffOp),
    Step(ExtraurbColumn, ExtraurbColumn, CutoffOp),
    Step("Carburante", "Carburante", FuelOp),
    Step(OtherEnergy, "Carburante", HybridOp),
    Step("Carrozzeria", "Carrozzeria", BodyOp),
    Step("Tagliandi_certificati", "Tagliandi_certificati", ServiceOp),
    Step("unico_proprietario", "unico_proprietario", OwnerOp),
    Step("Trazione", "Trazione", DriveOp)
  ]

  /** `replace_values`: writes only its eight columns, keeps the rows and their keys, and fails
      when the other-energy column is missing. */
  function ReplaceValues(f: Frame): (r: Result<Frame, Error>)
    ensures r.Ok? ==>
      r.value.columns == f.columns + ConsumptionColumns + {"Carburante", "Carrozzeria", "Tagliandi_certificati", "unico_proprietario", "Trazione"}
    ensures r.Ok? ==> |r.value.rows| == |f.rows| && KeysOf(r.value.rows) == KeysOf(f.rows)
    ensures r.Ok? && Shaped(f) ==> Shaped(r.value)
    ensures OtherEnergy !in f.columns ==> r.Err?
  {
    ReplaceDsts();
    ReplaceNeeds(f);
    Apply(f, ReplaceSteps, NoParse)
  }

  predicate IsFuel(c: Cell) {
    c.Text? && (c.s in FuelLabels || c.s == "Ibrida")
  }

  predicate IsBody(c: Cell) {
    c.Text? && c.s in BodyLabels
  }

  /** No reading below a tenth. */
  predicate NoSmall(c: Cell) {
    !(c.Num? && c.x < 0.1)
  }

  /** What each replaced column holds. */
  predicate Replaced(c: string, x: Cell) {
    && (c == "Carburante" ==> IsFuel(x))
    && (c == "Carrozzeria" ==> IsBody(x))
    && (c == "Tagliandi_certificati" || c == "unico_proprietario" ==> x.Flag?)
    && (c in ConsumptionColumns ==> NoSmall(x))
  }

  lemma ReplaceDsts()
    ensures Dsts(ReplaceSteps) == ConsumptionColumns + {"Carburante", "Carrozzeria", "Tagliandi_certificati", "unico_proprietario", "Trazione"}
  {
    var s := ReplaceSteps;
    assert s[0].dst == CombColumn && s[1].dst == UrbColumn && s[2].dst == ExtraurbColumn;
    assert s[3].dst == "Carburante" && s[4].dst == "Carburante" && s[5].dst == "Carrozzeria";
    assert s[6].dst == "Tagliandi_certificati" && s[7].dst == "unico_proprietario" && s[8].dst == "Trazione";
  }

  lemma ReplaceStepKeeps(k: nat, parse: string -> Option<Date>)
    requires k < |ReplaceSteps|
    ensures Keeps(ReplaceSteps[k], parse, Replaced, {} + Dsts(ReplaceSteps[..k]))
  {
    var s := ReplaceSteps[k];
    var cs := {} + Dsts(ReplaceSteps[..k]);
    forall m: map<string, Cell> | (forall c | c in cs :: Replaced(c, Get(m, c))) && Eval(s, parse, m).Ok?
      ensures Replaced(s.dst, Eval(s, parse, m).value)
    {
      if k == 4 {
        assert ReplaceSteps[..k][3].dst == "Carburante";
        assert "Carburante" in cs;
      }
    }
  }

  const NoParse: string -> Option<Date> := _ => None

  /** The replacement statements after the cutoffs, one by one. */
  lemma ReplaceStepsAt()
    ensures ReplaceSteps[3] == Step("Carburante", "Carburante", FuelOp)
    ensures ReplaceSteps[4] == Step(OtherEnergy, "Carburante", HybridOp)
    ensures ReplaceSteps[5] == Step("Carrozzeria", "Carrozzeria", BodyOp)
    ensures ReplaceSteps[6] == Step("Tagliandi_certificati", "Tagliandi_certificati", ServiceOp)
    ensures ReplaceSteps[7] == Step("unico_proprietario", "unico_proprietario", OwnerOp)
    ensures ReplaceSteps[8] == Step("Trazione", "Trazione", DriveOp)
  {
  }

  /** A cell read past an update of another column is the cell before it. */
  lemma ReadPast(m: map<string, Cell>, k: string, v: Cell, c: string)
    requires c != k
    ensures Get(m[k := v], c) == Get(m, c)
  {
  }

  /** A column other than the three readings is read as it was before the cutoffs. */
  lemma ReadingsKeep(m: map<string, Cell>, c: string)
    requires c !in ConsumptionColumns
    ensures Get(m[CombColumn := DropBelowTenth(Get(m, CombColumn))]
                 [UrbColumn := DropBelowTenth(Get(m, UrbColumn))]
                 [ExtraurbColumn := DropBelowTenth(Get(m, ExtraurbColumn))], c) == Get(m, c)
  {
  }

  /** The three consumption cutoffs on one row. */
  lemma ReplaceReadingsRow(m: map<string, Cell>)
    ensures RowFold(m, ReplaceSteps, NoParse, 0)
         == RowFold(m[CombColumn := DropBelowTenth(Get(m, CombColumn))]
                     [UrbColumn := DropBelowTenth(Get(m, UrbColumn))]
                     [ExtraurbColumn := DropBelowTenth(Get(m, ExtraurbColumn))], ReplaceSteps, NoParse, 3)
  {
    var m1 := m[CombColumn := DropBelowTenth(Get(m, CombColumn))];
    var m2 := m1[UrbColumn := DropBelowTenth(Get(m, UrbColumn))];
    RowFoldStep(m, ReplaceSteps, NoParse, 0, Step(CombColumn, CombColumn, CutoffOp), DropBelowTenth(Get(m, CombColumn)));
    ReadPast(m, CombColumn, DropBelowTenth(Get(m, CombColumn)), UrbColumn);
    RowFoldStep(m1, ReplaceSteps, NoParse, 1, Step(UrbColumn, UrbColumn, CutoffOp), DropBelowTenth(Get(m, UrbColumn)));
    ReadPast(m, CombColumn, DropBelowTenth(Get(m, CombColumn)), ExtraurbColumn);
    ReadPast(m1, UrbColumn, DropBelowTenth(Get(m, UrbColumn)), ExtraurbColumn);
    RowFoldStep(m2, ReplaceSteps, NoParse, 2, Step(ExtraurbColumn, ExtraurbColumn, CutoffOp), DropBelowTenth(Get(m, ExtraurbColumn)));
  }

  /** The fuel mapping and the hybrid override on one row, given the original fuel and
      other-energy cells. */
  lemma ReplaceFuelRow(m: map<string, Cell>, fuel: Cell, other: Cell)
    requires Get(m, "Carburante") == fuel && Get(m, OtherEnergy) == other
    ensures RowFold(m, ReplaceSteps, NoParse, 3)
         == RowFold(m["Carburante" := HybridCell(other, Text(Fuel(fuel)))], ReplaceSteps, NoParse, 5)
  {
    ReplaceStepsAt();
    var t := Text(Fuel(fuel));
    var m4 := m["Carburante" := t];
    var h := HybridCell(other, t);
    RowFoldStep(m, ReplaceSteps, NoParse, 3, Step("Carburante", "Carburante", FuelOp), t);
    ReadPast(m, "Carburante", t, OtherEnergy);
    assert Get(m4, "Carburante") == t;
    RowFoldStep(m4, ReplaceSteps, NoParse, 4, Step(OtherEnergy, "Carburante", HybridOp), h);
    Overwrite(m, "Carburante", t, h);
  }

  /** A second update of a column hides the first. */
  lemma Overwrite(m: map<string, Cell>, k: string, a: Cell, b: Cell)
    ensures m[k := a][k := b] == m[k := b]
  {
  }

  lemma ReplaceBodyRow(m: map<string, Cell>, x: Cell)
    requires Get(m, "Carrozzeria") == x
    ensures RowFold(m, ReplaceSteps, NoParse, 5)
         == RowFold(m["Carrozzeria" := Text(Body(x))], ReplaceSteps, NoParse, 6)
  {
    ReplaceStepsAt();
    RowFoldStep(m, ReplaceSteps, NoParse, 5, Step("Carrozzeria", "Carrozzeria", BodyOp), Text(Body(x)));
  }

  lemma ReplaceServiceRow(m: map<string, Cell>, x: Cell)
    requires Get(m, "Tagliandi_certificati") == x
    ensures RowFold(m, ReplaceSteps, NoParse, 6)
         == RowFold(m["Tagliandi_certificati" := Flag(x == Text("S\U{EC}"))], ReplaceSteps, NoParse, 7)
  {
    ReplaceStepsAt();
    RowFoldStep(m, ReplaceSteps, NoParse, 6, Step("Tagliandi_certificati", "Tagliandi_certificati", ServiceOp),
                Flag(x == Text("S\U{EC}")));
  }

  lemma ReplaceOwnerRow(m: map<string, Cell>, x: Cell)
    requires Get(m, "unico_proprietario") == x
    ensures RowFold(m, ReplaceSteps, NoParse, 7)
         == (var owner := OwnerCell(x);
             if owner.Ok? then RowFold(m["unico_proprietario" := owner.value], ReplaceSteps, NoParse, 8)
             else Err(owner.error))
  {
    ReplaceStepsAt();
    var owner := OwnerCell(x);
    if owner.Ok? {
      RowFoldStep(m, ReplaceSteps, NoParse, 7, ReplaceSteps[7], owner.value);
    }
  }

  lemma ReplaceDriveRow(m: map<string, Cell>, x: Cell)
    requires Get(m, "Trazione") == x
    ensures RowFold(m, ReplaceSteps, NoParse, 8) == Ok(m["Trazione" := DriveCell(x)])
  {
    ReplaceStepsAt();
    var m9 := m["Trazione" := DriveCell(x)];
    RowFoldStep(m, ReplaceSteps, NoParse, 8, Step("Trazione", "Trazione", DriveOp), DriveCell(x));
    assert RowFold(m9, ReplaceSteps, NoParse, 9) == Ok(m9);
  }

  /** The row `replace_values` makes of one row: the eight column updates in the order the
      source performs them. No statement reads a column an earlier one writes, so each new
      value is computed from the original row. The row fails only when the owner value
      cannot be compared. */
  function ReplacedRow(m: map<string, Cell>): (r: Result<map<string, Cell>, Error>)
    ensures r.Ok? <==> OwnerCell(Get(m, "unico_proprietario")).Ok?
  {
    var owner := OwnerCell(Get(m, "unico_proprietario"));
    if owner.Err? then Err(owner.error)
    else
      Ok(m[CombColumn := DropBelowTenth(Get(m, CombColumn))]
          [UrbColumn := DropBelowTenth(Get(m, UrbColumn))]
          [ExtraurbColumn := DropBelowTenth(Get(m, ExtraurbColumn))]
          ["Carburante" := HybridCell(Get(m, OtherEnergy), Text(Fuel(Get(m, "Carburante"))))]
          ["Carrozzeria" := Text(Body(Get(m, "Carrozzeria")))]
          ["Tagliandi_certificati" := Flag(Get(m, "Tagliandi_certificati") == Text("S\U{EC}"))]
          ["unico_proprietario" := owner.value]
          ["Trazione" := DriveCell(Get(m, "Trazione"))])
  }

  /** Folding the nine replacement steps over a row gives `ReplacedRow`. */
  lemma ReplaceRowFold(m: map<string, Cell>)
    ensures RowFold(m, ReplaceSteps, NoParse, 0) == ReplacedRow(m)
  {
    var m3 := m[CombColumn := DropBelowTenth(Get(m, CombColumn))]
               [UrbColumn := DropBelowTenth(Get(m, UrbColumn))]
               [ExtraurbColumn := DropBelowTenth(Get(m, ExtraurbColumn))];
    ReplaceReadingsRow(m);
    ReadingsKeep(m, "Carburante");
    ReadingsKeep(m, OtherEnergy);
    ReplaceFuelRow(m3, Get(m, "Carburante"), Get(m, OtherEnergy));
    var m5 := m3["Carburante" := HybridCell(Get(m, OtherEnergy), Text(Fuel(Get(m, "Carburante"))))];
    ReadingsKeep(m, "Carrozzeria");
    ReadPast(m3, "Carburante", m5["Carburante"], "Carrozzeria");
    ReplaceBodyRow(m5, Get(m, "Carrozzeria"));
    var m6 := m5["Carrozzeria" := Text(Body(Get(m, "Carrozzeria")))];
    ReadingsKeep(m, "Tagliandi_certificati");
    ReadPast(m3, "Carburante", m5["Carburante"], "Tagliandi_certificati");
    ReadPast(m5, "Carrozzeria", m6["Carrozzeria"], "Tagliandi_certificati");
    ReplaceServiceRow(m6, Get(m, "Tagliandi_certificati"));
    var m7 := m6["Tagliandi_certificati" := Flag(Get(m, "Tagliandi_certificati") == Text("S\U{EC}"))];
    ReadingsKeep(m, "unico_proprietario");
    ReadPast(m3, "Carburante", m5["Carburante"], "unico_proprietario");
    ReadPast(m5, "Carrozzeria", m6["Carrozzeria"], "unico_proprietario");
    ReadPast(m6, "Tagliandi_certificati", m7["Tagliandi_certificati"], "unico_proprietario");
    ReplaceOwnerRow(m7, Get(m, "unico_proprietario"));
    var owner := OwnerCell(Get(m, "unico_proprietario"));
    if owner.Ok? {
      var m8 := m7["unico_proprietario" := owner.value];
      ReadingsKeep(m, "Trazione");
      ReadPast(m3, "Carburante", m5["Carburante"], "Trazione");
      ReadPast(m5, "Carrozzeria", m6["Carrozzeria"], "Trazione");
      ReadPast(m6, "Tagliandi_certificati", m7["Tagliandi_certificati"], "Trazione");
      ReadPast(m7, "unico_proprietario", owner.value, "Trazione");
      ReplaceDriveRow(m8, Get(m, "Trazione"));
    }
  }

  lemma ReplacedComb(m: map<string, Cell>)
    requires ReplacedRow(m).Ok?
    ensures Get(ReplacedRow(m).value, CombColumn) == DropBelowTenth(Get(m, CombColumn))
  {
  }

  lemma ReplacedUrb(m: map<string, Cell>)
    requires ReplacedRow(m).Ok?
    ensures Get(ReplacedRow(m).value, UrbColumn) == DropBelowTenth(Get(m, UrbColumn))
  {
  }

  lemma ReplacedExtraurb(m: map<string, Cell>)
    requires ReplacedRow(m).Ok?
    ensures Get(ReplacedRow(m).value, ExtraurbColumn) == DropBelowTenth(Get(m, ExtraurbColumn))
  {
  }

  lemma ReplacedFuel(m: map<string, Cell>)
    requires ReplacedRow(m).Ok?
    ensures Get(ReplacedRow(m).value, "Carburante")
         == (if Get(m, OtherEnergy).Text? then Text("Ibrida") else Text(Fuel(Get(m, "Carburante"))))
  {
  }

  lemma ReplacedBody(m: map<string, Cell>)
    requires ReplacedRow(m).Ok?
    ensures Get(ReplacedRow(m).value, "Carrozzeria") == Text(Body(Get(m, "Carrozzeria")))
  {
  }

  lemma ReplacedService(m: map<string, Cell>)
    requires ReplacedRow(m).Ok?
    ensures Get(ReplacedRow(m).value, "Tagliandi_certificati") == Flag(Get(m, "Tagliandi_certificati") == Text("S\U{EC}"))
  {
  }

  lemma ReplacedOwner(m: map<string, Cell>)
    requires ReplacedRow(m).Ok?
    ensures Get(ReplacedRow(m).value, "unico_proprietario") == OwnerCell(Get(m, "unico_proprietario")).value
  {
  }

  lemma ReplacedDrive(m: map<string, Cell>)
    requires ReplacedRow(m).Ok?
    ensures Get(ReplacedRow(m).value, "Trazione") == DriveCell(Get(m, "Trazione"))
  {
  }

  /** `replace_values` on one row: the three readings lose values below a tenth, the fuel is
      `Ibrida` when the other-energy column holds any text and otherwise the category of the
      fuel text, the body is its category, the service flag says whether the text is `Sì`,
      the owner flag compares with 1.1 and the drive has `4x4` rewritten. The row fails only
      when the owner value cannot be compared. */
  lemma ReplaceRow(m: map<string, Cell>)
    ensures RowFold(m, ReplaceSteps, NoParse, 0).Ok? <==> OwnerCell(Get(m, "unico_proprietario")).Ok?
    ensures RowFold(m, ReplaceSteps, NoParse, 0).Ok? ==>
      var r := RowFold(m, ReplaceSteps, NoParse, 0).value;
      && Get(r, CombColumn) == DropBelowTenth(Get(m, CombColumn))
      && Get(r, UrbColumn) == DropBelowTenth(Get(m, UrbColumn))
      && Get(r, ExtraurbColumn) == DropBelowTenth(Get(m, ExtraurbColumn))
      && Get(r, "Carburante") == (if Get(m, OtherEnergy).Text? then Text("Ibrida") else Text(Fuel(Get(m, "Carburante"))))
      && Get(r, "Carrozzeria") == Text(Body(Get(m, "Carrozzeria")))
      && Get(r, "Tagliandi_certificati") == Flag(Get(m, "Tagliandi_certificati") == Text("S\U{EC}"))
      && Get(r, "unico_proprietario") == OwnerCell(Get(m, "unico_proprietario")).value
      && Get(r, "Trazione") == DriveCell(Get(m, "Trazione"))
  {
    ReplaceRowFold(m);
    if ReplacedRow(m).Ok? {
      ReplacedComb(m);
      ReplacedUrb(m);
      ReplacedExtraurb(m);
      ReplacedFuel(m);
      ReplacedBody(m);
      ReplacedService(m);
      ReplacedOwner(m);
      ReplacedDrive(m);
    }
  }

  /** Each row of a successful `replace_values` is `ReplacedRow` of the row it came from, so
      every row's owner value could be compared. */
  lemma ReplaceValuesRows(f: Frame, i: nat)
    requires ReplaceValues(f).Ok? && i < |f.rows|
    ensures ReplacedRow(f.rows[i].cells) == Ok(ReplaceValues(f).value.rows[i].cells)
    ensures OwnerCell(Get(f.rows[i].cells, "unico_proprietario")).Ok?
  {
    assert ReplaceSteps[0..] == ReplaceSteps;
    ApplyIsRowFold(f, ReplaceSteps, NoParse, 0, i);
    ReplaceRowFold(f.rows[i].cells);
  }

  /** Extracted columns stay as extraction left them, except that readings stay measured. */
  lemma ReplaceStepKeepsExtracted(k: nat, parse: string -> Option<Date>, cs: set<string>)
    requires k < |ReplaceSteps| && ConsumptionColumns <= cs
    ensures Keeps(ReplaceSteps[k], parse, Extracted, cs)
  {
    var s := ReplaceSteps[k];
    ExtractedKinds();
    forall m: map<string, Cell> | (forall c | c in cs :: Extracted(c, Get(m, c))) && Eval(s, parse, m).Ok?
      ensures Extracted(s.dst, Eval(s, parse, m).value)
    {
      if k < 3 {
        assert s.src == s.dst && s.dst in cs && s.dst in ConsumptionColumns;
        assert Extracted(s.dst, Get(m, s.dst));
      } else {
        assert s.dst !in ConsumptionColumns && s.dst !in IntColumns && s.dst != "Anno";
      }
    }
  }

  /** The other-energy column is read before any statement could write it. */
  lemma ReplaceNeeds(f: Frame)
    ensures OtherEnergy !in f.columns ==> Apply(f, ReplaceSteps, NoParse).Err?
  {
    var steps := ReplaceSteps;
    if OtherEnergy !in f.columns {
      assert steps[4].src == OtherEnergy;
      assert forall j | 0 <= j < 4 :: steps[j].dst != OtherEnergy;
      ApplyNeeds(f, steps, NoParse, 4);
    }
  }

  lemma ReplaceValuesValues(f: Frame, cs: set<string>)
    requires ReplaceValues(f).Ok?
    requires ConsumptionColumns <= cs && Holds(f, cs, Extracted)
    ensures Holds(ReplaceValues(f).value, Dsts(ReplaceSteps), Replaced)
    ensures Holds(ReplaceValues(f).value, cs, Extracted)
  {
    var parse := NoParse;
    forall k | 0 <= k < |ReplaceSteps|
      ensures Keeps(ReplaceSteps[k], parse, Replaced, {} + Dsts(ReplaceSteps[..k]))
    {
      ReplaceStepKeeps(k, parse);
    }
    ApplyHolds(f, ReplaceSteps, parse, Replaced, {});
    assert {} + Dsts(ReplaceSteps) == Dsts(ReplaceSteps);
    forall k | 0 <= k < |ReplaceSteps|
      ensures Keeps(ReplaceSteps[k], parse, Extracted, cs + Dsts(ReplaceSteps[..k]))
    {
      ReplaceStepKeepsExtracted(k, parse, cs + Dsts(ReplaceSteps[..k]));
    }
    ApplyHolds(f, ReplaceSteps, parse, Extracted, cs);
  }

  /* ---------- clean_data ---------- */

  /** The statement reads its column through `.str` or `pd.to_datetime`. When the label is
      repeated, `df[src]` is a frame, which has no `.str` and is not a date column, so the
      statement raises inside the `try`. */
  predicate ReadsAsSeries(s: Step) {
    s.op.AnnoOp? || s.op.IntOp? || s.op.ConsumptionOp? || s.op.HybridOp?
  }

  /** The columns read through `.str` or `pd.to_datetime`. */
  const SeriesRead: set<string> := {
    "Anno", "Chilometraggio", "Prezzo_auto", "price", "Acconto", "Cilindrata_cm3", Potenza,
    "Peso_a_vuoto_kg", "Emissioni_CO2_gKm", "garanzia_mesi", Consumption, OtherEnergy
  }

  /** The columns some statement of `steps` reads through `.str` or `pd.to_datetime`. */
  function SeriesSources(steps: seq<Step>): set<string> {
    set k | 0 <= k < |steps| && ReadsAsSeries(steps[k]) :: steps[k].src
  }

  /** `SeriesRead` is exactly what the two stages read that way. */
  lemma SeriesReadIsSources()
    ensures SeriesSources(ExtractSteps) + SeriesSources(ReplaceSteps) == SeriesRead
  {
    ExtractSeriesSources();
    ReplaceSeriesSources();
  }

  lemma ExtractSeriesSources()
    ensures SeriesSources(ExtractSteps) == SeriesRead - {OtherEnergy}
  {
    var e := ExtractSteps;
    forall c | c in SeriesRead - {OtherEnergy}
      ensures c in SeriesSources(e)
    {
      var k :=
        if c == "Anno" then 0 else if c == "Chilometraggio" then 1 else if c == "Prezzo_auto" then 2
        else if c == "price" then 3 else if c == "Acconto" then 4 else if c == "Cilindrata_cm3" then 5
        else if c == Potenza then 6 else if c == "Peso_a_vuoto_kg" then 8
        else if c == "Emissioni_CO2_gKm" then 9 else if c == "garanzia_mesi" then 10 else 11;
      assert ReadsAsSeries(e[k]) && e[k].src == c;
    }
  }

  lemma ReplaceSeriesSources()
    ensures SeriesSources(ReplaceSteps) == {OtherEnergy}
  {
    assert ReadsAsSeries(ReplaceSteps[4]);
  }

  /** The first used name that a later header also cleans to. */
  function Duplicate(names: seq<string>, used: set<string>): (r: Option<string>)
    ensures r.Some? ==> r.value in used && exists i, j :: 0 <= i < j < |names| && names[i] == r.value && names[j] == r.value
    ensures r.None? ==> forall i, j | 0 <= i < j < |names| && names[i] == names[j] :: names[i] !in used
    decreases |names|
  {
    if names == [] then None
    else if names[0] in used && names[0] in names[1..] then
      var j :| 0 <= j < |names[1..]| && names[1..][j] == names[0];
      assert names[j + 1] == names[0];
      Some(names[0])
    else
      var r := Duplicate(names[1..], used);
      if r.Some? then
        var i, j :| 0 <= i < j < |names[1..]| && names[1..][i] == r.value && names[1..][j] == r.value;
        assert names[i + 1] == r.value && names[j + 1] == r.value;
        r
      else
        assert forall i | 0 < i < |names| :: names[i] == names[1..][i - 1];
        r
  }

  /** The extraction, the replacements and the final projection of `clean_data`. */
  function Pipeline(f: Frame, parse: string -> Option<Date>): (r: Result<Frame, Error>)
    ensures r.Ok? ==> r.value.columns <= MainColumns
    ensures r.Ok? && MainColumns <= f.columns ==> r.value.columns == MainColumns
    ensures r.Ok? ==> |r.value.rows| == |f.rows| && KeysOf(r.value.rows) == KeysOf(f.rows)
    ensures r.Ok? && Shaped(f) ==> Shaped(r.value)
    ensures Potenza !in f.columns || Consumption !in f.columns || OtherEnergy !in f.columns ==> r.Err?
  {
    ReadOnlyColumns();
    var g :- ExtractTextData(f, parse);
    var h :- ReplaceValues(g);
    Ok(DropColumns(h))
  }

  /** A main column that no statement reads through `.str` appears twice. `clean_data` then
      returns a frame with a repeated column, which `pd.concat` refuses. */
  predicate KeepsTwice(b: Batch) {
    Duplicate(Names(b.header), MainColumns - SeriesRead).Some?
  }

  /** `clean_data` on a batch as read; `parse` reads the month/year of registration. When it
      succeeds the frame has exactly the canonical columns, every row a cell for each, and the
      batch's rows in order with their stripped keys. It fails when a column it reads is missing
      or a column it reads through `.str` appears twice. */
  function CleanData(b: Batch, parse: string -> Option<Date>): (r: Result<Frame, Error>)
    ensures r.Ok? ==> r.value.columns == MainColumns && Shaped(r.value)
    ensures r.Ok? ==> |r.value.rows| == |b.rows|
    ensures r.Ok? ==> forall i | 0 <= i < |b.rows| :: r.value.rows[i].key == StripKey(b.rows[i].key)
    ensures Potenza !in Elements(Names(b.header)) ==> r.Err?
    ensures Consumption !in Elements(Names(b.header)) ==> r.Err?
    ensures OtherEnergy !in Elements(Names(b.header)) ==> r.Err?
    ensures (exists i, j :: 0 <= i < j < |b.header| && Names(b.header)[i] == Names(b.header)[j] && Names(b.header)[i] in SeriesRead)
              ==> r.Err?
  {
    var dup := Duplicate(Names(b.header), SeriesRead);
    if dup.Some? then Err(DuplicateColumn(dup.value))
    else
      var f := AddMissingColumns(EditIndexColumns(b));
      ReadOnlyColumns();
      var r := Pipeline(f, parse);
      if r.Ok? then StrippedKeys(b, r.value.rows); r else r
  }

  /** The three columns the cleaner reads but does not keep. */
  lemma PowerNotMain()
    ensures Potenza !in MainColumns
  {
  }

  lemma ConsumptionNotMain()
    ensures Consumption !in MainColumns
  {
  }

  lemma OtherEnergyNotMain()
    ensures OtherEnergy !in MainColumns
  {
  }

  lemma OtherEnergyNotExtracted()
    ensures OtherEnergy !in Dsts(ExtractSteps)
  {
    assert forall k | 0 <= k < |ExtractSteps| :: ExtractSteps[k].dst != OtherEnergy;
  }

  lemma ReadOnlyColumns()
    ensures Potenza !in MainColumns && Consumption !in MainColumns && OtherEnergy !in MainColumns
    ensures OtherEnergy !in Dsts(ExtractSteps)
  {
    PowerNotMain();
    ConsumptionNotMain();
    OtherEnergyNotMain();
    OtherEnergyNotExtracted();
  }

  /** A batch that passes the duplicate check goes through the pipeline. */
  lemma CleanDataIsPipeline(b: Batch, parse: string -> Option<Date>)
    requires CleanData(b, parse).Ok?
    ensures CleanData(b, parse) == Pipeline(AddMissingColumns(EditIndexColumns(b)), parse)
  {
  }

  /** Rows with the keys of the edited batch carry the batch's stripped keys. */
  lemma StrippedKeys(b: Batch, rows: seq<Row>)
    requires KeysOf(rows) == KeysOf(EditIndexColumns(b).rows)
    ensures |rows| == |b.rows|
    ensures forall i | 0 <= i < |b.rows| :: rows[i].key == StripKey(b.rows[i].key)
  {
    var e := EditIndexColumns(b);
    assert |KeysOf(rows)| == |KeysOf(e.rows)|;
    forall i | 0 <= i < |b.rows|
      ensures rows[i].key == StripKey(b.rows[i].key)
    {
      assert KeysOf(rows)[i] == KeysOf(e.rows)[i];
    }
  }

  /** What every cleaned column holds. */
  predicate Cleaned(c: string, x: Cell) {
    Extracted(c, x) && Replaced(c, x)
  }

  /** The extracted and replaced columns are all canonical. */
  lemma DstsAreMain()
    ensures Dsts(ExtractSteps) <= MainColumns && Dsts(ReplaceSteps) <= MainColumns
  {
    ExtractDsts();
    ReplaceDsts();
  }

  /** Outside the columns its statements write, each invariant says nothing. */
  lemma InvariantsOutside(c: string, x: Cell)
    ensures c !in Dsts(ExtractSteps) ==> Extracted(c, x)
    ensures c !in Dsts(ReplaceSteps) ==> Replaced(c, x)
  {
    ExtractDsts();
    ReplaceDsts();
  }

  /** The two invariants together hold of every column. */
  lemma CombineInvariants(h: Frame, cs: set<string>)
    requires Holds(h, Dsts(ExtractSteps), Extracted) && Holds(h, Dsts(ReplaceSteps), Replaced)
    ensures Holds(h, cs, Cleaned)
  {
    forall c, i | c in cs && 0 <= i < |h.rows|
      ensures Cleaned(c, Get(h.rows[i].cells, c))
    {
      InvariantsOutside(c, Get(h.rows[i].cells, c));
    }
  }

  /** Dropping the other columns keeps what held of the canonical ones. */
  lemma DropKeepsHolds(h: Frame, Inv: (string, Cell) -> bool)
    requires Holds(h, MainColumns, Inv)
    ensures Holds(DropColumns(h), MainColumns, Inv)
  {
    var r := DropColumns(h);
    forall c, i | c in MainColumns && 0 <= i < |r.rows|
      ensures Inv(c, Get(r.rows[i].cells, c))
    {
      assert Get(r.rows[i].cells, c) == Get(h.rows[i].cells, c);
    }
  }

  /** Every cleaned cell holds what the cleaning promises for its column: a month and year,
      nonnegative whole numbers, readings of at least a tenth, the fixed fuel and body
      categories, and booleans. */
  lemma CleanDataValues(b: Batch, parse: string -> Option<Date>)
    requires CleanData(b, parse).Ok?
    ensures Holds(CleanData(b, parse).value, MainColumns, Cleaned)
  {
    CleanDataIsPipeline(b, parse);
    PipelineValues(AddMissingColumns(EditIndexColumns(b)), parse);
  }

  lemma PipelineValues(f: Frame, parse: string -> Option<Date>)
    requires Pipeline(f, parse).Ok?
    ensures Holds(Pipeline(f, parse).value, MainColumns, Cleaned)
  {
    var g := ExtractTextData(f, parse).value;
    var h := ReplaceValues(g).value;
    ExtractTextDataValues(f, parse);
    assert ConsumptionColumns <= Dsts(ExtractSteps) by { ExtractDsts(); }
    ReplaceValuesValues(g, Dsts(ExtractSteps));
    CombineInvariants(h, MainColumns);
    DropKeepsHolds(h, Cleaned);
  }

  /** A cleaned reading is Missing or at least a tenth. */
  lemma CleanedReading(c: string, x: Cell)
    requires c in ConsumptionColumns && Cleaned(c, x)
    ensures x.Missing? || (x.Num? && x.x >= 0.1)
  {
  }
}
