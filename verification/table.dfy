/** The tables the cleaner works on. A batch is what reading one scraped CSV file yields:
    its header in file order and one row per listing, keyed by the listing's URL path. A
    frame is a batch after its headers were normalised: a set of column names and rows whose
    cells are keyed by those names. Column order is not modelled. */
module Table {

  /** Month and year of first registration, as parsed from the `Anno` field. */
  datatype Date = Date(month: nat, year: nat)

  /** One value of a table: Missing stands for pandas' None, NaN and NaT alike. Text and Num
      are what the CSV reader produces; Flag and Stamp appear only after cleaning. */
  datatype Cell = Missing | Text(s: string) | Num(x: real) | Flag(b: bool) | Stamp(d: Date)

  /** A row of a cleaned table: its key and one cell per column. */
  datatype Row = Row(key: string, cells: map<string, Cell>)

  /** A row as read from a batch file: the `url` index value and the values in header order;
      a short row lacks its last values. */
  datatype RawRow = RawRow(key: string, values: seq<Cell>)

  /** A batch file as `read_csv(..., index_col='url')` yields it. The reader has already made
      repeated header names distinct. */
  datatype Batch = Batch(header: seq<string>, rows: seq<RawRow>)

  datatype Frame = Frame(columns: set<string>, rows: seq<Row>)

  /** Why cleaning a batch raised. */
  datatype Error =
    | DuplicateColumn(name: string)     // a column read through `.str` appears twice
    | MissingColumn(name: string)       // KeyError on a column the cleaner reads
    | BadDate(column: string)           // `Anno` is not month/year
    | NotANumber(column: string)        // an extracted group is empty: `float('')`
    | NotComparable(column: string)     // `str < float` in the owner count

  /** The canonical schema of the accumulated dataset. */
  const MainColumns: set<string> := {
    "Acconto", "Anno", "Carburante", "Carrozzeria", "Chilometraggio", "Cilindrata_cm3", "Cilindri",
    "Colore", "Comfort", "Consumo_comb_L100km", "Consumo_extraurb_L100km", "Consumo_urb_L100km",
    "Emissioni_CO2_gKm", "Extra", "Intrattenimento__Media", "Marce", "Peso_a_vuoto_kg",
    "Porte", "Posti", "Prezzo_auto", "Sicurezza", "Tagliandi_certificati", "Tipo_di_cambio",
    "Tipo_di_veicolo", "Trazione", "city", "country", "countryCode", "date", "garanzia_mesi",
    "makeId", "maker", "model", "modelOrModelLineId", "modelVersionInput", "potenza_cv",
    "potenza_kw", "price", "street", "unico_proprietario", "zip"
  }

  /** Columns the cleaner reads although they are not part of the schema. */
  const Potenza := "Potenza"
  const Consumption := "Consumo_di_carburante_L100km"
  const OtherEnergy := "Altre_fonti_energetiche"

  /** The cell of a row under a column, Missing when the row has none. */
  function Get(cells: map<string, Cell>, c: string): Cell {
    if c in cells then cells[c] else Missing
  }

  /** Every row has a cell for exactly the frame's columns. */
  predicate Shaped(f: Frame) {
    forall i | 0 <= i < |f.rows| :: f.rows[i].cells.Keys == f.columns
  }

  function KeysOf(rows: seq<Row>): seq<string> {
    seq(|rows|, i requires 0 <= i < |rows| => rows[i].key)
  }
}
