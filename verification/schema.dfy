/** `add_missing_columns` and `drop_columns`: together they bring a frame to exactly the
    canonical schema. */
module Schema {
  import opened Table

  /** The canonical columns the frame lacks, each filled with None in every row. */
  function AddMissingColumns(f: Frame): (r: Frame)
    ensures r.columns == f.columns + MainColumns
    ensures |r.rows| == |f.rows| && KeysOf(r.rows) == KeysOf(f.rows)
    ensures Shaped(f) ==> Shaped(r)
    ensures forall i, c | 0 <= i < |f.rows| && c in f.rows[i].cells && c in f.columns ::
              c in r.rows[i].cells && r.rows[i].cells[c] == f.rows[i].cells[c]
    ensures forall i, c | 0 <= i < |f.rows| && c in MainColumns && c !in f.columns ::
              c in r.rows[i].cells && r.rows[i].cells[c] == Missing
  {
    var fill := map c | c in MainColumns && c !in f.columns :: Missing;
    Frame(f.columns + MainColumns,
          seq(|f.rows|, i requires 0 <= i < |f.rows| => Row(f.rows[i].key, f.rows[i].cells + fill)))
  }

  /** Every column outside the canonical schema is dropped. */
  function DropColumns(f: Frame): (r: Frame)
    ensures r.columns == f.columns * MainColumns
    ensures |r.rows| == |f.rows| && KeysOf(r.rows) == KeysOf(f.rows)
    ensures Shaped(f) ==> Shaped(r)
    ensures forall i | 0 <= i < |f.rows| :: r.rows[i].cells.Keys == f.rows[i].cells.Keys * MainColumns
    ensures forall i, c | 0 <= i < |f.rows| && c in f.rows[i].cells && c in MainColumns ::
              c in r.rows[i].cells && r.rows[i].cells[c] == f.rows[i].cells[c]
  {
    Frame(f.columns * MainColumns,
          seq(|f.rows|, i requires 0 <= i < |f.rows| =>
            Row(f.rows[i].key, map c | c in f.rows[i].cells && c in MainColumns :: f.rows[i].cells[c])))
  }

  /** Adding the missing columns and then dropping the extra ones leaves exactly the canonical
      schema, whatever the frame held: each canonical cell is the frame's own where it had the
      column and Missing where it did not. */
  lemma ProjectOntoMain(f: Frame)
    requires Shaped(f)
    ensures DropColumns(AddMissingColumns(f)).columns == MainColumns
    ensures Shaped(DropColumns(AddMissingColumns(f)))
    ensures KeysOf(DropColumns(AddMissingColumns(f)).rows) == KeysOf(f.rows)
    ensures forall i, c | 0 <= i < |f.rows| && c in MainColumns ::
              DropColumns(AddMissingColumns(f)).rows[i].cells[c] == Get(f.rows[i].cells, c)
  {
    var g := AddMissingColumns(f);
    var h := DropColumns(g);
    forall i, c | 0 <= i < |f.rows| && c in MainColumns
      ensures h.rows[i].cells[c] == Get(f.rows[i].cells, c)
    {
      assert f.rows[i].cells.Keys == f.columns;
      assert c in g.rows[i].cells;
    }
  }
}
