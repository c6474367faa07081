/** `edit_index_columns`: the row keys are stripped of the characters of `/annunci/` at both
    ends, and each header is cleaned (newlines become blanks, blanks become underscores, six
    punctuation characters are deleted) and then renamed by a fixed table. */
module Headers {
  import opened Strings
  import opened Table

  /* ---------- Keys ---------- */

  /** `str.strip('/annunci/')` takes its argument as a set of characters, not as a prefix. */
  const KeyChars: set<char> := {'/', 'a', 'n', 'u', 'c', 'i'}

  /** The key of a listing: its URL path with key characters cut from both ends. */
  function StripKey(k: string): (r: string)
    ensures exists i, j :: CutsOnly(k, KeyChars, i, j) && r == k[i..j]
    ensures r != [] ==> r[0] !in KeyChars && r[|r| - 1] !in KeyChars
  {
    Strip(k, KeyChars)
  }

  lemma StripKeyIdempotent(k: string)
    ensures StripKey(StripKey(k)) == StripKey(k)
  {
    StripIdempotent(k, KeyChars);
  }

  /** The usual key, `/annunci/` followed by a slug that starts and ends outside the key
      characters, becomes the slug. */
  lemma StripListingPath(slug: string)
    requires slug != [] && slug[0] !in KeyChars && slug[|slug| - 1] !in KeyChars
    ensures StripKey("/annunci/" + slug) == slug
  {
    var k := "/annunci/" + slug;
    assert k[9..9 + |slug|] == slug;
    StripUnique(k, KeyChars, 9, |k|);
  }

  /** A slug ending in key characters loses them too: `/annunci/abc` becomes `b`. */
  lemma StripEatsSlugEnd(slug: string, tail: string)
    requires slug != [] && slug[0] !in KeyChars && slug[|slug| - 1] !in KeyChars
    requires forall x | x in tail :: x in KeyChars
    ensures StripKey("/annunci/" + slug + tail) == slug
  {
    var k := "/annunci/" + slug + tail;
    assert k[9..9 + |slug|] == slug;
    assert forall m | 9 + |slug| <= m < |k| :: k[m] == tail[m - 9 - |slug|];
    StripUnique(k, KeyChars, 9, 9 + |slug|);
  }

  /* ---------- Headers ---------- */

  /** Characters no cleaned header contains. */
  const BadChars: set<char> := {'\n', ' ', ';', '.', ',', ':', '/', '*'}

  /** The characters deleted one after the other. */
  const Deleted: seq<char> := [';', '.', ',', ':', '/', '*']

  predicate Clean(h: string) {
    forall i | 0 <= i < |h| :: h[i] !in BadChars
  }

  /** Deleting each character of `cs` in turn. */
  function DeleteAll(h: string, cs: seq<char>): (r: string)
    ensures forall x | x in r :: x in h && x !in cs
    ensures (forall k | 0 <= k < |cs| :: cs[k] !in h) ==> r == h
    decreases |cs|
  {
    if cs == [] then h
    else
      var d := DeleteChar(h, cs[0]);
      assert forall x | x in d :: x in h && x != cs[0] by {
        forall x | x in d
          ensures x in h && x != cs[0]
        {
          DeleteCharKeepsOthers(h, cs[0], x);
        }
      }
      DeleteAll(d, cs[1..])
  }

  /** The character-level part of the cleaning, before renaming. */
  function Squash(h: string): string {
    DeleteAll(ReplaceChar(ReplaceChar(h, '\n', ' '), ' ', '_'), Deleted)
  }

  /** `col_rename_dict`. */
  const RenameMap: map<string, string> := map[
    "Cilindrata" := "Cilindrata_cm3",
    "Consumo_di_carburante" := "Consumo_di_carburante_L100km",
    "Emissioni_CO\U{2082}" := "Emissioni_CO2_gKm",
    "Peso_a_vuoto" := "Peso_a_vuoto_kg",
    "Usato_garantito" := "garanzia_mesi",
    "Proprietari" := "unico_proprietario"
  ]

  /** One header through the renaming map. A new name is never itself renamed, so renaming twice
      is renaming once. */
  function Rename(h: string): (r: string)
    ensures r !in RenameMap
    ensures h !in RenameMap ==> r == h
    ensures Clean(h) ==> Clean(r)
  {
    RenameTargetsClean();
    if h in RenameMap then RenameMap[h] else h
  }

  /** One header as `edit_index_columns` leaves it. */
  function CleanHeader(h: string): (r: string)
    ensures Clean(r)
  {
    var s := Squash(h);
    assert Clean(s) by {
      forall i | 0 <= i < |s|
        ensures s[i] !in BadChars
      {
        assert s[i] in s;
      }
    }
    Rename(s)
  }

  lemma RenameTargetsClean()
    ensures forall k | k in RenameMap :: Clean(RenameMap[k]) && RenameMap[k] !in RenameMap
  {
    RenameKeys();
    TargetsClean();
  }

  lemma RenameKeys()
    ensures RenameMap.Keys == {"Cilindrata", "Consumo_di_carburante", "Emissioni_CO\U{2082}", "Peso_a_vuoto", "Usato_garantito", "Proprietari"}
  {
  }

  /** No rename target holds a character the cleaning removes. */
  lemma TargetsClean()
    ensures Clean("Cilindrata_cm3") && Clean("Consumo_di_carburante_L100km") && Clean("Emissioni_CO2_gKm") && Clean("Peso_a_vuoto_kg") && Clean("garanzia_mesi") && Clean("unico_proprietario")
  {
    TargetsClean1();
    TargetsClean2();
    TargetsClean3();
  }

  lemma TargetsClean1()
    ensures Clean("Cilindrata_cm3") && Clean("Consumo_di_carburante_L100km")
  {
  }

  lemma TargetsClean2()
    ensures Clean("Emissioni_CO2_gKm") && Clean("Peso_a_vuoto_kg")
  {
  }

  lemma TargetsClean3()
    ensures Clean("garanzia_mesi") && Clean("unico_proprietario")
  {
  }

  /** Nor does any rename key, so each passes the character-level steps unchanged. */
  lemma KeysClean()
    ensures Clean("Cilindrata") && Clean("Consumo_di_carburante") && Clean("Emissioni_CO\U{2082}") && Clean("Peso_a_vuoto") && Clean("Usato_garantito") && Clean("Proprietari")
  {
    KeysClean1();
    KeysClean2();
    KeysClean3();
  }

  lemma KeysClean1()
    ensures Clean("Cilindrata") && Clean("Consumo_di_carburante")
  {
  }

  lemma KeysClean2()
    ensures Clean("Emissioni_CO\U{2082}") && Clean("Peso_a_vuoto")
  {
  }

  lemma KeysClean3()
    ensures Clean("Usato_garantito") && Clean("Proprietari")
  {
  }

  /** What one character of a header becomes. */
  function CleanChar(c: char): string {
    if c == '\n' || c == ' ' then "_"
    else if c in Deleted then ""
    else [c]
  }

  /** The cleaning before renaming works character by character. */
  function SquashRef(h: string): string
    decreases |h|
  {
    if h == [] then [] else CleanChar(h[0]) + SquashRef(h[1..])
  }

  lemma {:induction false} DeleteAllConcat(a: string, b: string, cs: seq<char>)
    ensures DeleteAll(a + b, cs) == DeleteAll(a, cs) + DeleteAll(b, cs)
    decreases |cs|
  {
    if cs != [] {
      DeleteCharConcat(a, b, cs[0]);
      DeleteAllConcat(DeleteChar(a, cs[0]), DeleteChar(b, cs[0]), cs[1..]);
    }
  }

  lemma {:induction false} DeleteAllOne(c: char, cs: seq<char>)
    ensures DeleteAll([c], cs) == if c in cs then [] else [c]
    decreases |cs|
  {
    if cs != [] {
      if c == cs[0] {
        DeleteCharItself(c);
        assert DeleteAll([], cs[1..]) == [];
      } else {
        DeleteAllOne(c, cs[1..]);
      }
    }
  }

  lemma SquashOne(c: char)
    ensures Squash([c]) == CleanChar(c)
  {
    var c1 := if c == '\n' then ' ' else c;
    var c2 := if c1 == ' ' then '_' else c1;
    assert ReplaceChar([c], '\n', ' ') == [c1];
    assert ReplaceChar([c1], ' ', '_') == [c2];
    DeleteAllOne(c2, Deleted);
  }

  /** The chain of replacements and deletions is the per-character rewrite. */
  lemma {:induction false} SquashIsPerCharacter(h: string)
    ensures Squash(h) == SquashRef(h)
    decreases |h|
  {
    if h != [] {
      var t := h[1..];
      assert h == [h[0]] + t;
      ReplaceCharConcat([h[0]], t, '\n', ' ');
      ReplaceCharConcat(ReplaceChar([h[0]], '\n', ' '), ReplaceChar(t, '\n', ' '), ' ', '_');
      DeleteAllConcat(ReplaceChar(ReplaceChar([h[0]], '\n', ' '), ' ', '_'),
                      ReplaceChar(ReplaceChar(t, '\n', ' '), ' ', '_'), Deleted);
      SquashOne(h[0]);
      SquashIsPerCharacter(t);
    }
  }

  /** A header that is already clean passes the character-level steps unchanged. */
  lemma SquashClean(h: string)
    requires Clean(h)
    ensures Squash(h) == h
  {
    assert '\n' !in h && ' ' !in h;
    assert forall k | 0 <= k < |Deleted| :: Deleted[k] !in h;
  }

  /** Cleaning twice is cleaning once: a cleaned header is clean, and no rename target is
      itself renamed. */
  lemma CleanHeaderIdempotent(h: string)
    ensures CleanHeader(CleanHeader(h)) == CleanHeader(h)
  {
    var r := CleanHeader(h);
    SquashClean(r);
    RenameTargetsClean();
  }

  /** The six renamed headers reach their targets. */
  lemma RenameKeysReachTargets()
    ensures forall k | k in RenameMap :: CleanHeader(k) == RenameMap[k]
  {
    forall k | k in RenameMap
      ensures CleanHeader(k) == RenameMap[k]
    {
      RenameKeys();
      KeysClean();
      SquashClean(k);
      RenameTargetsClean();
    }
  }

  /* ---------- The frame ---------- */

  function Names(header: seq<string>): (ns: seq<string>)
    ensures |ns| == |header|
    ensures forall i | 0 <= i < |header| :: ns[i] == CleanHeader(header[i])
  {
    seq(|header|, i requires 0 <= i < |header| => CleanHeader(header[i]))
  }

  function Elements(ns: seq<string>): set<string> {
    set i | 0 <= i < |ns| :: ns[i]
  }

  /** The value at position `i` of a row, Missing past its end. */
  function ValueAt(values: seq<Cell>, i: nat): Cell {
    if i < |values| then values[i] else Missing
  }

  /** The cells of one row under the cleaned names; when two headers clean to the same name
      the later one is kept. */
  function Cells(names: seq<string>, values: seq<Cell>): (m: map<string, Cell>)
    ensures m.Keys == Elements(names)
    decreases |names|
  {
    if names == [] then map[]
    else
      var n := |names| - 1;
      assert Elements(names) == Elements(names[..n]) + {names[n]} by {
        forall x | x in Elements(names)
          ensures x in Elements(names[..n]) + {names[n]}
        {
          var i :| 0 <= i < |names| && names[i] == x;
          if i < n {
            assert names[..n][i] == x;
          }
        }
        forall x | x in Elements(names[..n])
          ensures x in Elements(names)
        {
          var i :| 0 <= i < n && names[..n][i] == x;
          assert names[i] == x;
        }
      }
      Cells(names[..n], values)[names[n] := ValueAt(values, n)]
  }

  /** A name that only one header cleans to holds that header's value. */
  lemma {:induction false} CellsAt(names: seq<string>, values: seq<Cell>, i: nat)
    requires i < |names|
    requires forall j | 0 <= j < |names| && j != i :: names[j] != names[i]
    ensures Cells(names, values)[names[i]] == ValueAt(values, i)
    decreases |names|
  {
    var n := |names| - 1;
    if i < n {
      CellsAt(names[..n], values, i);
    }
  }

  /** `edit_index_columns` on a batch. */
  function EditIndexColumns(b: Batch): (f: Frame)
    ensures Shaped(f)
    ensures |f.rows| == |b.rows|
    ensures forall i | 0 <= i < |b.rows| :: f.rows[i].key == StripKey(b.rows[i].key)
    ensures f.columns == Elements(Names(b.header))
    ensures forall c | c in f.columns :: Clean(c)
  {
    var ns := Names(b.header);
    Frame(Elements(ns),
          seq(|b.rows|, i requires 0 <= i < |b.rows| => Row(StripKey(b.rows[i].key), Cells(ns, b.rows[i].values))))
  }

  /** Each cleaned column of a listing holds the value read under the header it came from,
      when no other header cleans to the same name. */
  lemma EditIndexColumnsKeepsValues(b: Batch, r: nat, j: nat)
    requires r < |b.rows| && j < |b.header|
    requires forall k | 0 <= k < |b.header| && k != j :: CleanHeader(b.header[k]) != CleanHeader(b.header[j])
    ensures EditIndexColumns(b).rows[r].cells[CleanHeader(b.header[j])] == ValueAt(b.rows[r].values, j)
  {
    CellsAt(Names(b.header), b.rows[r].values, j);
  }
}
