/** The script's main loop: clean each target batch, skip the ones that raise, append the
    rest to the full dataset and record them in the ledger, then keep the first row for each
    listing URL. */
module Merge {
  import opened Results
  import opened Table
  import opened Targets
  import opened Clean

  /* ---------- index.duplicated(keep='first') ---------- */

  function KeySet(rows: seq<Row>): set<string> {
    set i | 0 <= i < |rows| :: rows[i].key
  }

  predicate UniqueKeys(rows: seq<Row>) {
    forall i, j | 0 <= i < j < |rows| :: rows[i].key != rows[j].key
  }

  /** Row `j` repeats the key of an earlier row. */
  predicate Repeats(rows: seq<Row>, j: int)
    requires 0 <= j < |rows|
  {
    exists i | 0 <= i < j :: rows[i].key == rows[j].key
  }

  /** `df[~df.index.duplicated(keep='first')]`: the rows whose key no earlier row has, in
      order. */
  function DropDuplicates(rows: seq<Row>): (r: seq<Row>)
    ensures |r| <= |rows|
    ensures forall x | x in r :: x in rows
    decreases |rows|
  {
    if rows == [] then []
    else
      var n := |rows| - 1;
      DropDuplicates(rows[..n]) + (if Repeats(rows, n) then [] else [rows[n]])
  }

  lemma RepeatsInPrefix(rows: seq<Row>, n: nat, j: nat)
    requires j < n <= |rows|
    ensures Repeats(rows[..n], j) == Repeats(rows, j)
  {
    if Repeats(rows, j) {
      var i :| 0 <= i < j && rows[i].key == rows[j].key;
      assert rows[..n][i].key == rows[..n][j].key;
    }
  }

  lemma KeySetSnoc(rows: seq<Row>, x: Row)
    ensures KeySet(rows + [x]) == KeySet(rows) + {x.key}
  {
    var all := rows + [x];
    assert all[|rows|] == x;
    forall k | k in KeySet(all)
      ensures k in KeySet(rows) + {x.key}
    {
      var i :| 0 <= i < |all| && all[i].key == k;
      if i < |rows| {
        assert rows[i].key == k;
      }
    }
    forall k | k in KeySet(rows)
      ensures k in KeySet(all)
    {
      var i :| 0 <= i < |rows| && rows[i].key == k;
      assert all[i].key == k;
    }
  }

  /** A row repeats an earlier key exactly when that key is among the earlier rows' keys. */
  lemma RepeatsIffEarlierKey(rows: seq<Row>, n: nat)
    requires n < |rows|
    ensures Repeats(rows, n) <==> rows[n].key in KeySet(rows[..n])
  {
    if rows[n].key in KeySet(rows[..n]) {
      var i :| 0 <= i < n && rows[..n][i].key == rows[n].key;
      assert rows[i].key == rows[n].key;
    }
  }

  /** The kept rows carry every key once. */
  lemma {:induction false} DropDuplicatesKeys(rows: seq<Row>)
    ensures UniqueKeys(DropDuplicates(rows))
    ensures KeySet(DropDuplicates(rows)) == KeySet(rows)
    decreases |rows|
  {
    if rows != [] {
      var n := |rows| - 1;
      var front := rows[..n];
      var d := DropDuplicates(front);
      DropDuplicatesKeys(front);
      assert rows == front + [rows[n]];
      KeySetSnoc(front, rows[n]);
      RepeatsIffEarlierKey(rows, n);
      if Repeats(rows, n) {
        assert DropDuplicates(rows) == d + [] == d;
      } else {
        assert DropDuplicates(rows) == d + [rows[n]];
        var r := d + [rows[n]];
        KeySetSnoc(d, rows[n]);
        forall i, j | 0 <= i < j < |r|
          ensures r[i].key != r[j].key
        {
          if j == |d| {
            assert r[i].key in KeySet(d);
          }
        }
      }
    }
  }

  /** The kept rows are exactly those no earlier row shares a key with. */
  lemma {:induction false} DropDuplicatesKeepsFirst(rows: seq<Row>)
    ensures forall j | 0 <= j < |rows| && !Repeats(rows, j) :: rows[j] in DropDuplicates(rows)
    ensures forall x | x in DropDuplicates(rows) :: exists j | 0 <= j < |rows| :: rows[j] == x && !Repeats(rows, j)
    decreases |rows|
  {
    if rows != [] {
      var n := |rows| - 1;
      var front := rows[..n];
      var d := DropDuplicates(front);
      DropDuplicatesKeepsFirst(front);
      forall j | 0 <= j < |rows| && !Repeats(rows, j)
        ensures rows[j] in DropDuplicates(rows)
      {
        if j < n {
          RepeatsInPrefix(rows, n, j);
          assert front[j] == rows[j];
        }
      }
      forall x | x in DropDuplicates(rows)
        ensures exists j | 0 <= j < |rows| :: rows[j] == x && !Repeats(rows, j)
      {
        if x in d {
          var j :| 0 <= j < |front| && front[j] == x && !Repeats(front, j);
          RepeatsInPrefix(rows, n, j);
          assert rows[j] == x;
        } else {
          assert rows[n] == x && !Repeats(rows, n);
        }
      }
    }
  }

  /** Rows already in the dataset win over rows of new batches with the same URL. */
  lemma EarlierRowsWin(before: seq<Row>, after: seq<Row>, x: Row)
    requires UniqueKeys(before)
    requires x in DropDuplicates(before + after) && x.key in KeySet(before)
    ensures x in before
  {
    var all := before + after;
    DropDuplicatesKeepsFirst(all);
    var j :| 0 <= j < |all| && all[j] == x && !Repeats(all, j);
    var i :| 0 <= i < |before| && before[i].key == x.key;
    assert all[i].key == all[j].key;
    assert !(i < j);
    assert all[j] == before[j];
  }

  /** Dropping duplicates twice drops nothing more. */
  lemma {:induction false} DropDuplicatesIdempotent(rows: seq<Row>)
    requires UniqueKeys(rows)
    ensures DropDuplicates(rows) == rows
    decreases |rows|
  {
    if rows != [] {
      var n := |rows| - 1;
      assert UniqueKeys(rows[..n]);
      DropDuplicatesIdempotent(rows[..n]);
      assert !Repeats(rows, n);
      assert rows[..n] + [rows[n]] == rows;
    }
  }

  /* ---------- The ledger and the dataset ---------- */

  /** What the script keeps between runs: the ledger of merged batch names
      (`added_batches.json`) and the rows of the full dataset. */
  datatype Store = Store(ledger: seq<string>, rows: seq<Row>)

  /** One iteration of the loop: a batch that cleans is appended and recorded; one that
      raises leaves everything as it was. `clean` reads and cleans a batch by name. */
  function Merge1(s: Store, t: string, clean: string -> Result<Frame, Error>): (r: Store)
    ensures clean(t).Err? ==> r == s
    ensures clean(t).Ok? ==>
              r.ledger == s.ledger + [t] && |r.rows| == |s.rows| + |clean(t).value.rows| && r.rows[..|s.rows|] == s.rows
              && r.rows[|s.rows|..] == clean(t).value.rows
  {
    var c := clean(t);
    if c.Ok? then
      var rows := s.rows + c.value.rows;
      assert rows[..|s.rows|] == s.rows && rows[|s.rows|..] == c.value.rows;
      Store(s.ledger + [t], rows)
    else s
  }

  /** The loop over the targets in order. It only appends: the ledger and the dataset keep
      what they held, and every name it records is a target that cleaned. */
  function Process(s: Store, targets: seq<string>, clean: string -> Result<Frame, Error>): (r: Store)
    ensures |s.ledger| <= |r.ledger| && r.ledger[..|s.ledger|] == s.ledger
    ensures |s.rows| <= |r.rows| && r.rows[..|s.rows|] == s.rows
    ensures forall t | t in r.ledger[|s.ledger|..] :: t in targets && clean(t).Ok?
    decreases |targets|
  {
    if targets == [] then s
    else
      var s1 := Merge1(s, targets[0], clean);
      var r := Process(s1, targets[1..], clean);
      assert r.ledger[..|s.ledger|] == r.ledger[..|s1.ledger|][..|s.ledger|];
      assert r.rows[..|s.rows|] == r.rows[..|s1.rows|][..|s.rows|];
      assert forall t | t in r.ledger[|s.ledger|..] :: t in s1.ledger[|s.ledger|..] || t in r.ledger[|s1.ledger|..] by {
        assert r.ledger[|s.ledger|..] == s1.ledger[|s.ledger|..] + r.ledger[|s1.ledger|..];
      }
      assert forall t | t in targets[1..] :: t in targets;
      r
  }

  /** `lambda t: clean(t) did not raise`. */
  function Cleans(clean: string -> Result<Frame, Error>): string -> bool {
    t => clean(t).Ok?
  }

  function Fails(clean: string -> Result<Frame, Error>): string -> bool {
    t => clean(t).Err?
  }

  /** The targets that clean, in order. */
  function Succeeded(targets: seq<string>, clean: string -> Result<Frame, Error>): seq<string> {
    Filter(targets, Cleans(clean))
  }

  /** The cleaned rows of the targets that clean, in order. */
  function Gathered(targets: seq<string>, clean: string -> Result<Frame, Error>): seq<Row>
    decreases |targets|
  {
    if targets == [] then []
    else
      var c := clean(targets[0]);
      (if c.Ok? then c.value.rows else []) + Gathered(targets[1..], clean)
  }

  /** After the loop the ledger has gained exactly the targets that cleaned and the dataset
      exactly their rows, both in target order. */
  lemma {:induction false} ProcessAppends(s: Store, targets: seq<string>, clean: string -> Result<Frame, Error>)
    ensures Process(s, targets, clean).ledger == s.ledger + Succeeded(targets, clean)
    ensures Process(s, targets, clean).rows == s.rows + Gathered(targets, clean)
    decreases |targets|
  {
    if targets != [] {
      var s1 := Merge1(s, targets[0], clean);
      assert Process(s, targets, clean) == Process(s1, targets[1..], clean);
      ProcessAppends(s1, targets[1..], clean);
      MergeThenRest(s, targets, clean);
    }
  }

  /** One iteration followed by the rest of the targets gains what the whole list gains. */
  lemma MergeThenRest(s: Store, targets: seq<string>, clean: string -> Result<Frame, Error>)
    requires targets != []
    ensures Merge1(s, targets[0], clean).ledger + Succeeded(targets[1..], clean) == s.ledger + Succeeded(targets, clean)
    ensures Merge1(s, targets[0], clean).rows + Gathered(targets[1..], clean) == s.rows + Gathered(targets, clean)
  {
    LedgerThenRest(s, targets, clean);
    RowsThenRest(s, targets, clean);
  }

  lemma LedgerThenRest(s: Store, targets: seq<string>, clean: string -> Result<Frame, Error>)
    requires targets != []
    ensures Merge1(s, targets[0], clean).ledger + Succeeded(targets[1..], clean) == s.ledger + Succeeded(targets, clean)
  {
    var t := targets[0];
    var okRest := Succeeded(targets[1..], clean);
    if clean(t).Ok? {
      assert Cleans(clean)(t);
      assert Succeeded(targets, clean) == [t] + okRest;
      assert s.ledger + [t] + okRest == s.ledger + ([t] + okRest);
    } else {
      assert !Cleans(clean)(t);
    }
  }

  lemma RowsThenRest(s: Store, targets: seq<string>, clean: string -> Result<Frame, Error>)
    requires targets != []
    ensures Merge1(s, targets[0], clean).rows + Gathered(targets[1..], clean) == s.rows + Gathered(targets, clean)
  {
    var t := targets[0];
    var rowsRest := Gathered(targets[1..], clean);
    var c := clean(t);
    if c.Ok? {
      assert Gathered(targets, clean) == c.value.rows + rowsRest;
      assert s.rows + c.value.rows + rowsRest == s.rows + (c.value.rows + rowsRest);
    } else {
      assert Gathered(targets, clean) == [] + rowsRest;
    }
  }

  /** Leaving out the targets that raise changes nothing. */
  lemma {:induction false} FailuresContributeNothing(s: Store, targets: seq<string>, clean: string -> Result<Frame, Error>)
    ensures Process(s, targets, clean) == Process(s, Succeeded(targets, clean), clean)
    decreases |targets|
  {
    if targets != [] {
      var ok := Succeeded(targets, clean);
      FailuresContributeNothing(Merge1(s, targets[0], clean), targets[1..], clean);
      FailuresContributeNothing(s, targets[1..], clean);
      if clean(targets[0]).Ok? {
        assert ok[0] == targets[0] && ok[1..] == Succeeded(targets[1..], clean);
      }
    }
  }

  /* ---------- One run ---------- */

  /** What a run leaves behind: nothing when there was no target, otherwise the rewritten
      dataset and ledger. */
  datatype Outcome = NothingToDo | Aborted | Wrote(store: Store)

  /** Everything a run depends on besides the store: the command line and what the data
      directory holds. `read` is `pd.read_csv` of a batch file, None when it raises (an
      unreadable file, or one without a `url` column). */
  datatype Inputs = Inputs(
    target: Option<string>,
    refresh: bool,
    listing: seq<string>,
    isFile: string -> bool,
    read: string -> Option<Batch>,
    parse: string -> Option<Date>)

  /** Read a batch by name and clean it. A batch that cannot be read stops the run before
      it is cleaned (see `Aborts`), so the error given for it is never recorded. */
  function Cleaner(inp: Inputs): string -> Result<Frame, Error> {
    t => if inp.read(t).Some? then CleanData(inp.read(t).value, inp.parse) else Err(MissingColumn("url"))
  }

  /** Target `t` stops the whole run. `read_csv` and `pd.concat` sit outside the `try`: a
      batch that cannot be read, or that cleans into a frame with a repeated column, raises
      out of the loop before anything is written. */
  predicate Aborts(inp: Inputs, t: string) {
    match inp.read(t)
    case None => true
    case Some(b) => CleanData(b, inp.parse).Ok? && KeepsTwice(b)
  }

  /** The store a run starts from: empty when refreshing. */
  function Start(inp: Inputs, saved: Store): Store {
    if inp.refresh then Store([], []) else saved
  }

  function RunTargets(inp: Inputs, saved: Store): seq<string> {
    GetTargets(inp.target, Start(inp, saved).ledger, inp.listing, inp.isFile)
  }

  /** The script's `__main__`. A written dataset has one row per URL, and the written ledger
      holds only names it held before or targets of this run. */
  function Run(inp: Inputs, saved: Store): (r: Outcome)
    ensures r.Wrote? ==> UniqueKeys(r.store.rows)
    ensures r.Wrote? ==> forall t | t in r.store.ledger :: t in Start(inp, saved).ledger || t in RunTargets(inp, saved)
  {
    var targets := RunTargets(inp, saved);
    if targets == [] then NothingToDo
    else if exists t | t in targets :: Aborts(inp, t) then Aborted
    else
      var s := Process(Start(inp, saved), targets, Cleaner(inp));
      DropDuplicatesKeys(s.rows);
      Wrote(Store(s.ledger, DropDuplicates(s.rows)))
  }

  /** A run writes exactly when it has a target. The ledger it writes is the starting ledger
      followed by the targets that cleaned; the dataset holds each URL of the starting rows
      and of the cleaned batches once, and a URL the starting rows had keeps its old row. */
  lemma RunWrites(inp: Inputs, saved: Store)
    ensures Run(inp, saved).NothingToDo? <==> RunTargets(inp, saved) == []
    ensures Run(inp, saved).Aborted? <==>
      RunTargets(inp, saved) != [] && exists t | t in RunTargets(inp, saved) :: Aborts(inp, t)
    ensures Run(inp, saved).Wrote? ==>
      Run(inp, saved).store.ledger == Start(inp, saved).ledger + Succeeded(RunTargets(inp, saved), Cleaner(inp))
    ensures Run(inp, saved).Wrote? ==> UniqueKeys(Run(inp, saved).store.rows)
    ensures Run(inp, saved).Wrote? ==>
      KeySet(Run(inp, saved).store.rows) == KeySet(Start(inp, saved).rows + Gathered(RunTargets(inp, saved), Cleaner(inp)))
    ensures Run(inp, saved).Wrote? && UniqueKeys(Start(inp, saved).rows) ==>
      forall x | x in Run(inp, saved).store.rows && x.key in KeySet(Start(inp, saved).rows) :: x in Start(inp, saved).rows
  {
    var start := Start(inp, saved);
    var targets := RunTargets(inp, saved);
    var clean := Cleaner(inp);
    if targets != [] {
      ProcessAppends(start, targets, clean);
      var all := start.rows + Gathered(targets, clean);
      DropDuplicatesKeys(all);
      if UniqueKeys(start.rows) {
        forall x | x in DropDuplicates(all) && x.key in KeySet(start.rows)
          ensures x in start.rows
        {
          EarlierRowsWin(start.rows, Gathered(targets, clean), x);
        }
      }
    }
  }

  lemma DistinctConcat(a: seq<string>, b: seq<string>)
    requires Distinct(a) && Distinct(b)
    requires forall x | x in b :: x !in a
    ensures Distinct(a + b)
  {
    var ab := a + b;
    forall i, j | 0 <= i < j < |ab|
      ensures ab[i] != ab[j]
    {
      if j < |a| {
        assert ab[i] == a[i] && ab[j] == a[j];
      } else if i < |a| {
        assert ab[i] == a[i] && ab[j] == b[j - |a|];
        assert ab[j] in b;
      } else {
        assert ab[i] == b[i - |a|] && ab[j] == b[j - |a|];
      }
    }
  }

  /** The ledger never records a batch twice, provided it did not before and the directory
      lists each name once. */
  lemma LedgerStaysDistinct(inp: Inputs, saved: Store)
    requires Distinct(saved.ledger) && Distinct(inp.listing)
    requires Run(inp, saved).Wrote?
    ensures Distinct(Run(inp, saved).store.ledger)
  {
    var start := Start(inp, saved);
    var targets := RunTargets(inp, saved);
    RunWrites(inp, saved);
    TargetsDistinct(inp.target, start.ledger, inp.listing, inp.isFile);
    FilterKeepsDistinct(targets, Cleans(Cleaner(inp)));
    DistinctConcat(start.ledger, Succeeded(targets, Cleaner(inp)));
  }

  /** Run again over the same directory with the written ledger, the script takes exactly
      the batches that raised the first time. */
  lemma NextRunRetriesFailures(inp: Inputs, saved: Store)
    requires Run(inp, saved).Wrote?
    ensures GetTargets(inp.target, Run(inp, saved).store.ledger, inp.listing, inp.isFile)
         == Filter(RunTargets(inp, saved), Fails(Cleaner(inp)))
  {
    var start := Start(inp, saved);
    var targets := RunTargets(inp, saved);
    var ok := Succeeded(targets, Cleaner(inp));
    RunWrites(inp, saved);
    MoreRecorded(inp.target, start.ledger, ok, inp.listing, inp.isFile);
    FilterCongruent(targets, NotIn(ok), Fails(Cleaner(inp)));
  }
}
