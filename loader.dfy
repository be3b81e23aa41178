/** The data-loading half of main.py: which directory entries are loaded and
    into which table (main), and the INSERT statement and bound values built
    for every row of a data file (insert_csv_to_table). Reading the file and
    executing statements are not modelled: the parsed frame and the outcome
    of each execution are parameters. */
module Loader {
  import opened Wrappers
  import opened Text

  /** The schema file, which sits among the data files and is skipped. */
  const SchemaFileName: string := "INFORMATION_SCHEMA.csv"

  const CsvSuffix: string := ".csv"

  // ---------------------------------------------------------------------
  // File selection and table naming

  /** An entry is loaded when it is not the schema file and ends in ".csv". */
  predicate IsDataFile(name: string) {
    name != SchemaFileName && EndsWith(name, CsvSuffix)
  }

  /** csv_file.replace('.csv', ''): every occurrence is removed, not only the
      suffix. */
  function TableNameOf(file: string): (table: string)
    ensures |table| <= |file|
  {
    RemoveAll(file, CsvSuffix)
  }

  /** A data file and the table it is loaded into. */
  datatype Job = Job(file: string, table: string)

  /** The data files of a listing, in listing order, each with its table. */
  function DataJobs(listing: seq<string>): seq<Job> {
    if |listing| == 0 then []
    else
      var n := |listing| - 1;
      var f := listing[n];
      DataJobs(listing[..n]) + (if IsDataFile(f) then [Job(f, TableNameOf(f))] else [])
  }

  /** The loop of main over the directory listing: entries that are the
      schema file or do not end in ".csv" are skipped; every other entry is
      loaded into the table named after it. */
  method SelectDataFiles(listing: seq<string>) returns (jobs: seq<Job>)
    ensures jobs == DataJobs(listing)
  {
    jobs := [];
    for i := 0 to |listing|
      invariant jobs == DataJobs(listing[..i])
    {
      var csvFile := listing[i];
      assert listing[..i + 1][..i] == listing[..i];
      if csvFile == SchemaFileName || !EndsWith(csvFile, CsvSuffix) {
        continue;
      }
      var tableName := TableNameOf(csvFile);
      jobs := jobs + [Job(csvFile, tableName)];
    }
    assert listing[..|listing|] == listing;
  }

  /** Every selected entry is a data file of the listing, loaded into the
      table named after it. */
  lemma {:induction false} DataJobsSound(listing: seq<string>)
    ensures forall j :: 0 <= j < |DataJobs(listing)| ==>
              && DataJobs(listing)[j].file in listing
              && IsDataFile(DataJobs(listing)[j].file)
              && DataJobs(listing)[j].table == TableNameOf(DataJobs(listing)[j].file)
    decreases |listing|
  {
    if |listing| > 0 {
      var n := |listing| - 1;
      var front := listing[..n];
      DataJobsSound(front);
      var jobs := DataJobs(listing);
      forall j | 0 <= j < |jobs|
        ensures jobs[j].file in listing && IsDataFile(jobs[j].file) && jobs[j].table == TableNameOf(jobs[j].file)
      {
        if j < |DataJobs(front)| {
          assert jobs[j] == DataJobs(front)[j];
          assert jobs[j].file in front;
        } else {
          assert jobs[j] == Job(listing[n], TableNameOf(listing[n]));
        }
      }
    }
  }

  /** Every data file of the listing is selected. */
  lemma {:induction false} DataJobsComplete(listing: seq<string>, f: string)
    requires f in listing && IsDataFile(f)
    ensures exists j :: 0 <= j < |DataJobs(listing)| && DataJobs(listing)[j].file == f
    decreases |listing|
  {
    var n := |listing| - 1;
    var front := listing[..n];
    var jobs := DataJobs(listing);
    assert listing == front + [listing[n]];
    if f in front {
      DataJobsComplete(front, f);
      var j :| 0 <= j < |DataJobs(front)| && DataJobs(front)[j].file == f;
      assert jobs[j] == DataJobs(front)[j];
    } else {
      assert jobs[|jobs| - 1].file == f;
    }
  }

  /** An entry is skipped exactly when it is the schema file or does not end
      in ".csv". */
  lemma SkippedIff(listing: seq<string>, f: string)
    requires f in listing
    ensures (forall j :: 0 <= j < |DataJobs(listing)| ==> DataJobs(listing)[j].file != f) <==>
              (f == SchemaFileName || !EndsWith(f, CsvSuffix))
  {
    DataJobsSound(listing);
    if IsDataFile(f) {
      DataJobsComplete(listing, f);
    }
  }

  /** The first piece of a name, when it holds no ".csv", survives the
      removal, and the first ".csv" after it goes. An occurrence cannot
      start inside the piece and end past it, since '.' occurs in ".csv"
      only at its start. */
  lemma RemoveAfterPlainPrefix(a: string, rest: string)
    requires !Occurs(CsvSuffix, a)
    ensures RemoveAll(a + CsvSuffix + rest, CsvSuffix) == a + RemoveAll(rest, CsvSuffix)
  {
    assert CsvSuffix[0] !in CsvSuffix[1..];
    RemoveAfterPlain(a, CsvSuffix, rest);
  }

  /** A plain file name loads into the table named by its stem. */
  lemma TableOfPlainFile(stem: string)
    requires !Occurs(CsvSuffix, stem)
    ensures TableNameOf(stem + CsvSuffix) == stem
  {
    RemoveAfterPlainPrefix(stem, "");
    assert stem + CsvSuffix + "" == stem + CsvSuffix;
  }

  /** A name holding ".csv" twice loses both occurrences: "a.csvb.csv"
      loads into table "ab". */
  lemma TableDropsEveryOccurrence(a: string, b: string)
    requires !Occurs(CsvSuffix, a) && !Occurs(CsvSuffix, b)
    ensures TableNameOf(a + CsvSuffix + b + CsvSuffix) == a + b
  {
    RemoveAfterPlainPrefix(a, b + CsvSuffix);
    assert a + CsvSuffix + b + CsvSuffix == a + CsvSuffix + (b + CsvSuffix);
    TableOfPlainFile(b);
  }

  // ---------------------------------------------------------------------
  // Row projection, as insert_csv_to_table does it

  /** A parsed data file: its header and its rows, one cell per column;
      None is a missing (null) cell. */
  datatype Frame<V> = Frame(columns: seq<string>, rows: seq<seq<Option<V>>>)
  {
    /** A frame has as many cells in every row as it has columns. */
    predicate Rectangular() {
      forall i :: 0 <= i < |rows| ==> |rows[i]| == |columns|
    }
  }

  /** The INSERT statement for one row: target table, column list and the
      number of placeholders. */
  datatype InsertStatement = InsertInto(table: string, columns: seq<string>, placeholders: nat)

  /** One iteration of the row loop: the statement, the bound values and
      whether executing it succeeded. */
  datatype RowAttempt<V> = RowAttempt(statement: InsertStatement, values: seq<Option<V>>, inserted: bool)

  /** row[col] on a frame whose lowered columns repeat a name returns
      several cells, and testing them with pd.notnull in a conditional
      raises; the error is not caught inside the row loop. */
  datatype LoadError = AmbiguousColumn(name: string)

  /** [col.lower() for col in df.columns] */
  function LowerAll(names: seq<string>): (r: seq<string>)
    ensures |r| == |names|
  {
    seq(|names|, i requires 0 <= i < |names| => Lower(names[i]))
  }

  /** The name at position j occurs nowhere else among the columns. */
  predicate UniqueAt(cols: seq<string>, j: int)
    requires 0 <= j < |cols|
  {
    forall i :: 0 <= i < |cols| && i != j ==> cols[i] != cols[j]
  }

  predicate HasDuplicates(cols: seq<string>) {
    exists i, j :: 0 <= i < j < |cols| && cols[i] == cols[j]
  }

  /** row[col]: the cell under the column of that name, or an error when the
      name labels more than one column. */
  function CellFor<V>(cols: seq<string>, row: seq<Option<V>>, name: string): Result<Option<V>, LoadError>
    requires |row| == |cols| && name in cols
  {
    var i := IndexOf(cols, name).value;
    if name in cols[i + 1..] then Err(AmbiguousColumn(name)) else Ok(row[i])
  }

  /** The value list for columns k.. of a row, looked up name by name from
      left to right; the first ambiguous name stops it. */
  function ValuesFrom<V>(cols: seq<string>, row: seq<Option<V>>, k: nat): Result<seq<Option<V>>, LoadError>
    requires |row| == |cols| && k <= |cols|
    decreases |cols| - k
  {
    if k == |cols| then Ok([])
    else
      match CellFor(cols, row, cols[k])
      case Err(e) => Err(e)
      case Ok(v) =>
        match ValuesFrom(cols, row, k + 1)
        case Err(e) => Err(e)
        case Ok(vs) => Ok([v] + vs)
  }

  /** [row[col] if pd.notnull(row[col]) else None for col in cols] */
  function RowValues<V>(cols: seq<string>, row: seq<Option<V>>): Result<seq<Option<V>>, LoadError>
    requires |row| == |cols|
  {
    ValuesFrom(cols, row, 0)
  }

  /** The statement built for every row of a file loaded into tableName. */
  function InsertFor(tableName: string, cols: seq<string>): InsertStatement {
    InsertInto(Lower(tableName), cols, |cols|)
  }

  /** Every lowered column name is free of ASCII capitals. */
  lemma LowerAllIsLower(names: seq<string>)
    ensures forall k :: 0 <= k < |names| ==> NoCapitals(LowerAll(names)[k])
  {
    forall k | 0 <= k < |names| ensures NoCapitals(LowerAll(names)[k]) {
      LowerIsLower(names[k]);
    }
  }

  /** Looking a name up finds its own cell when no other column has that
      name, and fails otherwise. */
  lemma CellForSpec<V>(cols: seq<string>, row: seq<Option<V>>, j: nat)
    requires |row| == |cols| && j < |cols|
    ensures UniqueAt(cols, j) ==> CellFor(cols, row, cols[j]) == Ok(row[j])
    ensures !UniqueAt(cols, j) ==> CellFor(cols, row, cols[j]) == Err(AmbiguousColumn(cols[j]))
  {
    var name := cols[j];
    var i := IndexOf(cols, name).value;
    if UniqueAt(cols, j) {
      assert i == j;
      var after := cols[i + 1..];
      forall x | x in after ensures x != name {
        var m :| 0 <= m < |after| && after[m] == x;
        assert cols[i + 1 + m] == x;
      }
    } else {
      var m :| 0 <= m < |cols| && m != j && cols[m] == name;
      assert forall p :: 0 <= p < i ==> cols[p] != name by {
        forall p | 0 <= p < i ensures cols[p] != name {
          assert cols[..i][p] == cols[p];
        }
      }
      var later := if i < j then j else m;
      assert cols[i + 1..][later - i - 1] == name;
    }
  }

  /** The values for columns k.. are the cells k.. exactly when none of
      those names repeats; otherwise the lookup fails. */
  lemma {:induction false} ValuesFromSpec<V>(cols: seq<string>, row: seq<Option<V>>, k: nat)
    requires |row| == |cols| && k <= |cols|
    ensures ValuesFrom(cols, row, k).Ok? <==> forall j :: k <= j < |cols| ==> UniqueAt(cols, j)
    ensures ValuesFrom(cols, row, k).Ok? ==> ValuesFrom(cols, row, k).value == row[k..]
    decreases |cols| - k
  {
    if k < |cols| {
      CellForSpec(cols, row, k);
      ValuesFromSpec(cols, row, k + 1);
      if ValuesFrom(cols, row, k).Ok? {
        assert row[k..] == [row[k]] + row[k + 1..];
      }
    }
  }

  /** The bound values are the row's cells, in column order, a missing cell
      giving None, exactly when the lowered column names are distinct. */
  lemma RowValuesSpec<V>(cols: seq<string>, row: seq<Option<V>>)
    requires |row| == |cols|
    ensures RowValues(cols, row).Ok? <==> !HasDuplicates(cols)
    ensures RowValues(cols, row).Ok? ==> RowValues(cols, row).value == row
  {
    ValuesFromSpec(cols, row, 0);
    assert row[0..] == row;
    if HasDuplicates(cols) {
      var i, j :| 0 <= i < j < |cols| && cols[i] == cols[j];
      assert !UniqueAt(cols, j);
    } else {
      forall j | 0 <= j < |cols| ensures UniqueAt(cols, j) {
        forall i | 0 <= i < |cols| && i != j ensures cols[i] != cols[j] {
          if i < j {
            assert !(cols[i] == cols[j]);
          } else {
            assert !(cols[j] == cols[i]);
          }
        }
      }
    }
  }

  /** insert_csv_to_table: an insert is attempted for every row of the
      frame, with the lowered column names, one placeholder per column and
      the row's cells as values; a failed insert does not stop the rows
      after it, while repeated lowered column names stop the load at its
      first row. */
  method InsertCsvToTable<V>(tableName: string, frame: Frame<V>, executes: (InsertStatement, seq<Option<V>>) -> bool)
    returns (r: Result<seq<RowAttempt<V>>, LoadError>)
    requires frame.Rectangular()
    ensures r.Err? <==> |frame.rows| > 0 && HasDuplicates(LowerAll(frame.columns))
    ensures r.Ok? ==> |r.value| == |frame.rows|
    ensures r.Ok? ==> forall i :: 0 <= i < |frame.rows| ==>
              var stmt := InsertFor(tableName, LowerAll(frame.columns));
              r.value[i] == RowAttempt(stmt, frame.rows[i], executes(stmt, frame.rows[i]))
    ensures r.Ok? ==> forall i :: 0 <= i < |r.value| ==>
              && r.value[i].statement.placeholders == |r.value[i].values| == |frame.columns|
              && |r.value[i].statement.columns| == |frame.columns|
              && NoCapitals(r.value[i].statement.table)
              && (forall k :: 0 <= k < |frame.columns| ==> NoCapitals(r.value[i].statement.columns[k]))
  {
    var cols := LowerAll(frame.columns);
    LowerAllIsLower(frame.columns);
    LowerIsLower(tableName);
    var attempts: seq<RowAttempt<V>> := [];
    for i := 0 to |frame.rows|
      invariant |attempts| == i
      invariant i > 0 ==> !HasDuplicates(cols)
      invariant forall k :: 0 <= k < i ==>
                  attempts[k] == RowAttempt(InsertFor(tableName, cols), frame.rows[k], executes(InsertFor(tableName, cols), frame.rows[k]))
    {
      var row := frame.rows[i];
      RowValuesSpec(cols, row);
      var values := RowValues(cols, row);
      if values.Err? {
        return Err(values.error);
      }
      var stmt := InsertInto(Lower(tableName), cols, |cols|);
      var ok := executes(stmt, values.value);
      attempts := attempts + [RowAttempt(stmt, values.value, ok)];
    }
    return Ok(attempts);
  }
}
