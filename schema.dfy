/** The schema parser (parse_schema in main.py): reads the already tokenised
    rows of INFORMATION_SCHEMA.csv and builds the catalog that maps every
    lower-cased table name to its (column, data type) pairs. */
module Schema {
  import opened Wrappers
  import opened Text

  /** Header names the parser looks up, case-sensitive as written. */
  const TableNameHeader: string := "TABLE_NAME"
  const ColumnNameHeader: string := "COLUMN_NAME"
  const DataTypeHeader: string := "DATA_TYPE"

  const Delimiter: char := ','

  /** An over-long row keeps this many leading fields; all the fields after
      them are joined back into one. */
  const KeptFields: nat := 4

  datatype Column = Column(name: string, dataType: string)

  /** The dictionary parse_schema returns: its keys in insertion order, and
      the column list stored under each key. */
  datatype Catalog = Catalog(order: seq<string>, columns: map<string, seq<Column>>)
  {
    /** Keys of a dict are distinct and its iteration order lists each once. */
    ghost predicate Valid() {
      && (forall i, j :: 0 <= i < j < |order| ==> order[i] != order[j])
      && (forall t :: t in order <==> t in columns)
    }
  }

  datatype SchemaError =
    | EmptySource                    // the file has no header row
    | MalformedRow(row: seq<string>) // a row that does not fit the header even after repair
    | MissingHeader(name: string)    // a looked-up header name is absent
    | DuplicateHeader(name: string)  // a looked-up header name occurs more than once

  // ---------------------------------------------------------------------
  // Header and row normalisation

  /** The header tokens: a one-field header is re-split on every comma; each
      token loses surrounding whitespace and then surrounding double quotes. */
  function HeaderTokens(raw: seq<string>): (headers: seq<string>) {
    if |raw| == 1 then UnquoteAll(Split(raw[0], Delimiter)) else UnquoteAll(raw)
  }

  /** How many header names there are, and that none is still quoted: one
      per field of the reader's header, or one more than the commas of a
      one-field header. */
  lemma HeaderTokensShape(raw: seq<string>)
    ensures |raw| != 1 ==> |HeaderTokens(raw)| == |raw|
    ensures |raw| == 1 ==> |HeaderTokens(raw)| == multiset(raw[0])[Delimiter] + 1
    ensures forall i :: 0 <= i < |HeaderTokens(raw)| ==> Bare(HeaderTokens(raw)[i], QuoteChars)
  {
    if |raw| == 1 {
      SplitCount(raw[0], Delimiter);
      UnquoteAllSpec(Split(raw[0], Delimiter));
    } else {
      UnquoteAllSpec(raw);
    }
  }

  /** h.strip().strip('"') for every token h. */
  function UnquoteAll(tokens: seq<string>): (r: seq<string>)
    ensures |r| == |tokens|
  {
    if |tokens| == 0 then [] else [Unquote(tokens[0])] + UnquoteAll(tokens[1..])
  }

  lemma {:induction false} UnquoteAllSpec(tokens: seq<string>)
    ensures forall i :: 0 <= i < |tokens| ==> UnquoteAll(tokens)[i] == Unquote(tokens[i]) && Bare(UnquoteAll(tokens)[i], QuoteChars)
  {
    if |tokens| > 0 {
      UnquoteAllSpec(tokens[1..]);
    }
  }

  /** Every field of a data row, whitespace-trimmed. */
  function TrimFields(row: seq<string>): (r: seq<string>)
    ensures |r| == |row|
  {
    if |row| == 0 then [] else [Strip(row[0])] + TrimFields(row[1..])
  }

  /** Field i of the trimmed row is field i of the row, trimmed. */
  lemma {:induction false} TrimFieldsAt(row: seq<string>)
    ensures forall i :: 0 <= i < |row| ==> TrimFields(row)[i] == Strip(row[i])
  {
    if |row| > 0 {
      TrimFieldsAt(row[1..]);
    }
  }

  /** The repair of a trimmed row: a row longer than the header keeps its
      first four fields and joins all the others, with commas, into one
      trimmed field; any other row is left as it is. */
  function Repair(row: seq<string>, width: nat): (r: seq<string>)
    ensures |row| <= width ==> r == row
    ensures |row| > width ==> |r| == Min(|row|, KeptFields) + 1 && r[..|r| - 1] == row[..|r| - 1]
  {
    if |row| > width then
      var keep := Min(|row|, KeptFields);
      row[..keep] + [Strip(Join(row[keep..], Delimiter))]
    else
      row
  }

  /** The length of a row of n fields after repair. */
  function RepairedLength(n: nat, width: nat): nat {
    if n > width then Min(n, KeptFields) + 1 else n
  }

  /** A data row as the parser sees it: trimmed, then repaired. */
  function Repaired(record: seq<string>, width: nat): (r: seq<string>)
    ensures |r| == RepairedLength(|record|, width)
  {
    Repair(TrimFields(record), width)
  }

  /** The parser accepts a data row when its repaired length is the header's. */
  predicate Fits(record: seq<string>, width: nat) {
    RepairedLength(|record|, width) == width
  }

  /** The first loop of parse_schema: every data row repaired in turn, or
      the first row that still does not fit. */
  function RepairRows(records: seq<seq<string>>, width: nat): Result<seq<seq<string>>, seq<string>>
    decreases |records|
  {
    if |records| == 0 then Ok([])
    else
      var n := |records| - 1;
      match RepairRows(records[..n], width)
      case Err(row) => Err(row)
      case Ok(done) =>
        var row := Repaired(records[n], width);
        if |row| == width then Ok(done + [row]) else Err(row)
  }

  /** The index of the first row that RepairRows rejects. */
  predicate FirstMisfit(records: seq<seq<string>>, width: nat, k: int) {
    && 0 <= k < |records|
    && !Fits(records[k], width)
    && forall j :: 0 <= j < k ==> Fits(records[j], width)
  }

  /** RepairRows succeeds exactly when every row fits. */
  lemma {:induction false} RepairRowsOk(records: seq<seq<string>>, width: nat)
    ensures RepairRows(records, width).Ok? <==> forall k :: 0 <= k < |records| ==> Fits(records[k], width)
    decreases |records|
  {
    if |records| > 0 {
      var n := |records| - 1;
      var front := records[..n];
      RepairRowsOk(front, width);
      assert forall k :: 0 <= k < n ==> front[k] == records[k];
    }
  }

  /** An accepted list of rows is the repaired rows, in order. */
  lemma {:induction false} RepairRowsValues(records: seq<seq<string>>, width: nat)
    requires RepairRows(records, width).Ok?
    ensures |RepairRows(records, width).value| == |records|
    ensures forall k :: 0 <= k < |records| ==> RepairRows(records, width).value[k] == Repaired(records[k], width)
    decreases |records|
  {
    if |records| > 0 {
      var n := |records| - 1;
      var front := records[..n];
      RepairRowsValues(front, width);
      var done := RepairRows(front, width).value;
      var row := Repaired(records[n], width);
      assert RepairRows(records, width).value == done + [row];
      forall k | 0 <= k < |records| ensures (done + [row])[k] == Repaired(records[k], width) {
        if k < n {
          assert (done + [row])[k] == done[k];
          assert front[k] == records[k];
        }
      }
    }
  }

  /** A rejection reports the first row that does not fit, repaired. */
  lemma {:induction false} RepairRowsError(records: seq<seq<string>>, width: nat)
    requires RepairRows(records, width).Err?
    ensures exists k :: FirstMisfit(records, width, k) && RepairRows(records, width).error == Repaired(records[k], width)
    decreases |records|
  {
    var n := |records| - 1;
    var front := records[..n];
    RepairRowsOk(front, width);
    assert forall k :: 0 <= k < n ==> front[k] == records[k];
    if RepairRows(front, width).Err? {
      RepairRowsError(front, width);
      var k :| FirstMisfit(front, width, k) && RepairRows(front, width).error == Repaired(front[k], width);
      assert FirstMisfit(records, width, k);
    } else {
      assert FirstMisfit(records, width, n);
    }
  }

  /** RepairRows succeeds exactly when every row fits, and then returns the
      repaired rows in order; otherwise it reports the first misfit. */
  lemma RepairRowsSpec(records: seq<seq<string>>, width: nat)
    ensures RepairRows(records, width).Ok? <==> forall k :: 0 <= k < |records| ==> Fits(records[k], width)
    ensures RepairRows(records, width).Ok? ==>
              var rows := RepairRows(records, width).value;
              |rows| == |records| && forall k :: 0 <= k < |records| ==> rows[k] == Repaired(records[k], width)
    ensures RepairRows(records, width).Err? ==>
              exists k :: FirstMisfit(records, width, k) && RepairRows(records, width).error == Repaired(records[k], width)
  {
    RepairRowsOk(records, width);
    if RepairRows(records, width).Ok? {
      RepairRowsValues(records, width);
    } else {
      RepairRowsError(records, width);
    }
  }

  /** Once a prefix of the rows is rejected, the whole is rejected with the
      same row. */
  lemma {:induction false} RepairRowsErrExtends(records: seq<seq<string>>, width: nat, n: nat)
    requires n <= |records|
    requires RepairRows(records[..n], width).Err?
    ensures RepairRows(records, width) == RepairRows(records[..n], width)
    decreases |records| - n
  {
    if n < |records| {
      var m := |records| - 1;
      assert records[..m][..n] == records[..n];
      RepairRowsErrExtends(records[..m], width, n);
    } else {
      assert records[..n] == records;
    }
  }

  /** Every accepted row has the header's width. */
  lemma RepairedRowsWidth(records: seq<seq<string>>, width: nat)
    requires RepairRows(records, width).Ok?
    ensures forall row :: row in RepairRows(records, width).value ==> |row| == width
  {
    RepairRowsSpec(records, width);
    var rows := RepairRows(records, width).value;
    forall row | row in rows ensures |row| == width {
      var k :| 0 <= k < |rows| && rows[k] == row;
      assert Fits(records[k], width);
    }
  }

  // ---------------------------------------------------------------------
  // Header lookup, as row['TABLE_NAME'] does it

  /** The position of a header name: found only when it occurs exactly
      once; absent and repeated names are errors. */
  function HeaderIndex(headers: seq<string>, name: string): (r: Result<nat, SchemaError>)
    ensures r.Ok? ==> (&& r.value < |headers| && headers[r.value] == name
                       && forall j :: 0 <= j < |headers| && j != r.value ==> headers[j] != name)
    ensures r == Err(MissingHeader(name)) <==> name !in headers
    ensures r == Err(DuplicateHeader(name)) <==>
              exists i, j :: 0 <= i < j < |headers| && headers[i] == name && headers[j] == name
    ensures r.Ok? || r == Err(MissingHeader(name)) || r == Err(DuplicateHeader(name))
  {
    match IndexOf(headers, name)
    case None => Err(MissingHeader(name))
    case Some(i) =>
      if name in headers[i + 1..] then
        assert exists j :: i + 1 <= j < |headers| && headers[j] == headers[i + 1..][j - i - 1] == name;
        Err(DuplicateHeader(name))
      else
        assert forall j :: 0 <= j < i ==> headers[j] == headers[..i][j];
        assert forall j :: i < j < |headers| ==> headers[j] == headers[i + 1..][j - i - 1];
        Ok(i)
  }

  // ---------------------------------------------------------------------
  // Grouping, as the second loop of parse_schema does it

  /** One data row's contribution: lower-cased table and column names and
      the data type as written. */
  datatype Entry = Entry(table: string, column: Column)

  function Entries(rows: seq<seq<string>>, ti: nat, ci: nat, di: nat): (es: seq<Entry>)
    requires forall row :: row in rows ==> ti < |row| && ci < |row| && di < |row|
    ensures |es| == |rows|
  {
    seq(|rows|, k requires 0 <= k < |rows| =>
      Entry(Lower(rows[k][ti]), Column(Lower(rows[k][ci]), rows[k][di])))
  }

  function Tables(es: seq<Entry>): (ts: seq<string>)
    ensures |ts| == |es|
  {
    seq(|es|, k requires 0 <= k < |es| => es[k].table)
  }

  lemma TablesSnoc(es: seq<Entry>, n: nat)
    requires n < |es|
    ensures Tables(es[..n + 1]) == Tables(es[..n]) + [es[n].table]
  {
  }

  /** The distinct elements of ts, each where it first occurs. */
  function FirstSeen(ts: seq<string>): (r: seq<string>)
    ensures forall i, j :: 0 <= i < j < |r| ==> r[i] != r[j]
    ensures forall t :: t in r <==> t in ts
    decreases |ts|
  {
    if |ts| == 0 then []
    else
      var n := |ts| - 1;
      var seen := FirstSeen(ts[..n]);
      assert ts == ts[..n] + [ts[n]];
      if ts[n] in seen then seen else seen + [ts[n]]
  }

  /** The index of the first occurrence of t in ts. */
  function FirstIndex(ts: seq<string>, t: string): (r: nat)
    requires t in ts
    ensures r < |ts| && ts[r] == t && t !in ts[..r]
  {
    match IndexOf(ts, t)
    case Some(i) => i
  }

  lemma FirstIndexPrefix(ts: seq<string>, n: nat, t: string)
    requires n <= |ts| && t in ts[..n]
    ensures FirstIndex(ts, t) == FirstIndex(ts[..n], t)
  {
    var a := FirstIndex(ts[..n], t);
    var b := FirstIndex(ts, t);
    assert ts[a] == t && ts[b] == t;
    forall k | 0 <= k < b ensures ts[k] != t {
      assert ts[..b][k] == ts[k];
    }
    forall k | 0 <= k < a ensures ts[k] != t {
      assert ts[..n][..a][k] == ts[k];
    }
  }

  /** FirstSeen lists the tables in the order in which they first occur. */
  lemma {:induction false} FirstSeenOrder(ts: seq<string>)
    ensures forall i, j :: 0 <= i < j < |FirstSeen(ts)| ==>
              FirstIndex(ts, FirstSeen(ts)[i]) < FirstIndex(ts, FirstSeen(ts)[j])
    decreases |ts|
  {
    if |ts| > 0 {
      var n := |ts| - 1;
      var seen := FirstSeen(ts[..n]);
      FirstSeenOrder(ts[..n]);
      assert ts[..n + 1] == ts;
      forall t | t in seen ensures FirstIndex(ts, t) == FirstIndex(ts[..n], t) {
        FirstIndexPrefix(ts, n, t);
      }
      if ts[n] !in seen {
        assert FirstSeen(ts) == seen + [ts[n]];
        assert FirstIndex(ts, ts[n]) == n by {
          assert ts[n] !in ts[..n];
        }
      }
    }
  }

  /** The columns of table t, in row order. */
  function ColumnsOf(es: seq<Entry>, t: string): (cols: seq<Column>)
    ensures |cols| <= |es|
    ensures |cols| > 0 <==> t in Tables(es)
    decreases |es|
  {
    if |es| == 0 then []
    else
      var n := |es| - 1;
      TablesSnoc(es, n);
      assert es[..n + 1] == es;
      ColumnsOf(es[..n], t) + (if es[n].table == t then [es[n].column] else [])
  }

  /** Each table's columns, keyed by table. */
  function ColumnMap(es: seq<Entry>): map<string, seq<Column>> {
    map t | t in Tables(es) :: ColumnsOf(es, t)
  }

  /** The catalog the grouping loop is meant to build: tables in first-seen
      order, each with the columns of its rows in row order. */
  function Group(es: seq<Entry>): (cat: Catalog)
    ensures cat.Valid()
  {
    Catalog(FirstSeen(Tables(es)), ColumnMap(es))
  }

  /** Adding one entry appends to its own table's column list, creating
      the table when it is new, and leaves the other tables alone. */
  lemma ColumnMapSnoc(es: seq<Entry>, n: nat)
    requires n < |es|
    ensures var before := ColumnMap(es[..n]);
            var e := es[n];
            ColumnMap(es[..n + 1]) ==
              before[e.table := (if e.table in before then before[e.table] else []) + [e.column]]
  {
    TablesSnoc(es, n);
    var p := es[..n + 1];
    var e := es[n];
    var before := ColumnMap(es[..n]);
    var m1 := ColumnMap(p);
    var m2 := before[e.table := (if e.table in before then before[e.table] else []) + [e.column]];
    assert m1.Keys == m2.Keys by {
      assert forall t :: t in Tables(p) <==> t in Tables(es[..n]) || t == e.table;
    }
    forall t | t in m1 ensures m1[t] == m2[t] {
      ColumnsSnoc(es, n, t);
    }
  }

  /** A new table goes to the end of the order; a known one changes nothing. */
  lemma OrderSnoc(es: seq<Entry>, n: nat)
    requires n < |es|
    ensures FirstSeen(Tables(es[..n + 1])) ==
              if es[n].table in Tables(es[..n]) then FirstSeen(Tables(es[..n]))
              else FirstSeen(Tables(es[..n])) + [es[n].table]
  {
    TablesSnoc(es, n);
    assert Tables(es[..n + 1])[..n] == Tables(es[..n]);
  }

  lemma ColumnsSnoc(es: seq<Entry>, n: nat, t: string)
    requires n < |es|
    ensures ColumnsOf(es[..n + 1], t) == ColumnsOf(es[..n], t) + (if es[n].table == t then [es[n].column] else [])
  {
    var p := es[..n + 1];
    assert p[..n] == es[..n];
  }

  /** The number of columns stored over all tables. */
  function SumLengths(order: seq<string>, columns: map<string, seq<Column>>): nat
    requires forall t :: t in order ==> t in columns
  {
    if |order| == 0 then 0
    else
      var n := |order| - 1;
      SumLengths(order[..n], columns) + |columns[order[n]]|
  }

  lemma {:induction false} SumLengthsSame(order: seq<string>, m1: map<string, seq<Column>>, m2: map<string, seq<Column>>)
    requires forall t :: t in order ==> t in m1 && t in m2 && |m1[t]| == |m2[t]|
    ensures SumLengths(order, m1) == SumLengths(order, m2)
  {
    if |order| > 0 {
      SumLengthsSame(order[..|order| - 1], m1, m2);
    }
  }

  lemma {:induction false} SumLengthsBump(order: seq<string>, m1: map<string, seq<Column>>, m2: map<string, seq<Column>>, x: string)
    requires forall i, j :: 0 <= i < j < |order| ==> order[i] != order[j]
    requires x in order
    requires forall t :: t in order ==> t in m1 && t in m2
    requires |m2[x]| == |m1[x]| + 1
    requires forall t :: t in order && t != x ==> |m1[t]| == |m2[t]|
    ensures SumLengths(order, m2) == SumLengths(order, m1) + 1
  {
    var n := |order| - 1;
    var front := order[..n];
    if order[n] == x {
      assert forall t :: t in front ==> t != x by {
        forall t | t in front ensures t != x {
          var i :| 0 <= i < n && front[i] == t;
          assert order[i] == t;
        }
      }
      SumLengthsSame(front, m1, m2);
    } else {
      assert x in front by {
        var i :| 0 <= i < |order| && order[i] == x;
        assert i < n;
        assert front[i] == x;
      }
      SumLengthsBump(front, m1, m2, x);
    }
  }

  /** Every entry lands in exactly one table's column list. */
  lemma {:induction false} GroupCountsEveryEntry(es: seq<Entry>)
    ensures SumLengths(Group(es).order, Group(es).columns) == |es|
    decreases |es|
  {
    if |es| > 0 {
      var n := |es| - 1;
      GroupCountsEveryEntry(es[..n]);
      GroupCountStep(es, n);
      assert es[..n + 1] == es;
    }
  }

  /** One more entry stores one more pair. */
  lemma GroupCountStep(es: seq<Entry>, n: nat)
    requires n < |es|
    ensures SumLengths(Group(es[..n + 1]).order, Group(es[..n + 1]).columns) ==
              SumLengths(Group(es[..n]).order, Group(es[..n]).columns) + 1
  {
    ColumnMapSnoc(es, n);
    OrderSnoc(es, n);
    var before := Group(es[..n]);
    var after := Group(es[..n + 1]);
    var x := es[n].table;
    if x in before.columns {
      SumLengthsBump(before.order, before.columns, after.columns, x);
    } else {
      SumLengthsSame(before.order, before.columns, after.columns);
      assert after.order[..|after.order| - 1] == before.order;
    }
  }

  // ---------------------------------------------------------------------
  // The whole parse

  /** Grouping of the accepted rows. The header lookups happen inside the
      row loop, so they can fail only when there is a data row. */
  function Build(headers: seq<string>, rows: seq<seq<string>>): Result<Catalog, SchemaError>
    requires forall row :: row in rows ==> |row| == |headers|
  {
    if |rows| == 0 then Ok(Catalog([], map[]))
    else
      match HeaderIndex(headers, TableNameHeader)
      case Err(e) => Err(e)
      case Ok(ti) =>
        match HeaderIndex(headers, ColumnNameHeader)
        case Err(e) => Err(e)
        case Ok(ci) =>
          match HeaderIndex(headers, DataTypeHeader)
          case Err(e) => Err(e)
          case Ok(di) => Ok(Group(Entries(rows, ti, ci, di)))
  }

  /** What parse_schema returns for the reader's rows, or the error it raises. */
  function Parse(records: seq<seq<string>>): Result<Catalog, SchemaError> {
    if |records| == 0 then Err(EmptySource)
    else
      var headers := HeaderTokens(records[0]);
      match RepairRows(records[1..], |headers|)
      case Err(row) => Err(MalformedRow(row))
      case Ok(rows) =>
        RepairedRowsWidth(records[1..], |headers|);
        Build(headers, rows)
  }

  // ---------------------------------------------------------------------
  // Properties of the parse

  /** When the reader gives a one-field header whose comma-separated pieces
      are already clean, the header tokens joined by commas give that field
      back. */
  lemma HeaderRoundTrip(raw: seq<string>)
    requires |raw| == 1
    requires forall p :: p in Split(raw[0], Delimiter) ==> Unquote(p) == p
    ensures Join(HeaderTokens(raw), Delimiter) == raw[0]
  {
    var pieces := Split(raw[0], Delimiter);
    UnquoteAllSpec(pieces);
    assert HeaderTokens(raw) == pieces by {
      forall i | 0 <= i < |pieces| ensures HeaderTokens(raw)[i] == pieces[i] {
        assert pieces[i] in pieces;
      }
    }
  }

  /** Every field of a row the parser keeps has no surrounding whitespace. */
  lemma RepairedFieldsTrimmed(record: seq<string>, width: nat)
    ensures forall i :: 0 <= i < |Repaired(record, width)| ==> Bare(Repaired(record, width)[i], Whitespace)
  {
    var trimmed := TrimFields(record);
    TrimFieldsAt(record);
    forall i | 0 <= i < |trimmed| ensures Bare(trimmed[i], Whitespace) {
      StripIsBare(record[i]);
    }
    if |trimmed| > width {
      var keep := Min(|trimmed|, KeptFields);
      StripIsBare(Join(trimmed[keep..], Delimiter));
    }
  }

  /** A row longer than the header can only be accepted, after repair, by a
      five-field header: the repaired row has at most four kept fields plus
      the joined one. */
  lemma OverlongRowFits(record: seq<string>, width: nat)
    requires |record| > width
    ensures Fits(record, width) <==> width == KeptFields + 1
  {
  }

  /** Trimming a row is trimming each part of it. */
  lemma {:induction false} TrimFieldsAppend(a: seq<string>, b: seq<string>)
    ensures TrimFields(a + b) == TrimFields(a) + TrimFields(b)
    decreases |a|
  {
    if |a| > 0 {
      TrimFieldsAppend(a[1..], b);
      assert (a + b)[1..] == a[1..] + b;
    } else {
      assert a + b == b;
    }
  }

  /** The repair undoes the reader splitting a data type at its commas: a
      row of four fields followed by the comma-separated pieces of a type,
      each piece without surrounding whitespace, is read back under a
      five-field header as the four trimmed fields and the type itself. */
  lemma RepairRejoinsSplitType(fields: seq<string>, dataType: string)
    requires |fields| == KeptFields
    requires Delimiter in dataType
    requires forall p :: p in Split(dataType, Delimiter) ==> Bare(p, Whitespace)
    ensures Repaired(fields + Split(dataType, Delimiter), KeptFields + 1) == TrimFields(fields) + [dataType]
  {
    var pieces := Split(dataType, Delimiter);
    assert |pieces| >= 2 by {
      SplitCount(dataType, Delimiter);
    }
    assert TrimFields(fields + pieces) == TrimFields(fields) + pieces by {
      TrimFieldsAppend(fields, pieces);
      TrimFieldsBare(pieces);
    }
    assert Strip(Join(pieces, Delimiter)) == dataType by {
      JoinBare(pieces, Delimiter, Whitespace);
      StripBare(dataType);
    }
    RepairJoinsTail(TrimFields(fields), pieces);
  }

  /** A row of the kept fields and two more: its last field is the two
      trimmed pieces joined with a comma, trimmed. */
  lemma RepairedTwoPieces(fields: seq<string>, a: string, b: string)
    requires |fields| == KeptFields
    ensures Repaired(fields + [a, b], KeptFields + 1)[KeptFields] == Strip(Strip(a) + [Delimiter] + Strip(b))
  {
    var row := fields + [a, b];
    TrimFieldsAt(row);
    var t := TrimFields(row);
    assert row[KeptFields] == a && row[KeptFields + 1] == b;
    assert t[KeptFields..] == [Strip(a), Strip(b)];
    assert Join([Strip(a), Strip(b)], Delimiter) == Strip(a) + [Delimiter] + Strip(b);
  }

  /** Whitespace after a comma inside a split data type is lost: the reader
      splits a + "," + b at the comma, each piece is trimmed before the
      re-join, so leading whitespace of b does not come back. */
  lemma SplitTypeLosesSpace(fields: seq<string>, a: string, b: string)
    requires |fields| == KeptFields
    requires Delimiter !in a && Delimiter !in b
    requires Bare(a, Whitespace)
    requires |b| > 1 && b[0] in Whitespace && Bare(b[1..], Whitespace)
    ensures Split(a + [Delimiter] + b, Delimiter) == [a, b]
    ensures Repaired(fields + [a, b], KeptFields + 1)[KeptFields] == a + [Delimiter] + b[1..]
    ensures |a + [Delimiter] + b[1..]| < |a + [Delimiter] + b|
  {
    assert Delimiter !in Whitespace;
    SplitOnce(a, Delimiter, b);
    RepairedTwoPieces(fields, a, b);
    StripAroundSeparator(a, Delimiter, b);
  }

  /** The type DECIMAL(10, 2), split by the reader, is stored as
      DECIMAL(10,2). */
  lemma DecimalTypeLosesSpace()
    ensures Split("DECIMAL(10, 2)", Delimiter) == ["DECIMAL(10", " 2)"]
    ensures Repaired(["t", "c", "x", "y", "DECIMAL(10", " 2)"], KeptFields + 1)[KeptFields] == "DECIMAL(10,2)"
  {
    var a, b := "DECIMAL(10", " 2)";
    assert 'D' !in Whitespace && '0' !in Whitespace && ' ' in Whitespace && '2' !in Whitespace && ')' !in Whitespace;
    assert Bare(a, Whitespace) && Bare(b[1..], Whitespace);
    assert Delimiter !in a && Delimiter !in b;
    assert "DECIMAL(10, 2)" == a + [Delimiter] + b;
    assert "DECIMAL(10,2)" == a + [Delimiter] + b[1..];
    assert ["t", "c", "x", "y", "DECIMAL(10", " 2)"] == ["t", "c", "x", "y"] + [a, b];
    SplitTypeLosesSpace(["t", "c", "x", "y"], "DECIMAL(10", " 2)");
  }

  /** A row whose fields are already trimmed is left alone by trimming. */
  lemma {:induction false} TrimFieldsBare(row: seq<string>)
    requires forall p :: p in row ==> Bare(p, Whitespace)
    ensures TrimFields(row) == row
    decreases |row|
  {
    if |row| > 0 {
      assert row[0] in row;
      StripBare(row[0]);
      TrimFieldsBare(row[1..]);
    }
  }

  /** Four fields followed by two or more pieces are repaired, under a
      five-field header, into the four fields and the pieces re-joined. */
  lemma RepairJoinsTail(front: seq<string>, pieces: seq<string>)
    requires |front| == KeptFields && |pieces| >= 2
    ensures Repair(front + pieces, KeptFields + 1) == front + [Strip(Join(pieces, Delimiter))]
  {
    var row := front + pieces;
    assert row[..KeptFields] == front;
    assert row[KeptFields..] == pieces;
  }

  /** The reader's rows after the header hold a row that does not fit, and
      every row before it fits. */
  predicate MisfitAt(records: seq<seq<string>>, k: int)
    requires |records| > 0
  {
    var width := |HeaderTokens(records[0])|;
    && 1 <= k < |records|
    && !Fits(records[k], width)
    && forall j :: 1 <= j < k ==> Fits(records[j], width)
  }

  /** The parse stops at the first row that does not fit, whatever the rows
      before it were, and returns that repaired row instead of a catalog. */
  lemma ParseRejectsFirstMisfit(records: seq<seq<string>>, k: nat)
    requires |records| > 0 && MisfitAt(records, k)
    ensures Parse(records) == Err(MalformedRow(Repaired(records[k], |HeaderTokens(records[0])|)))
  {
    var width := |HeaderTokens(records[0])|;
    var tail := records[1..];
    RepairRowsSpec(tail, width);
    assert !Fits(tail[k - 1], width);
    assert forall j :: 0 <= j < k - 1 ==> Fits(tail[j], width) by {
      forall j | 0 <= j < k - 1 ensures Fits(tail[j], width) {
        assert tail[j] == records[j + 1];
      }
    }
    var k' :| FirstMisfit(tail, width, k') && RepairRows(tail, width).error == Repaired(tail[k'], width);
    assert k' == k - 1;
  }

  /** The parse fails with a malformed row exactly when some data row does
      not fit. */
  lemma ParseMalformedIff(records: seq<seq<string>>)
    requires |records| > 0
    ensures Parse(records).Err? && Parse(records).error.MalformedRow? <==>
              exists k :: 1 <= k < |records| && !Fits(records[k], |HeaderTokens(records[0])|)
  {
    var width := |HeaderTokens(records[0])|;
    var tail := records[1..];
    RepairRowsOk(tail, width);
    assert (exists k :: 1 <= k < |records| && !Fits(records[k], width)) <==>
           (exists k :: 0 <= k < |tail| && !Fits(tail[k], width)) by {
      forall k | 0 <= k < |tail| ensures tail[k] == records[k + 1] {}
    }
    if RepairRows(tail, width).Ok? {
      RepairedRowsWidth(tail, width);
      BuildNeverMalformed(HeaderTokens(records[0]), RepairRows(tail, width).value);
    }
  }

  /** The parse succeeds exactly when every data row fits the header and,
      when there is a data row, the three looked-up headers each occur
      once. */
  lemma ParseOkIff(records: seq<seq<string>>)
    requires |records| > 0
    ensures var headers := HeaderTokens(records[0]);
            Parse(records).Ok? <==>
              && (forall k :: 1 <= k < |records| ==> Fits(records[k], |headers|))
              && (|records| > 1 ==>
                    && HeaderIndex(headers, TableNameHeader).Ok?
                    && HeaderIndex(headers, ColumnNameHeader).Ok?
                    && HeaderIndex(headers, DataTypeHeader).Ok?)
  {
    var width := |HeaderTokens(records[0])|;
    var tail := records[1..];
    RepairRowsOk(tail, width);
    assert (forall k :: 1 <= k < |records| ==> Fits(records[k], width)) <==>
           (forall k :: 0 <= k < |tail| ==> Fits(tail[k], width)) by {
      forall k | 0 <= k < |tail| ensures tail[k] == records[k + 1] {}
    }
    if RepairRows(tail, width).Ok? {
      RepairRowsValues(tail, width);
    }
  }

  /** Grouping fails only on a header lookup. */
  lemma BuildNeverMalformed(headers: seq<string>, rows: seq<seq<string>>)
    requires forall row :: row in rows ==> |row| == |headers|
    ensures Build(headers, rows).Err? ==> !Build(headers, rows).error.MalformedRow?
  {
  }

  /** Every column in a grouped table comes from an entry of that table. */
  lemma {:induction false} ColumnsOfFrom(es: seq<Entry>, t: string)
    ensures forall c :: c in ColumnsOf(es, t) ==> exists k :: 0 <= k < |es| && es[k] == Entry(t, c)
    decreases |es|
  {
    if |es| > 0 {
      var n := |es| - 1;
      ColumnsOfFrom(es[..n], t);
      forall c | c in ColumnsOf(es, t) ensures exists k :: 0 <= k < |es| && es[k] == Entry(t, c) {
        if c in ColumnsOf(es[..n], t) {
          var k :| 0 <= k < n && es[..n][k] == Entry(t, c);
          assert es[k] == Entry(t, c);
        } else {
          assert es[n] == Entry(t, c);
        }
      }
    }
  }

  /** The positions of the entries of table t. */
  function RowsOf(es: seq<Entry>, t: string): (ks: seq<nat>)
    decreases |es|
  {
    if |es| == 0 then []
    else
      var n := |es| - 1;
      RowsOf(es[..n], t) + (if es[n].table == t then [n] else [])
  }

  /** The positions of table t are increasing and are exactly the entries
      that name t. */
  lemma {:induction false} RowsOfSpec(es: seq<Entry>, t: string)
    ensures forall m :: 0 <= m < |RowsOf(es, t)| ==> RowsOf(es, t)[m] < |es| && es[RowsOf(es, t)[m]].table == t
    ensures forall a, b :: 0 <= a < b < |RowsOf(es, t)| ==> RowsOf(es, t)[a] < RowsOf(es, t)[b]
    ensures forall k :: 0 <= k < |es| && es[k].table == t ==> k in RowsOf(es, t)
    decreases |es|
  {
    if |es| > 0 {
      var n := |es| - 1;
      var front := es[..n];
      RowsOfSpec(front, t);
      var ks0 := RowsOf(front, t);
      forall m | 0 <= m < |ks0| ensures es[ks0[m]] == front[ks0[m]] {
      }
      forall k | 0 <= k < n && es[k].table == t ensures k in ks0 {
        assert front[k] == es[k];
      }
    }
  }

  /** Table t's column list holds, in row order, the column of every entry
      of t: its m-th pair is the pair of the m-th entry naming t. */
  lemma {:induction false} ColumnsInRowOrder(es: seq<Entry>, t: string)
    ensures |ColumnsOf(es, t)| == |RowsOf(es, t)|
    ensures forall m :: 0 <= m < |RowsOf(es, t)| ==>
              RowsOf(es, t)[m] < |es| && es[RowsOf(es, t)[m]] == Entry(t, ColumnsOf(es, t)[m])
    decreases |es|
  {
    RowsOfSpec(es, t);
    if |es| > 0 {
      var n := |es| - 1;
      var front := es[..n];
      ColumnsInRowOrder(front, t);
      assert es[..n + 1] == es;
      var ks0 := RowsOf(front, t);
      forall m | 0 <= m < |ks0| ensures es[ks0[m]] == front[ks0[m]] {
      }
    }
  }

  /** The pairs stored under a table, in order, are those of the rows that
      name it, in row order: the column name lower-cased and the data type
      copied as it is. */
  lemma GroupedPairs(rows: seq<seq<string>>, ti: nat, ci: nat, di: nat, t: string)
    requires forall row :: row in rows ==> ti < |row| && ci < |row| && di < |row|
    requires t in Group(Entries(rows, ti, ci, di)).columns
    ensures var ks := RowsOf(Entries(rows, ti, ci, di), t);
            var cols := Group(Entries(rows, ti, ci, di)).columns[t];
            && |cols| == |ks|
            && forall m :: 0 <= m < |ks| ==>
                 && ks[m] < |rows|
                 && Lower(rows[ks[m]][ti]) == t
                 && cols[m] == Column(Lower(rows[ks[m]][ci]), rows[ks[m]][di])
  {
    var es := Entries(rows, ti, ci, di);
    ColumnsInRowOrder(es, t);
  }

  /** How an accepted parse is built: every data row fits, and with at least
      one data row the three headers are found and the catalog is the grouping
      of the repaired rows. */
  lemma ParseOkShape(records: seq<seq<string>>, cat: Catalog)
    requires Parse(records) == Ok(cat)
    ensures |records| > 0
    ensures var width := |HeaderTokens(records[0])|;
            && RepairRows(records[1..], width).Ok?
            && (forall row :: row in RepairRows(records[1..], width).value ==> |row| == width)
    ensures |records| == 1 ==> cat == Catalog([], map[])
    ensures |records| > 1 ==>
              var headers := HeaderTokens(records[0]);
              var rows := RepairRows(records[1..], |headers|).value;
              && HeaderIndex(headers, TableNameHeader).Ok?
              && HeaderIndex(headers, ColumnNameHeader).Ok?
              && HeaderIndex(headers, DataTypeHeader).Ok?
              && cat == Group(Entries(rows, HeaderIndex(headers, TableNameHeader).value,
                                      HeaderIndex(headers, ColumnNameHeader).value,
                                      HeaderIndex(headers, DataTypeHeader).value))
  {
    var width := |HeaderTokens(records[0])|;
    RepairedRowsWidth(records[1..], width);
    RepairRowsSpec(records[1..], width);
  }

  /** Every pair stored under table t comes from an entry of that table. */
  lemma GroupedFrom(es: seq<Entry>, t: string, c: Column)
    requires t in Group(es).columns && c in Group(es).columns[t]
    ensures exists k :: 0 <= k < |es| && es[k] == Entry(t, c)
  {
    assert c in ColumnsOf(es, t);
    ColumnsOfFrom(es, t);
  }

  /** The grouping stores lower-cased column names. */
  lemma GroupedNamesLower(rows: seq<seq<string>>, ti: nat, ci: nat, di: nat)
    requires forall row :: row in rows ==> ti < |row| && ci < |row| && di < |row|
    ensures forall t, c :: t in Group(Entries(rows, ti, ci, di)).columns && c in Group(Entries(rows, ti, ci, di)).columns[t] ==>
              Lower(c.name) == c.name
  {
    var es := Entries(rows, ti, ci, di);
    forall t, c | t in Group(es).columns && c in Group(es).columns[t]
      ensures Lower(c.name) == c.name
    {
      GroupedFrom(es, t, c);
      var k :| 0 <= k < |es| && es[k] == Entry(t, c);
      LowerIsLower(rows[k][ci]);
    }
  }

  /** Table names and column names without surrounding whitespace in the
      rows are stored without it. */
  lemma GroupedNamesTrimmed(rows: seq<seq<string>>, ti: nat, ci: nat, di: nat)
    requires forall row :: row in rows ==> ti < |row| && ci < |row| && di < |row|
    requires forall k :: 0 <= k < |rows| ==> Bare(rows[k][ti], Whitespace)
    requires forall k :: 0 <= k < |rows| ==> Bare(rows[k][ci], Whitespace)
    ensures forall t :: t in Group(Entries(rows, ti, ci, di)).columns ==> Bare(t, Whitespace)
    ensures forall t, c :: t in Group(Entries(rows, ti, ci, di)).columns && c in Group(Entries(rows, ti, ci, di)).columns[t] ==>
              Bare(c.name, Whitespace)
  {
    var es := Entries(rows, ti, ci, di);
    forall t | t in Group(es).columns ensures Bare(t, Whitespace) {
      var k :| 0 <= k < |es| && Tables(es)[k] == t;
      LowerKeepsBare(rows[k][ti]);
    }
    forall t, c | t in Group(es).columns && c in Group(es).columns[t]
      ensures Bare(c.name, Whitespace)
    {
      GroupedFrom(es, t, c);
      var k :| 0 <= k < |es| && es[k] == Entry(t, c);
      LowerKeepsBare(rows[k][ci]);
    }
  }

  /** The grouping stores the data type fields as they are in the rows. */
  lemma GroupedTypesTrimmed(rows: seq<seq<string>>, ti: nat, ci: nat, di: nat)
    requires forall row :: row in rows ==> ti < |row| && ci < |row| && di < |row|
    requires forall k :: 0 <= k < |rows| ==> Bare(rows[k][di], Whitespace)
    ensures forall t, c :: t in Group(Entries(rows, ti, ci, di)).columns && c in Group(Entries(rows, ti, ci, di)).columns[t] ==>
              Bare(c.dataType, Whitespace)
  {
    var es := Entries(rows, ti, ci, di);
    forall t, c | t in Group(es).columns && c in Group(es).columns[t]
      ensures Bare(c.dataType, Whitespace)
    {
      GroupedFrom(es, t, c);
    }
  }

  /** What the parse promises of the catalog it returns: a well-formed
      dictionary, exactly one stored pair per data row, lower-cased column
      names, and table names, column names and data types without
      surrounding whitespace. */
  lemma ParsedCatalog(records: seq<seq<string>>, cat: Catalog)
    requires Parse(records) == Ok(cat)
    ensures cat.Valid()
    ensures SumLengths(cat.order, cat.columns) == |records| - 1
    ensures forall t, c :: t in cat.columns && c in cat.columns[t] ==> Lower(c.name) == c.name
    ensures forall t, c :: t in cat.columns && c in cat.columns[t] ==> Bare(c.dataType, Whitespace)
    ensures forall t, c :: t in cat.columns && c in cat.columns[t] ==> Bare(c.name, Whitespace)
    ensures forall t :: t in cat.columns ==> Bare(t, Whitespace)
  {
    ParseOkShape(records, cat);
    var headers := HeaderTokens(records[0]);
    var tail := records[1..];
    RepairRowsValues(tail, |headers|);
    if |records| > 1 {
      GroupedCatalog(tail, |headers|, HeaderIndex(headers, TableNameHeader).value,
                     HeaderIndex(headers, ColumnNameHeader).value, HeaderIndex(headers, DataTypeHeader).value);
    }
  }

  /** The grouping of the accepted rows, in the terms ParsedCatalog states. */
  lemma GroupedCatalog(tail: seq<seq<string>>, width: nat, ti: nat, ci: nat, di: nat)
    requires RepairRows(tail, width).Ok?
    requires ti < width && ci < width && di < width
    ensures var rows := RepairRows(tail, width).value;
            (forall row :: row in rows ==> |row| == width) &&
            var cat := Group(Entries(rows, ti, ci, di));
            && SumLengths(cat.order, cat.columns) == |tail|
            && (forall t, c :: t in cat.columns && c in cat.columns[t] ==> Lower(c.name) == c.name)
            && (forall t, c :: t in cat.columns && c in cat.columns[t] ==> Bare(c.dataType, Whitespace))
            && (forall t, c :: t in cat.columns && c in cat.columns[t] ==> Bare(c.name, Whitespace))
            && (forall t :: t in cat.columns ==> Bare(t, Whitespace))
  {
    RepairedRowsWidth(tail, width);
    RepairRowsValues(tail, width);
    var rows := RepairRows(tail, width).value;
    forall k | 0 <= k < |rows|
      ensures Bare(rows[k][ti], Whitespace)
      ensures Bare(rows[k][ci], Whitespace)
      ensures Bare(rows[k][di], Whitespace)
    {
      RepairedFieldsTrimmed(tail[k], width);
    }
    GroupCountsEveryEntry(Entries(rows, ti, ci, di));
    GroupedNamesLower(rows, ti, ci, di);
    GroupedTypesTrimmed(rows, ti, ci, di);
    GroupedNamesTrimmed(rows, ti, ci, di);
  }

  /** The catalog's tables are exactly the lower-cased TABLE_NAME fields of
      the data rows. */
  lemma ParsedTables(records: seq<seq<string>>, cat: Catalog, ti: nat)
    requires Parse(records) == Ok(cat) && |records| > 1
    requires HeaderIndex(HeaderTokens(records[0]), TableNameHeader) == Ok(ti)
    ensures forall k :: 1 <= k < |records| ==> ti < |Repaired(records[k], |HeaderTokens(records[0])|)|
    ensures forall t :: t in cat.columns <==>
              exists k :: 1 <= k < |records| && t == Lower(Repaired(records[k], |HeaderTokens(records[0])|)[ti])
  {
    var width := |HeaderTokens(records[0])|;
    ParsedRows(records, cat, ti);
    ShiftedTables(records, cat.columns.Keys, ti, width, RepairRows(records[1..], width).value);
  }

  /** The rows accepted after the header are the repaired data rows. */
  lemma AcceptedRows(records: seq<seq<string>>, width: nat)
    requires |records| > 0 && RepairRows(records[1..], width).Ok?
    ensures |RepairRows(records[1..], width).value| == |records| - 1
    ensures forall k :: 1 <= k < |records| ==> Repaired(records[k], width) == RepairRows(records[1..], width).value[k - 1]
  {
    var tail := records[1..];
    RepairRowsValues(tail, width);
    forall k | 1 <= k < |records| ensures Repaired(records[k], width) == RepairRows(tail, width).value[k - 1] {
      assert tail[k - 1] == records[k];
    }
  }

  /** Tables named by the accepted rows are the tables named by the rows
      after the header, repaired. */
  lemma ShiftedTables(records: seq<seq<string>>, tables: set<string>, ti: nat, width: nat, rows: seq<seq<string>>)
    requires |rows| == |records| - 1
    requires forall k :: 1 <= k < |records| ==> Repaired(records[k], width) == rows[k - 1]
    requires forall k :: 0 <= k < |rows| ==> ti < |rows[k]|
    requires forall t :: t in tables <==> exists k :: 0 <= k < |rows| && t == Lower(rows[k][ti])
    ensures forall k :: 1 <= k < |records| ==> ti < |Repaired(records[k], width)|
    ensures forall t :: t in tables <==> exists k :: 1 <= k < |records| && t == Lower(Repaired(records[k], width)[ti])
  {
    forall t ensures t in tables <==> exists k :: 1 <= k < |records| && t == Lower(Repaired(records[k], width)[ti]) {
      ShiftedTable(records, width, ti, rows, t);
    }
  }

  /** The accepted rows of a successful parse, and the tables grouped from
      them. */
  lemma ParsedRows(records: seq<seq<string>>, cat: Catalog, ti: nat)
    requires Parse(records) == Ok(cat) && |records| > 1
    requires HeaderIndex(HeaderTokens(records[0]), TableNameHeader) == Ok(ti)
    ensures var width := |HeaderTokens(records[0])|;
            && RepairRows(records[1..], width).Ok?
            && var rows := RepairRows(records[1..], width).value;
            && |rows| == |records| - 1
            && (forall k :: 1 <= k < |records| ==> Repaired(records[k], width) == rows[k - 1])
            && (forall k :: 0 <= k < |rows| ==> ti < |rows[k]|)
            && (forall t :: t in cat.columns.Keys <==> exists k :: 0 <= k < |rows| && t == Lower(rows[k][ti]))
  {
    var headers := HeaderTokens(records[0]);
    var width := |headers|;
    ParseOkShape(records, cat);
    var rows := RepairRows(records[1..], width).value;
    AcceptedRows(records, width);
    forall k | 0 <= k < |rows| ensures ti < |rows[k]| {
      assert rows[k] in rows;
    }
    var ci := HeaderIndex(headers, ColumnNameHeader).value;
    var di := HeaderIndex(headers, DataTypeHeader).value;
    GroupedTables(rows, ti, ci, di);
  }

  /** Shifting the table fields of the accepted rows by the header row. */
  lemma ShiftedTable(records: seq<seq<string>>, width: nat, ti: nat, rows: seq<seq<string>>, t: string)
    requires |rows| == |records| - 1
    requires forall k :: 0 <= k < |rows| ==> ti < |rows[k]|
    requires forall k :: 1 <= k < |records| ==> Repaired(records[k], width) == rows[k - 1]
    ensures (exists k :: 0 <= k < |rows| && t == Lower(rows[k][ti])) <==>
            (exists k :: 1 <= k < |records| && t == Lower(Repaired(records[k], width)[ti]))
  {
    if exists k :: 0 <= k < |rows| && t == Lower(rows[k][ti]) {
      var k :| 0 <= k < |rows| && t == Lower(rows[k][ti]);
      assert t == Lower(Repaired(records[k + 1], width)[ti]);
    }
  }

  /** The grouping has a table for every lower-cased table field and no other. */
  lemma GroupedTables(rows: seq<seq<string>>, ti: nat, ci: nat, di: nat)
    requires forall row :: row in rows ==> ti < |row| && ci < |row| && di < |row|
    ensures forall t :: t in Group(Entries(rows, ti, ci, di)).columns <==>
              exists k :: 0 <= k < |rows| && t == Lower(rows[k][ti])
  {
    var es := Entries(rows, ti, ci, di);
    forall t ensures t in Group(es).columns <==> exists k :: 0 <= k < |rows| && t == Lower(rows[k][ti]) {
      if t in Group(es).columns {
        var k :| 0 <= k < |es| && Tables(es)[k] == t;
        assert t == Lower(rows[k][ti]);
      }
      if exists k :: 0 <= k < |rows| && t == Lower(rows[k][ti]) {
        var k :| 0 <= k < |rows| && t == Lower(rows[k][ti]);
        assert Tables(es)[k] == t;
      }
    }
  }

  /** parse_schema: the header, a first loop that trims, repairs and checks
      every data row, and a second loop that groups the accepted rows by
      table into an insertion-ordered dictionary. */
  method ParseSchema(records: seq<seq<string>>) returns (r: Result<Catalog, SchemaError>)
    ensures r == Parse(records)
  {
    if |records| == 0 {
      return Err(EmptySource);
    }
    var headers := HeaderTokens(records[0]);
    var checked := CheckRows(records[1..], |headers|);
    if checked.Err? {
      return Err(MalformedRow(checked.error));
    }
    var rows := checked.value;
    RepairedRowsWidth(records[1..], |headers|);
    if |rows| == 0 {
      return Ok(Catalog([], map[]));
    }
    var ti, ci, di;
    match HeaderIndex(headers, TableNameHeader) {
      case Err(e) => return Err(e);
      case Ok(v) => ti := v;
    }
    match HeaderIndex(headers, ColumnNameHeader) {
      case Err(e) => return Err(e);
      case Ok(v) => ci := v;
    }
    match HeaderIndex(headers, DataTypeHeader) {
      case Err(e) => return Err(e);
      case Ok(v) => di := v;
    }
    var cat := GroupRows(rows, ti, ci, di);
    return Ok(cat);
  }

  /** The first loop of parse_schema: each row trimmed and, when longer than
      the header, repaired; the first row whose length then differs from the
      header's stops the parse. */
  method CheckRows(records: seq<seq<string>>, width: nat) returns (r: Result<seq<seq<string>>, seq<string>>)
    ensures r == RepairRows(records, width)
  {
    var rows: seq<seq<string>> := [];
    for i := 0 to |records|
      invariant RepairRows(records[..i], width) == Ok(rows)
    {
      var row := TrimFields(records[i]);
      if |row| > width {
        var keep := Min(|row|, KeptFields);
        row := row[..keep] + [Strip(Join(row[keep..], Delimiter))];
      }
      assert records[..i + 1][..i] == records[..i];
      if |row| != width {
        RepairRowsErrExtends(records, width, i + 1);
        return Err(row);
      }
      rows := rows + [row];
    }
    assert records[..|records|] == records;
    return Ok(rows);
  }

  /** The second loop of parse_schema: each row's table gets a fresh list
      the first time it is seen, and the row's (column, type) pair is
      appended to it. */
  method GroupRows(rows: seq<seq<string>>, ti: nat, ci: nat, di: nat) returns (cat: Catalog)
    requires forall row :: row in rows ==> ti < |row| && ci < |row| && di < |row|
    ensures cat == Group(Entries(rows, ti, ci, di))
  {
    ghost var es := Entries(rows, ti, ci, di);
    var order: seq<string> := [];
    var defs: map<string, seq<Column>> := map[];
    for i := 0 to |rows|
      invariant order == FirstSeen(Tables(es[..i]))
      invariant defs == ColumnMap(es[..i])
    {
      var table := Lower(rows[i][ti]);
      var column := Lower(rows[i][ci]);
      var dataType := rows[i][di];
      GroupStep(es, i, table, Column(column, dataType));
      if table !in defs {
        defs := defs[table := []];
        order := order + [table];
      }
      defs := defs[table := defs[table] + [Column(column, dataType)]];
    }
    assert es[..|rows|] == es;
    return Catalog(order, defs);
  }

  /** One step of the grouping loop, stated on the loop's own variables:
      the order grows by a table the first time it is seen, and the table's
      list grows by the row's pair. */
  lemma GroupStep(es: seq<Entry>, i: nat, table: string, column: Column)
    requires i < |es| && es[i] == Entry(table, column)
    ensures var order, defs := FirstSeen(Tables(es[..i])), ColumnMap(es[..i]);
            var defs' := if table in defs then defs else defs[table := []];
            && FirstSeen(Tables(es[..i + 1])) == (if table in defs then order else order + [table])
            && ColumnMap(es[..i + 1]) == defs'[table := defs'[table] + [column]]
  {
    OrderSnoc(es, i);
    ColumnMapSnoc(es, i);
  }
}
