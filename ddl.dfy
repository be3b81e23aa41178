/** Table creation (create_tables in main.py): one CREATE TABLE IF NOT EXISTS
    statement per catalog table, in the catalog's insertion order, each with
    one "<column> <type>" clause per stored column. The database is not
    modelled: the outcome of executing a statement is a parameter. */
module Ddl {
  import opened Wrappers
  import opened Text
  import opened Schema

  /** "<column> <type>", the type stripped of whitespace and then of double
      quotes. */
  function ColumnClause(c: Column): string {
    c.name + " " + Unquote(c.dataType)
  }

  /** The col_defs list of one table: a clause per stored column, in order. */
  function ColumnClauses(cols: seq<Column>): (clauses: seq<string>)
    ensures |clauses| == |cols|
  {
    seq(|cols|, i requires 0 <= i < |cols| => ColumnClause(cols[i]))
  }

  /** The statement create_tables builds for one table. */
  datatype Statement = CreateTable(table: string, clauses: seq<string>)

  /** One iteration of the loop: the statement and whether executing it
      succeeded. */
  datatype Attempt = Attempt(statement: Statement, created: bool)

  /** The statements for tables listed in order, each with its stored columns. */
  function StatementsFor(order: seq<string>, columns: map<string, seq<Column>>): (stmts: seq<Statement>)
    requires forall t :: t in order ==> t in columns
    ensures |stmts| == |order|
  {
    seq(|order|, i requires 0 <= i < |order| => CreateTable(order[i], ColumnClauses(columns[order[i]])))
  }

  /** The statements create_tables issues for a catalog, in its order. */
  function CreateStatements(cat: Catalog): (stmts: seq<Statement>)
    requires cat.Valid()
    ensures |stmts| == |cat.order|
  {
    StatementsFor(cat.order, cat.columns)
  }

  /** The number of column clauses over a list of statements. */
  function ClauseCount(stmts: seq<Statement>): nat {
    if |stmts| == 0 then 0
    else ClauseCount(stmts[..|stmts| - 1]) + |stmts[|stmts| - 1].clauses|
  }

  /** create_tables: every table of the catalog is attempted, in order, and
      a failed statement does not stop the tables after it. */
  method CreateTables(cat: Catalog, executes: Statement -> bool) returns (attempts: seq<Attempt>)
    requires cat.Valid()
    ensures |attempts| == |cat.order|
    ensures forall i :: 0 <= i < |attempts| ==>
              attempts[i] == Attempt(CreateStatements(cat)[i], executes(CreateStatements(cat)[i]))
  {
    attempts := [];
    for i := 0 to |cat.order|
      invariant |attempts| == i
      invariant forall j :: 0 <= j < i ==>
                  attempts[j] == Attempt(CreateStatements(cat)[j], executes(CreateStatements(cat)[j]))
    {
      var table := cat.order[i];
      var colDefs := ColumnClauses(cat.columns[table]);
      var stmt := CreateTable(table, colDefs);
      var ok := executes(stmt);
      attempts := attempts + [Attempt(stmt, ok)];
    }
  }

  // ---------------------------------------------------------------------
  // Properties of the statements

  /** A clause splits back, at its first space, into the column name and
      the stripped type, as long as the name holds no space. */
  lemma ClauseSplitsBack(c: Column)
    requires ' ' !in c.name
    ensures Split(ColumnClause(c), ' ')[0] == c.name
    ensures Join(Split(ColumnClause(c), ' ')[1..], ' ') == Unquote(c.dataType)
  {
    var u := Unquote(c.dataType);
    assert ColumnClause(c) == c.name + [' '] + u;
    SplitAfterPrefix(c.name, u, ' ');
    assert Split(ColumnClause(c), ' ')[1..] == Split(u, ' ');
  }

  /** A type without surrounding whitespace or quotes is copied into its
      clause as it is. */
  lemma CleanTypeCopied(c: Column)
    requires Bare(c.dataType, Whitespace) && Bare(c.dataType, QuoteChars)
    ensures ColumnClause(c) == c.name + " " + c.dataType
  {
    StripBare(c.dataType);
    StripCharsUnique(c.dataType, QuoteChars, 0, |c.dataType|);
    assert c.dataType[0..|c.dataType|] == c.dataType;
  }

  /** The statement for a prefix of the order is the prefix of the
      statements. */
  lemma StatementsForPrefix(order: seq<string>, columns: map<string, seq<Column>>, n: nat)
    requires forall t :: t in order ==> t in columns
    requires n <= |order|
    ensures StatementsFor(order, columns)[..n] == StatementsFor(order[..n], columns)
  {
  }

  /** The statements hold one clause per stored column. */
  lemma {:induction false} ClauseCountIsSumLengths(order: seq<string>, columns: map<string, seq<Column>>)
    requires forall t :: t in order ==> t in columns
    ensures ClauseCount(StatementsFor(order, columns)) == SumLengths(order, columns)
    decreases |order|
  {
    if |order| > 0 {
      var n := |order| - 1;
      ClauseCountIsSumLengths(order[..n], columns);
      StatementsForPrefix(order, columns, n);
    }
  }

  /** One statement per table of a catalog, in its order, each table
      named once, and one clause per stored column in all. */
  lemma CatalogStatements(cat: Catalog)
    requires cat.Valid()
    ensures forall i :: 0 <= i < |cat.order| ==> CreateStatements(cat)[i].table == cat.order[i]
    ensures forall i, j :: 0 <= i < j < |cat.order| ==> CreateStatements(cat)[i].table != CreateStatements(cat)[j].table
    ensures ClauseCount(CreateStatements(cat)) == SumLengths(cat.order, cat.columns)
  {
    ClauseCountIsSumLengths(cat.order, cat.columns);
  }

  /** For a parsed catalog, the statements hold one clause per data row. */
  lemma ParsedStatements(records: seq<seq<string>>, cat: Catalog)
    requires Parse(records) == Ok(cat)
    ensures cat.Valid()
    ensures ClauseCount(CreateStatements(cat)) == |records| - 1
  {
    ParsedCatalog(records, cat);
    CatalogStatements(cat);
  }
}
