/** `QueryValidator.validate_queries`: checks each SQL query's identifier
    references against the tables and columns of a schema.

    The SQL tokeniser is a foreign library. It is modelled by the parameter
    `parse`, which for a query yields either the names of its identifier
    tokens in token order (`token.get_name()` for each `Identifier` of
    `parsed.flatten()`) or the text of the exception parsing raised. */
module QueryValidator {
  import opened Wrappers
  import opened JsonValues
  import opened Schemas

  /** One entry of the result list: `{'query', 'is_valid', 'errors'}`. */
  datatype QueryResult = QueryResult(query: string, isValid: bool, errors: seq<string>)

  /** Identifier names of a query, or the parsing exception's message. */
  type Parser = string -> Result<seq<string>, string>

  const TableErrorPrefix := "Referenced table not found: "

  const ColumnErrorPrefix := "Referenced column not found: "

  function TableNotFound(table: string): string
  {
    TableErrorPrefix + table
  }

  function ColumnNotFound(table: string, column: string): string
  {
    ColumnErrorPrefix + table + "." + column
  }

  predicate StartsWith(s: string, prefix: string)
  {
    |prefix| <= |s| && s[..|prefix|] == prefix
  }

  function ParsingError(message: string): string
  {
    "Query parsing error: " + message
  }

  // ----- `str.split('.')` -----

  /** Python's `s.split('.')`: the maximal dot-free pieces between dots,
      empty pieces included, so there is always at least one. */
  function SplitDot(s: string): (parts: seq<string>)
    ensures |parts| >= 1
    ensures forall i :: 0 <= i < |parts| ==> '.' !in parts[i]
  {
    if s == [] then [""]
    else if s[0] == '.' then [""] + SplitDot(s[1..])
    else
      var rest := SplitDot(s[1..]);
      [[s[0]] + rest[0]] + rest[1..]
  }

  /** `'.'.join(parts)` */
  function JoinDot(parts: seq<string>): string
    requires |parts| >= 1
  {
    if |parts| == 1 then parts[0] else parts[0] + "." + JoinDot(parts[1..])
  }

  /** Splitting and joining again gives back the name. */
  lemma {:induction false} JoinSplit(s: string)
    ensures JoinDot(SplitDot(s)) == s
  {
    if s != [] {
      JoinSplit(s[1..]);
      var rest := SplitDot(s[1..]);
      if s[0] == '.' {
        assert s == "" + "." + s[1..];
      } else if |rest| == 1 {
        assert s == [s[0]] + rest[0];
      } else {
        assert JoinDot(rest) == rest[0] + "." + JoinDot(rest[1..]);
        assert s == ([s[0]] + rest[0]) + "." + JoinDot(rest[1..]);
      }
    }
  }

  /** Joining dot-free pieces and splitting again gives back the pieces. */
  lemma {:induction false} SplitJoin(parts: seq<string>)
    requires |parts| >= 1
    requires forall i :: 0 <= i < |parts| ==> '.' !in parts[i]
    ensures SplitDot(JoinDot(parts)) == parts
    decreases |parts|, |parts[0]|
  {
    var p := parts[0];
    if p == [] {
      if |parts| > 1 {
        var tail := parts[1..];
        SplitJoin(tail);
        assert JoinDot(parts) == "." + JoinDot(tail);
        assert JoinDot(parts)[1..] == JoinDot(tail);
        assert parts == [""] + tail;
      }
    } else {
      var shorter := [p[1..]] + parts[1..];
      assert '.' !in p[1..] by {
        forall j | 0 <= j < |p[1..]| ensures p[1..][j] != '.' {
          assert p[1..][j] == p[j + 1];
        }
      }
      assert forall i :: 0 < i < |shorter| ==> shorter[i] == parts[i];
      SplitJoin(shorter);
      var s := JoinDot(parts);
      if |parts| == 1 {
        assert s == [p[0]] + p[1..];
      } else {
        assert s == [p[0]] + JoinDot(shorter);
      }
      assert s[0] == p[0] && s[1..] == JoinDot(shorter);
      assert p[0] != '.' by { assert p[0] == parts[0][0]; }
      assert p == [p[0]] + p[1..];
      assert shorter[1..] == parts[1..];
      assert parts == [[p[0]] + p[1..]] + shorter[1..];
    }
  }

  /** The column reference a name denotes: the two pieces of a name with
      exactly one dot. */
  function ColumnReference(name: string): Option<(string, string)>
  {
    var parts := SplitDot(name);
    if |parts| == 2 then Some((parts[0], parts[1])) else None
  }

  /** A name is a column reference `(t, c)` exactly when it is `t.c` with
      `t` and `c` free of dots. */
  lemma ColumnReferenceExact(name: string, table: string, column: string)
    ensures ColumnReference(name) == Some((table, column))
      <==> name == table + "." + column && '.' !in table && '.' !in column
  {
    JoinSplit(name);
    if name == table + "." + column && '.' !in table && '.' !in column {
      SplitJoin([table, column]);
    }
  }

  /** `_extract_column_references`, over the identifier names. */
  function ColumnReferences(names: seq<string>): seq<(string, string)>
  {
    if names == [] then []
    else
      var last := names[|names| - 1];
      ColumnReferences(names[..|names| - 1])
        + (if ColumnReference(last).Some? then [ColumnReference(last).value] else [])
  }

  lemma {:induction false} ColumnReferencesExact(names: seq<string>, ref: (string, string))
    ensures ref in ColumnReferences(names) <==> exists i :: 0 <= i < |names| && ColumnReference(names[i]) == Some(ref)
  {
    if names != [] {
      var init := names[..|names| - 1];
      ColumnReferencesExact(init, ref);
      if exists i :: 0 <= i < |init| && ColumnReference(init[i]) == Some(ref) {
        var i :| 0 <= i < |init| && ColumnReference(init[i]) == Some(ref);
        assert names[i] == init[i];
      }
      if exists i :: 0 <= i < |names| && ColumnReference(names[i]) == Some(ref) {
        var i :| 0 <= i < |names| && ColumnReference(names[i]) == Some(ref);
        if i < |init| {
          assert init[i] == names[i];
        }
      }
    }
  }

  /** `_extract_column_references(parsed)`. */
  method ExtractColumnReferences(names: seq<string>) returns (columns: seq<(string, string)>)
    ensures columns == ColumnReferences(names)
  {
    columns := [];
    var i := 0;
    while i < |names|
      invariant 0 <= i <= |names|
      invariant columns == ColumnReferences(names[..i])
    {
      assert names[..i + 1][..i] == names[..i];
      var parts := SplitDot(names[i]);
      if |parts| == 2 {
        columns := columns + [(parts[0], parts[1])];
      }
      i := i + 1;
    }
    assert names[..i] == names;
  }

  // ----- Checks against the schema -----

  /** `{c['name'] for c in table['columns']}` */
  function ColumnNames(t: Table): set<string>
  {
    set i | 0 <= i < |t.columns| :: t.columns[i].name
  }

  /** One error per referenced name that is not a table, in reference order. */
  function TableErrors(tables: seq<string>, schemaTables: map<string, Table>): seq<string>
  {
    if tables == [] then []
    else
      var last := tables[|tables| - 1];
      TableErrors(tables[..|tables| - 1], schemaTables)
        + (if last !in schemaTables then [TableNotFound(last)] else [])
  }

  /** One error per column reference to a known table that lacks the column. */
  function ColumnErrors(columns: seq<(string, string)>, schemaTables: map<string, Table>): seq<string>
  {
    if columns == [] then []
    else
      var (t, c) := columns[|columns| - 1];
      ColumnErrors(columns[..|columns| - 1], schemaTables)
        + (if t in schemaTables && c !in ColumnNames(schemaTables[t]) then [ColumnNotFound(t, c)] else [])
  }

  /** The result `validate_queries` records for one query. */
  function CheckQuery(query: string, schemaTables: map<string, Table>, parse: Parser): QueryResult
  {
    match parse(query)
    case Err(message) => QueryResult(query, false, [ParsingError(message)])
    case Ok(names) =>
      var errors := TableErrors(names, schemaTables) + ColumnErrors(ColumnReferences(names), schemaTables);
      QueryResult(query, errors == [], errors)
  }

  /** The body of the loop of `validate_queries` for one query. */
  method ValidateQuery(query: string, schemaTables: map<string, Table>, parse: Parser) returns (result: QueryResult)
    ensures result == CheckQuery(query, schemaTables, parse)
  {
    result := QueryResult(query, true, []);
    match parse(query)
    case Err(message) =>
      result := result.(isValid := false, errors := result.errors + [ParsingError(message)]);
    case Ok(names) =>
      var tablesReferenced := names;
      var columnsReferenced := ExtractColumnReferences(names);
      var i := 0;
      while i < |tablesReferenced|
        invariant 0 <= i <= |tablesReferenced|
        invariant result == QueryResult(query, TableErrors(tablesReferenced[..i], schemaTables) == [],
                                        TableErrors(tablesReferenced[..i], schemaTables))
      {
        assert tablesReferenced[..i + 1][..i] == tablesReferenced[..i];
        var table := tablesReferenced[i];
        if table !in schemaTables {
          result := result.(isValid := false, errors := result.errors + [TableNotFound(table)]);
        }
        i := i + 1;
      }
      assert tablesReferenced[..i] == tablesReferenced;
      ghost var tableErrors := result.errors;
      var j := 0;
      while j < |columnsReferenced|
        invariant 0 <= j <= |columnsReferenced|
        invariant result.query == query
        invariant result.errors == tableErrors + ColumnErrors(columnsReferenced[..j], schemaTables)
        invariant result.isValid == (result.errors == [])
      {
        assert columnsReferenced[..j + 1][..j] == columnsReferenced[..j];
        var (table, column) := columnsReferenced[j];
        if table in schemaTables {
          var schemaColumns := ColumnNames(schemaTables[table]);
          if column !in schemaColumns {
            result := result.(isValid := false, errors := result.errors + [ColumnNotFound(table, column)]);
          }
        }
        j := j + 1;
      }
      assert columnsReferenced[..j] == columnsReferenced;
  }

  /** `validate_queries(queries, schema)`: one result per query, in order,
      each depending only on its own query. */
  method ValidateQueries(queries: seq<string>, schema: Schema, parse: Parser) returns (results: seq<QueryResult>)
    ensures |results| == |queries|
    ensures forall i :: 0 <= i < |queries| ==> results[i] == CheckQuery(queries[i], TableMap(schema), parse)
  {
    results := [];
    var schemaTables := TableMap(schema);
    for i := 0 to |queries|
      invariant |results| == i
      invariant forall k :: 0 <= k < i ==> results[k] == CheckQuery(queries[k], schemaTables, parse)
    {
      var result := ValidateQuery(queries[i], schemaTables, parse);
      results := results + [result];
    }
  }

  // ----- Properties of the checks -----

  /** Table errors are for exactly the unknown names. */
  lemma {:induction false} TableErrorsExact(tables: seq<string>, schemaTables: map<string, Table>, e: string)
    ensures e in TableErrors(tables, schemaTables)
      <==> exists i :: 0 <= i < |tables| && tables[i] !in schemaTables && e == TableNotFound(tables[i])
  {
    if tables != [] {
      var init := tables[..|tables| - 1];
      TableErrorsExact(init, schemaTables, e);
      if exists i :: 0 <= i < |init| && init[i] !in schemaTables && e == TableNotFound(init[i]) {
        var i :| 0 <= i < |init| && init[i] !in schemaTables && e == TableNotFound(init[i]);
        assert tables[i] == init[i];
      }
      if exists i :: 0 <= i < |tables| && tables[i] !in schemaTables && e == TableNotFound(tables[i]) {
        var i :| 0 <= i < |tables| && tables[i] !in schemaTables && e == TableNotFound(tables[i]);
        if i < |init| {
          assert init[i] == tables[i];
        }
      }
    }
  }

  /** Column errors are for exactly the references to a table that exists
      and lacks the column. */
  lemma {:induction false} ColumnErrorsExact(columns: seq<(string, string)>, schemaTables: map<string, Table>, e: string)
    ensures e in ColumnErrors(columns, schemaTables)
      <==> exists i :: 0 <= i < |columns| && columns[i].0 in schemaTables
             && columns[i].1 !in ColumnNames(schemaTables[columns[i].0])
             && e == ColumnNotFound(columns[i].0, columns[i].1)
  {
    if columns != [] {
      var init := columns[..|columns| - 1];
      ColumnErrorsExact(init, schemaTables, e);
      if exists i :: 0 <= i < |init| && init[i].0 in schemaTables
           && init[i].1 !in ColumnNames(schemaTables[init[i].0]) && e == ColumnNotFound(init[i].0, init[i].1) {
        var i :| 0 <= i < |init| && init[i].0 in schemaTables
           && init[i].1 !in ColumnNames(schemaTables[init[i].0]) && e == ColumnNotFound(init[i].0, init[i].1);
        assert columns[i] == init[i];
      }
      if exists i :: 0 <= i < |columns| && columns[i].0 in schemaTables
           && columns[i].1 !in ColumnNames(schemaTables[columns[i].0]) && e == ColumnNotFound(columns[i].0, columns[i].1) {
        var i :| 0 <= i < |columns| && columns[i].0 in schemaTables
           && columns[i].1 !in ColumnNames(schemaTables[columns[i].0]) && e == ColumnNotFound(columns[i].0, columns[i].1);
        if i < |init| {
          assert init[i] == columns[i];
        }
      }
    }
  }

  /** How many referenced names are not tables of the schema. */
  function UnknownTables(tables: seq<string>, schemaTables: map<string, Table>): nat
  {
    if tables == [] then 0
    else UnknownTables(tables[..|tables| - 1], schemaTables) + (if tables[|tables| - 1] !in schemaTables then 1 else 0)
  }

  /** A reference to a table that exists and lacks the column. */
  predicate MissingColumn(ref: (string, string), schemaTables: map<string, Table>)
  {
    ref.0 in schemaTables && ref.1 !in ColumnNames(schemaTables[ref.0])
  }

  /** How many column references are to a table that exists and lacks the column. */
  function MissingColumns(columns: seq<(string, string)>, schemaTables: map<string, Table>): nat
  {
    if columns == [] then 0
    else MissingColumns(columns[..|columns| - 1], schemaTables)
           + (if MissingColumn(columns[|columns| - 1], schemaTables) then 1 else 0)
  }

  /** One table error per occurrence of an unknown name. */
  lemma {:induction false} TableErrorsLength(tables: seq<string>, schemaTables: map<string, Table>)
    ensures |TableErrors(tables, schemaTables)| == UnknownTables(tables, schemaTables)
  {
    if tables != [] {
      TableErrorsLength(tables[..|tables| - 1], schemaTables);
    }
  }

  /** The unknown name at `i` is reported after the errors for the unknown
      names before it, so errors follow reference order. */
  lemma {:induction false} TableErrorsPosition(tables: seq<string>, schemaTables: map<string, Table>, i: nat)
    requires i < |tables| && tables[i] !in schemaTables
    ensures UnknownTables(tables[..i], schemaTables) < |TableErrors(tables, schemaTables)|
    ensures TableErrors(tables, schemaTables)[UnknownTables(tables[..i], schemaTables)] == TableNotFound(tables[i])
  {
    var init := tables[..|tables| - 1];
    TableErrorsLength(tables, schemaTables);
    if i < |tables| - 1 {
      TableErrorsPosition(init, schemaTables, i);
      assert init[..i] == tables[..i];
    } else {
      assert init == tables[..i];
      TableErrorsLength(init, schemaTables);
    }
  }

  /** One column error per reference to an existing table that lacks the column. */
  lemma {:induction false} ColumnErrorsLength(columns: seq<(string, string)>, schemaTables: map<string, Table>)
    ensures |ColumnErrors(columns, schemaTables)| == MissingColumns(columns, schemaTables)
  {
    if columns != [] {
      ColumnErrorsLength(columns[..|columns| - 1], schemaTables);
    }
  }

  /** The missing column at `i` is reported after the errors for the missing
      columns before it. */
  lemma {:induction false} ColumnErrorsPosition(columns: seq<(string, string)>, schemaTables: map<string, Table>, i: nat)
    requires i < |columns| && MissingColumn(columns[i], schemaTables)
    ensures MissingColumns(columns[..i], schemaTables) < |ColumnErrors(columns, schemaTables)|
    ensures ColumnErrors(columns, schemaTables)[MissingColumns(columns[..i], schemaTables)]
      == ColumnNotFound(columns[i].0, columns[i].1)
  {
    var init := columns[..|columns| - 1];
    ColumnErrorsLength(columns, schemaTables);
    if i < |columns| - 1 {
      ColumnErrorsPosition(init, schemaTables, i);
      assert init[..i] == columns[..i];
    } else {
      assert init == columns[..i];
      ColumnErrorsLength(init, schemaTables);
    }
  }

  /** `is_valid` is false exactly when some error was recorded. */
  lemma ValidIffNoErrors(query: string, schemaTables: map<string, Table>, parse: Parser)
    ensures CheckQuery(query, schemaTables, parse).isValid <==> CheckQuery(query, schemaTables, parse).errors == []
    ensures |CheckQuery(query, schemaTables, parse).errors| >= 1 || parse(query).Ok?
  {
  }

  /** A query is valid exactly when it parses, every identifier names a
      table of the schema, and every `t.c` identifier whose `t` is a table
      names one of that table's columns. */
  lemma ValidExact(query: string, schemaTables: map<string, Table>, parse: Parser)
    ensures CheckQuery(query, schemaTables, parse).isValid
      <==> parse(query).Ok?
           && (forall i :: 0 <= i < |parse(query).value| ==> parse(query).value[i] in schemaTables)
           && (forall i, t, c ::
                 (0 <= i < |parse(query).value| && ColumnReference(parse(query).value[i]) == Some((t, c)) && t in schemaTables)
                 ==> c in ColumnNames(schemaTables[t]))
  {
    if parse(query).Ok? {
      var names := parse(query).value;
      var refs := ColumnReferences(names);
      if TableErrors(names, schemaTables) == [] {
        forall i | 0 <= i < |names| ensures names[i] in schemaTables {
          TableErrorsExact(names, schemaTables, TableNotFound(names[i]));
        }
      } else {
        var e := TableErrors(names, schemaTables)[0];
        TableErrorsExact(names, schemaTables, e);
      }
      if ColumnErrors(refs, schemaTables) == [] {
        forall i, t, c | 0 <= i < |names| && ColumnReference(names[i]) == Some((t, c)) && t in schemaTables
          ensures c in ColumnNames(schemaTables[t])
        {
          ColumnReferencesExact(names, (t, c));
          var k :| 0 <= k < |refs| && refs[k] == (t, c);
          ColumnErrorsExact(refs, schemaTables, ColumnNotFound(t, c));
        }
      } else {
        var e := ColumnErrors(refs, schemaTables)[0];
        ColumnErrorsExact(refs, schemaTables, e);
        var k :| 0 <= k < |refs| && refs[k].0 in schemaTables
          && refs[k].1 !in ColumnNames(schemaTables[refs[k].0]) && e == ColumnNotFound(refs[k].0, refs[k].1);
        ColumnReferencesExact(names, refs[k]);
      }
    }
  }

  /** No message carries both prefixes. */
  lemma PrefixesExclusive(e: string)
    ensures !(StartsWith(e, TableErrorPrefix) && StartsWith(e, ColumnErrorPrefix))
  {
    assert TableErrorPrefix[11] == 't' && ColumnErrorPrefix[11] == 'c';
  }

  /** Within a result, every error names a missing table or a missing
      column, and no table error follows a column error. */
  lemma TableErrorsFirst(query: string, schemaTables: map<string, Table>, parse: Parser)
    requires parse(query).Ok?
    ensures var errors := CheckQuery(query, schemaTables, parse).errors;
      forall i :: 0 <= i < |errors| ==>
        StartsWith(errors[i], TableErrorPrefix) || StartsWith(errors[i], ColumnErrorPrefix)
    ensures var errors := CheckQuery(query, schemaTables, parse).errors;
      forall i, j :: 0 <= i < j < |errors| && StartsWith(errors[i], ColumnErrorPrefix) ==>
        !StartsWith(errors[j], TableErrorPrefix)
  {
    var names := parse(query).value;
    var tableErrors := TableErrors(names, schemaTables);
    var columnErrors := ColumnErrors(ColumnReferences(names), schemaTables);
    var errors := tableErrors + columnErrors;
    forall i | 0 <= i < |tableErrors| ensures StartsWith(errors[i], TableErrorPrefix) {
      TableErrorsExact(names, schemaTables, tableErrors[i]);
      assert errors[i] == tableErrors[i];
    }
    forall i | |tableErrors| <= i < |errors| ensures StartsWith(errors[i], ColumnErrorPrefix) {
      var e := columnErrors[i - |tableErrors|];
      ColumnErrorsExact(ColumnReferences(names), schemaTables, e);
      assert errors[i] == e;
    }
    forall i, j | 0 <= i < j < |errors| && StartsWith(errors[i], ColumnErrorPrefix)
      ensures !StartsWith(errors[j], TableErrorPrefix)
    {
      PrefixesExclusive(errors[i]);
      PrefixesExclusive(errors[j]);
    }
  }

  /** The names `t.c` then `t` yield the single column reference `(t, c)`. */
  lemma DottedThenBareReferences(table: string, column: string)
    requires '.' !in table && '.' !in column
    ensures ColumnReferences([table + "." + column, table]) == [(table, column)]
  {
    var dotted := table + "." + column;
    var names := [dotted, table];
    assert ColumnReference(table) == None by {
      SplitJoin([table]);
    }
    ColumnReferenceExact(dotted, table, column);
    assert names[..|names| - 1] == [dotted] && names[|names| - 1] == table;
    assert [dotted][..0] == [];
    assert ColumnReferences([dotted]) == [(table, column)];
  }

  /** Every identifier is also checked as a table name, so a query naming
      `t.c` and `t` is reported as referring to a missing table `t.c` even
      when `t` exists and has the column `c`; the column check passes. */
  lemma DottedNameReportedAsTable(query: string, schemaTables: map<string, Table>, parse: Parser,
                                  table: string, column: string)
    requires parse(query) == Ok([table + "." + column, table])
    requires '.' !in table && '.' !in column
    requires table in schemaTables && column in ColumnNames(schemaTables[table])
    requires table + "." + column !in schemaTables
    ensures CheckQuery(query, schemaTables, parse)
      == QueryResult(query, false, [TableNotFound(table + "." + column)])
  {
    var dotted := table + "." + column;
    var names := [dotted, table];
    DottedThenBareReferences(table, column);
    assert names[..|names| - 1] == [dotted] && names[|names| - 1] == table;
    assert [dotted][..0] == [];
    assert TableErrors([dotted], schemaTables) == [TableNotFound(dotted)];
    assert TableErrors(names, schemaTables) == TableErrors([dotted], schemaTables);
    var refs := [(table, column)];
    assert refs[..0] == [];
    assert ColumnErrors(refs, schemaTables) == [];
  }
}
