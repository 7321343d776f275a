/** The schema document read as tables and columns, and the name-indexed
    views the analyzer builds with dict comprehensions such as
    `{t['name']: t for t in schema['tables']}`. */
module Schemas {
  import opened Wrappers
  import opened JsonValues

  /** A column: its name, its free-form type string, its `nullable` flag
      (`None` when the key is absent) and the whole column object as given. */
  datatype Column = Column(name: string, colType: string, nullable: Option<bool>, definition: Json)

  datatype Table = Table(name: string, columns: seq<Column>)

  datatype Schema = Schema(tables: seq<Table>)

  /** The dict `{key(x): x for x in xs}`: later entries overwrite earlier ones. */
  function ByName<T>(xs: seq<T>, key: T -> string): (m: map<string, T>)
    ensures m.Keys == set i | 0 <= i < |xs| :: key(xs[i])
    ensures forall k :: k in m ==> m[k] in xs && key(m[k]) == k
  {
    if xs == [] then map[]
    else
      var init := xs[..|xs| - 1];
      var m0 := ByName(init, key);
      assert forall k :: k in m0 ==> m0[k] in init ==> m0[k] in xs;
      m0[key(xs[|xs| - 1]) := xs[|xs| - 1]]
  }

  /** With duplicate names the last definition wins. */
  lemma {:induction false} ByNameLastWins<T>(xs: seq<T>, key: T -> string, i: nat)
    requires i < |xs|
    requires forall j :: i < j < |xs| ==> key(xs[j]) != key(xs[i])
    ensures key(xs[i]) in ByName(xs, key) && ByName(xs, key)[key(xs[i])] == xs[i]
  {
    if i < |xs| - 1 {
      var init := xs[..|xs| - 1];
      ByNameLastWins(init, key, i);
    }
  }

  function TableName(t: Table): string { t.name }

  function ColumnName(c: Column): string { c.name }

  /** `{t['name']: t for t in schema['tables']}` */
  function TableMap(s: Schema): map<string, Table>
  {
    ByName(s.tables, TableName)
  }

  /** `{c['name']: c for c in table['columns']}` */
  function ColumnMap(t: Table): map<string, Column>
  {
    ByName(t.columns, ColumnName)
  }
}
