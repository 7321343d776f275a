/** The shape every schema document must have before it is compared: the
    constant `SchemaDefinition` checked by generic JSON Schema validation, an
    explicit reading of the same rules, and the decoding of an accepted
    document into tables and columns. */
module SchemaValidator {
  import opened Wrappers
  import opened JsonValues
  import opened Schemas

  const AnyString := Shape([TString], [], [], None)

  const ConstraintsShape := Shape([TArray], [], [], Some(AnyString))

  const ColumnShape := Shape(
    [TObject],
    ["name", "type"],
    [ ("name", AnyString),
      ("type", AnyString),
      ("nullable", Shape([TBoolean], [], [], None)),
      ("default", Shape([TString, TNumber, TNull], [], [], None)),
      ("constraints", ConstraintsShape) ],
    None)

  const TableShape := Shape(
    [TObject],
    ["name", "columns"],
    [ ("name", AnyString),
      ("columns", Shape([TArray], [], [], Some(ColumnShape))) ],
    None)

  /** The document shape: an object with a `tables` array of tables. */
  const SchemaDefinition := Shape(
    [TObject],
    ["tables"],
    [ ("tables", Shape([TArray], [], [], Some(TableShape))) ],
    None)

  /** A column object: string `name` and `type`; a boolean `nullable`, a
      string, number or null `default`, and an array of strings
      `constraints`, each only if present. Other keys are allowed. */
  predicate ValidColumn(v: Json)
  {
    && v.JObject?
    && "name" in v.fields && v.fields["name"].JString?
    && "type" in v.fields && v.fields["type"].JString?
    && ("nullable" in v.fields ==> v.fields["nullable"].JBool?)
    && ("default" in v.fields ==>
          v.fields["default"].JString? || v.fields["default"].JNumber? || v.fields["default"].JNull?)
    && ("constraints" in v.fields ==>
          && v.fields["constraints"].JArray?
          && forall j :: 0 <= j < |v.fields["constraints"].elems| ==> v.fields["constraints"].elems[j].JString?)
  }

  /** A table object: string `name` and an array `columns` of column objects. */
  predicate ValidTable(v: Json)
  {
    && v.JObject?
    && "name" in v.fields && v.fields["name"].JString?
    && "columns" in v.fields && v.fields["columns"].JArray?
    && forall j :: 0 <= j < |v.fields["columns"].elems| ==> ValidColumn(v.fields["columns"].elems[j])
  }

  /** A schema document: an object with an array `tables` of table objects. */
  predicate ValidDocument(v: Json)
  {
    && v.JObject?
    && "tables" in v.fields && v.fields["tables"].JArray?
    && forall j :: 0 <= j < |v.fields["tables"].elems| ==> ValidTable(v.fields["tables"].elems[j])
  }

  lemma ConstraintsShapeExact(v: Json)
    ensures Conforms(v, ConstraintsShape) <==>
      v.JArray? && forall j :: 0 <= j < |v.elems| ==> v.elems[j].JString?
  {
    if v.JArray? {
      forall j | 0 <= j < |v.elems|
        ensures Conforms(v.elems[j], AnyString) <==> v.elems[j].JString?
      {
      }
    }
  }

  lemma ColumnShapeExact(v: Json)
    ensures Conforms(v, ColumnShape) <==> ValidColumn(v)
  {
    var props := ColumnShape.properties;
    assert props[0] == ("name", AnyString);
    assert props[1] == ("type", AnyString);
    assert props[2] == ("nullable", Shape([TBoolean], [], [], None));
    assert props[3] == ("default", Shape([TString, TNumber, TNull], [], [], None));
    assert props[4] == ("constraints", ConstraintsShape);
    if v.JObject? {
      var f := v.fields;
      if "constraints" in f {
        ConstraintsShapeExact(f["constraints"]);
      }
      if ValidColumn(v) {
        forall i | 0 <= i < |props| && props[i].0 in f
          ensures Conforms(f[props[i].0], props[i].1)
        {
          if i == 4 {
            assert Conforms(f["constraints"], ConstraintsShape);
          }
        }
      }
      if Conforms(v, ColumnShape) {
        assert "name" in ColumnShape.required && "type" in ColumnShape.required;
      }
    }
  }

  lemma TableShapeExact(v: Json)
    ensures Conforms(v, TableShape) <==> ValidTable(v)
  {
    var props := TableShape.properties;
    assert props[0] == ("name", AnyString);
    assert props[1] == ("columns", Shape([TArray], [], [], Some(ColumnShape)));
    if v.JObject? && "columns" in v.fields && v.fields["columns"].JArray? {
      var cols := v.fields["columns"].elems;
      forall j | 0 <= j < |cols| ensures Conforms(cols[j], ColumnShape) <==> ValidColumn(cols[j]) {
        ColumnShapeExact(cols[j]);
      }
      if ValidTable(v) {
        assert Conforms(v.fields["columns"], props[1].1);
      }
      if Conforms(v, TableShape) {
        assert "name" in TableShape.required && "columns" in TableShape.required;
      }
    }
  }

  /** The declarative shape accepts exactly the documents described by
      `ValidDocument`. */
  lemma SchemaDefinitionExact(v: Json)
    ensures Conforms(v, SchemaDefinition) <==> ValidDocument(v)
  {
    var props := SchemaDefinition.properties;
    assert props[0] == ("tables", Shape([TArray], [], [], Some(TableShape)));
    if v.JObject? && "tables" in v.fields && v.fields["tables"].JArray? {
      var tables := v.fields["tables"].elems;
      forall j | 0 <= j < |tables| ensures Conforms(tables[j], TableShape) <==> ValidTable(tables[j]) {
        TableShapeExact(tables[j]);
      }
    }
  }

  /** Keys the shape does not list are never rejected, at every level. */
  lemma ExtraColumnFieldAccepted(f: map<string, Json>, k: string, x: Json)
    requires Conforms(JObject(f), ColumnShape)
    requires k !in ["name", "type", "nullable", "default", "constraints"]
    ensures Conforms(JObject(f[k := x]), ColumnShape)
  {
    ColumnShapeExact(JObject(f));
    ColumnShapeExact(JObject(f[k := x]));
  }

  lemma ExtraTableFieldAccepted(f: map<string, Json>, k: string, x: Json)
    requires Conforms(JObject(f), TableShape)
    requires k !in ["name", "columns"]
    ensures Conforms(JObject(f[k := x]), TableShape)
  {
    TableShapeExact(JObject(f));
    TableShapeExact(JObject(f[k := x]));
  }

  lemma ExtraDocumentFieldAccepted(f: map<string, Json>, k: string, x: Json)
    requires Conforms(JObject(f), SchemaDefinition)
    requires k != "tables"
    ensures Conforms(JObject(f[k := x]), SchemaDefinition)
  {
    SchemaDefinitionExact(JObject(f));
    SchemaDefinitionExact(JObject(f[k := x]));
  }

  /** Duplicate table names are not rejected: a valid table listed twice
      still makes a valid document. */
  lemma DuplicateTablesAccepted(t: Json)
    requires Conforms(t, TableShape)
    ensures Validate(JObject(map["tables" := JArray([t, t])])) == Pass
  {
    TableShapeExact(t);
  }

  /** Duplicate column names are not rejected either: a valid column listed
      twice still makes a valid table. */
  lemma DuplicateColumnsAccepted(c: Json, name: string)
    requires Conforms(c, ColumnShape)
    ensures Conforms(JObject(map["name" := JString(name), "columns" := JArray([c, c])]), TableShape)
  {
    ColumnShapeExact(c);
    TableShapeExact(JObject(map["name" := JString(name), "columns" := JArray([c, c])]));
  }

  /** The error `validate` re-raises when the document has the wrong shape. */
  datatype ShapeError = SchemaShapeError

  /** `SchemaValidator.validate`: inspects the document and nothing else;
      passes exactly when it conforms to `SchemaDefinition`. */
  function Validate(doc: Json): (r: Outcome<ShapeError>)
    ensures r.Pass? <==> ValidDocument(doc)
  {
    SchemaDefinitionExact(doc);
    if Conforms(doc, SchemaDefinition) then Pass else Fail(SchemaShapeError)
  }

  function ColumnOf(v: Json): (c: Column)
    requires ValidColumn(v)
    ensures c.definition == v
    ensures c.nullable.Some? <==> "nullable" in v.fields
  {
    var f := v.fields;
    Column(f["name"].str, f["type"].str, if "nullable" in f then Some(f["nullable"].b) else None, v)
  }

  function TableOf(v: Json): (t: Table)
    requires ValidTable(v)
    ensures |t.columns| == |v.fields["columns"].elems|
  {
    var cols := v.fields["columns"].elems;
    Table(v.fields["name"].str, seq(|cols|, j requires 0 <= j < |cols| => ColumnOf(cols[j])))
  }

  /** The document read the way the analyzer reads it: `t['name']`,
      `t['columns']`, `c['name']`, `c['type']`, `c.get('nullable')`. */
  function SchemaOf(doc: Json): (s: Schema)
    requires ValidDocument(doc)
    ensures |s.tables| == |doc.fields["tables"].elems|
  {
    var tables := doc.fields["tables"].elems;
    Schema(seq(|tables|, j requires 0 <= j < |tables| => TableOf(tables[j])))
  }
}
