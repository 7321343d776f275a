/** `SchemaAnalyzer`: the recommendation step and the orchestration of the
    whole analysis (validate both documents, diff, assess the impact,
    optionally check queries against the new schema, recommend). */
module Analyze {
  import opened Wrappers
  import opened JsonValues
  import opened Schemas
  import opened SeqUtil
  import opened SchemaValidator
  import opened DiffGenerator
  import opened ImpactAnalyzer
  import opened QueryValidator

  datatype RecommendationKind = DataMigration | DataConversion | Backup | Testing

  /** `{'type', 'description', 'priority'}` */
  datatype Recommendation = Recommendation(kind: RecommendationKind, description: string, priority: Level)

  /** The global entry added after the per-change ones when severity is high. */
  const TestingRecommendation := Recommendation(Testing, "Conduct thorough testing with production data sample", High)

  /** The recommendation one change record yields, if any: removed columns
      and tables call for a high-priority migration or backup, type changes
      for a medium-priority conversion; breaking kinds are exactly the ones
      that yield one. */
  function RecommendationFor(ch: Change): (r: seq<Recommendation>)
    ensures |r| <= 1
    ensures |r| == 1 <==> IsBreaking(ch)
    ensures |r| == 1 ==> r[0].kind != Testing && (r[0].priority == High <==> RisksDataLoss(ch))
  {
    match ch
    case ColumnRemoved(_, column) =>
      [Recommendation(DataMigration, "Create data migration plan for removed column: " + column, High)]
    case ColumnTypeChanged(_, column, oldType, newType) =>
      [Recommendation(DataConversion,
                      "Plan data conversion from " + oldType + " to " + newType + " for column: " + column, Medium)]
    case TableRemoved(table) =>
      [Recommendation(Backup, "Backup data from table before removal: " + table, High)]
    case _ => []
  }

  /** The per-change recommendations, in change-list order. */
  function PerChange(cs: seq<Change>): seq<Recommendation>
  {
    if cs == [] then [] else PerChange(cs[..|cs| - 1]) + RecommendationFor(cs[|cs| - 1])
  }

  /** What `_generate_recommendations(changes, impact)` returns. */
  function Recommendations(cs: seq<Change>, impact: Impact): seq<Recommendation>
  {
    PerChange(cs) + (if impact.severity == High then [TestingRecommendation] else [])
  }

  /** `_generate_recommendations(changes, impact)`. */
  method GenerateRecommendations(changes: seq<Change>, impact: Impact) returns (recommendations: seq<Recommendation>)
    ensures recommendations == Recommendations(changes, impact)
  {
    recommendations := [];
    var i := 0;
    while i < |changes|
      invariant 0 <= i <= |changes|
      invariant recommendations == PerChange(changes[..i])
    {
      assert changes[..i + 1][..i] == changes[..i];
      var change := changes[i];
      match change {
        case ColumnRemoved(_, column) =>
          recommendations := recommendations
            + [Recommendation(DataMigration, "Create data migration plan for removed column: " + column, High)];
        case ColumnTypeChanged(_, column, oldType, newType) =>
          recommendations := recommendations
            + [Recommendation(DataConversion,
                              "Plan data conversion from " + oldType + " to " + newType + " for column: " + column,
                              Medium)];
        case TableRemoved(table) =>
          recommendations := recommendations
            + [Recommendation(Backup, "Backup data from table before removal: " + table, High)];
        case _ =>
      }
      i := i + 1;
    }
    assert changes[..i] == changes;
    if impact.severity == High {
      recommendations := recommendations + [TestingRecommendation];
    }
  }

  // ----- Properties of the recommendations -----

  /** One per-change entry per breaking change, none of them `testing`. */
  lemma {:induction false} PerChangeShape(cs: seq<Change>)
    ensures |PerChange(cs)| == CountOf(cs, IsBreaking)
    ensures forall k :: 0 <= k < |PerChange(cs)| ==> PerChange(cs)[k].kind != Testing
  {
    if cs != [] {
      PerChangeShape(cs[..|cs| - 1]);
    }
  }

  /** The list holds the matching changes' entries plus one when severity is high. */
  lemma RecommendationsLength(cs: seq<Change>, impact: Impact)
    ensures |Recommendations(cs, impact)| == CountOf(cs, IsBreaking) + (if impact.severity == High then 1 else 0)
  {
    PerChangeShape(cs);
  }

  /** Per-change entries follow change-list order: the entry for the
      breaking change at `i` sits after the entries of the breaking changes
      before it. */
  lemma {:induction false} RecommendationPosition(cs: seq<Change>, i: nat)
    requires i < |cs| && IsBreaking(cs[i])
    ensures CountOf(cs[..i], IsBreaking) < |PerChange(cs)|
    ensures PerChange(cs)[CountOf(cs[..i], IsBreaking)] == RecommendationFor(cs[i])[0]
  {
    var init := cs[..|cs| - 1];
    PerChangeShape(cs);
    if i < |cs| - 1 {
      RecommendationPosition(init, i);
      assert init[..i] == cs[..i];
    } else {
      assert init == cs[..i];
      PerChangeShape(init);
    }
  }

  /** A `testing` entry appears, and then exactly once and last, exactly
      when severity is high. */
  lemma TestingLastIffHigh(cs: seq<Change>, impact: Impact)
    ensures var r := Recommendations(cs, impact);
      (exists k :: 0 <= k < |r| && r[k].kind == Testing) <==> impact.severity == High
    ensures var r := Recommendations(cs, impact);
      impact.severity == High ==>
        (&& r[|r| - 1] == TestingRecommendation
         && forall k :: 0 <= k < |r| - 1 ==> r[k].kind != Testing)
  {
    PerChangeShape(cs);
    var r := Recommendations(cs, impact);
    assert forall k :: 0 <= k < |PerChange(cs)| ==> r[k] == PerChange(cs)[k];
    if impact.severity == High {
      assert r[|r| - 1].kind == Testing;
    }
  }

  /** With the impact the analyzer computes, there are recommendations
      exactly when some change is breaking. */
  lemma NonEmptyIffBreaking(cs: seq<Change>)
    ensures |Recommendations(cs, ImpactOf(cs))| > 0 <==> exists i :: 0 <= i < |cs| && IsBreaking(cs[i])
  {
    RecommendationsLength(cs, ImpactOf(cs));
    CountPositive(cs, IsBreaking);
    SeverityExact(cs);
  }

  // ----- The orchestrator -----

  /** The result dict; `queryValidation` is the optional `query_validation` key. */
  datatype Report = Report(
    timestamp: string,
    changes: seq<Change>,
    impact: Impact,
    recommendations: seq<Recommendation>,
    queryValidation: Option<seq<QueryResult>>)

  /** Why an analysis ends without a report: the opening log line's table
      count raised, or a document failed validation. */
  datatype AnalysisError =
    | AttributeErrorRaised
    | TypeErrorRaised
    | ValidationFailed(error: ShapeError)

  /** `len(doc.get('tables', []))`, the table count the opening log line
      computes before anything is validated: only an object has `get`, and
      only a string, an array or an object has a length. */
  function TablesCount(doc: Json): Result<nat, AnalysisError>
  {
    if !doc.JObject? then Err(AttributeErrorRaised)
    else if "tables" !in doc.fields then Ok(0)
    else
      match doc.fields["tables"]
      case JString(str) => Ok(|str|)
      case JArray(elems) => Ok(|elems|)
      case JObject(fields) => Ok(|fields|)
      case _ => Err(TypeErrorRaised)
  }

  /** A valid document never makes the table count raise, and the count is
      its number of tables. */
  lemma ValidDocumentCounted(doc: Json)
    requires ValidDocument(doc)
    ensures TablesCount(doc) == Ok(|doc.fields["tables"].elems|)
  {
  }

  /** A `tables` entry that is a number, a boolean or null raises from the
      table count, before validation can report the shape error. */
  lemma ScalarTablesRaiseTypeError(x: Json)
    requires x.JNumber? || x.JBool? || x.JNull?
    ensures !ValidDocument(JObject(map["tables" := x]))
    ensures TablesCount(JObject(map["tables" := x])) == Err(TypeErrorRaised)
  {
  }

  /** `analyze_schema_changes(old_schema, new_schema, queries)`, with the
      SQL tokeniser `parse` and the current time `timestamp` as parameters.
      The opening log line's table counts come first, old then new; a count
      that raises ends the analysis with that error. Then a document that
      fails validation ends it with the shape error. Otherwise the report
      carries the diff of the two schemas, its impact, the recommendations
      for both, and the query results when queries were given. */
  method AnalyzeSchemaChanges(oldDoc: Json, newDoc: Json, queries: Option<seq<string>>,
                              parse: Parser, timestamp: string)
    returns (r: Result<Report, AnalysisError>)
    ensures r.Err? <==> !ValidDocument(oldDoc) || !ValidDocument(newDoc)
    ensures TablesCount(oldDoc).Err? ==> r == Err(TablesCount(oldDoc).error)
    ensures TablesCount(oldDoc).Ok? && TablesCount(newDoc).Err? ==> r == Err(TablesCount(newDoc).error)
    ensures TablesCount(oldDoc).Ok? && TablesCount(newDoc).Ok? && r.Err? ==>
      r.error == ValidationFailed(SchemaShapeError)
    ensures r.Ok? ==>
      var report, oldSchema, newSchema := r.value, SchemaOf(oldDoc), SchemaOf(newDoc);
      && report.timestamp == timestamp
      && Distinct(report.changes)
      && Elems(report.changes) == Changes(oldSchema, newSchema)
      && PhasesOrdered(report.changes)
      && GroupedByTable(report.changes)
      && ColumnsOrdered(report.changes)
      && ModificationsContiguous(report.changes)
      && report.impact == ImpactOf(report.changes)
      && report.recommendations == Recommendations(report.changes, report.impact)
      && (report.queryValidation.Some? <==> queries.Some? && queries.value != [])
      && (report.queryValidation.Some? ==>
            && |report.queryValidation.value| == |queries.value|
            && forall i :: 0 <= i < |queries.value| ==>
                 report.queryValidation.value[i] == CheckQuery(queries.value[i], TableMap(newSchema), parse))
  {
    var oldTables := TablesCount(oldDoc);
    if oldTables.Err? {
      return Err(oldTables.error);
    }
    var newTables := TablesCount(newDoc);
    if newTables.Err? {
      return Err(newTables.error);
    }
    var oldCheck := Validate(oldDoc);
    if oldCheck.Fail? {
      return Err(ValidationFailed(oldCheck.error));
    }
    var newCheck := Validate(newDoc);
    if newCheck.Fail? {
      return Err(ValidationFailed(newCheck.error));
    }
    var oldSchema, newSchema := SchemaOf(oldDoc), SchemaOf(newDoc);
    var changes := GenerateDiff(oldSchema, newSchema);
    var impact := AnalyzeImpact(changes);
    var queryValidation: seq<QueryResult> := [];
    if queries.Some? && queries.value != [] {
      queryValidation := ValidateQueries(queries.value, newSchema, parse);
    }
    var recommendations := GenerateRecommendations(changes, impact);
    var report := Report(timestamp, changes, impact, recommendations, None);
    if queryValidation != [] {
      report := report.(queryValidation := Some(queryValidation));
    }
    return Ok(report);
  }
}
