/** `ImpactAnalyzer.analyze_impact`: folds the change list into three
    counters (breaking, data-loss, complex changes) and a list of breaking
    change references, then derives severity, data-loss risk and migration
    complexity from fixed thresholds. */
module ImpactAnalyzer {
  import opened DiffGenerator

  datatype Level = Low | Medium | High

  /** The order low < medium < high. */
  function Rank(l: Level): nat
  {
    match l
    case Low => 0
    case Medium => 1
    case High => 2
  }

  /** An entry of `breaking_changes`: the change's `type` tag and `table.column`. */
  datatype BreakingChange = BreakingChange(changeType: string, location: string)

  datatype Impact = Impact(
    severity: Level,
    breakingChanges: seq<BreakingChange>,
    dataLossRisk: bool,
    performanceImpact: seq<string>,
    migrationComplexity: Level)

  /** The assessment before any change is looked at. */
  const InitialImpact := Impact(Low, [], false, [], Low)

  /** Policy constant: more complex changes than this make the migration complexity high. */
  const HighComplexityThreshold: nat := 3

  predicate IsBreaking(ch: Change)
  {
    ch.TableRemoved? || ch.ColumnRemoved? || ch.ColumnTypeChanged?
  }

  predicate RisksDataLoss(ch: Change)
  {
    ch.TableRemoved? || ch.ColumnRemoved?
  }

  predicate IsTypeChange(ch: Change) { ch.ColumnTypeChanged? }

  predicate IsTableRemoval(ch: Change) { ch.TableRemoved? }

  predicate IsComplex(ch: Change)
  {
    ch.ColumnTypeChanged? || ch.TableRemoved?
  }

  /** `f"{change.get('table', '')}.{change.get('column', '')}"`: table
      records have no column, so theirs ends in the dot. */
  function Location(ch: Change): string
  {
    ch.table + "." + (if IsColumnLevel(ch) then ch.column else "")
  }

  function BreakingRef(ch: Change): BreakingChange
  {
    BreakingChange(TypeTag(ch), Location(ch))
  }

  /** How many entries of `cs` satisfy `p`. */
  function CountOf(cs: seq<Change>, p: Change -> bool): nat
  {
    if cs == [] then 0
    else CountOf(cs[..|cs| - 1], p) + (if p(cs[|cs| - 1]) then 1 else 0)
  }

  /** The breaking-change references of `cs`, in list order. */
  function BreakingRefs(cs: seq<Change>): seq<BreakingChange>
  {
    if cs == [] then []
    else BreakingRefs(cs[..|cs| - 1]) + (if IsBreaking(cs[|cs| - 1]) then [BreakingRef(cs[|cs| - 1])] else [])
  }

  /** Severity from the two counters: high, else medium, else low. */
  function SeverityRule(breaking: nat, complex: nat): Level
  {
    if breaking > 0 then High else if complex > 0 then Medium else Low
  }

  /** Migration complexity from the complex-change counter. */
  function ComplexityRule(complex: nat): Level
  {
    if complex > HighComplexityThreshold then High else if complex > 0 then Medium else Low
  }

  /** The assessment `analyze_impact` returns for `cs`. */
  function ImpactOf(cs: seq<Change>): Impact
  {
    Impact(
      SeverityRule(CountOf(cs, IsBreaking), CountOf(cs, IsComplex)),
      BreakingRefs(cs),
      CountOf(cs, RisksDataLoss) > 0,
      [],
      ComplexityRule(CountOf(cs, IsComplex)))
  }

  /** `analyze_impact(changes)`. */
  method AnalyzeImpact(changes: seq<Change>) returns (impact: Impact)
    ensures impact == ImpactOf(changes)
  {
    impact := InitialImpact;
    var breakingChanges, dataLossRisks, complexChanges := 0, 0, 0;
    var i := 0;
    while i < |changes|
      invariant 0 <= i <= |changes|
      invariant breakingChanges == CountOf(changes[..i], IsBreaking)
      invariant dataLossRisks == CountOf(changes[..i], RisksDataLoss)
      invariant complexChanges == CountOf(changes[..i], IsComplex)
      invariant impact == InitialImpact.(breakingChanges := BreakingRefs(changes[..i]))
    {
      var change := changes[i];
      assert changes[..i + 1][..i] == changes[..i];
      if IsBreaking(change) {
        breakingChanges := breakingChanges + 1;
        impact := impact.(breakingChanges := impact.breakingChanges + [BreakingRef(change)]);
      }
      if RisksDataLoss(change) {
        dataLossRisks := dataLossRisks + 1;
      }
      if IsComplex(change) {
        complexChanges := complexChanges + 1;
      }
      i := i + 1;
    }
    assert changes[..i] == changes;
    if breakingChanges > 0 {
      impact := impact.(severity := High);
    } else if complexChanges > 0 {
      impact := impact.(severity := Medium);
    }
    impact := impact.(dataLossRisk := dataLossRisks > 0);
    if complexChanges > HighComplexityThreshold {
      impact := impact.(migrationComplexity := High);
    } else if complexChanges > 0 {
      impact := impact.(migrationComplexity := Medium);
    }
  }

  // ----- Properties of the assessment -----

  lemma {:induction false} CountAppend(a: seq<Change>, b: seq<Change>, p: Change -> bool)
    ensures CountOf(a + b, p) == CountOf(a, p) + CountOf(b, p)
    decreases |b|
  {
    if b == [] {
      assert a + b == a;
    } else {
      var init := b[..|b| - 1];
      assert (a + b)[..|a + b| - 1] == a + init;
      assert (a + b)[|a + b| - 1] == b[|b| - 1];
      CountAppend(a, init, p);
    }
  }

  /** A counter is positive exactly when some entry satisfies its predicate. */
  lemma {:induction false} CountPositive(cs: seq<Change>, p: Change -> bool)
    ensures CountOf(cs, p) > 0 <==> exists i :: 0 <= i < |cs| && p(cs[i])
  {
    if cs != [] {
      var init := cs[..|cs| - 1];
      CountPositive(init, p);
      if CountOf(init, p) > 0 {
        var i :| 0 <= i < |init| && p(init[i]);
        assert p(cs[i]);
      }
      if exists i :: 0 <= i < |cs| && p(cs[i]) {
        var i :| 0 <= i < |cs| && p(cs[i]);
        if i < |cs| - 1 {
          assert p(init[i]);
        }
      }
    }
  }

  /** Every complex change is also breaking, so there are at least as many
      breaking changes as complex ones. */
  lemma {:induction false} ComplexAtMostBreaking(cs: seq<Change>)
    ensures CountOf(cs, IsComplex) <= CountOf(cs, IsBreaking)
  {
    if cs != [] {
      ComplexAtMostBreaking(cs[..|cs| - 1]);
    }
  }

  /** Severity is high exactly when some change is breaking, and otherwise
      low: the medium branch can never be taken. */
  lemma SeverityExact(cs: seq<Change>)
    ensures ImpactOf(cs).severity == High <==> exists i :: 0 <= i < |cs| && IsBreaking(cs[i])
    ensures ImpactOf(cs).severity != Medium
  {
    CountPositive(cs, IsBreaking);
    ComplexAtMostBreaking(cs);
  }

  /** Data-loss risk exactly when a table or column is removed. */
  lemma DataLossExact(cs: seq<Change>)
    ensures ImpactOf(cs).dataLossRisk <==> exists i :: 0 <= i < |cs| && (cs[i].TableRemoved? || cs[i].ColumnRemoved?)
  {
    CountPositive(cs, RisksDataLoss);
  }

  /** With k the number of type changes plus removed tables, the complexity
      is high above 3, medium from 1 to 3, low at 0. */
  lemma {:induction false} ComplexityExact(cs: seq<Change>)
    ensures var k := CountOf(cs, IsTypeChange) + CountOf(cs, IsTableRemoval);
      && CountOf(cs, IsComplex) == k
      && (ImpactOf(cs).migrationComplexity == High <==> k > 3)
      && (ImpactOf(cs).migrationComplexity == Medium <==> 1 <= k <= 3)
      && (ImpactOf(cs).migrationComplexity == Low <==> k == 0)
  {
    if cs != [] {
      ComplexityExact(cs[..|cs| - 1]);
    }
  }

  /** `breaking_changes` lists exactly the breaking records, in list order:
      the breaking record at position `i` is reported at the position given by
      the number of breaking records before it. */
  lemma {:induction false} BreakingRefsExact(cs: seq<Change>, i: nat)
    requires i < |cs| && IsBreaking(cs[i])
    ensures |BreakingRefs(cs)| == CountOf(cs, IsBreaking)
    ensures CountOf(cs[..i], IsBreaking) < |BreakingRefs(cs)|
    ensures BreakingRefs(cs)[CountOf(cs[..i], IsBreaking)] == BreakingRef(cs[i])
  {
    var init := cs[..|cs| - 1];
    if i < |cs| - 1 {
      BreakingRefsExact(init, i);
      assert init[..i] == cs[..i];
    } else {
      assert init == cs[..i];
      BreakingRefsLength(init);
    }
  }

  lemma {:induction false} BreakingRefsLength(cs: seq<Change>)
    ensures |BreakingRefs(cs)| == CountOf(cs, IsBreaking)
  {
    if cs != [] {
      BreakingRefsLength(cs[..|cs| - 1]);
    }
  }

  /** Appending changes never lowers severity, complexity or data-loss risk. */
  lemma AppendNeverLowers(cs: seq<Change>, more: seq<Change>)
    ensures Rank(ImpactOf(cs).severity) <= Rank(ImpactOf(cs + more).severity)
    ensures Rank(ImpactOf(cs).migrationComplexity) <= Rank(ImpactOf(cs + more).migrationComplexity)
    ensures ImpactOf(cs).dataLossRisk ==> ImpactOf(cs + more).dataLossRisk
  {
    CountAppend(cs, more, IsBreaking);
    CountAppend(cs, more, IsComplex);
    CountAppend(cs, more, RisksDataLoss);
    ComplexAtMostBreaking(cs);
    ComplexAtMostBreaking(cs + more);
  }

  /** Added tables, added columns and nullability changes affect no field. */
  lemma NeutralChangeIgnored(cs: seq<Change>, ch: Change)
    requires ch.TableAdded? || ch.ColumnAdded? || ch.NullableChanged?
    ensures ImpactOf(cs + [ch]) == ImpactOf(cs)
  {
    assert (cs + [ch])[..|cs|] == cs;
  }
}
