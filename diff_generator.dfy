/** `DiffGenerator.generate_diff`: compares two schema documents table by
    table and column by column and emits one change record per difference.
    The source iterates over Python sets, whose order is not fixed by the
    program; here every element is picked arbitrarily (`:|`), and the result
    is specified as the SET `Changes(old, new)` together with the ordering
    rules the loop structure guarantees. */
module DiffGenerator {
  import opened Wrappers
  import opened JsonValues
  import opened Schemas
  import opened SeqUtil

  /** One change record. `ColumnAdded` carries the full new column definition. */
  datatype Change =
    | TableRemoved(table: string)
    | TableAdded(table: string)
    | ColumnRemoved(table: string, column: string)
    | ColumnAdded(table: string, column: string, details: Column)
    | ColumnTypeChanged(table: string, column: string, oldType: string, newType: string)
    | NullableChanged(table: string, column: string, oldNullable: Option<bool>, newNullable: Option<bool>)

  /** The record's `type` tag. */
  function TypeTag(ch: Change): string
  {
    match ch
    case TableRemoved(_) => "table_removed"
    case TableAdded(_) => "table_added"
    case ColumnRemoved(_, _) => "column_removed"
    case ColumnAdded(_, _, _) => "column_added"
    case ColumnTypeChanged(_, _, _, _) => "column_type_changed"
    case NullableChanged(_, _, _, _) => "nullable_changed"
  }

  predicate IsColumnLevel(ch: Change)
  {
    !(ch.TableRemoved? || ch.TableAdded?)
  }

  // ----- What the diff contains -----

  /** Type and nullability changes of the columns in `names` present on both sides. */
  function ModifiedChanges(table: string, oldCols: map<string, Column>, newCols: map<string, Column>,
                           names: set<string>): set<Change>
  {
    (set c | c in names && c in oldCols && c in newCols && oldCols[c].colType != newCols[c].colType ::
       ColumnTypeChanged(table, c, oldCols[c].colType, newCols[c].colType))
    + (set c | c in names && c in oldCols && c in newCols && oldCols[c].nullable != newCols[c].nullable ::
       NullableChanged(table, c, oldCols[c].nullable, newCols[c].nullable))
  }

  /** The column-level changes of one table present in both schemas. */
  function ColumnChanges(table: string, oldCols: map<string, Column>, newCols: map<string, Column>): set<Change>
  {
    (set c | c in oldCols.Keys - newCols.Keys :: ColumnRemoved(table, c))
    + (set c | c in newCols.Keys - oldCols.Keys :: ColumnAdded(table, c, newCols[c]))
    + ModifiedChanges(table, oldCols, newCols, oldCols.Keys * newCols.Keys)
  }

  /** The column-level changes of the tables in `names`. */
  function CommonTableChanges(oldTables: map<string, Table>, newTables: map<string, Table>,
                              names: set<string>): set<Change>
  {
    set t, ch | t in names && t in oldTables && t in newTables &&
                ch in ColumnChanges(t, ColumnMap(oldTables[t]), ColumnMap(newTables[t])) :: ch
  }

  /** All the records `generate_diff(old, new)` emits, whatever the order. */
  function Changes(oldSchema: Schema, newSchema: Schema): set<Change>
  {
    var ot, nt := TableMap(oldSchema), TableMap(newSchema);
    (set t | t in ot.Keys - nt.Keys :: TableRemoved(t))
    + (set t | t in nt.Keys - ot.Keys :: TableAdded(t))
    + CommonTableChanges(ot, nt, ot.Keys * nt.Keys)
  }

  /** The rule for the column records of one table: a removed or added
      column is on one side only; a type or nullability change names a column
      on both sides and carries both sides' values verbatim. Types are
      compared as exact strings and `nullable` flags as optional values, so an
      absent flag differs from `false` and from `true`. */
  predicate ColumnEmits(ch: Change, oldCols: map<string, Column>, newCols: map<string, Column>)
  {
    match ch
    case ColumnRemoved(_, c) => c in oldCols && c !in newCols
    case ColumnAdded(_, c, d) => c !in oldCols && c in newCols && d == newCols[c]
    case ColumnTypeChanged(_, c, x, y) =>
      c in oldCols && c in newCols && x == oldCols[c].colType && y == newCols[c].colType && x != y
    case NullableChanged(_, c, x, y) =>
      c in oldCols && c in newCols && x == oldCols[c].nullable && y == newCols[c].nullable && x != y
    case _ => false
  }

  /** The rule for every record: a table record names a table of one side
      only; a column record names a table of both sides and follows
      `ColumnEmits` for that table's columns. */
  predicate Emits(ch: Change, oldSchema: Schema, newSchema: Schema)
  {
    var ot, nt := TableMap(oldSchema), TableMap(newSchema);
    match ch
    case TableRemoved(t) => t in ot && t !in nt
    case TableAdded(t) => t in nt && t !in ot
    case _ => ch.table in ot && ch.table in nt && ColumnEmits(ch, ColumnMap(ot[ch.table]), ColumnMap(nt[ch.table]))
  }

  lemma ColumnChangesExact(table: string, oldCols: map<string, Column>, newCols: map<string, Column>, ch: Change)
    ensures ch in ColumnChanges(table, oldCols, newCols) <==>
      IsColumnLevel(ch) && ch.table == table && ColumnEmits(ch, oldCols, newCols)
  {
    if ch.ColumnTypeChanged? || ch.NullableChanged? {
      assert ch in ColumnChanges(table, oldCols, newCols) <==>
        ch in ModifiedChanges(table, oldCols, newCols, oldCols.Keys * newCols.Keys);
    }
  }

  /** `Changes(old, new)` holds exactly the records the per-kind rule allows. */
  lemma ChangesExact(oldSchema: Schema, newSchema: Schema, ch: Change)
    ensures ch in Changes(oldSchema, newSchema) <==> Emits(ch, oldSchema, newSchema)
  {
    var ot, nt := TableMap(oldSchema), TableMap(newSchema);
    var common := CommonTableChanges(ot, nt, ot.Keys * nt.Keys);
    if ch in common {
      var t :| t in ot.Keys * nt.Keys && ch in ColumnChanges(t, ColumnMap(ot[t]), ColumnMap(nt[t]));
      ColumnChangesExact(t, ColumnMap(ot[t]), ColumnMap(nt[t]), ch);
    }
    if IsColumnLevel(ch) {
      if ch.table in ot && ch.table in nt {
        var t := ch.table;
        ColumnChangesExact(t, ColumnMap(ot[t]), ColumnMap(nt[t]), ch);
        assert ch in ColumnChanges(t, ColumnMap(ot[t]), ColumnMap(nt[t])) ==> ch in common;
      }
      assert ch !in (set t | t in ot.Keys - nt.Keys :: TableRemoved(t));
      assert ch !in (set t | t in nt.Keys - ot.Keys :: TableAdded(t));
    } else {
      assert ch !in common;
    }
  }

  /** Every record refers to a table present on at least one side; a column
      record to a table present on both sides and to a column of it present
      on at least one side. */
  lemma ChangesWellFounded(oldSchema: Schema, newSchema: Schema, ch: Change)
    requires ch in Changes(oldSchema, newSchema)
    ensures ch.table in TableMap(oldSchema) || ch.table in TableMap(newSchema)
    ensures IsColumnLevel(ch) ==>
      && ch.table in TableMap(oldSchema) && ch.table in TableMap(newSchema)
      && (ch.column in ColumnMap(TableMap(oldSchema)[ch.table])
          || ch.column in ColumnMap(TableMap(newSchema)[ch.table]))
  {
    ChangesExact(oldSchema, newSchema, ch);
  }

  /** Diffing a schema against itself yields nothing. */
  lemma SelfDiffEmpty(s: Schema)
    ensures Changes(s, s) == {}
  {
    forall ch ensures ch !in Changes(s, s) {
      ChangesExact(s, s, ch);
    }
  }

  /** The record a change becomes when the two schemas are swapped; a
      removed column is re-added with its definition on the old side. */
  function Mirror(ch: Change, oldSchema: Schema): Change
  {
    match ch
    case TableRemoved(t) => TableAdded(t)
    case TableAdded(t) => TableRemoved(t)
    case ColumnRemoved(t, c) =>
      var ot := TableMap(oldSchema);
      if t in ot && c in ColumnMap(ot[t]) then ColumnAdded(t, c, ColumnMap(ot[t])[c]) else ch
    case ColumnAdded(t, c, _) => ColumnRemoved(t, c)
    case ColumnTypeChanged(t, c, x, y) => ColumnTypeChanged(t, c, y, x)
    case NullableChanged(t, c, x, y) => NullableChanged(t, c, y, x)
  }

  lemma MirrorEmits(oldSchema: Schema, newSchema: Schema, ch: Change)
    requires Emits(ch, oldSchema, newSchema)
    ensures Emits(Mirror(ch, oldSchema), newSchema, oldSchema)
    ensures Mirror(Mirror(ch, oldSchema), newSchema) == ch
  {
  }

  lemma MirrorInto(oldSchema: Schema, newSchema: Schema, ch: Change)
    requires ch in Changes(oldSchema, newSchema)
    ensures Mirror(ch, oldSchema) in Changes(newSchema, oldSchema)
    ensures Mirror(Mirror(ch, oldSchema), newSchema) == ch
  {
    ChangesExact(oldSchema, newSchema, ch);
    MirrorEmits(oldSchema, newSchema, ch);
    ChangesExact(newSchema, oldSchema, Mirror(ch, oldSchema));
  }

  /** Swapping the arguments swaps removed and added tables and columns and
      exchanges old and new types and flags, one for one. */
  lemma SwapDiff(oldSchema: Schema, newSchema: Schema)
    ensures Changes(newSchema, oldSchema) == set ch | ch in Changes(oldSchema, newSchema) :: Mirror(ch, oldSchema)
  {
    var forward, backward := Changes(oldSchema, newSchema), Changes(newSchema, oldSchema);
    forall ch | ch in forward ensures Mirror(ch, oldSchema) in backward {
      MirrorInto(oldSchema, newSchema, ch);
    }
    forall ch | ch in backward ensures ch in set x | x in forward :: Mirror(x, oldSchema) {
      MirrorInto(newSchema, oldSchema, ch);
    }
  }

  /** ... and so both directions have the same number of records. */
  lemma SwapDiffCount(oldSchema: Schema, newSchema: Schema)
    ensures |Changes(newSchema, oldSchema)| == |Changes(oldSchema, newSchema)|
  {
    SwapDiff(oldSchema, newSchema);
    SwapDiff(newSchema, oldSchema);
    MirrorImagesSameSize(Changes(oldSchema, newSchema), Changes(newSchema, oldSchema), oldSchema, newSchema);
  }

  lemma MirrorImagesSameSize(forward: set<Change>, backward: set<Change>, oldSchema: Schema, newSchema: Schema)
    requires backward == set ch | ch in forward :: Mirror(ch, oldSchema)
    requires forward == set ch | ch in backward :: Mirror(ch, newSchema)
    ensures |forward| == |backward|
  {
    MirrorImageAtMost(forward, oldSchema);
    MirrorImageAtMost(backward, newSchema);
  }

  lemma {:induction false} MirrorImageAtMost(s: set<Change>, oldSchema: Schema)
    ensures |set ch | ch in s :: Mirror(ch, oldSchema)| <= |s|
    decreases s
  {
    if s != {} {
      var x :| x in s;
      var rest := s - {x};
      MirrorImageAtMost(rest, oldSchema);
      var image, restImage := set y | y in s :: Mirror(y, oldSchema), set y | y in rest :: Mirror(y, oldSchema);
      assert image == restImage + {Mirror(x, oldSchema)};
      assert |restImage + {Mirror(x, oldSchema)}| <= |restImage| + 1;
    }
  }

  /** An absent `nullable` flag is a value of its own: a column of a table
      on both sides whose flag is absent on the old side and `false` on the
      new side yields a nullability record, and it is that column's only one. */
  lemma NullableAbsentVsFalse(oldSchema: Schema, newSchema: Schema, table: string, column: string)
    requires table in TableMap(oldSchema) && table in TableMap(newSchema)
    requires column in ColumnMap(TableMap(oldSchema)[table]) && column in ColumnMap(TableMap(newSchema)[table])
    requires ColumnMap(TableMap(oldSchema)[table])[column].nullable == None
    requires ColumnMap(TableMap(newSchema)[table])[column].nullable == Some(false)
    ensures NullableChanged(table, column, None, Some(false)) in Changes(oldSchema, newSchema)
    ensures forall ch ::
      (ch in Changes(oldSchema, newSchema) && ch.NullableChanged? && ch.table == table && ch.column == column)
      ==> ch == NullableChanged(table, column, None, Some(false))
  {
    ChangesExact(oldSchema, newSchema, NullableChanged(table, column, None, Some(false)));
    forall ch | ch in Changes(oldSchema, newSchema) && ch.NullableChanged? && ch.table == table && ch.column == column
      ensures ch == NullableChanged(table, column, None, Some(false))
    {
      ChangesExact(oldSchema, newSchema, ch);
    }
  }

  // ----- Ordering of the emitted list -----

  /** Removed tables, then added tables, then column records. */
  function Phase(ch: Change): nat
  {
    match ch
    case TableRemoved(_) => 0
    case TableAdded(_) => 1
    case _ => 2
  }

  /** Within one table: removed columns, then added columns, then modified ones. */
  function ColumnPhase(ch: Change): nat
  {
    match ch
    case ColumnRemoved(_, _) => 0
    case ColumnAdded(_, _, _) => 1
    case _ => 2
  }

  predicate PhasesOrdered(cs: seq<Change>)
  {
    forall i, j :: 0 <= i < j < |cs| ==> Phase(cs[i]) <= Phase(cs[j])
  }

  /** The column records of one table are contiguous. */
  predicate GroupedByTable(cs: seq<Change>)
  {
    forall i, j, k ::
      (0 <= i < j < k < |cs| && IsColumnLevel(cs[i]) && IsColumnLevel(cs[k]) && cs[i].table == cs[k].table)
      ==> cs[j].table == cs[i].table
  }

  /** Within one table the column phases do not go back, and for one column
      the type change comes before the nullability change. */
  predicate ColumnsOrdered(cs: seq<Change>)
  {
    forall i, j ::
      (0 <= i < j < |cs| && IsColumnLevel(cs[i]) && IsColumnLevel(cs[j]) && cs[i].table == cs[j].table)
      ==> (&& ColumnPhase(cs[i]) <= ColumnPhase(cs[j])
           && !(cs[i].NullableChanged? && cs[j].ColumnTypeChanged? && cs[i].column == cs[j].column))
  }

  predicate IsModification(ch: Change)
  {
    ch.ColumnTypeChanged? || ch.NullableChanged?
  }

  /** The type and nullability records of one column are adjacent: no other
      record comes between two modification records of the same column. */
  predicate ModificationsContiguous(cs: seq<Change>)
  {
    forall i, j, k ::
      (&& 0 <= i < j < k < |cs| && IsModification(cs[i]) && IsModification(cs[k])
       && cs[i].table == cs[k].table && cs[i].column == cs[k].column)
      ==> IsModification(cs[j]) && cs[j].table == cs[i].table && cs[j].column == cs[i].column
  }

  /** Interleaving two columns' modification records breaks contiguity, so
      `GenerateDiff` never emits the type changes of two columns ahead of
      their nullability changes. */
  lemma InterleavedModificationsExcluded(table: string, a: string, b: string, x: string, y: string,
                                         p: Option<bool>, q: Option<bool>)
    requires a != b
    ensures !ModificationsContiguous([ColumnTypeChanged(table, a, x, y), ColumnTypeChanged(table, b, x, y),
                                      NullableChanged(table, a, p, q), NullableChanged(table, b, p, q)])
  {
    var cs := [ColumnTypeChanged(table, a, x, y), ColumnTypeChanged(table, b, x, y),
               NullableChanged(table, a, p, q), NullableChanged(table, b, p, q)];
    assert IsModification(cs[0]) && IsModification(cs[2]) && cs[1].column != cs[0].column;
  }

  // ----- Set algebra used by the loops -----

  lemma ModifiedChangesStep(table: string, oldCols: map<string, Column>, newCols: map<string, Column>,
                            done: set<string>, c: string)
    requires c in oldCols && c in newCols
    ensures ModifiedChanges(table, oldCols, newCols, done + {c}) ==
      ModifiedChanges(table, oldCols, newCols, done)
      + (if oldCols[c].colType != newCols[c].colType
         then {ColumnTypeChanged(table, c, oldCols[c].colType, newCols[c].colType)} else {})
      + (if oldCols[c].nullable != newCols[c].nullable
         then {NullableChanged(table, c, oldCols[c].nullable, newCols[c].nullable)} else {})
  {
  }

  lemma CommonTableChangesStep(oldTables: map<string, Table>, newTables: map<string, Table>,
                               done: set<string>, t: string)
    requires t in oldTables && t in newTables
    ensures CommonTableChanges(oldTables, newTables, done + {t}) ==
      CommonTableChanges(oldTables, newTables, done)
      + ColumnChanges(t, ColumnMap(oldTables[t]), ColumnMap(newTables[t]))
  {
  }

  // ----- The generator -----

  /** `for name in names: changes.append(make(name))`, in arbitrary set order. */
  method EmitEach(names: set<string>, make: string --> Change) returns (out: seq<Change>)
    requires forall n :: n in names ==> make.requires(n)
    requires forall a, b :: a in names && b in names && make(a) == make(b) ==> a == b
    ensures Distinct(out)
    ensures Elems(out) == set n | n in names :: make(n)
  {
    out := [];
    var rest := names;
    while rest != {}
      invariant rest <= names
      invariant Distinct(out)
      invariant Elems(out) == set n | n in names - rest :: make(n)
      decreases rest
    {
      var n :| n in rest;
      assert make(n) !in Elems(out) by {
        assert forall m :: m in names - rest ==> make(m) != make(n);
      }
      assert (set m | m in names - (rest - {n}) :: make(m))
          == (set m | m in names - rest :: make(m)) + {make(n)};
      DistinctConcat(out, [make(n)]);
      ElemsConcat(out, [make(n)]);
      out := out + [make(n)];
      rest := rest - {n};
    }
  }

  /** Facts about a list of column records of the tables in `done` that
      follows `prefix` table records. */
  predicate ColumnSuffix(changes: seq<Change>, prefix: nat, done: set<string>)
  {
    && prefix <= |changes|
    && (forall i :: 0 <= i < prefix ==> !IsColumnLevel(changes[i]))
    && (forall i :: prefix <= i < |changes| ==> IsColumnLevel(changes[i]) && changes[i].table in done)
  }

  /** Column records of a fresh table `t` keep the list duplicate-free. */
  lemma AppendGroupDistinct(changes: seq<Change>, cs: seq<Change>, prefix: nat, done: set<string>, t: string)
    requires ColumnSuffix(changes, prefix, done) && t !in done
    requires forall i :: 0 <= i < |cs| ==> IsColumnLevel(cs[i]) && cs[i].table == t
    requires Distinct(changes) && Distinct(cs)
    ensures Distinct(changes + cs)
    ensures ColumnSuffix(changes + cs, prefix, done + {t})
  {
    forall i, j | 0 <= i < |changes| && 0 <= j < |cs| ensures changes[i] != cs[j] {
      if i >= prefix {
        assert changes[i].table in done;
      }
    }
    DistinctConcat(changes, cs);
  }

  /** Column records appended after table records keep the phases in order. */
  lemma AppendGroupPhases(changes: seq<Change>, cs: seq<Change>)
    requires forall i :: 0 <= i < |cs| ==> IsColumnLevel(cs[i])
    requires PhasesOrdered(changes)
    ensures PhasesOrdered(changes + cs)
  {
    var next, n := changes + cs, |changes|;
    forall i, j | 0 <= i < j < |next| ensures Phase(next[i]) <= Phase(next[j]) {
      if j < n {
        assert next[i] == changes[i] && next[j] == changes[j];
      } else {
        assert next[j] == cs[j - n];
      }
    }
  }

  /** Column records of a fresh table `t` keep the records of each table together. */
  lemma AppendGroupGrouped(changes: seq<Change>, cs: seq<Change>, prefix: nat, done: set<string>, t: string)
    requires ColumnSuffix(changes, prefix, done) && t !in done
    requires forall i :: 0 <= i < |cs| ==> IsColumnLevel(cs[i]) && cs[i].table == t
    requires GroupedByTable(changes)
    ensures GroupedByTable(changes + cs)
  {
    var next, n := changes + cs, |changes|;
    assert forall i :: prefix <= i < n ==> next[i] == changes[i] && next[i].table in done;
    assert forall i :: n <= i < |next| ==> next[i] == cs[i - n] && next[i].table == t;
    forall i, j, k |
      0 <= i < j < k < |next| && IsColumnLevel(next[i]) && IsColumnLevel(next[k]) && next[i].table == next[k].table
      ensures next[j].table == next[i].table
    {
      if k < n {
        assert next[i] == changes[i] && next[j] == changes[j] && next[k] == changes[k];
      } else if n <= i {
        assert next[j] == cs[j - n];
      }
    }
  }

  /** Column records of a fresh table `t`, themselves in column order, keep
      the list in column order. */
  lemma AppendGroupColumnsOrdered(changes: seq<Change>, cs: seq<Change>, prefix: nat, done: set<string>, t: string)
    requires ColumnSuffix(changes, prefix, done) && t !in done
    requires forall i :: 0 <= i < |cs| ==> IsColumnLevel(cs[i]) && cs[i].table == t
    requires ColumnsOrdered(changes) && ColumnsOrdered(cs)
    ensures ColumnsOrdered(changes + cs)
  {
    var next, n := changes + cs, |changes|;
    assert forall i :: prefix <= i < n ==> next[i] == changes[i] && next[i].table in done;
    assert forall i :: n <= i < |next| ==> next[i] == cs[i - n] && next[i].table == t;
    forall i, j |
      0 <= i < j < |next| && IsColumnLevel(next[i]) && IsColumnLevel(next[j]) && next[i].table == next[j].table
      ensures ColumnPhase(next[i]) <= ColumnPhase(next[j])
      ensures !(next[i].NullableChanged? && next[j].ColumnTypeChanged? && next[i].column == next[j].column)
    {
      if j < n {
        assert next[i] == changes[i] && next[j] == changes[j];
      } else if n <= i {
        assert next[i] == cs[i - n] && next[j] == cs[j - n];
      }
    }
  }

  /** Column records of a fresh table `t` keep each column's modification
      records adjacent. */
  lemma AppendGroupContiguous(changes: seq<Change>, cs: seq<Change>, prefix: nat, done: set<string>, t: string)
    requires ColumnSuffix(changes, prefix, done) && t !in done
    requires forall i :: 0 <= i < |cs| ==> IsColumnLevel(cs[i]) && cs[i].table == t
    requires ModificationsContiguous(changes) && ModificationsContiguous(cs)
    ensures ModificationsContiguous(changes + cs)
  {
    var next, n := changes + cs, |changes|;
    assert forall i :: 0 <= i < prefix ==> next[i] == changes[i] && !IsModification(next[i]);
    assert forall i :: prefix <= i < n ==> next[i] == changes[i] && next[i].table in done;
    assert forall i :: n <= i < |next| ==> next[i] == cs[i - n] && next[i].table == t;
    forall i, j, k |
      && 0 <= i < j < k < |next| && IsModification(next[i]) && IsModification(next[k])
      && next[i].table == next[k].table && next[i].column == next[k].column
      ensures IsModification(next[j]) && next[j].table == next[i].table && next[j].column == next[i].column
    {
      if k < n {
        assert next[i] == changes[i] && next[j] == changes[j] && next[k] == changes[k];
      } else if n <= i {
        assert next[i] == cs[i - n] && next[j] == cs[j - n] && next[k] == cs[k - n];
      }
    }
  }

  /** Removed, then added, then modified column records are in column order. */
  lemma ColumnPartsOrdered(removed: seq<Change>, added: seq<Change>, modified: seq<Change>, table: string)
    requires forall i :: 0 <= i < |removed| ==> removed[i].ColumnRemoved? && removed[i].table == table
    requires forall i :: 0 <= i < |added| ==> added[i].ColumnAdded? && added[i].table == table
    requires forall i :: 0 <= i < |modified| ==>
      (modified[i].ColumnTypeChanged? || modified[i].NullableChanged?) && modified[i].table == table
    requires forall i, j :: 0 <= i < j < |modified| && modified[i].column == modified[j].column ==>
      !(modified[i].NullableChanged? && modified[j].ColumnTypeChanged?)
    ensures ColumnsOrdered(removed + added + modified)
  {
    var cs := removed + added + modified;
    var r, ra := |removed|, |removed| + |added|;
    forall i, j | 0 <= i < j < |cs| && IsColumnLevel(cs[i]) && IsColumnLevel(cs[j]) && cs[i].table == cs[j].table
      ensures ColumnPhase(cs[i]) <= ColumnPhase(cs[j])
      ensures !(cs[i].NullableChanged? && cs[j].ColumnTypeChanged? && cs[i].column == cs[j].column)
    {
      if ra <= i {
        assert cs[i] == modified[i - ra] && cs[j] == modified[j - ra];
      } else if r <= i {
        assert cs[i] == added[i - r];
      } else {
        assert cs[i] == removed[i];
      }
    }
  }

  /** Removed and added column records ahead of the modification records
      keep each column's modification records adjacent. */
  lemma ColumnPartsContiguous(removed: seq<Change>, added: seq<Change>, modified: seq<Change>)
    requires forall i :: 0 <= i < |removed| ==> removed[i].ColumnRemoved?
    requires forall i :: 0 <= i < |added| ==> added[i].ColumnAdded?
    requires ModificationsContiguous(modified)
    ensures ModificationsContiguous(removed + added + modified)
  {
    var cs := removed + added + modified;
    var ra := |removed| + |added|;
    assert forall i :: 0 <= i < ra ==> !IsModification(cs[i]) by {
      assert forall i :: 0 <= i < |removed| ==> cs[i] == removed[i];
      assert forall i :: |removed| <= i < ra ==> cs[i] == added[i - |removed|];
    }
    assert forall i :: ra <= i < |cs| ==> cs[i] == modified[i - ra];
    forall i, j, k |
      && 0 <= i < j < k < |cs| && IsModification(cs[i]) && IsModification(cs[k])
      && cs[i].table == cs[k].table && cs[i].column == cs[k].column
      ensures IsModification(cs[j]) && cs[j].table == cs[i].table && cs[j].column == cs[i].column
    {
      assert cs[i] == modified[i - ra] && cs[j] == modified[j - ra] && cs[k] == modified[k - ra];
    }
  }

  /** The records the inner comparison emits for one column present on both sides. */
  function ColumnDelta(table: string, c: string, oldCol: Column, newCol: Column): (d: seq<Change>)
  {
    (if oldCol.colType != newCol.colType then [ColumnTypeChanged(table, c, oldCol.colType, newCol.colType)] else [])
    + (if oldCol.nullable != newCol.nullable then [NullableChanged(table, c, oldCol.nullable, newCol.nullable)] else [])
  }

  /** What the comparison of the columns in `done` has emitted so far. */
  predicate ModifiedSoFar(modified: seq<Change>, table: string, oldCols: map<string, Column>,
                          newCols: map<string, Column>, done: set<string>)
  {
    && Distinct(modified)
    && Elems(modified) == ModifiedChanges(table, oldCols, newCols, done)
    && (forall i :: 0 <= i < |modified| ==>
          IsModification(modified[i]) && modified[i].table == table && modified[i].column in done)
    && TypeBeforeNullable(modified)
    && ModificationsContiguous(modified)
  }

  /** For one column, the type record comes before the nullability record. */
  predicate TypeBeforeNullable(modified: seq<Change>)
  {
    forall i, j ::
      (&& 0 <= i < j < |modified| && IsModification(modified[i]) && IsModification(modified[j])
       && modified[i].column == modified[j].column)
      ==> !(modified[i].NullableChanged? && modified[j].ColumnTypeChanged?)
  }

  /** The records of a fresh column appended to those of the columns in
      `done` keep each column's modification records adjacent. */
  lemma AppendColumnContiguous(modified: seq<Change>, delta: seq<Change>, table: string, done: set<string>, c: string)
    requires c !in done
    requires forall i :: 0 <= i < |modified| ==> IsModification(modified[i]) && modified[i].column in done
    requires forall i :: 0 <= i < |delta| ==> IsModification(delta[i]) && delta[i].table == table && delta[i].column == c
    requires ModificationsContiguous(modified)
    ensures ModificationsContiguous(modified + delta)
  {
    var next, n := modified + delta, |modified|;
    assert forall i :: 0 <= i < n ==> next[i] == modified[i] && next[i].column in done;
    assert forall i :: n <= i < |next| ==> next[i] == delta[i - n] && next[i].column == c;
    forall i, j, k |
      && 0 <= i < j < k < |next| && IsModification(next[i]) && IsModification(next[k])
      && next[i].table == next[k].table && next[i].column == next[k].column
      ensures IsModification(next[j]) && next[j].table == next[i].table && next[j].column == next[i].column
    {
      if k < n {
        assert next[i] == modified[i] && next[j] == modified[j] && next[k] == modified[k];
      } else if n <= i {
        assert next[i] == delta[i - n] && next[j] == delta[j - n] && next[k] == delta[k - n];
      }
    }
  }

  lemma ModifiedStep(modified: seq<Change>, table: string, oldCols: map<string, Column>,
                     newCols: map<string, Column>, done: set<string>, c: string)
    requires c in oldCols && c in newCols && c !in done
    requires ModifiedSoFar(modified, table, oldCols, newCols, done)
    ensures ModifiedSoFar(modified + ColumnDelta(table, c, oldCols[c], newCols[c]), table, oldCols, newCols, done + {c})
  {
    var delta := ColumnDelta(table, c, oldCols[c], newCols[c]);
    ModifiedChangesStep(table, oldCols, newCols, done, c);
    assert Elems(delta) == ModifiedChanges(table, oldCols, newCols, done + {c}) - ModifiedChanges(table, oldCols, newCols, done);
    forall i, j | 0 <= i < |modified| && 0 <= j < |delta| ensures modified[i] != delta[j] {
      assert modified[i].column in done;
    }
    DistinctConcat(modified, delta);
    ElemsConcat(modified, delta);
    AppendColumnContiguous(modified, delta, table, done, c);
    AppendColumnTypeFirst(modified, delta, done, c);
    var next, n := modified + delta, |modified|;
    assert forall i :: 0 <= i < n ==> next[i] == modified[i];
    assert forall i :: n <= i < |next| ==> next[i] == delta[i - n];
  }

  lemma AppendColumnTypeFirst(modified: seq<Change>, delta: seq<Change>, done: set<string>, c: string)
    requires c !in done
    requires forall i :: 0 <= i < |modified| ==> IsModification(modified[i]) && modified[i].column in done
    requires forall i :: 0 <= i < |delta| ==> IsModification(delta[i]) && delta[i].column == c
    requires TypeBeforeNullable(modified) && TypeBeforeNullable(delta)
    ensures TypeBeforeNullable(modified + delta)
  {
    var next, n := modified + delta, |modified|;
    assert forall i :: 0 <= i < n ==> next[i] == modified[i] && next[i].column in done;
    assert forall i :: n <= i < |next| ==> next[i] == delta[i - n] && next[i].column == c;
  }

  /** The type and nullability comparison of the columns present on both sides. */
  method DiffModifiedColumns(table: string, oldCols: map<string, Column>, newCols: map<string, Column>)
    returns (modified: seq<Change>)
    ensures ModifiedSoFar(modified, table, oldCols, newCols, oldCols.Keys * newCols.Keys)
  {
    modified := [];
    var common := oldCols.Keys * newCols.Keys;
    ghost var done: set<string> := {};
    while common != {}
      invariant common + done == oldCols.Keys * newCols.Keys && common !! done
      invariant ModifiedSoFar(modified, table, oldCols, newCols, done)
      decreases common
    {
      var c :| c in common;
      var oldCol, newCol := oldCols[c], newCols[c];
      ModifiedStep(modified, table, oldCols, newCols, done, c);
      ghost var expected := modified + ColumnDelta(table, c, oldCol, newCol);
      if oldCol.colType != newCol.colType {
        modified := modified + [ColumnTypeChanged(table, c, oldCol.colType, newCol.colType)];
      }
      if oldCol.nullable != newCol.nullable {
        modified := modified + [NullableChanged(table, c, oldCol.nullable, newCol.nullable)];
      }
      assert modified == expected;
      common := common - {c};
      done := done + {c};
    }
  }

  /** The column comparison for one table present on both sides. */
  method DiffColumns(table: string, oldCols: map<string, Column>, newCols: map<string, Column>)
    returns (cs: seq<Change>)
    ensures Distinct(cs)
    ensures Elems(cs) == ColumnChanges(table, oldCols, newCols)
    ensures forall i :: 0 <= i < |cs| ==> IsColumnLevel(cs[i]) && cs[i].table == table
    ensures ColumnsOrdered(cs)
    ensures ModificationsContiguous(cs)
  {
    var removed := EmitEach(oldCols.Keys - newCols.Keys, c => ColumnRemoved(table, c));
    var added := EmitEach(newCols.Keys - oldCols.Keys,
                          c requires c in newCols => ColumnAdded(table, c, newCols[c]));
    forall i | 0 <= i < |removed| ensures removed[i].ColumnRemoved? && removed[i].table == table {
      assert removed[i] in Elems(removed);
    }
    forall i | 0 <= i < |added| ensures added[i].ColumnAdded? && added[i].table == table {
      assert added[i] in Elems(added);
    }
    var modified := DiffModifiedColumns(table, oldCols, newCols);
    cs := removed + added + modified;
    ElemsConcat(removed, added);
    ElemsConcat(removed + added, modified);
    DistinctConcat(removed, added);
    DistinctConcat(removed + added, modified);
    ColumnPartsOrdered(removed, added, modified, table);
    ColumnPartsContiguous(removed, added, modified);
  }

  /** What `generate_diff` has emitted once the tables in `done` are compared:
      the `tableLevel` records first, then each compared table's column records. */
  predicate EmittedSoFar(changes: seq<Change>, prefix: nat, tableLevel: set<Change>,
                         oldTables: map<string, Table>, newTables: map<string, Table>, done: set<string>)
  {
    && ColumnSuffix(changes, prefix, done)
    && Distinct(changes)
    && Elems(changes) == tableLevel + CommonTableChanges(oldTables, newTables, done)
    && PhasesOrdered(changes)
    && GroupedByTable(changes)
    && ColumnsOrdered(changes)
    && ModificationsContiguous(changes)
  }

  lemma EmitTableStep(changes: seq<Change>, cs: seq<Change>, prefix: nat, tableLevel: set<Change>,
                      oldTables: map<string, Table>, newTables: map<string, Table>, done: set<string>, t: string)
    requires t in oldTables && t in newTables && t !in done
    requires EmittedSoFar(changes, prefix, tableLevel, oldTables, newTables, done)
    requires Distinct(cs)
    requires Elems(cs) == ColumnChanges(t, ColumnMap(oldTables[t]), ColumnMap(newTables[t]))
    requires forall i :: 0 <= i < |cs| ==> IsColumnLevel(cs[i]) && cs[i].table == t
    requires ColumnsOrdered(cs) && ModificationsContiguous(cs)
    ensures EmittedSoFar(changes + cs, prefix, tableLevel, oldTables, newTables, done + {t})
  {
    CommonTableChangesStep(oldTables, newTables, done, t);
    AppendGroupDistinct(changes, cs, prefix, done, t);
    AppendGroupPhases(changes, cs);
    AppendGroupGrouped(changes, cs, prefix, done, t);
    AppendGroupColumnsOrdered(changes, cs, prefix, done, t);
    AppendGroupContiguous(changes, cs, prefix, done, t);
    ElemsConcat(changes, cs);
  }

  /** The table records alone, removed before added, start the emitted list. */
  lemma EmitTablesStart(removed: seq<Change>, added: seq<Change>,
                        oldTables: map<string, Table>, newTables: map<string, Table>)
    requires Distinct(removed) && Distinct(added)
    requires forall i :: 0 <= i < |removed| ==> removed[i].TableRemoved?
    requires forall i :: 0 <= i < |added| ==> added[i].TableAdded?
    ensures EmittedSoFar(removed + added, |removed + added|, Elems(removed + added), oldTables, newTables, {})
  {
    var changes, n := removed + added, |removed|;
    assert forall i :: 0 <= i < n ==> changes[i] == removed[i];
    assert forall i :: n <= i < |changes| ==> changes[i] == added[i - n];
    DistinctConcat(removed, added);
    assert CommonTableChanges(oldTables, newTables, {}) == {};
  }

  /** `generate_diff(old, new)`: every record of `Changes(old, new)` exactly
      once, table records first (removed before added), then the column
      records grouped by table and ordered within each table, with each
      column's type and nullability records adjacent. */
  method GenerateDiff(oldSchema: Schema, newSchema: Schema) returns (changes: seq<Change>)
    ensures Distinct(changes)
    ensures Elems(changes) == Changes(oldSchema, newSchema)
    ensures PhasesOrdered(changes)
    ensures GroupedByTable(changes)
    ensures ColumnsOrdered(changes)
    ensures ModificationsContiguous(changes)
  {
    var oldTables := TableMap(oldSchema);
    var newTables := TableMap(newSchema);
    var removed := EmitEach(oldTables.Keys - newTables.Keys, t => TableRemoved(t));
    var added := EmitEach(newTables.Keys - oldTables.Keys, t => TableAdded(t));
    forall i | 0 <= i < |removed| ensures removed[i].TableRemoved? {
      assert removed[i] in Elems(removed);
    }
    forall i | 0 <= i < |added| ensures added[i].TableAdded? {
      assert added[i] in Elems(added);
    }
    EmitTablesStart(removed, added, oldTables, newTables);
    ElemsConcat(removed, added);
    changes := removed + added;
    ghost var tableLevel := Elems(changes);
    var prefix := |changes|;
    var common := oldTables.Keys * newTables.Keys;
    ghost var done: set<string> := {};
    while common != {}
      invariant common + done == oldTables.Keys * newTables.Keys && common !! done
      invariant EmittedSoFar(changes, prefix, tableLevel, oldTables, newTables, done)
      decreases common
    {
      var t :| t in common;
      var cs := DiffColumns(t, ColumnMap(oldTables[t]), ColumnMap(newTables[t]));
      EmitTableStep(changes, cs, prefix, tableLevel, oldTables, newTables, done, t);
      changes := changes + cs;
      common := common - {t};
      done := done + {t};
    }
  }

  /** Any list with `GenerateDiff`'s guarantees has one entry per record of
      the diff, and diffing a schema against itself yields the empty list. */
  lemma DiffListSize(changes: seq<Change>, oldSchema: Schema, newSchema: Schema)
    requires Distinct(changes) && Elems(changes) == Changes(oldSchema, newSchema)
    ensures |changes| == |Changes(oldSchema, newSchema)|
    ensures oldSchema == newSchema ==> changes == []
  {
    DistinctCardinality(changes);
    if oldSchema == newSchema {
      SelfDiffEmpty(oldSchema);
    }
  }
}
