/** What the reconciler promises across calls: which columns re-match on a rerun,
    when a rerun fails, and that reconciling a table twice leaves the catalog as
    reconciling it once did. */
module CatalogProperties {
  import opened Wrappers
  import opened Constants
  import opened Naming
  import opened Schema
  import opened Catalog

  // ---------------------------------------------------------------------------
  // Columns

  /** A declared column with nothing left to do: it exists, and either its type has
      drifted (so it is only reported) or its comments column and its constraint are
      in place. */
  predicate ColumnSettled(db: Db, n: string, col: ColumnSpec)
    requires n in db.tables
  {
    var c := LowerSnake(col.name);
    && c in db.tables[n]
    && (|| Drifted(db, n, col)
        || (&& (col.comments ==> CommentsColumnName(c) in db.tables[n])
            && (col.unique || !col.optional ==> (n, UniqueConstraintName(n, c)) in db.constraints)))
  }

  /** Nothing the reconciler does can unsettle a column: columns keep their types,
      and constraints and columns are never dropped. */
  lemma ColumnSettledStable(db: Db, db': Db, n: string, col: ColumnSpec)
    requires n in db.tables && Extends(db, db') && ColumnSettled(db, n, col)
    ensures n in db'.tables && ColumnSettled(db', n, col)
  {
  }

  /** A column enforce_column did not fail on is settled afterwards. */
  lemma EnforceColumnSettles(db: Db, t: string, col: ColumnSpec)
    requires t in db.tables
    ensures var s := EnforceColumn(db, t, col);
            s.outcome != Aborted ==> ColumnSettled(s.db, t, col)
  {
  }

  /** enforce_column on a settled column changes nothing unless it fails, and it fails
      exactly when the type still matches and the column is unique or required: the
      constraint names it adds are taken by the first run, and nothing is dropped. */
  lemma SettledColumnRerun(db: Db, t: string, col: ColumnSpec)
    requires t in db.tables && ColumnSettled(db, t, col)
    ensures var s := EnforceColumn(db, t, col);
            && (s.outcome == Aborted <==> !Drifted(db, t, col) && (col.unique || !col.optional))
            && (s.outcome != Aborted ==> s.db == db)
  {
  }

  /** A column declared unique and required can never be enforced once its type
      matches: the NOT NULL constraint reuses the name the UNIQUE constraint has just
      taken. */
  lemma UniqueRequiredColumnFails(db: Db, t: string, col: ColumnSpec)
    requires t in db.tables && col.unique && !col.optional && !Drifted(db, t, col)
    ensures EnforceColumn(db, t, col).outcome == Aborted
  {
  }

  /** The SQL types information_schema reports under the name they were created with. */
  lemma PsqlTypeReported(ty: LogicalType)
    ensures ReportedType(PsqlType(ty)) == PsqlType(ty) <==> ty != Time && ty != Timestamp && ty != Enum
  {
    match ty
    case Time =>
    case Timestamp =>
    case Enum =>
    case _ =>
      assert PsqlType(ty) in BuiltinTypes;
  }

  /** A column just created re-matches its declaration on the next run exactly when
      its logical type is not time, timestamp or enum: those are reported as
      "time without time zone", "timestamp without time zone" and "USER-DEFINED". */
  lemma {:induction false} FreshColumnRematch(db: Db, t: string, col: ColumnSpec)
    requires t in db.tables && LowerSnake(col.name) !in db.tables[t]
    ensures var s := EnforceColumn(db, t, col);
            s.outcome != Aborted ==>
              (Drifted(s.db, t, col) <==> col.dataType == Time || col.dataType == Timestamp || col.dataType == Enum)
  {
    PsqlTypeReported(col.dataType);
  }

  /** An existing comments column is kept when the declaration no longer asks for it,
      and the column is reported. */
  lemma CommentsColumnKept(db: Db, t: string, col: ColumnSpec)
    requires t in db.tables && !col.comments && !Drifted(db, t, col)
    requires CommentsColumnName(LowerSnake(col.name)) in db.tables[t]
    ensures var s := EnforceColumn(db, t, col);
            s.outcome != Aborted ==>
              s.outcome == Mismatched && CommentsColumnName(LowerSnake(col.name)) in s.db.tables[t]
  {
    assert CommentsColumnName(LowerSnake(col.name)) != LowerSnake(col.name);
  }

  /** After the declared columns are enforced without failure, every one is settled. */
  lemma {:induction false} EnforceColumnsSettle(db: Db, t: string, cols: seq<ColumnSpec>)
    requires t in db.tables
    ensures var r := EnforceColumns(db, t, cols);
            !r.aborted ==> forall col :: col in cols ==> ColumnSettled(r.db, t, col)
    decreases |cols|
  {
    if cols != [] {
      var init := cols[..|cols| - 1];
      var last := cols[|cols| - 1];
      var prev := EnforceColumns(db, t, init);
      EnforceColumnsSettle(db, t, init);
      if !prev.aborted {
        var s := EnforceColumn(prev.db, t, last);
        EnforceColumnSettles(prev.db, t, last);
        forall col | col in init
          ensures ColumnSettled(s.db, t, col)
        {
          ColumnSettledStable(prev.db, s.db, t, col);
        }
        assert forall col :: col in cols ==> col in init || col == last;
      }
    }
  }

  /** Enforcing settled columns again either fails or changes nothing. */
  lemma {:induction false} SettledColumnsNoop(db: Db, t: string, cols: seq<ColumnSpec>)
    requires t in db.tables
    requires forall col :: col in cols ==> ColumnSettled(db, t, col)
    ensures var r := EnforceColumns(db, t, cols);
            r.aborted || r.db == db
    decreases |cols|
  {
    if cols != [] {
      var init := cols[..|cols| - 1];
      var last := cols[|cols| - 1];
      SettledColumnsNoop(db, t, init);
      SettledColumnRerun(db, t, last);
    }
  }

  // ---------------------------------------------------------------------------
  // Descriptors

  /** A descriptor with nothing left to do: its table exists and its columns are settled. */
  predicate DescriptorSettled(db: Db, t: string, d: DescriptorSpec) {
    var n := DescriptorTableName(t, d.name);
    n in db.tables && forall col :: col in d.columns ==> ColumnSettled(db, n, col)
  }

  lemma DescriptorSettledStable(db: Db, db': Db, t: string, d: DescriptorSpec)
    requires Extends(db, db') && DescriptorSettled(db, t, d)
    ensures DescriptorSettled(db', t, d)
  {
    var n := DescriptorTableName(t, d.name);
    forall col | col in d.columns
      ensures ColumnSettled(db', n, col)
    {
      ColumnSettledStable(db, db', n, col);
    }
  }

  /** After enforce_descriptor_tables runs without failure, every descriptor is settled. */
  lemma {:induction false} EnforceDescriptorsSettle(db: Db, t: string, descs: seq<DescriptorSpec>)
    ensures var r := EnforceDescriptors(db, t, descs);
            !r.aborted ==> forall d :: d in descs ==> DescriptorSettled(r.db, t, d)
    decreases |descs|
  {
    if descs != [] {
      var init := descs[..|descs| - 1];
      var last := descs[|descs| - 1];
      var prev := EnforceDescriptors(db, t, init);
      EnforceDescriptorsSettle(db, t, init);
      if !prev.aborted {
        var n := DescriptorTableName(t, last.name);
        var db1 := EnsureTable(prev.db, n, map["id" := "integer"], {});
        var r := EnforceColumns(db1, n, last.columns);
        assert r == EnforceDescriptor(prev.db, t, last);
        EnforceColumnsSettle(db1, n, last.columns);
        forall d | d in init
          ensures DescriptorSettled(r.db, t, d)
        {
          DescriptorSettledStable(prev.db, r.db, t, d);
        }
        assert forall d :: d in descs ==> d in init || d == last;
      }
    }
  }

  /** Enforcing settled descriptors again either fails or changes nothing. */
  lemma {:induction false} SettledDescriptorsNoop(db: Db, t: string, descs: seq<DescriptorSpec>)
    requires forall d :: d in descs ==> DescriptorSettled(db, t, d)
    ensures var r := EnforceDescriptors(db, t, descs);
            r.aborted || r.db == db
    decreases |descs|
  {
    if descs != [] {
      var init := descs[..|descs| - 1];
      var last := descs[|descs| - 1];
      SettledDescriptorsNoop(db, t, init);
      var prev := EnforceDescriptors(db, t, init);
      if !prev.aborted {
        var n := DescriptorTableName(t, last.name);
        assert DescriptorSettled(db, t, last);
        assert EnsureTable(db, n, map["id" := "integer"], {}) == db;
        SettledColumnsNoop(db, n, last.columns);
      }
    }
  }

  // ---------------------------------------------------------------------------
  // Tables

  /** A table declaration with nothing left to do: its table, tagging bundle and
      descriptors exist, a tagged table with an id has its primary_tag, and every
      declared column is settled. */
  predicate TableSettled(db: Db, table: TableSpec) {
    var t := LowerSnake(table.name);
    && t in db.tables
    && (table.tagging ==> HasTaggingBundle(db, t))
    && (table.tagging && "id" in db.tables[t] ==> "primary_tag" in db.tables[t])
    && (table.descriptors.Some? ==> forall d :: d in table.descriptors.value ==> DescriptorSettled(db, t, d))
    && (forall col :: col in table.columns ==> ColumnSettled(db, t, col))
  }

  /** After the declared and reserved columns are enforced without failure, every
      declared column is settled. */
  lemma {:induction false} FinishTableSettles(db: Db, t: string, table: TableSpec)
    requires t in db.tables
    ensures var r := FinishTable(db, t, table);
            !r.aborted ==> forall col :: col in table.columns ==> ColumnSettled(r.db, t, col)
  {
    var r3 := EnforceColumns(db, t, table.columns);
    if !r3.aborted {
      EnforceColumnsSettle(db, t, table.columns);
      var s4 := EnforceReservedColumns(r3.db, t, table.tagging);
      forall col | col in table.columns
        ensures ColumnSettled(s4.db, t, col)
      {
        ColumnSettledStable(r3.db, s4.db, t, col);
      }
    }
  }

  /** After the table, its tagging bundle and its descriptor tables are prepared
      without failure, every descriptor is settled. */
  lemma {:induction false} PrepareTableSettles(db: Db, t: string, table: TableSpec)
    ensures var r := PrepareTable(db, t, table);
            !r.aborted && table.descriptors.Some? ==>
              forall d :: d in table.descriptors.value ==> DescriptorSettled(r.db, t, d)
  {
    var db0 := EnsureTable(db, t, map["id" := "integer"], {});
    var r1 := if table.tagging then EnforceTaggingTables(db0, t) else Run(db0, false);
    if table.descriptors.Some? && !r1.aborted {
      assert PrepareTable(db, t, table) == EnforceDescriptors(r1.db, t, table.descriptors.value);
      EnforceDescriptorsSettle(r1.db, t, table.descriptors.value);
    }
  }

  /** A committed reconciliation leaves its table settled. */
  lemma {:induction false} ReconcileTableSettles(db: Db, table: TableSpec)
    ensures var r := ReconcileTable(db, table);
            !r.aborted ==> TableSettled(r.db, table)
  {
    var t := LowerSnake(table.name);
    var r1 := PrepareTable(db, t, table);
    if !r1.aborted {
      PrepareTableSettles(db, t, table);
      var r2 := FinishTable(r1.db, t, table);
      if !r2.aborted {
        FinishTableSettles(r1.db, t, table);
        if table.descriptors.Some? {
          forall d | d in table.descriptors.value
            ensures DescriptorSettled(r2.db, t, d)
          {
            DescriptorSettledStable(r1.db, r2.db, t, d);
          }
        }
      }
    }
  }

  /** Reconciling a settled table changes nothing: every step either finds its work
      done or fails, and a failure rolls the table back. */
  lemma {:induction false} SettledTableNoop(db: Db, table: TableSpec)
    requires TableSettled(db, table)
    ensures ReconcileTable(db, table).db == db
  {
    var t := LowerSnake(table.name);
    var db0 := EnsureTable(db, t, map["id" := "integer"], {});
    assert db0 == db;
    var r1 := if table.tagging then EnforceTaggingTables(db0, t) else Run(db0, false);
    assert r1 == Run(db, false);
    var r2 := if table.descriptors.Some? then EnforceDescriptors(db, t, table.descriptors.value) else Run(db, false);
    if table.descriptors.Some? {
      SettledDescriptorsNoop(db, t, table.descriptors.value);
    }
    assert r2 == PrepareTable(db, t, table);
    if !r2.aborted {
      SettledColumnsNoop(db, t, table.columns);
      var r3 := EnforceColumns(db, t, table.columns);
      if !r3.aborted {
        var s4 := EnforceReservedColumns(db, t, table.tagging);
        assert s4.db == db;
      }
      assert FinishTable(db, t, table).aborted || FinishTable(db, t, table).db == db;
    }
  }

  /** Reconciling a table a second time leaves the catalog exactly as the first time
      did: the first run either failed and was rolled back, or left the table settled. */
  lemma {:induction false} ReconcileTableIdempotent(db: Db, table: TableSpec)
    ensures var once := ReconcileTable(db, table).db;
            ReconcileTable(once, table).db == once
  {
    var r := ReconcileTable(db, table);
    if !r.aborted {
      ReconcileTableSettles(db, table);
      SettledTableNoop(r.db, table);
    }
  }

  // ---------------------------------------------------------------------------
  // The main loop

  /** "_tagswidge" is rejected by the suffix check, and a declaration of it without
      columns has two faults. */
  lemma SuffixFaultExample()
    ensures Validation.TableFaults(TableSpec("_tagswidge", [], false, None)) == [ReservedSuffix, NoColumns]
  {
    assert LowerSnake("_tagswidge") == "_tagswidge";
    assert "_tagswidge"[..5] == "_tags";
    assert PrefixClash("_tagswidge", ReservedTableSuffixes[0]);
  }

  /** A table whose declaration breaks the rules is reported and reconciled all the
      same: "widgets" declares no column, yet on an empty catalog it is created, with
      its id column. */
  lemma ViolatingTableStillReconciled()
    ensures var table := TableSpec("widgets", [], false, None);
            var r := ReconcileTables(Db(map[], {}, map[], {}), [table]);
            && !r.aborted
            && "widgets" in r.db.tables && "id" in r.db.tables["widgets"]
            && r.violations == [TableViolation("widgets", NoColumns)]
  {
    var table := TableSpec("widgets", [], false, None);
    var empty := Db(map[], {}, map[], {});
    var t := LowerSnake(table.name);
    assert t == "widgets";
    TableSuffixCheckByLength(t);
    assert Validation.TableFaults(table) == [NoColumns];
    var db0 := EnsureTable(empty, t, map["id" := "integer"], {});
    assert PrepareTable(empty, t, table) == Run(db0, false);
    assert EnforceColumns(db0, t, []) == Run(db0, false);
    assert !FinishTable(db0, t, table).aborted;
    assert [table][..0] == [];
  }

  /** A tagged table that exists without an id column, and has no tags table yet,
      can never be reconciled: creating the tags table raises on its reference to
      the table's id, and the table's transaction is rolled back. */
  lemma TaggedTableWithoutIdFails(db: Db, table: TableSpec)
    requires table.tagging
    requires var t := LowerSnake(table.name);
             t in db.tables && "id" !in db.tables[t] && TagsTable(t) !in db.tables
    ensures ReconcileTable(db, table) == Run(db, true)
  {
  }

  /** The same with a table "w" holding only a text column "name". */
  lemma TaggedTableWithoutIdExample()
    ensures var db := Db(map["w" := map["name" := "text"]], {}, map[], {});
            ReconcileTable(db, TableSpec("w", [], true, None)) == Run(db, true)
  {
    var db := Db(map["w" := map["name" := "text"]], {}, map[], {});
    assert LowerSnake("w") == "w";
    assert TagsTable("w") == "w_tags";
    TaggedTableWithoutIdFails(db, TableSpec("w", [], true, None));
  }

  /** A reserved database name is reported, and the database is reconciled all the same. */
  lemma ReservedDatabaseStillReconciled(db: Db, spec: DatabaseSpec)
    requires LowerSnake(spec.name) == "info"
    ensures var r := ReconcileDatabase(db, spec);
            && r.violations[0] == ReservedDatabaseName("info")
            && r.db == ReconcileTables(db, spec.tables).db
  {
  }
}
