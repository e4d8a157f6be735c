/** The reconciler as create_tables.py runs it: a database whose catalog is changed in
    place, statement by statement, by the enforce_* procedures and the main loop. Each
    procedure is proved to leave the catalog (and to return the result) that its
    specification function in module Catalog computes from the catalog it started on. */
module Engine {
  import opened Constants
  import opened Naming
  import opened Schema
  import opened Validation
  import opened Catalog

  /** The catalog of the database a connection points at. */
  class Database {
    var tables: map<string, map<string, string>>
    var constraints: set<(string, string)>
    var enums: map<string, seq<string>>
    var references: set<(string, string)>

    /** The catalog as a value. */
    function State(): Db
      reads this
    {
      Db(tables, constraints, enums, references)
    }

    constructor (db: Db)
      ensures State() == db
    {
      tables := db.tables;
      constraints := db.constraints;
      enums := db.enums;
      references := db.references;
    }

    // -------------------------------------------------------------------------
    // Probes

    /** table_exists. */
    method TableExists(name: string) returns (b: bool)
      ensures b == Catalog.TableExists(State(), name)
    {
      b := name in tables;
    }

    /** column_exists. */
    method ColumnExists(table: string, column: string) returns (b: bool)
      ensures b == Catalog.ColumnExists(State(), table, column)
    {
      b := table in tables && column in tables[table];
    }

    // -------------------------------------------------------------------------
    // Statements

    method CreateTable(name: string, columns: map<string, string>, refs: set<string>)
      requires name !in tables
      requires forall x :: x in refs ==> x in tables && "id" in tables[x]
      modifies this
      ensures State() == Catalog.CreateTable(old(State()), name, columns, refs)
    {
      tables := tables[name := columns];
      references := references + set x | x in refs :: (name, x);
    }

    method AddColumn(table: string, column: string, ty: string)
      requires table in tables && column !in tables[table]
      modifies this
      ensures State() == Catalog.AddColumn(old(State()), table, column, ty)
    {
      tables := tables[table := tables[table][column := ty]];
    }

    method CreateEnum(name: string, labels: seq<string>)
      requires name !in enums
      modifies this
      ensures State() == Catalog.CreateEnum(old(State()), name, labels)
    {
      enums := enums[name := labels];
    }

    method AddConstraint(table: string, name: string)
      modifies this
      ensures State() == Catalog.AddConstraint(old(State()), table, name)
    {
      constraints := constraints + {(table, name)};
    }

    method AddForeignKey(table: string, name: string, target: string)
      modifies this
      ensures State() == Catalog.AddForeignKey(old(State()), table, name, target)
    {
      constraints := constraints + {(table, name)};
      references := references + {(table, target)};
    }

    /** The recurring "table_exists, else CREATE TABLE" step. */
    method EnsureTable(name: string, columns: map<string, string>, refs: set<string>)
      requires name !in tables ==> forall x :: x in refs ==> x in tables && "id" in tables[x]
      modifies this
      ensures State() == Catalog.EnsureTable(old(State()), name, columns, refs)
    {
      var present := TableExists(name);
      if !present {
        CreateTable(name, columns, refs);
      }
    }

    /** A "table_exists, else CREATE TABLE" step whose REFERENCES clauses point at
        `refs`: the statement raises when one of them has no id column. */
    method EnsureTableReferencing(name: string, columns: map<string, string>, refs: set<string>) returns (aborted: bool)
      modifies this
      ensures Run(State(), aborted) == Catalog.EnsureTableReferencing(old(State()), name, columns, refs)
    {
      var present := TableExists(name);
      if present {
        return false;
      }
      if exists x :: x in refs && !Catalog.ColumnExists(State(), x, "id") {
        return true;
      }
      CreateTable(name, columns, refs);
      return false;
    }

    /** The rollback of the table's transaction: the catalog it started from. */
    method Restore(db: Db)
      modifies this
      ensures State() == db
    {
      tables := db.tables;
      constraints := db.constraints;
      enums := db.enums;
      references := db.references;
    }

    // -------------------------------------------------------------------------
    // The enforce_* procedures

    /** The first block of enforce_column: compare the type of an existing column,
        or add the missing one. */
    method EnsureColumn(t: string, c: string, col: ColumnSpec) returns (outcome: Outcome)
      requires t in tables && c == LowerSnake(col.name)
      modifies this
      ensures Step(State(), outcome) == Catalog.EnsureColumn(old(State()), t, col)
    {
      var present := ColumnExists(t, c);
      if present {
        if ReportedType(tables[t][c]) != PsqlType(col.dataType) {
          return Mismatched;
        }
      } else if col.dataType == Enum {
        var e := EnumTypeName(t, c);
        if e in enums {
          return Aborted;
        }
        CreateEnum(e, col.values);
        AddColumn(t, c, e);
      } else {
        AddColumn(t, c, PsqlType(col.dataType));
      }
      return Matched;
    }

    /** The constraint block of enforce_column. */
    method AddColumnConstraints(t: string, c: string, col: ColumnSpec) returns (outcome: Outcome)
      requires c == LowerSnake(col.name)
      modifies this
      ensures Step(State(), outcome) == Catalog.AddColumnConstraints(old(State()), t, col)
    {
      // the loop meant to drop the old constraints reads an exhausted cursor
      var u := UniqueConstraintName(t, c);
      if col.unique {
        if (t, u) in constraints {
          return Aborted;
        }
        AddConstraint(t, u);
      }
      if !col.optional {
        if (t, u) in constraints {
          return Aborted;
        }
        AddConstraint(t, u);
      }
      return Matched;
    }

    /** The comments block of enforce_column. */
    method EnforceCommentsColumn(t: string, c: string, comments: bool) returns (outcome: Outcome)
      requires t in tables
      modifies this
      ensures Step(State(), outcome) == Catalog.EnforceCommentsColumn(old(State()), t, c, comments)
    {
      var cc := CommentsColumnName(c);
      var commentsExists := ColumnExists(t, cc);
      if comments {
        if !commentsExists {
          AddColumn(t, cc, "text");
        }
      } else if commentsExists {
        return Mismatched;
      }
      return Matched;
    }

    /** enforce_column: the three blocks in order; a False or an exception ends it. */
    method EnforceColumn(t: string, col: ColumnSpec) returns (outcome: Outcome)
      requires t in tables
      modifies this
      ensures Step(State(), outcome) == Catalog.EnforceColumn(old(State()), t, col)
    {
      var c := ToLowerSnakeCase(col.name);
      outcome := EnsureColumn(t, c, col);
      if outcome != Matched {
        return;
      }
      outcome := AddColumnConstraints(t, c, col);
      if outcome == Aborted {
        return;
      }
      outcome := EnforceCommentsColumn(t, c, col.comments);
    }

    /** enforce_reserved_columns, with the table's name passed in. */
    method EnforceReservedColumns(t: string, table: TableSpec) returns (outcome: Outcome)
      requires t in tables
      modifies this
      ensures Step(State(), outcome) == Catalog.EnforceReservedColumns(old(State()), t, table.tagging)
    {
      var hasId := ColumnExists(t, "id");
      if !hasId {
        return Mismatched;
      }
      var hasPrimaryTag := ColumnExists(t, "primary_tag");
      if table.tagging {
        if !hasPrimaryTag {
          AddColumn(t, "primary_tag", "integer");
          // the foreign key needs a free name and an id column to reference
          var namesHaveId := ColumnExists(TagNamesTable(t), "id");
          if (t, PrimaryTagForeignKey) in constraints || !namesHaveId {
            return Aborted;
          }
          AddForeignKey(t, PrimaryTagForeignKey, TagNamesTable(t));
        }
      } else if hasPrimaryTag {
        return Mismatched;
      }
      return Matched;
    }

    /** enforce_tagging_tables: the tag names table, then the three tables that point
        at it, each created only if it is missing; a CREATE TABLE whose referenced
        table has no id column raises and ends it. */
    method EnforceTaggingTables(t: string) returns (aborted: bool)
      requires t in tables
      modifies this
      ensures Run(State(), aborted) == Catalog.EnforceTaggingTables(old(State()), t)
    {
      TaggingNamesDistinct(t);
      var names := t + "_tag_names";
      var tags := t + "_tags";
      var aliases := t + "_tag_aliases";
      var groups := t + "_tag_groups";
      EnsureTable(names, TagNamesColumns, {});
      aborted := EnsureTableReferencing(tags, TagsColumns, {t, names});
      if aborted {
        return;
      }
      ghost var db2 := State();
      aborted := EnsureTableReferencing(aliases, TagAliasesColumns, {names});
      if !aborted {
        aborted := EnsureTableReferencing(groups, TagGroupsColumns, {names});
      }
      assert Run(State(), aborted) == EnsureTagNameReferrers(db2, names, aliases, groups);
    }

    /** The loop that enforces a list of column declarations on one table, each
        result discarded; an exception ends it. */
    method EnforceColumnList(n: string, cols: seq<ColumnSpec>) returns (aborted: bool)
      requires n in tables
      modifies this
      ensures State() == EnforceColumns(old(State()), n, cols).db
      ensures aborted == EnforceColumns(old(State()), n, cols).aborted
    {
      ghost var db := State();
      for j := 0 to |cols|
        invariant n in tables
        invariant State() == EnforceColumns(db, n, cols[..j]).db
        invariant !EnforceColumns(db, n, cols[..j]).aborted
      {
        EnforceColumnsStep(db, n, cols, j);
        var outcome := EnforceColumn(n, cols[j]);
        if outcome == Aborted {
          EnforceColumnsAbortPersists(db, n, cols, j + 1);
          return true;
        }
      }
      assert cols[..|cols|] == cols;
      return false;
    }

    /** One pass of the loop of enforce_descriptor_tables: the descriptor's table,
        created with only an id if it is missing, then its columns. */
    method EnforceDescriptor(t: string, d: DescriptorSpec) returns (aborted: bool)
      modifies this
      ensures State() == Catalog.EnforceDescriptor(old(State()), t, d).db
      ensures aborted == Catalog.EnforceDescriptor(old(State()), t, d).aborted
    {
      var dname := ToLowerSnakeCase(d.name);
      var n := t + "_" + dname + "_descriptors";
      assert n == DescriptorTableName(t, d.name);
      EnsureTable(n, map["id" := "integer"], {});
      aborted := EnforceColumnList(n, d.columns);
    }

    /** enforce_descriptor_tables: for every descriptor, its table (created with only an
        id if it is missing), then each of its columns, their results discarded. It
        returns nothing; `aborted` says whether a statement raised. */
    method EnforceDescriptorTables(table: TableSpec) returns (aborted: bool)
      requires table.descriptors.Some?
      modifies this
      ensures State() == EnforceDescriptors(old(State()), LowerSnake(table.name), table.descriptors.value).db
      ensures aborted == EnforceDescriptors(old(State()), LowerSnake(table.name), table.descriptors.value).aborted
    {
      ghost var db := State();
      var descs := table.descriptors.value;
      var t := ToLowerSnakeCase(table.name);
      for i := 0 to |descs|
        invariant State() == EnforceDescriptors(db, t, descs[..i]).db
        invariant !EnforceDescriptors(db, t, descs[..i]).aborted
      {
        EnforceDescriptorsStep(db, t, descs, i);
        aborted := EnforceDescriptor(t, descs[i]);
        if aborted {
          EnforceDescriptorsAbortPersists(db, t, descs, i + 1);
          return;
        }
      }
      assert descs[..|descs|] == descs;
      return false;
    }

    // -------------------------------------------------------------------------
    // The main loop

    /** The first half of the per-table sequence: the table with an id if it is
        missing, the tagging bundle, the descriptor tables. */
    method PrepareTable(t: string, table: TableSpec) returns (aborted: bool)
      requires t == LowerSnake(table.name)
      modifies this
      ensures State() == Catalog.PrepareTable(old(State()), t, table).db
      ensures aborted == Catalog.PrepareTable(old(State()), t, table).aborted
    {
      EnsureTable(t, map["id" := "integer"], {});
      aborted := false;
      if table.tagging {
        aborted := EnforceTaggingTables(t);
      }
      if !aborted && table.descriptors.Some? {
        aborted := EnforceDescriptorTables(table);
      }
    }

    /** The second half of the per-table sequence: the declared columns, then the
        reserved columns. */
    method FinishTable(t: string, table: TableSpec) returns (aborted: bool)
      requires t in tables
      modifies this
      ensures State() == Catalog.FinishTable(old(State()), t, table).db
      ensures aborted == Catalog.FinishTable(old(State()), t, table).aborted
    {
      aborted := EnforceColumnList(t, table.columns);
      if !aborted {
        var outcome := EnforceReservedColumns(t, table);
        aborted := outcome == Aborted;
      }
    }

    /** The per-table sequence, inside the table's transaction: an exception rolls the
        table back to the catalog it started from. */
    method ReconcileTable(table: TableSpec) returns (aborted: bool)
      modifies this
      ensures State() == Catalog.ReconcileTable(old(State()), table).db
      ensures aborted == Catalog.ReconcileTable(old(State()), table).aborted
    {
      var snapshot := State();
      var t := ToLowerSnakeCase(table.name);
      aborted := PrepareTable(t, table);
      if !aborted {
        aborted := FinishTable(t, table);
      }
      if aborted {
        Restore(snapshot);
      }
    }

    /** One pass of the main loop, over the `i`-th table declaration: a nameless table
        is reported and skipped; a named one has its violations reported and is then
        reconciled whatever they are. */
    method ReconcileEntry(ghost db: Db, tables: seq<TableSpec>, i: nat) returns (reported: seq<Violation>, aborted: bool)
      requires i < |tables|
      requires !ReconcileTables(db, tables[..i]).aborted && State() == ReconcileTables(db, tables[..i]).db
      modifies this
      ensures State() == ReconcileTables(db, tables[..i + 1]).db
      ensures aborted == ReconcileTables(db, tables[..i + 1]).aborted
      ensures ReconcileTables(db, tables[..i + 1]).violations == ReconcileTables(db, tables[..i]).violations + reported
    {
      assert tables[..i + 1][..i] == tables[..i];
      var table := tables[i];
      if table.name == [] {
        return [NamelessTable], false;
      }
      var t := ToLowerSnakeCase(table.name);
      var faults := CheckTable(table);
      reported := TableViolations(t, faults);
      aborted := ReconcileTable(table);
    }

    /** The loop over a database's tables: report a nameless table and skip it, or
        report a table's violations and reconcile it; an exception ends the loop. */
    method ReconcileTableList(tables: seq<TableSpec>) returns (violations: seq<Violation>, aborted: bool)
      modifies this
      ensures State() == ReconcileTables(old(State()), tables).db
      ensures aborted == ReconcileTables(old(State()), tables).aborted
      ensures violations == ReconcileTables(old(State()), tables).violations
    {
      ghost var db := State();
      violations := [];
      aborted := false;
      for i := 0 to |tables|
        invariant !aborted
        invariant !ReconcileTables(db, tables[..i]).aborted
        invariant State() == ReconcileTables(db, tables[..i]).db
        invariant violations == ReconcileTables(db, tables[..i]).violations
      {
        var reported;
        reported, aborted := ReconcileEntry(db, tables, i);
        violations := violations + reported;
        if aborted {
          ReconcileTablesAbortPersists(db, tables, i + 1);
          return;
        }
      }
      assert tables[..|tables|] == tables;
    }

    /** The main loop for one database: a nameless database is skipped; a reserved
        database name is reported, and its tables are reconciled all the same. */
    method Reconcile(spec: DatabaseSpec) returns (violations: seq<Violation>, aborted: bool)
      modifies this
      ensures State() == ReconcileDatabase(old(State()), spec).db
      ensures aborted == ReconcileDatabase(old(State()), spec).aborted
      ensures violations == ReconcileDatabase(old(State()), spec).violations
    {
      if spec.name == [] {
        return [], false;
      }
      var dbName := ToLowerSnakeCase(spec.name);
      var valid := ValidateName(dbName, ReservedDatabaseNames);
      var head := if valid then [] else [ReservedDatabaseName(dbName)];
      var reported;
      reported, aborted := ReconcileTableList(spec.tables);
      violations := head + reported;
    }
  }
}
