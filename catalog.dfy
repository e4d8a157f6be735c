/** The catalog of one PostgreSQL database as the reconciler in create_tables.py
    sees it, the read-only probes it runs against it, the DDL statements it issues,
    and, as functions of the catalog, what each enforce_* procedure and the per-table
    sequence of the main loop do to it. */
module Catalog {
  import opened Constants
  import opened Naming
  import opened Schema
  import opened Validation

  /** One database's catalog. */
  datatype Db = Db(
    // table -> column -> the column's type under PostgreSQL's canonical name ("integer",
    // "boolean", "text", ...; never an alias such as "int4" or "bool"), with time
    // and timestamp as "time" and "timestamp", and an enum column under its enum type
    tables: map<string, map<string, string>>,
    // (table, constraint name) for every named constraint on a table
    constraints: set<(string, string)>,
    // enum type -> its labels
    enums: map<string, seq<string>>,
    // (table, table that one of its foreign keys points at)
    references: set<(string, string)>)
  {
    /** Referential integrity: every constraint sits on an existing table, and every
        foreign key joins two existing tables. */
    ghost predicate Valid() {
      && (forall p :: p in constraints ==> p.0 in tables)
      && (forall p :: p in references ==> p.0 in tables && p.1 in tables)
    }
  }

  /** `after` keeps everything `before` has: no table, column, constraint, enum type or
      foreign key is dropped, and no column changes type. */
  ghost predicate Extends(before: Db, after: Db) {
    && (forall t :: t in before.tables ==>
          t in after.tables &&
          forall c :: c in before.tables[t] ==> c in after.tables[t] && after.tables[t][c] == before.tables[t][c])
    && before.constraints <= after.constraints
    && before.references <= after.references
    && (forall e :: e in before.enums ==> e in after.enums && after.enums[e] == before.enums[e])
  }

  lemma ExtendsTransitive(a: Db, b: Db, c: Db)
    requires Extends(a, b) && Extends(b, c)
    ensures Extends(a, c)
  {
  }

  /** `e` is the enum type of a column of one of the tables in `owned`. */
  ghost predicate EnumOf(e: string, owned: set<string>) {
    exists n, c :: n in owned && e == EnumTypeName(n, c)
  }

  /** Whatever `after` has that `before` lacks belongs to the tables in `owned`: only
      those tables are created or gain columns, constraints, foreign keys or enum
      types; every other table is left exactly as it was. */
  ghost predicate ConfinedTo(before: Db, after: Db, owned: set<string>) {
    && (forall n :: n in after.tables ==> n in before.tables || n in owned)
    && (forall n :: n in before.tables && n !in owned ==> n in after.tables && after.tables[n] == before.tables[n])
    && (forall p :: p in after.constraints ==> p in before.constraints || p.0 in owned)
    && (forall p :: p in after.references ==> p in before.references || p.0 in owned)
    && (forall e :: e in after.enums ==> e in before.enums || EnumOf(e, owned))
  }

  lemma ConfinedTransitive(a: Db, b: Db, c: Db, ab: set<string>, bc: set<string>)
    requires ConfinedTo(a, b, ab) && ConfinedTo(b, c, bc)
    ensures ConfinedTo(a, c, ab + bc)
  {
    forall e | e in c.enums && e !in a.enums
      ensures EnumOf(e, ab + bc)
    {
      if e in b.enums {
        var n, x :| n in ab && e == EnumTypeName(n, x);
        assert n in ab + bc;
      } else {
        var n, x :| n in bc && e == EnumTypeName(n, x);
        assert n in ab + bc;
      }
    }
  }

  /** A later step confined to one of the owned tables keeps the whole run confined. */
  lemma ConfinedAbsorb(a: Db, b: Db, c: Db, owned: set<string>, t: string)
    requires ConfinedTo(a, b, owned) && ConfinedTo(b, c, {t}) && t in owned
    ensures ConfinedTo(a, c, owned)
  {
    ConfinedTransitive(a, b, c, owned, {t});
    assert owned + {t} == owned;
  }

  lemma ConfinedWiden(a: Db, b: Db, owned: set<string>, more: set<string>)
    requires ConfinedTo(a, b, owned) && owned <= more
    ensures ConfinedTo(a, b, more)
  {
    forall e | e in b.enums && e !in a.enums
      ensures EnumOf(e, more)
    {
      var n, x :| n in owned && e == EnumTypeName(n, x);
      assert n in more;
    }
  }

  /** `after` only creates tables among `owned`, with foreign keys of their own:
      every existing table is left exactly as it was, and no constraint or enum type
      is added. */
  ghost predicate OnlyCreates(before: Db, after: Db, owned: set<string>) {
    && (forall n :: n in before.tables ==> n in after.tables && after.tables[n] == before.tables[n])
    && (forall n :: n in after.tables ==> n in before.tables || n in owned)
    && after.constraints == before.constraints && after.enums == before.enums
    && before.references <= after.references
    && (forall p :: p in after.references ==> p in before.references || p.0 in owned)
  }

  lemma OnlyCreatesTransitive(a: Db, b: Db, c: Db, ab: set<string>, bc: set<string>)
    requires OnlyCreates(a, b, ab) && OnlyCreates(b, c, bc)
    ensures OnlyCreates(a, c, ab + bc)
  {
  }

  /** Creating tables keeps everything there was, and touches nothing outside the
      tables created. */
  lemma OnlyCreatesConfined(a: Db, b: Db, owned: set<string>)
    requires OnlyCreates(a, b, owned)
    ensures Extends(a, b) && ConfinedTo(a, b, owned)
  {
  }

  // ---------------------------------------------------------------------------
  // Probes

  /** table_exists: pg_tables has a row for `name`. A table that does not exist has
      no column. */
  function TableExists(db: Db, name: string): (b: bool)
    ensures !b ==> forall c :: !ColumnExists(db, name, c)
  {
    name in db.tables
  }

  /** column_exists: information_schema.columns has a row for (table, column);
      only an existing table has columns. */
  function ColumnExists(db: Db, table: string, column: string): (b: bool)
    ensures b ==> table in db.tables
  {
    table in db.tables && column in db.tables[table]
  }

  /** SQL types information_schema.columns.data_type reports under their own name. */
  const BuiltinTypes: set<string> := {"integer", "real", "double precision", "text", "boolean", "date", "interval"}

  /** How information_schema.columns.data_type spells a column of canonical type `ty`:
      time and timestamp get their time-zone qualifier, and an enum type reads
      "USER-DEFINED"; the catalog holds no other types than the built-in ones and
      enum types. No column is ever reported as "enum", "time" or "timestamp", so a
      column declared with one of those three logical types never matches its
      declaration once it exists. */
  function ReportedType(ty: string): (r: string)
    ensures r != PsqlType(Enum) && r != PsqlType(Time) && r != PsqlType(Timestamp)
    ensures ty in BuiltinTypes ==> r == ty
  {
    if ty == "time" then "time without time zone"
    else if ty == "timestamp" then "timestamp without time zone"
    else if ty in BuiltinTypes then ty
    else "USER-DEFINED"
  }

  /** The data_type query of enforce_column: never "enum", "time" or "timestamp", and
      a built-in type under its canonical name. */
  function ColumnDataType(db: Db, table: string, column: string): (r: string)
    requires ColumnExists(db, table, column)
    ensures r != PsqlType(Enum) && r != PsqlType(Time) && r != PsqlType(Timestamp)
    ensures db.tables[table][column] in BuiltinTypes ==> r == db.tables[table][column]
  {
    ReportedType(db.tables[table][column])
  }

  // ---------------------------------------------------------------------------
  // Names of generated objects

  function EnumTypeName(table: string, column: string): string { table + "_" + column + "_enum" }
  function UniqueConstraintName(table: string, column: string): string { table + "_" + column + "_unique" }
  function CommentsColumnName(column: string): string { column + "_comments" }
  function TagNamesTable(table: string): string { table + "_tag_names" }
  function TagsTable(table: string): string { table + "_tags" }
  function TagAliasesTable(table: string): string { table + "_tag_aliases" }
  function TagGroupsTable(table: string): string { table + "_tag_groups" }
  function DescriptorTableName(table: string, descriptor: string): string {
    table + "_" + LowerSnake(descriptor) + "_descriptors"
  }
  const PrimaryTagForeignKey: string := "fk_primary_tags"

  /** Every table the engine generates beside a table `t` ends with "_" and one of the
      reserved table suffixes, and so does the descriptor table of every descriptor. */
  lemma {:induction false} SiblingTablesEndWithReservedSuffix(t: string, descriptor: string)
    ensures EndsWithSuffix(TagNamesTable(t), "tag_names") && "tag_names" in ReservedTableSuffixes
    ensures EndsWithSuffix(TagsTable(t), "tags") && "tags" in ReservedTableSuffixes
    ensures EndsWithSuffix(TagAliasesTable(t), "tag_aliases") && "tag_aliases" in ReservedTableSuffixes
    ensures EndsWithSuffix(TagGroupsTable(t), "tag_groups") && "tag_groups" in ReservedTableSuffixes
    ensures EndsWithSuffix(DescriptorTableName(t, descriptor), "descriptors") && "descriptors" in ReservedTableSuffixes
  {
    assert TagNamesTable(t)[|t|..] == "_tag_names";
    assert TagsTable(t)[|t|..] == "_tags";
    assert TagAliasesTable(t)[|t|..] == "_tag_aliases";
    assert TagGroupsTable(t)[|t|..] == "_tag_groups";
    var n := DescriptorTableName(t, descriptor);
    assert n[|n| - 12..] == "_descriptors";
  }

  // ---------------------------------------------------------------------------
  // DDL statements

  /** CREATE TABLE, with the tables its inline `REFERENCES x (id)` clauses point at.
      The statement goes through only when each of those tables has an id column;
      otherwise it raises, which the callers model. */
  function CreateTable(db: Db, name: string, columns: map<string, string>, refs: set<string>): (r: Db)
    requires name !in db.tables
    requires forall x :: x in refs ==> x in db.tables && "id" in db.tables[x]
    ensures Extends(db, r) && (db.Valid() ==> r.Valid())
    ensures r.tables == db.tables[name := columns] && r.constraints == db.constraints && r.enums == db.enums
    ensures forall x :: x in refs ==> (name, x) in r.references
    ensures forall p :: p in r.references ==> p in db.references || p.0 == name
  {
    var added := set x | x in refs :: (name, x);
    assert forall p :: p in added ==> p.0 == name && p.1 in refs;
    db.(tables := db.tables[name := columns], references := db.references + added)
  }

  /** ALTER TABLE ... ADD COLUMN. */
  function AddColumn(db: Db, table: string, column: string, ty: string): (r: Db)
    requires table in db.tables && column !in db.tables[table]
    ensures Extends(db, r) && (db.Valid() ==> r.Valid())
    ensures r.tables.Keys == db.tables.Keys
    ensures r.tables[table] == db.tables[table][column := ty]
    ensures forall n :: n in db.tables && n != table ==> r.tables[n] == db.tables[n]
    ensures r.constraints == db.constraints && r.enums == db.enums && r.references == db.references
  {
    db.(tables := db.tables[table := db.tables[table][column := ty]])
  }

  /** CREATE TYPE ... AS ENUM. */
  function CreateEnum(db: Db, name: string, labels: seq<string>): (r: Db)
    requires name !in db.enums
    ensures Extends(db, r) && (db.Valid() ==> r.Valid())
    ensures r.tables == db.tables && r.enums == db.enums[name := labels]
    ensures r.constraints == db.constraints && r.references == db.references
  {
    db.(enums := db.enums[name := labels])
  }

  /** ALTER TABLE ... ADD CONSTRAINT (UNIQUE, NOT NULL). */
  function AddConstraint(db: Db, table: string, name: string): (r: Db)
    ensures Extends(db, r) && (db.Valid() && table in db.tables ==> r.Valid())
    ensures r.tables == db.tables && r.enums == db.enums && r.references == db.references
    ensures r.constraints == db.constraints + {(table, name)}
  {
    db.(constraints := db.constraints + {(table, name)})
  }

  /** ALTER TABLE ... ADD CONSTRAINT ... FOREIGN KEY ... REFERENCES target(id). */
  function AddForeignKey(db: Db, table: string, name: string, target: string): (r: Db)
    ensures Extends(db, r) && (db.Valid() && table in db.tables && target in db.tables ==> r.Valid())
    ensures r.tables == db.tables && r.enums == db.enums
    ensures r.constraints == db.constraints + {(table, name)} && r.references == db.references + {(table, target)}
  {
    db.(constraints := db.constraints + {(table, name)}, references := db.references + {(table, target)})
  }

  // ---------------------------------------------------------------------------
  // The enforce_* procedures

  /** enforce_column's result: True, False, or an exception raised by a statement
      that failed (an enum type or a constraint name that already exists). */
  datatype Outcome = Matched | Mismatched | Aborted

  datatype Step = Step(db: Db, outcome: Outcome)

  /** A procedure whose value is discarded: the catalog after it, and whether an
      exception ended it. */
  datatype Run = Run(db: Db, aborted: bool)

  /** The column exists, and its reported type is not the declared one. A column
      added with the mapped type drifts exactly when its logical type is time,
      timestamp or enum. */
  predicate Drifted(db: Db, t: string, col: ColumnSpec)
    requires t in db.tables
    ensures Drifted(db, t, col) ==> ColumnExists(db, t, LowerSnake(col.name))
    ensures var c := LowerSnake(col.name);
            c in db.tables[t] && db.tables[t][c] == PsqlType(col.dataType) ==>
              (Drifted(db, t, col) <==> col.dataType == Time || col.dataType == Timestamp || col.dataType == Enum)
  {
    var c := LowerSnake(col.name);
    ColumnExists(db, t, c) && ColumnDataType(db, t, c) != PsqlType(col.dataType)
  }

  /** An enum column is to be created, but its enum type name is taken. Only a
      missing column can clash, so a drifted column never does. */
  predicate EnumClash(db: Db, t: string, col: ColumnSpec)
    requires t in db.tables
    ensures EnumClash(db, t, col) ==> !Drifted(db, t, col) && col.dataType == Enum
  {
    var c := LowerSnake(col.name);
    c !in db.tables[t] && col.dataType == Enum && EnumTypeName(t, c) in db.enums
  }

  /** A constraint statement will meet an existing name: the UNIQUE constraint's name
      is taken, or a NOT NULL is declared and its name (the same as the UNIQUE one) is
      taken or is about to be taken by the UNIQUE constraint. A column that is neither
      unique nor required never clashes; one that is both always does. */
  predicate ConstraintClash(db: Db, t: string, col: ColumnSpec)
    ensures !col.unique && col.optional ==> !ConstraintClash(db, t, col)
    ensures col.unique && !col.optional ==> ConstraintClash(db, t, col)
  {
    var u := UniqueConstraintName(t, LowerSnake(col.name));
    (col.unique && (t, u) in db.constraints) || (!col.optional && (col.unique || (t, u) in db.constraints))
  }

  /** A new enum column: its enum type, named after the table and the column, then
      the column of that type. */
  function AddEnumColumn(db: Db, t: string, c: string, values: seq<string>): (r: Db)
    requires t in db.tables && c !in db.tables[t] && EnumTypeName(t, c) !in db.enums
    ensures Extends(db, r) && (db.Valid() ==> r.Valid())
    ensures r.tables.Keys == db.tables.Keys && r.constraints == db.constraints && r.references == db.references
    ensures forall n :: n in db.tables && n != t ==> r.tables[n] == db.tables[n]
    ensures r.tables[t].Keys == db.tables[t].Keys + {c} && r.tables[t][c] == EnumTypeName(t, c)
    ensures r.enums.Keys == db.enums.Keys + {EnumTypeName(t, c)} && r.enums[EnumTypeName(t, c)] == values
  {
    var e := EnumTypeName(t, c);
    var db1 := CreateEnum(db, e, values);
    var db2 := AddColumn(db1, t, c, e);
    ExtendsTransitive(db, db1, db2);
    db2
  }

  /** The first block of enforce_column: an existing column has its type compared,
      a missing one is added (an enum column with an enum type of its own). */
  function EnsureColumn(db: Db, t: string, col: ColumnSpec): (s: Step)
    requires t in db.tables
    ensures Extends(db, s.db) && (db.Valid() ==> s.db.Valid())
    ensures s.db.tables.Keys == db.tables.Keys && s.db.constraints == db.constraints
    ensures s.db.references == db.references
    ensures forall n :: n in db.tables && n != t ==> s.db.tables[n] == db.tables[n]
    ensures s.db.enums.Keys <= db.enums.Keys + {EnumTypeName(t, LowerSnake(col.name))}
    ensures s.outcome == Mismatched <==> Drifted(db, t, col)
    ensures s.outcome == Aborted <==> EnumClash(db, t, col)
    ensures s.outcome != Matched ==> s.db == db
    ensures var c := LowerSnake(col.name);
            s.outcome == Matched ==>
              && s.db.tables[t].Keys == db.tables[t].Keys + {c}
              && (c !in db.tables[t] && col.dataType != Enum ==> s.db.tables[t][c] == PsqlType(col.dataType))
              && (c !in db.tables[t] && col.dataType == Enum ==>
                    && s.db.tables[t][c] == EnumTypeName(t, c)
                    && EnumTypeName(t, c) in s.db.enums
                    && s.db.enums[EnumTypeName(t, c)] == col.values)
  {
    var c := LowerSnake(col.name);
    if c in db.tables[t] then
      Step(db, if ReportedType(db.tables[t][c]) != PsqlType(col.dataType) then Mismatched else Matched)
    else if col.dataType == Enum then
      if EnumTypeName(t, c) in db.enums then Step(db, Aborted)
      else Step(AddEnumColumn(db, t, c, col.values), Matched)
    else
      Step(AddColumn(db, t, c, PsqlType(col.dataType)), Matched)
  }

  /** The constraint block of enforce_column: a UNIQUE constraint, then a NOT NULL one
      under the same name. The loop meant to drop the old constraints reads a cursor
      that is already exhausted, so nothing is dropped first. */
  function AddColumnConstraints(db: Db, t: string, col: ColumnSpec): (s: Step)
    ensures Extends(db, s.db) && (db.Valid() && t in db.tables ==> s.db.Valid())
    ensures s.db.tables == db.tables && s.db.enums == db.enums && s.db.references == db.references
    ensures s.db.constraints <= db.constraints + {(t, UniqueConstraintName(t, LowerSnake(col.name)))}
    ensures s.outcome != Mismatched
    ensures s.outcome == Aborted <==> ConstraintClash(db, t, col)
    ensures s.outcome == Matched && (col.unique || !col.optional) ==>
              (t, UniqueConstraintName(t, LowerSnake(col.name))) in s.db.constraints
  {
    var u := UniqueConstraintName(t, LowerSnake(col.name));
    if col.unique && (t, u) in db.constraints then Step(db, Aborted)
    else
      var db1 := if col.unique then AddConstraint(db, t, u) else db;
      if !col.optional && (t, u) in db1.constraints then Step(db1, Aborted)
      else
        var db2 := if !col.optional then AddConstraint(db1, t, u) else db1;
        ExtendsTransitive(db, db1, db2);
        Step(db2, Matched)
  }

  /** The comments block of enforce_column: the comments column is added when it is
      declared and missing, never removed, and reported when it exists undeclared. */
  function EnforceCommentsColumn(db: Db, t: string, c: string, comments: bool): (s: Step)
    requires t in db.tables
    ensures Extends(db, s.db) && (db.Valid() ==> s.db.Valid())
    ensures s.db.tables.Keys == db.tables.Keys && s.db.constraints == db.constraints
    ensures s.db.enums == db.enums && s.db.references == db.references
    ensures forall n :: n in db.tables && n != t ==> s.db.tables[n] == db.tables[n]
    ensures s.db.tables[t].Keys == db.tables[t].Keys + (if comments then {CommentsColumnName(c)} else {})
    ensures comments ==> s.outcome == Matched
    ensures !comments ==> s.db == db && (s.outcome == Mismatched <==> CommentsColumnName(c) in db.tables[t])
    ensures s.outcome != Aborted
  {
    var cc := CommentsColumnName(c);
    if comments then
      Step(if cc in db.tables[t] then db else AddColumn(db, t, cc, "text"), Matched)
    else
      Step(db, if cc in db.tables[t] then Mismatched else Matched)
  }

  /** enforce_column: the three blocks in order; a False or an exception ends it. */
  function EnforceColumn(db: Db, t: string, col: ColumnSpec): (s: Step)
    requires t in db.tables
    ensures Extends(db, s.db) && (db.Valid() ==> s.db.Valid())
    ensures s.db.tables.Keys == db.tables.Keys
    // a type mismatch: reported, catalog untouched
    ensures Drifted(db, t, col) ==> s == Step(db, Mismatched)
    // a statement fails exactly on a clash of names
    ensures s.outcome == Aborted <==> !Drifted(db, t, col) && (EnumClash(db, t, col) || ConstraintClash(db, t, col))
    // False exactly for a type mismatch or a comments column that is not declared
    ensures s.outcome == Mismatched <==>
              Drifted(db, t, col) ||
              (s.outcome != Aborted && !col.comments && CommentsColumnName(LowerSnake(col.name)) in db.tables[t])
    ensures var c := LowerSnake(col.name);
            s.outcome != Aborted ==>
              && c in s.db.tables[t]
              && (c !in db.tables[t] && col.dataType != Enum ==> s.db.tables[t][c] == PsqlType(col.dataType))
              && (c !in db.tables[t] && col.dataType == Enum ==>
                    && s.db.tables[t][c] == EnumTypeName(t, c)
                    && EnumTypeName(t, c) in s.db.enums
                    && s.db.enums[EnumTypeName(t, c)] == col.values)
              && (!Drifted(db, t, col) && col.comments ==> CommentsColumnName(c) in s.db.tables[t])
              && (!Drifted(db, t, col) && (col.unique || !col.optional) ==>
                    (t, UniqueConstraintName(t, c)) in s.db.constraints)
    // nothing else changes: no other table, no foreign key, and on the table only the
    // column, its comments column, its enum type and its constraint
    ensures forall n :: n in db.tables && n != t ==> s.db.tables[n] == db.tables[n]
    ensures var c := LowerSnake(col.name);
            && s.db.tables[t].Keys <= db.tables[t].Keys + {c, CommentsColumnName(c)}
            && s.db.constraints <= db.constraints + {(t, UniqueConstraintName(t, c))}
            && s.db.enums.Keys <= db.enums.Keys + {EnumTypeName(t, c)}
    ensures s.db.references == db.references
  {
    var c := LowerSnake(col.name);
    var s1 := EnsureColumn(db, t, col);
    if s1.outcome != Matched then s1
    else
      var s2 := AddColumnConstraints(s1.db, t, col);
      if s2.outcome == Aborted then s2
      else
        assert CommentsColumnName(c) != c;
        var s3 := EnforceCommentsColumn(s2.db, t, c, col.comments);
        ExtendsTransitive(db, s1.db, s2.db);
        ExtendsTransitive(db, s2.db, s3.db);
        ExtendsTransitive(s1.db, s2.db, s3.db);
        s3
  }

  /** enforce_column changes nothing outside its table. */
  lemma EnforceColumnConfined(db: Db, t: string, col: ColumnSpec)
    requires t in db.tables
    ensures ConfinedTo(db, EnforceColumn(db, t, col).db, {t})
  {
    var s := EnforceColumn(db, t, col);
    var e := EnumTypeName(t, LowerSnake(col.name));
    assert EnumOf(e, {t});
  }

  /** enforce_reserved_columns, for the table named `t`. The foreign key of
      primary_tag raises when the tag names table has no id column to reference, or
      when the constraint name is taken. */
  function EnforceReservedColumns(db: Db, t: string, tagging: bool): (s: Step)
    requires t in db.tables
    ensures Extends(db, s.db) && (db.Valid() ==> s.db.Valid())
    ensures s.db.tables.Keys == db.tables.Keys
    // nothing changes but primary_tag and its foreign key on the table itself
    ensures forall n :: n in db.tables && n != t ==> s.db.tables[n] == db.tables[n]
    ensures s.db.tables[t].Keys <= db.tables[t].Keys + {"primary_tag"}
    ensures s.db.constraints <= db.constraints + {(t, PrimaryTagForeignKey)}
    ensures s.db.references <= db.references + {(t, TagNamesTable(t))}
    ensures s.db.enums == db.enums
    // a missing id column is reported, never repaired
    ensures "id" !in db.tables[t] ==> s == Step(db, Mismatched)
    // without tagging nothing is changed, and an existing primary_tag is reported
    ensures !tagging ==>
              s.db == db && s.outcome != Aborted &&
              (s.outcome == Mismatched <==> "id" !in db.tables[t] || "primary_tag" in db.tables[t])
    // with tagging, primary_tag is added with its foreign key to the tag names table
    ensures tagging && "id" in db.tables[t] ==>
              && s.outcome != Mismatched
              && (s.outcome == Aborted <==>
                    "primary_tag" !in db.tables[t] &&
                    ((t, PrimaryTagForeignKey) in db.constraints || !ColumnExists(db, TagNamesTable(t), "id")))
              && (s.outcome == Matched ==> "primary_tag" in s.db.tables[t])
              && (s.outcome == Matched && "primary_tag" !in db.tables[t] ==>
                    && s.db.tables[t]["primary_tag"] == "integer"
                    && (t, PrimaryTagForeignKey) in s.db.constraints
                    && (t, TagNamesTable(t)) in s.db.references)
  {
    TaggingNamesDistinct(t);
    if "id" !in db.tables[t] then Step(db, Mismatched)
    else if tagging then
      if "primary_tag" in db.tables[t] then Step(db, Matched)
      else
        var db1 := AddColumn(db, t, "primary_tag", "integer");
        if (t, PrimaryTagForeignKey) in db1.constraints || !ColumnExists(db1, TagNamesTable(t), "id") then Step(db1, Aborted)
        else Step(AddForeignKey(db1, t, PrimaryTagForeignKey, TagNamesTable(t)), Matched)
    else
      Step(db, if "primary_tag" in db.tables[t] then Mismatched else Matched)
  }

  /** CREATE TABLE guarded by table_exists: issued only when the table is missing, and
      then only when each table it references has an id column. */
  function EnsureTable(db: Db, name: string, columns: map<string, string>, refs: set<string>): (r: Db)
    requires name !in db.tables ==> forall x :: x in refs ==> x in db.tables && "id" in db.tables[x]
    ensures Extends(db, r) && (db.Valid() ==> r.Valid())
    ensures forall n :: n in r.tables <==> n in db.tables || n == name
    ensures forall n :: n in db.tables ==> r.tables[n] == db.tables[n]
    ensures r.constraints == db.constraints && r.enums == db.enums
    ensures forall p :: p in r.references ==> p in db.references || p.0 == name
    ensures OnlyCreates(db, r, {name}) && ConfinedTo(db, r, {name})
    ensures name in db.tables ==> r == db
    ensures name !in db.tables ==> r.tables[name] == columns && forall x :: x in refs ==> (name, x) in r.references
  {
    if name in db.tables then db else CreateTable(db, name, columns, refs)
  }

  /** A CREATE TABLE guarded by table_exists whose REFERENCES clauses point at
      `refs`: it raises when the table is missing and one of those tables has no id
      column, and changes nothing then. */
  function EnsureTableReferencing(db: Db, name: string, columns: map<string, string>, refs: set<string>): (r: Run)
    ensures r.aborted <==> name !in db.tables && exists x :: x in refs && !ColumnExists(db, x, "id")
    ensures r.aborted ==> r.db == db
    ensures OnlyCreates(db, r.db, {name}) && (db.Valid() ==> r.db.Valid())
    ensures !r.aborted ==> name in r.db.tables
    ensures !r.aborted && name !in db.tables ==> forall x :: x in refs ==> (name, x) in r.db.references
  {
    if name !in db.tables && exists x :: x in refs && !ColumnExists(db, x, "id") then Run(db, true)
    else Run(EnsureTable(db, name, columns, refs), false)
  }

  /** The four tables of the tagging bundle of `t` all exist. */
  predicate HasTaggingBundle(db: Db, t: string) {
    && TagNamesTable(t) in db.tables
    && TagsTable(t) in db.tables
    && TagAliasesTable(t) in db.tables
    && TagGroupsTable(t) in db.tables
  }

  /** The tables of the tagging bundle of `t`. */
  function TaggingTables(t: string): set<string> {
    {TagNamesTable(t), TagsTable(t), TagAliasesTable(t), TagGroupsTable(t)}
  }

  /** The four names of the bundle differ from each other and from the table's own
      name (they differ in length). */
  lemma TaggingNamesDistinct(t: string)
    ensures |TagNamesTable(t)| == |t| + 10 && |TagsTable(t)| == |t| + 5
    ensures |TagAliasesTable(t)| == |t| + 12 && |TagGroupsTable(t)| == |t| + 11
  {
  }

  const TagNamesColumns: map<string, string> := map["id" := "integer", "tag_name" := "text"]
  const TagsColumns: map<string, string> := map["id" := "integer", "entry_id" := "integer", "tag_id" := "integer"]
  const TagAliasesColumns: map<string, string> := map["alias" := "text", "tag_id" := "integer"]
  const TagGroupsColumns: map<string, string> := map["id" := "integer", "tag_id" := "integer", "group_name" := "text"]

  /** The last two steps of enforce_tagging_tables: the aliases and the groups table,
      each referencing the tag names table, each created only if it is missing. */
  function EnsureTagNameReferrers(db: Db, names: string, aliases: string, groups: string): (r: Run)
    requires aliases != groups
    ensures OnlyCreates(db, r.db, {aliases, groups}) && (db.Valid() ==> r.db.Valid())
    ensures r.aborted <==> !ColumnExists(db, names, "id") && (aliases !in db.tables || groups !in db.tables)
    ensures !r.aborted ==>
              && aliases in r.db.tables && groups in r.db.tables
              && (aliases !in db.tables ==> (aliases, names) in r.db.references)
              && (groups !in db.tables ==> (groups, names) in r.db.references)
    ensures aliases in db.tables && groups in db.tables ==> r == Run(db, false)
  {
    var r1 := EnsureTableReferencing(db, aliases, TagAliasesColumns, {names});
    if r1.aborted then r1
    else
      var r2 := EnsureTableReferencing(r1.db, groups, TagGroupsColumns, {names});
      OnlyCreatesTransitive(db, r1.db, r2.db, {aliases}, {groups});
      r2
  }

  /** The steps of enforce_tagging_tables after the tag names table `names` exists:
      the tags table (referencing `t` and `names`), then the aliases and the groups
      table (referencing `names`), each created only if it is missing. A CREATE TABLE
      whose referenced table has no id column raises and ends the procedure. */
  function EnsureTagsAndReferrers(db: Db, t: string, names: string, tags: string, aliases: string, groups: string): (r: Run)
    requires t in db.tables && names in db.tables
    requires t != tags && t != aliases && t != groups
    requires names != tags && names != aliases && names != groups
    requires tags != aliases && tags != groups && aliases != groups
    ensures r.aborted <==>
              || (tags !in db.tables && ("id" !in db.tables[t] || "id" !in db.tables[names]))
              || ("id" !in db.tables[names] && (aliases !in db.tables || groups !in db.tables))
    ensures OnlyCreates(db, r.db, {tags, aliases, groups}) && (db.Valid() ==> r.db.Valid())
    ensures !r.aborted ==>
              && tags in r.db.tables && aliases in r.db.tables && groups in r.db.tables
              && (tags !in db.tables ==> (tags, t) in r.db.references && (tags, names) in r.db.references)
              && (aliases !in db.tables ==> (aliases, names) in r.db.references)
              && (groups !in db.tables ==> (groups, names) in r.db.references)
    ensures tags in db.tables && aliases in db.tables && groups in db.tables ==> r == Run(db, false)
  {
    var r2 := EnsureTableReferencing(db, tags, TagsColumns, {t, names});
    if r2.aborted then r2
    else
      var r3 := EnsureTagNameReferrers(r2.db, names, aliases, groups);
      OnlyCreatesTransitive(db, r2.db, r3.db, {tags}, {aliases, groups});
      assert {tags} + {aliases, groups} == {tags, aliases, groups};
      r3
  }

  /** The body of enforce_tagging_tables over five distinct table names: the tag
      names table, then the tags table, the aliases and the groups table. */
  function EnsureTaggingBundle(db: Db, t: string, names: string, tags: string, aliases: string, groups: string): (r: Run)
    requires t in db.tables
    requires t != names && t != tags && t != aliases && t != groups
    requires names != tags && names != aliases && names != groups
    requires tags != aliases && tags != groups && aliases != groups
    ensures r.aborted <==>
              || (tags !in db.tables && "id" !in db.tables[t])
              || (names in db.tables && "id" !in db.tables[names] &&
                  (tags !in db.tables || aliases !in db.tables || groups !in db.tables))
    ensures OnlyCreates(db, r.db, {names, tags, aliases, groups}) && (db.Valid() ==> r.db.Valid())
    ensures !r.aborted ==>
              && names in r.db.tables && tags in r.db.tables && aliases in r.db.tables && groups in r.db.tables
              && (tags !in db.tables ==> (tags, t) in r.db.references && (tags, names) in r.db.references)
              && (aliases !in db.tables ==> (aliases, names) in r.db.references)
              && (groups !in db.tables ==> (groups, names) in r.db.references)
    ensures names in db.tables && tags in db.tables && aliases in db.tables && groups in db.tables ==> r == Run(db, false)
  {
    var db1 := EnsureTable(db, names, TagNamesColumns, {});
    var r := EnsureTagsAndReferrers(db1, t, names, tags, aliases, groups);
    OnlyCreatesTransitive(db, db1, r.db, {names}, {tags, aliases, groups});
    assert {names} + {tags, aliases, groups} == {names, tags, aliases, groups};
    r
  }

  /** enforce_tagging_tables: the tag names table first, then the three tables whose
      foreign keys point at it; each one only if it is missing. Creating the tags
      table raises when `t` has no id column, and creating any of the three raises
      when an existing tag names table has none. */
  function EnforceTaggingTables(db: Db, t: string): (r: Run)
    requires t in db.tables
    ensures Extends(db, r.db) && (db.Valid() ==> r.db.Valid())
    // a statement raises exactly when a table to be created references a table without id
    ensures r.aborted <==>
              || (TagsTable(t) !in db.tables && "id" !in db.tables[t])
              || (TagNamesTable(t) in db.tables && "id" !in db.tables[TagNamesTable(t)] && !HasTaggingBundle(db, t))
    ensures !r.aborted ==> HasTaggingBundle(r.db, t)
    // only tagging tables are created, with their foreign keys; tables that existed
    // are untouched, so a half-built bundle is completed
    ensures OnlyCreates(db, r.db, TaggingTables(t))
    // the foreign keys of the tables it creates
    ensures !r.aborted && TagsTable(t) !in db.tables ==>
              (TagsTable(t), t) in r.db.references && (TagsTable(t), TagNamesTable(t)) in r.db.references
    ensures !r.aborted && TagAliasesTable(t) !in db.tables ==> (TagAliasesTable(t), TagNamesTable(t)) in r.db.references
    ensures !r.aborted && TagGroupsTable(t) !in db.tables ==> (TagGroupsTable(t), TagNamesTable(t)) in r.db.references
    // a complete bundle is left as it is, so a second call changes nothing
    ensures HasTaggingBundle(db, t) ==> r == Run(db, false)
  {
    TaggingNamesDistinct(t);
    EnsureTaggingBundle(db, t, TagNamesTable(t), TagsTable(t), TagAliasesTable(t), TagGroupsTable(t))
  }

  /** The declared columns `cols`, enforced one after the other on table `t`, their
      results discarded; an exception ends the loop. */
  function EnforceColumns(db: Db, t: string, cols: seq<ColumnSpec>): (r: Run)
    requires t in db.tables
    ensures Extends(db, r.db) && (db.Valid() ==> r.db.Valid())
    ensures r.db.tables.Keys == db.tables.Keys
    ensures !r.aborted ==> forall col :: col in cols ==> LowerSnake(col.name) in r.db.tables[t]
    decreases |cols|
  {
    if cols == [] then Run(db, false)
    else
      var prev := EnforceColumns(db, t, cols[..|cols| - 1]);
      if prev.aborted then prev
      else
        var s := EnforceColumn(prev.db, t, cols[|cols| - 1]);
        ExtendsTransitive(db, prev.db, s.db);
        assert forall col :: col in cols ==> col in cols[..|cols| - 1] || col == cols[|cols| - 1];
        Run(s.db, s.outcome == Aborted)
  }

  /** The prefix of `s` one element longer than `s[..i]` ends with `s[i]`. */
  lemma PrefixSnoc<T>(s: seq<T>, i: nat)
    requires i < |s|
    ensures |s[..i + 1]| == i + 1 && s[..i + 1][..i] == s[..i] && s[..i + 1][i] == s[i]
  {
    assert s[..i + 1][..i] == s[..i];
  }

  /** One more column, after the earlier ones went through, is enforced on the
      catalog they left. */
  lemma {:induction false} EnforceColumnsStep(db: Db, t: string, cols: seq<ColumnSpec>, i: nat)
    requires t in db.tables && i < |cols| && !EnforceColumns(db, t, cols[..i]).aborted
    ensures var s := EnforceColumn(EnforceColumns(db, t, cols[..i]).db, t, cols[i]);
            EnforceColumns(db, t, cols[..i + 1]) == Run(s.db, s.outcome == Aborted)
  {
    PrefixSnoc(cols, i);
  }

  /** Enforcing a list of columns of the table named `t` changes no other table, adds
      only enums of `t`'s columns, and keeps every constraint and reference. */
  lemma {:induction false} EnforceColumnsConfined(db: Db, t: string, cols: seq<ColumnSpec>)
    requires t in db.tables
    ensures ConfinedTo(db, EnforceColumns(db, t, cols).db, {t})
    decreases |cols|
  {
    if cols != [] {
      var prev := EnforceColumns(db, t, cols[..|cols| - 1]);
      EnforceColumnsConfined(db, t, cols[..|cols| - 1]);
      if !prev.aborted {
        var s := EnforceColumn(prev.db, t, cols[|cols| - 1]);
        EnforceColumnConfined(prev.db, t, cols[|cols| - 1]);
        ConfinedTransitive(db, prev.db, s.db, {t}, {t});
      }
    }
  }

  /** Once enforcing a prefix of the columns has failed, the rest are never enforced. */
  lemma {:induction false} EnforceColumnsAbortPersists(db: Db, t: string, cols: seq<ColumnSpec>, k: nat)
    requires t in db.tables && k <= |cols| && EnforceColumns(db, t, cols[..k]).aborted
    ensures EnforceColumns(db, t, cols) == EnforceColumns(db, t, cols[..k])
    decreases |cols| - k
  {
    if k < |cols| {
      assert cols[..k + 1][..k] == cols[..k];
      EnforceColumnsAbortPersists(db, t, cols, k + 1);
    } else {
      assert cols[..k] == cols;
    }
  }

  /** One descriptor: its table, created with only an id if it is missing, then its
      columns. */
  function EnforceDescriptor(db: Db, t: string, d: DescriptorSpec): (r: Run)
    ensures Extends(db, r.db) && (db.Valid() ==> r.db.Valid())
    ensures DescriptorTableName(t, d.name) in r.db.tables
    ensures r.db.tables.Keys == db.tables.Keys + {DescriptorTableName(t, d.name)}
    ensures DescriptorTableName(t, d.name) !in db.tables ==>
              "id" in r.db.tables[DescriptorTableName(t, d.name)] &&
              r.db.tables[DescriptorTableName(t, d.name)]["id"] == "integer"
    ensures !r.aborted ==>
              forall col :: col in d.columns ==> LowerSnake(col.name) in r.db.tables[DescriptorTableName(t, d.name)]
  {
    var n := DescriptorTableName(t, d.name);
    var db1 := EnsureTable(db, n, map["id" := "integer"], {});
    var r := EnforceColumns(db1, n, d.columns);
    ExtendsTransitive(db, db1, r.db);
    r
  }

  /** One descriptor creates or changes only its own table. */
  lemma EnforceDescriptorConfined(db: Db, t: string, d: DescriptorSpec)
    ensures ConfinedTo(db, EnforceDescriptor(db, t, d).db, {DescriptorTableName(t, d.name)})
  {
    var n := DescriptorTableName(t, d.name);
    var db1 := EnsureTable(db, n, map["id" := "integer"], {});
    EnforceColumnsConfined(db1, n, d.columns);
    ConfinedTransitive(db, db1, EnforceColumns(db1, n, d.columns).db, {n}, {n});
  }

  /** The descriptor tables of the descriptors `descs` of the table named `t`. */
  function DescriptorTables(t: string, descs: seq<DescriptorSpec>): set<string> {
    set d | d in descs :: DescriptorTableName(t, d.name)
  }

  /** enforce_descriptor_tables, over the descriptors `descs` of the table named `t`. */
  function EnforceDescriptors(db: Db, t: string, descs: seq<DescriptorSpec>): (r: Run)
    ensures Extends(db, r.db) && (db.Valid() ==> r.db.Valid())
    // every table it creates has an id column
    ensures forall n :: n in r.db.tables && n !in db.tables ==> "id" in r.db.tables[n]
    ensures !r.aborted ==>
              forall d :: d in descs ==>
                && DescriptorTableName(t, d.name) in r.db.tables
                && forall col :: col in d.columns ==> LowerSnake(col.name) in r.db.tables[DescriptorTableName(t, d.name)]
    decreases |descs|
  {
    if descs == [] then Run(db, false)
    else
      var init := descs[..|descs| - 1];
      var last := descs[|descs| - 1];
      var prev := EnforceDescriptors(db, t, init);
      assert forall d :: d in descs <==> d in init || d == last;
      if prev.aborted then prev
      else
        var r := EnforceDescriptor(prev.db, t, last);
        ExtendsTransitive(db, prev.db, r.db);
        assert r.db.tables.Keys == prev.db.tables.Keys + {DescriptorTableName(t, last.name)};
        r
  }

  /** enforce_descriptor_tables creates or changes only the descriptor tables. */
  lemma {:induction false} EnforceDescriptorsConfined(db: Db, t: string, descs: seq<DescriptorSpec>)
    ensures ConfinedTo(db, EnforceDescriptors(db, t, descs).db, DescriptorTables(t, descs))
    decreases |descs|
  {
    if descs != [] {
      var init := descs[..|descs| - 1];
      var last := descs[|descs| - 1];
      var prev := EnforceDescriptors(db, t, init);
      EnforceDescriptorsConfined(db, t, init);
      assert forall d :: d in descs <==> d in init || d == last;
      assert DescriptorTables(t, descs) == DescriptorTables(t, init) + {DescriptorTableName(t, last.name)};
      if prev.aborted {
        ConfinedWiden(db, prev.db, DescriptorTables(t, init), DescriptorTables(t, descs));
      } else {
        var r := EnforceDescriptor(prev.db, t, last);
        EnforceDescriptorConfined(prev.db, t, last);
        ConfinedTransitive(db, prev.db, r.db, DescriptorTables(t, init), {DescriptorTableName(t, last.name)});
      }
    }
  }

  /** One more descriptor, after the earlier ones went through, is enforced on the
      catalog they left. */
  lemma {:induction false} EnforceDescriptorsStep(db: Db, t: string, descs: seq<DescriptorSpec>, i: nat)
    requires i < |descs| && !EnforceDescriptors(db, t, descs[..i]).aborted
    ensures EnforceDescriptors(db, t, descs[..i + 1]) ==
              EnforceDescriptor(EnforceDescriptors(db, t, descs[..i]).db, t, descs[i])
  {
    PrefixSnoc(descs, i);
  }

  /** Once a descriptor has failed, the later ones are never enforced. */
  lemma {:induction false} EnforceDescriptorsAbortPersists(db: Db, t: string, descs: seq<DescriptorSpec>, k: nat)
    requires k <= |descs| && EnforceDescriptors(db, t, descs[..k]).aborted
    ensures EnforceDescriptors(db, t, descs) == EnforceDescriptors(db, t, descs[..k])
    decreases |descs| - k
  {
    if k < |descs| {
      assert descs[..k + 1][..k] == descs[..k];
      EnforceDescriptorsAbortPersists(db, t, descs, k + 1);
    } else {
      assert descs[..k] == descs;
    }
  }

  // ---------------------------------------------------------------------------
  // The main loop

  /** Every table the per-table sequence for `table`, named `t`, may create or
      change: the table itself, its tagging bundle, its descriptor tables. */
  function OwnedTables(t: string, table: TableSpec): set<string> {
    {t} + (if table.tagging then TaggingTables(t) else {}) +
    (if table.descriptors.Some? then DescriptorTables(t, table.descriptors.value) else {})
  }

  /** The first half of the per-table sequence: the table with an id if it is missing,
      the tagging bundle, the descriptor tables. An exception in the tagging tables
      skips the descriptors. */
  function PrepareTable(db: Db, t: string, table: TableSpec): (r: Run)
    ensures Extends(db, r.db) && (db.Valid() ==> r.db.Valid())
    ensures t in r.db.tables && (t !in db.tables ==> "id" in r.db.tables[t])
    // a tagged table that has no id, and has no tags table yet, cannot get one
    ensures table.tagging && t in db.tables && "id" !in db.tables[t] && TagsTable(t) !in db.tables ==> r.aborted
    ensures !r.aborted && table.tagging ==> HasTaggingBundle(r.db, t)
    ensures !r.aborted && table.descriptors.Some? ==>
              forall d :: d in table.descriptors.value ==> DescriptorTableName(t, d.name) in r.db.tables
  {
    var db0 := EnsureTable(db, t, map["id" := "integer"], {});
    var r1 := if table.tagging then EnforceTaggingTables(db0, t) else Run(db0, false);
    ExtendsTransitive(db, db0, r1.db);
    assert t in r1.db.tables && (t !in db.tables ==> "id" in r1.db.tables[t]);
    if r1.aborted then r1
    else
      var r2 := if table.descriptors.Some? then EnforceDescriptors(r1.db, t, table.descriptors.value) else Run(r1.db, false);
      ExtendsTransitive(db, r1.db, r2.db);
      r2
  }

  /** The first half of the per-table sequence changes only the table, its tagging
      bundle and its descriptor tables. */
  lemma PrepareTableConfined(db: Db, t: string, table: TableSpec)
    ensures ConfinedTo(db, PrepareTable(db, t, table).db, OwnedTables(t, table))
  {
    var owned := OwnedTables(t, table);
    var db0 := EnsureTable(db, t, map["id" := "integer"], {});
    var r1 := if table.tagging then EnforceTaggingTables(db0, t) else Run(db0, false);
    var tagTables := if table.tagging then TaggingTables(t) else {};
    if table.tagging {
      OnlyCreatesConfined(db0, r1.db, tagTables);
    }
    ConfinedTransitive(db, db0, r1.db, {t}, tagTables);
    if r1.aborted {
      ConfinedWiden(db, r1.db, {t} + tagTables, owned);
    } else {
      var r2 := if table.descriptors.Some? then EnforceDescriptors(r1.db, t, table.descriptors.value) else Run(r1.db, false);
      var descTables := if table.descriptors.Some? then DescriptorTables(t, table.descriptors.value) else {};
      if table.descriptors.Some? {
        EnforceDescriptorsConfined(r1.db, t, table.descriptors.value);
      }
      ConfinedTransitive(db, r1.db, r2.db, {t} + tagTables, descTables);
      ConfinedWiden(db, r2.db, {t} + tagTables + descTables, owned);
    }
  }

  /** The second half of the per-table sequence: the declared columns, then the
      reserved columns. */
  function FinishTable(db: Db, t: string, table: TableSpec): (r: Run)
    requires t in db.tables
    ensures Extends(db, r.db) && (db.Valid() ==> r.db.Valid())
    ensures !r.aborted ==>
              && (table.tagging && "id" in r.db.tables[t] ==> "primary_tag" in r.db.tables[t])
              && (forall col :: col in table.columns ==> LowerSnake(col.name) in r.db.tables[t])
  {
    var r3 := EnforceColumns(db, t, table.columns);
    if r3.aborted then r3
    else
      var s4 := EnforceReservedColumns(r3.db, t, table.tagging);
      ExtendsTransitive(db, r3.db, s4.db);
      Run(s4.db, s4.outcome == Aborted)
  }

  /** The second half of the per-table sequence changes only the table itself. */
  lemma FinishTableConfined(db: Db, t: string, table: TableSpec)
    requires t in db.tables
    ensures ConfinedTo(db, FinishTable(db, t, table).db, {t})
  {
    var r3 := EnforceColumns(db, t, table.columns);
    EnforceColumnsConfined(db, t, table.columns);
    if !r3.aborted {
      var s4 := EnforceReservedColumns(r3.db, t, table.tagging);
      assert ConfinedTo(r3.db, s4.db, {t});
      ConfinedTransitive(db, r3.db, s4.db, {t}, {t});
    }
  }

  /** The per-table sequence of the main loop, inside the transaction of the table's
      connection: create the table with an id if it is missing, the tagging bundle,
      the descriptor tables, the declared columns, the reserved columns. An exception
      rolls the whole table back. */
  function ReconcileTable(db: Db, table: TableSpec): (r: Run)
    ensures Extends(db, r.db) && (db.Valid() ==> r.db.Valid())
    ensures r.aborted ==> r.db == db
    ensures var t := LowerSnake(table.name);
            !r.aborted ==>
              && t in r.db.tables
              && (t !in db.tables ==> "id" in r.db.tables[t])
              && (table.tagging ==> HasTaggingBundle(r.db, t))
              && (table.tagging && "id" in r.db.tables[t] ==> "primary_tag" in r.db.tables[t])
              && (table.descriptors.Some? ==>
                    forall d :: d in table.descriptors.value ==> DescriptorTableName(t, d.name) in r.db.tables)
              && (forall col :: col in table.columns ==> LowerSnake(col.name) in r.db.tables[t])
  {
    var t := LowerSnake(table.name);
    var r1 := PrepareTable(db, t, table);
    if r1.aborted then Run(db, true)
    else
      var r2 := FinishTable(r1.db, t, table);
      if r2.aborted then Run(db, true)
      else
        ExtendsTransitive(db, r1.db, r2.db);
        r2
  }

  /** Reconciling a table changes only the table, its tagging bundle and its
      descriptor tables. */
  lemma ReconcileTableConfined(db: Db, table: TableSpec)
    ensures ConfinedTo(db, ReconcileTable(db, table).db, OwnedTables(LowerSnake(table.name), table))
  {
    var t := LowerSnake(table.name);
    var r1 := PrepareTable(db, t, table);
    PrepareTableConfined(db, t, table);
    if !r1.aborted {
      var r2 := FinishTable(r1.db, t, table);
      FinishTableConfined(r1.db, t, table);
      if !r2.aborted {
        ConfinedAbsorb(db, r1.db, r2.db, OwnedTables(t, table), t);
      }
    }
  }

  /** What the main loop leaves behind for one database: the catalog, whether an
      exception ended the script, and the violations reported, in order. */
  datatype Report = Report(db: Db, aborted: bool, violations: seq<Violation>)

  /** The violations the main loop reports for `tables` when no exception stops it:
      each is a nameless table or a fault of a named one, never a database name. */
  function TablesViolations(tables: seq<TableSpec>): (r: seq<Violation>)
    ensures forall v :: v in r ==> v.NamelessTable? || v.TableViolation?
    decreases |tables|
  {
    if tables == [] then []
    else
      var table := tables[|tables| - 1];
      TablesViolations(tables[..|tables| - 1]) +
      (if table.name == [] then [NamelessTable]
       else TableViolations(LowerSnake(table.name), TableFaults(table)))
  }

  /** A nameless table is reported as such, a named one only under its own
      normalised name, and the table loop never reports a database name. */
  lemma {:induction false} TablesViolationsNamed(tables: seq<TableSpec>)
    ensures var r := TablesViolations(tables);
            && (NamelessTable in r <==> exists table :: table in tables && table.name == [])
            && (forall v :: v in r ==>
                  v.NamelessTable? ||
                  (v.TableViolation? && exists table :: table in tables && table.name != [] && v.table == LowerSnake(table.name)))
    decreases |tables|
  {
    if tables != [] {
      var init := tables[..|tables| - 1];
      var table := tables[|tables| - 1];
      TablesViolationsNamed(init);
      assert forall x :: x in tables <==> x in init || x == table;
      if table.name != [] {
        var own := TableViolations(LowerSnake(table.name), TableFaults(table));
        assert forall v :: v in own ==> v.TableViolation? && v.table == LowerSnake(table.name);
      }
    }
  }

  /** The loop over a database's tables: a nameless table is reported and skipped,
      every other one has its violations reported and is then reconciled whatever
      they are, and an exception ends the run. */
  function ReconcileTables(db: Db, tables: seq<TableSpec>): (r: Report)
    ensures Extends(db, r.db) && (db.Valid() ==> r.db.Valid())
    ensures !r.aborted ==>
              forall table :: table in tables && table.name != [] ==> LowerSnake(table.name) in r.db.tables
    // every table up to the one that failed has its violations reported
    ensures r.violations <= TablesViolations(tables)
    ensures !r.aborted ==> r.violations == TablesViolations(tables)
    decreases |tables|
  {
    if tables == [] then Report(db, false, [])
    else
      var prev := ReconcileTables(db, tables[..|tables| - 1]);
      var table := tables[|tables| - 1];
      if prev.aborted then prev
      else if table.name == [] then Report(prev.db, false, prev.violations + [NamelessTable])
      else
        var run := ReconcileTable(prev.db, table);
        ExtendsTransitive(db, prev.db, run.db);
        assert forall x :: x in tables ==> x in tables[..|tables| - 1] || x == table;
        Report(run.db, run.aborted, prev.violations + TableViolations(LowerSnake(table.name), TableFaults(table)))
  }

  /** Once a table has failed, the later tables are neither reported nor reconciled. */
  lemma {:induction false} ReconcileTablesAbortPersists(db: Db, tables: seq<TableSpec>, k: nat)
    requires k <= |tables| && ReconcileTables(db, tables[..k]).aborted
    ensures ReconcileTables(db, tables) == ReconcileTables(db, tables[..k])
    decreases |tables| - k
  {
    if k < |tables| {
      assert tables[..k + 1][..k] == tables[..k];
      ReconcileTablesAbortPersists(db, tables, k + 1);
    } else {
      assert tables[..k] == tables;
    }
  }

  /** The main loop for one database: a nameless database is skipped; a reserved
      database name is reported, and the database is reconciled all the same. */
  function ReconcileDatabase(db: Db, spec: DatabaseSpec): (r: Report)
    ensures Extends(db, r.db) && (db.Valid() ==> r.db.Valid())
    ensures spec.name == [] ==> r == Report(db, false, [])
    ensures spec.name != [] && !r.aborted ==>
              forall table :: table in spec.tables && table.name != [] ==> LowerSnake(table.name) in r.db.tables
  {
    if spec.name == [] then Report(db, false, [])
    else
      var name := LowerSnake(spec.name);
      var head := if name in ReservedDatabaseNames then [ReservedDatabaseName(name)] else [];
      var r := ReconcileTables(db, spec.tables);
      Report(r.db, r.aborted, head + r.violations)
  }

  /** Every table up to the one that failed has its violations reported, in order;
      when nothing fails, all of them are. */
  lemma {:induction false} ReconcileTablesReported(db: Db, tables: seq<TableSpec>)
    ensures var r := ReconcileTables(db, tables);
            && r.violations <= TablesViolations(tables)
            && (!r.aborted ==> r.violations == TablesViolations(tables))
    decreases |tables|
  {
    if tables != [] {
      var init := tables[..|tables| - 1];
      ReconcileTablesReported(db, init);
      var prev := ReconcileTables(db, init);
      var all := TablesViolations(tables);
      assert TablesViolations(init) <= all;
      if prev.aborted {
        assert prev.violations == all[..|prev.violations|];
      }
    }
  }

  /** The table loop never reports a database name. */
  lemma ReconcileTablesNameNoDatabase(db: Db, tables: seq<TableSpec>)
    ensures forall v :: v in ReconcileTables(db, tables).violations ==> !v.ReservedDatabaseName?
  {
    ReconcileTablesReported(db, tables);
    PrefixMembers(ReconcileTables(db, tables).violations, TablesViolations(tables));
    TablesViolationsNamed(tables);
  }

  lemma PrefixMembers(a: seq<Violation>, b: seq<Violation>)
    requires a <= b
    ensures forall v :: v in a ==> v in b
  {
    assert forall k :: 0 <= k < |a| ==> a[k] == b[k];
  }

  /** A reserved database name is reported, first and only once; nothing else reports
      a database name. */
  lemma ReservedDatabaseReported(db: Db, spec: DatabaseSpec)
    requires spec.name != []
    ensures var r := ReconcileDatabase(db, spec);
            && (ReservedDatabaseName(LowerSnake(spec.name)) in r.violations <==> LowerSnake(spec.name) == "info")
            && (LowerSnake(spec.name) == "info" ==> r.violations[0] == ReservedDatabaseName("info"))
  {
    var name := LowerSnake(spec.name);
    var tail := ReconcileTables(db, spec.tables).violations;
    ReconcileTablesNameNoDatabase(db, spec.tables);
    assert ReservedDatabaseName(name) !in tail;
    if name == "info" {
      assert ReconcileDatabase(db, spec).violations == [ReservedDatabaseName(name)] + tail;
    } else {
      assert ReconcileDatabase(db, spec).violations == tail;
    }
  }
}
