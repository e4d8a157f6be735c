# Schema reconciler model

A Dafny model of the schema reconciler in `create_tables.py`. The reconciler walks a
schema description (databases, tables, columns, descriptors, tagging) and brings one
PostgreSQL database's catalog in line with it. It creates missing tables, columns,
enum types and constraints, and reports drift instead of repairing it. The model
also covers the lookup tables in `constants.py`.

Modules:

- `Constants` (constants.dfy) holds the reserved names and suffixes and `PSQLDATATYPES`.
  The table is a map. `PsqlType` is a total lookup over the logical types, proved to
  agree with the map entry for entry. `constants.py` and lines 19-40 of
  `create_tables.py` hold the same literals, so one module stands for both.
- `Naming` (naming.dfy) has `to_snake_case`, `to_lower_snake_case`, `validate_name` and
  `validate_suffix`. Each is a loop method, proved against a specification function.
- `Schema` (schema.dfy) is the typed schema description, plus the violations the main
  loop reports.
- `Validation` (validation.dfy) holds the per-table checks of the main loop, in
  reporting order.
- `Catalog` (catalog.dfy) is the specification layer. It has:
  - the catalog as a value: tables with typed columns, named constraints, enum types,
    foreign-key references;
  - the probes and the DDL statements;
  - one function per `enforce_*` procedure, the per-table sequence, and the table and
    database loops.
  A statement that meets an existing enum type or constraint name raises; this is the
  outcome `Aborted`.
- `CatalogProperties` (catalog_properties.dfy) holds lemmas relating several runs:
  - which columns re-match;
  - when a rerun fails;
  - that reconciling a table twice leaves the catalog as one run did.
- `Engine` (engine.dfy) has the class `Database`, whose fields are the catalog. Its
  methods issue the statements one by one, as the Python does. Each method's
  postcondition ties the new catalog and its result to the `Catalog` function for the
  catalog it started on.

Behaviour of the code that the model follows, including where the code's own comments and messages say otherwise:

- `validate_suffix` compares the part of the name before the last
  `len(suffix) + 1` characters, not the end of the name, with `"_" + suffix`
  (create_tables.py:167). So "widgets_tags" passes and "_tagswidge" is rejected.
- Violations are only printed. The database or table is reconciled all the same
  (create_tables.py:404-409, 477-482), so a database named "info" and a table
  without columns are both processed. Three of the messages crash the script
  instead. The reserved-name and reserved-suffix messages (create_tables.py:445, 449)
  read the key `table_name`, which a declaration lacks. The empty-descriptor message
  (create_tables.py:467) names the undefined `tableInf`. The model reports these
  faults too and goes on (see "Left out").
- Nothing is dropped. The constraint-drop loop reads a cursor that `fetchall()` has
  already exhausted (create_tables.py:237-238).
- The NOT NULL statement (create_tables.py:258-264) reads
  `ADD CONSTRAINT {table}_{column}_unique NOT_NULL (column) NOT VALID`. `NOT_NULL`
  is not SQL, so PostgreSQL rejects the statement, and every required column raises
  on its first run. The model takes the statement as the NOT NULL constraint it
  evidently means, added under the name the UNIQUE constraint uses
  (create_tables.py:254, 262). In the model, a column that is unique and required
  raises on every run. On later runs, any unique or required column whose type
  matches raises too, because its constraint name is already taken.
- Every `REFERENCES x (id)` clause raises when table `x` has no id column. These
  clauses are in the tagging tables (create_tables.py:320-336) and in the
  `fk_primary_tags` foreign key (create_tables.py:302-306). A tagged table that
  exists without an id, and has no tags table yet, therefore always rolls back and
  ends the script. For a tagged table, `enforce_reserved_columns` returns False
  for a missing id only when the table's `{t}_tags` table already exists.
- A column declared `time`, `timestamp` or `enum` never re-matches.
  information_schema reports these types as "time without time zone",
  "timestamp without time zone" and "USER-DEFINED", and the code compares the
  reported type with the literal in `PSQLDATATYPES` (create_tables.py:204-205).
- Each table is reconciled on its own connection opened with `with`
  (create_tables.py:482), which is a transaction. An exception rolls back that table
  and ends the script. Earlier tables stay committed.
- `enforce_reserved_columns` reads the main loop's `table_name`
  (create_tables.py:293). In the model it is a parameter.

## Model

| member | source | states |
|---|---|---|
| Constants.PsqlType | constants.py:10-26 | the lookup is total on the logical types and equals the table's entry for each type's key |
| Constants.LogicalTypesCoverTable | constants.py:10-26 | the table's keys are exactly the spellings of the logical types |
| Constants.NumericTypes | constants.py:11-15 | int and integer map to "integer", float and number to "real", double to "double precision" |
| Constants.TextAndBooleanTypes | constants.py:16-20 | str, string and text map to "text"; bool and boolean to "boolean" |
| Constants.PassThroughTypes | constants.py:21-25 | date, time, timestamp, interval and enum map to their own spelling |
| Constants.ReservedNameFacts | constants.py:5-8 | id and primary_tag are reserved column names; "info" is the only reserved database name; no table name is reserved |
| Naming.Split | create_tables.py:69 | splitting yields at least one fragment, and no fragment holds a separator |
| Naming.Snake | create_tables.py:64-76 | snake case keeps the length and leaves no '.', ' ' or '-' |
| Naming.LowerSnake | create_tables.py:78-90 | lower snake case keeps the length and leaves no '.', ' ' or '-' |
| Naming.JoinedSplit | create_tables.py:69-76 | joining the fragments with "_" replaces each separator by "_" and keeps every other character |
| Naming.ToSnakeCase | create_tables.py:64-76 | the accumulate-then-trim loop returns the snake case of its input |
| Naming.ToLowerSnakeCase | create_tables.py:78-90 | the loop over lower-cased fragments returns the lower snake case of its input |
| Naming.LowerSnakeIdempotent | create_tables.py:78-90 | normalising twice is normalising once |
| Naming.SnakeIdempotent | create_tables.py:64-76 | snake case applied twice is snake case applied once |
| Naming.DocumentedExamples | create_tables.py:64-90 | "hi I am Wywy" becomes "hi_I_am_Wywy" and "hi_i_am_wywy"; underscores are kept |
| Naming.ValidateName | create_tables.py:149-157 | false exactly when the name equals a reserved name |
| Naming.ValidateSuffix | create_tables.py:159-169 | true exactly when no reserved suffix meets the prefix comparison as written |
| Naming.PrefixClashShape | create_tables.py:165-168 | the comparison fires only on names twice as long as "_" + suffix that start with "_" + suffix |
| Naming.ShortNamesPass | create_tables.py:165-169 | names shorter than every "_" + suffix, and any name against an empty list, pass |
| Naming.TableSuffixCheckByLength | create_tables.py:159-169 | with the reserved table suffixes, a name whose length is not 10, 20, 22 or 24 always passes |
| Naming.SuffixCheckGap | create_tables.py:159-169 | "widgets_tags" ends with a reserved suffix yet passes; "_tagswidge" does not and is rejected |
| Naming.ReservedNameChecks | create_tables.py:19-20 | every table name passes validate_name; a database name fails exactly when it is "info" |
| Validation.EmptyDescriptorFaults | create_tables.py:464-468 | at most one fault per descriptor, each an empty-descriptor fault |
| Validation.EmptyDescriptorFaultsCount | create_tables.py:464-468 | exactly one fault per descriptor without columns |
| Validation.EmptyDescriptorFaultsExist | create_tables.py:464-468 | a fault is reported exactly when some descriptor has no columns |
| Validation.HeadFaults | create_tables.py:443-453 | reserved suffix reported exactly when validate_suffix rejects the name; no-columns exactly when none are declared; never a reserved name |
| Validation.DescriptorFaults | create_tables.py:458-476 | without a descriptors entry, nothing is reported |
| Validation.TableFaults | create_tables.py:440-476 | a reserved table name is never reported (the list is empty) |
| Validation.TableFaultsCharacterised | create_tables.py:440-476 | each kind of fault is reported exactly when its condition holds |
| Validation.TableFaultsCountEmpty | create_tables.py:464-468 | the empty-descriptor fault occurs once per descriptor without columns |
| Validation.TableFaultsBySuffixLength | create_tables.py:447-449 | a table name whose length is not 10, 20, 22 or 24 is never reported for its suffix |
| Validation.CheckTableHead | create_tables.py:436-453 | the checks on the table itself return its head faults, in order |
| Validation.CheckDescriptors | create_tables.py:458-476 | the loop over the descriptors (with its continue) returns the descriptor faults, in order |
| Validation.CheckTable | create_tables.py:436-476 | the per-table checks return all faults of the table, in order |
| Validation.TableViolations | create_tables.py:477-480 | one violation per fault, naming the table, in the same order |
| Catalog.TableExists | create_tables.py:171-179 | a table that does not exist has no column |
| Catalog.ColumnExists | create_tables.py:181-190 | a column only exists in an existing table |
| Catalog.ColumnDataType | create_tables.py:204 | the reported type is never "enum", "time" or "timestamp"; a built-in type is reported under its canonical name |
| Catalog.ReportedType | create_tables.py:204-205 | no column is reported as "enum", "time" or "timestamp"; built-in types are reported under their canonical name |
| Catalog.SiblingTablesEndWithReservedSuffix | create_tables.py:21 | every generated tagging or descriptor table ends with "_" and a reserved table suffix |
| Catalog.CreateTable | create_tables.py:485-488 | the table is added with its columns and its foreign keys, which need an id column in each referenced table; nothing is lost; integrity is kept |
| Catalog.AddColumn | create_tables.py:220-225 | the column is added with its type; every other table and every constraint is unchanged |
| Catalog.CreateEnum | create_tables.py:209-219 | the enum type is added with its labels; tables and constraints are unchanged |
| Catalog.AddConstraint | create_tables.py:248-264 | the named constraint is added on the table; nothing else changes |
| Catalog.AddForeignKey | create_tables.py:302-306 | the named constraint and the reference to the target table are added |
| Catalog.AddEnumColumn | create_tables.py:209-219 | the column gets the type {table}_{column}_enum, which holds the declared values |
| Catalog.Drifted | create_tables.py:203-206 | drift is the data_type query disagreeing with the mapped type, and needs an existing column; a column added with the mapped type drifts exactly when it is time, timestamp or enum |
| Catalog.EnumClash | create_tables.py:209-219 | only a missing enum column can clash, so never a drifted one |
| Catalog.ConstraintClash | create_tables.py:249-264 | a column neither unique nor required never clashes; one both unique and required always does |
| Catalog.EnsureColumn | create_tables.py:199-225 | False exactly on type drift (nothing changed); raises exactly when the enum type name is taken; otherwise the column exists, with the mapped type or its own enum type; nothing else but the column and its enum type is added |
| Catalog.AddColumnConstraints | create_tables.py:227-264 | nothing dropped; raises exactly when a constraint name is taken or taken by the UNIQUE just added; otherwise the unique-named constraint exists |
| Catalog.EnforceCommentsColumn | create_tables.py:270-282 | the comments column is added when asked for; an existing one is kept and reported as False when not asked for |
| Catalog.EnforceColumn | create_tables.py:192-282 | drift returns False and changes nothing; it raises exactly on an enum or constraint name clash; False exactly for drift or an undeclared comments column; otherwise the column, comments column and constraint exist; nothing is dropped, and only the column, its comments column, its enum type and its constraint are added |
| Catalog.EnforceColumnConfined | create_tables.py:192-282 | enforce_column changes no table but its own |
| Catalog.EnforceReservedColumns | create_tables.py:285-310 | a missing id returns False and changes nothing; without tagging nothing changes and an existing primary_tag returns False; with tagging a missing primary_tag is added as integer, with the constraint fk_primary_tags recorded and its foreign key to {t}_tag_names, and it raises exactly when that constraint name is taken or the tag names table has no id; only primary_tag and its foreign key are added |
| Catalog.EnsureTable | create_tables.py:485-488 | the table exists afterwards; an existing table is untouched; a new one has the given columns and foreign keys; only that table is created |
| Catalog.EnsureTableReferencing | create_tables.py:342-366 | the guarded CREATE TABLE raises exactly when the table is missing and a referenced table has no id, changing nothing; otherwise the table exists with its foreign keys |
| Catalog.EnsureTagNameReferrers | create_tables.py:360-366 | the aliases and groups tables exist with their foreign keys to the tag names table; it raises exactly when one is missing and the tag names table has no id |
| Catalog.EnsureTagsAndReferrers | create_tables.py:354-366 | once the tag names table exists: it raises exactly when the tags table is missing and the table or the tag names table has no id, or when the tag names table has no id and aliases or groups is missing; only the three tables are created; without an exception they exist with their foreign keys |
| Catalog.EnsureTaggingBundle | create_tables.py:342-366 | it raises exactly when the tags table is missing and the table has no id, or when an existing tag names table has no id and one of the other three is missing; only the four tables are created; without an exception they exist; tags references the table and the tag names table; aliases and groups reference the tag names table |
| Catalog.EnforceTaggingTables | create_tables.py:342-366 | it raises exactly when the tags table is missing and the table has no id, or the tag names table exists without id and the bundle is incomplete; otherwise all four tables exist; only tagging tables are created, existing ones untouched; foreign keys of the new ones are in place; integrity is kept; a complete bundle is left as it is |
| Catalog.EnforceColumns | create_tables.py:499-500 | no table is added or dropped, nothing is lost; without an exception every declared column exists |
| Catalog.EnforceColumnsConfined | create_tables.py:499-500 | the column loop changes no table but its own, and adds only that table's constraints and enum types |
| Catalog.EnforceColumnsStep | create_tables.py:499-500 | the next column is enforced on the catalog the earlier ones left |
| Catalog.EnforceColumnsAbortPersists | create_tables.py:499-500 | after an exception the remaining columns are never enforced |
| Catalog.EnforceDescriptor | create_tables.py:379-386 | the descriptor table {t}_{name}_descriptors exists, created with only an id if it was missing; no other table is added; without an exception its columns exist |
| Catalog.EnforceDescriptorConfined | create_tables.py:379-386 | one descriptor changes no table but its descriptor table |
| Catalog.EnforceDescriptors | create_tables.py:368-386 | every table it creates has an id; without an exception every descriptor table and its columns exist |
| Catalog.EnforceDescriptorsConfined | create_tables.py:368-386 | only the descriptor tables are created or changed |
| Catalog.EnforceDescriptorsStep | create_tables.py:379-386 | the next descriptor is enforced on the catalog the earlier ones left |
| Catalog.EnforceDescriptorsAbortPersists | create_tables.py:379-386 | after an exception the remaining descriptors are never enforced |
| Catalog.PrepareTable | create_tables.py:484-496 | the table exists (with an id if it was created); a tagged table without id and without tags table raises; otherwise with tagging the bundle exists, and every descriptor table exists |
| Catalog.PrepareTableConfined | create_tables.py:484-496 | only the table, its tagging bundle and its descriptor tables change |
| Catalog.FinishTable | create_tables.py:498-503 | nothing is lost; without an exception every declared column exists, and a tagged table with an id has primary_tag |
| Catalog.FinishTableConfined | create_tables.py:498-503 | only the table itself changes |
| Catalog.ReconcileTable | create_tables.py:482-503 | an exception rolls the table back; otherwise the table, bundle, descriptor tables, columns and primary_tag exist, and nothing is dropped |
| Catalog.ReconcileTableConfined | create_tables.py:482-503 | only the table, its tagging bundle and its descriptor tables change |
| Catalog.TablesViolations | create_tables.py:430-480 | every violation is a nameless table or a fault of a named table, never a database name |
| Catalog.TablesViolationsNamed | create_tables.py:430-480 | a nameless table is reported exactly when one is declared; other violations name a declared table |
| Catalog.ReconcileTables | create_tables.py:430-503 | nothing is dropped; integrity is kept; without an exception every named table exists |
| Catalog.ReconcileTablesAbortPersists | create_tables.py:430-503 | after an exception the later tables are neither checked nor reconciled |
| Catalog.ReconcileTablesReported | create_tables.py:430-480 | the violations reported are a prefix of those of all tables, and all of them without an exception |
| Catalog.ReconcileTablesNameNoDatabase | create_tables.py:430-480 | the table loop never reports a database name |
| Catalog.ReconcileDatabase | create_tables.py:391-503 | a nameless database is skipped; nothing is dropped; without an exception every named table exists |
| Catalog.ReservedDatabaseReported | create_tables.py:397-407 | the database name is reported exactly when it is "info", and then first |
| CatalogProperties.ColumnSettledStable | create_tables.py:227-282 | a settled column stays settled whatever the reconciler does later |
| CatalogProperties.EnforceColumnSettles | create_tables.py:192-282 | a column enforce_column did not raise on is settled afterwards |
| CatalogProperties.SettledColumnRerun | create_tables.py:249-264 | rerunning a settled column raises exactly when its type matches and it is unique or required; otherwise nothing changes |
| CatalogProperties.UniqueRequiredColumnFails | create_tables.py:249-264 | a unique, required column whose type matches always raises |
| CatalogProperties.PsqlTypeReported | create_tables.py:204-205 | a type is reported as created exactly when it is not time, timestamp or enum |
| CatalogProperties.FreshColumnRematch | create_tables.py:203-225 | a column just created drifts on the next run exactly when it is time, timestamp or enum |
| CatalogProperties.CommentsColumnKept | create_tables.py:270-282 | an existing comments column no longer declared is kept and reported as False |
| CatalogProperties.EnforceColumnsSettle | create_tables.py:499-500 | without an exception every declared column is settled |
| CatalogProperties.SettledColumnsNoop | create_tables.py:499-500 | enforcing settled columns again raises or changes nothing |
| CatalogProperties.DescriptorSettledStable | create_tables.py:379-386 | a settled descriptor stays settled |
| CatalogProperties.EnforceDescriptorsSettle | create_tables.py:368-386 | without an exception every descriptor is settled |
| CatalogProperties.SettledDescriptorsNoop | create_tables.py:368-386 | enforcing settled descriptors again raises or changes nothing |
| CatalogProperties.FinishTableSettles | create_tables.py:498-503 | without an exception every declared column is settled |
| CatalogProperties.PrepareTableSettles | create_tables.py:484-496 | without an exception every descriptor is settled |
| CatalogProperties.ReconcileTableSettles | create_tables.py:482-503 | a committed table reconciliation leaves the table settled |
| CatalogProperties.SettledTableNoop | create_tables.py:482-503 | reconciling a settled table leaves the catalog unchanged |
| CatalogProperties.ReconcileTableIdempotent | create_tables.py:482-503 | reconciling a table twice leaves the catalog as reconciling it once did |
| CatalogProperties.SuffixFaultExample | create_tables.py:447-453 | "_tagswidge" without columns has a reserved-suffix fault and a no-columns fault |
| CatalogProperties.ViolatingTableStillReconciled | create_tables.py:477-488 | "widgets" without columns is reported and still created, with its id |
| CatalogProperties.TaggedTableWithoutIdFails | create_tables.py:320-326 | a tagged table without id and without tags table is always rolled back |
| CatalogProperties.TaggedTableWithoutIdExample | create_tables.py:355-358 | the table "w" holding only a text column, declared with tagging, is rolled back |
| CatalogProperties.ReservedDatabaseStillReconciled | create_tables.py:401-409 | a database named "info" is reported first and its tables are reconciled all the same |
| Engine.Database.constructor | create_tables.py:482 | the object holds the given catalog |
| Engine.Database.TableExists | create_tables.py:171-179 | the probe answers whether the table exists |
| Engine.Database.ColumnExists | create_tables.py:181-190 | the probe answers whether the column exists in the table |
| Engine.Database.CreateTable | create_tables.py:485-488 | the catalog becomes what CREATE TABLE makes of it |
| Engine.Database.AddColumn | create_tables.py:220-225 | the catalog becomes what ADD COLUMN makes of it |
| Engine.Database.CreateEnum | create_tables.py:209-219 | the catalog becomes what CREATE TYPE makes of it |
| Engine.Database.AddConstraint | create_tables.py:248-264 | the catalog becomes what ADD CONSTRAINT makes of it |
| Engine.Database.AddForeignKey | create_tables.py:302-306 | the catalog becomes what the foreign-key statement makes of it |
| Engine.Database.EnsureTable | create_tables.py:485-488 | the guarded CREATE TABLE leaves the catalog as Catalog.EnsureTable says |
| Engine.Database.EnsureTableReferencing | create_tables.py:352-366 | the guarded CREATE TABLE with REFERENCES clauses leaves the catalog and exception status of Catalog.EnsureTableReferencing |
| Engine.Database.Restore | create_tables.py:482 | the rollback restores the catalog the transaction started on |
| Engine.Database.EnsureColumn | create_tables.py:199-225 | the first block leaves the catalog and result of Catalog.EnsureColumn |
| Engine.Database.AddColumnConstraints | create_tables.py:227-264 | the constraint block leaves the catalog and result of Catalog.AddColumnConstraints |
| Engine.Database.EnforceCommentsColumn | create_tables.py:270-282 | the comments block leaves the catalog and result of Catalog.EnforceCommentsColumn |
| Engine.Database.EnforceColumn | create_tables.py:192-282 | enforce_column leaves the catalog and result of Catalog.EnforceColumn |
| Engine.Database.EnforceReservedColumns | create_tables.py:285-310 | enforce_reserved_columns leaves the catalog and result of Catalog.EnforceReservedColumns |
| Engine.Database.EnforceTaggingTables | create_tables.py:342-366 | enforce_tagging_tables leaves the catalog and exception status of Catalog.EnforceTaggingTables |
| Engine.Database.EnforceColumnList | create_tables.py:499-500 | the column loop leaves the catalog and exception status of Catalog.EnforceColumns |
| Engine.Database.EnforceDescriptor | create_tables.py:379-386 | one descriptor pass leaves the catalog and exception status of Catalog.EnforceDescriptor |
| Engine.Database.EnforceDescriptorTables | create_tables.py:368-386 | enforce_descriptor_tables leaves the catalog and exception status of Catalog.EnforceDescriptors |
| Engine.Database.PrepareTable | create_tables.py:484-496 | table, tagging and descriptors leave the catalog of Catalog.PrepareTable |
| Engine.Database.FinishTable | create_tables.py:498-503 | columns and reserved columns leave the catalog of Catalog.FinishTable |
| Engine.Database.ReconcileTable | create_tables.py:482-503 | the per-table transaction leaves the catalog and exception status of Catalog.ReconcileTable |
| Engine.Database.ReconcileEntry | create_tables.py:430-503 | one pass of the table loop extends the reconciliation of the earlier tables by this table |
| Engine.Database.ReconcileTableList | create_tables.py:430-503 | the table loop leaves the catalog, exception status and violations of Catalog.ReconcileTables |
| Engine.Database.Reconcile | create_tables.py:391-503 | one database's pass leaves the catalog, exception status and violations of Catalog.ReconcileDatabase |

## Left out

- The driver layer: connections, cursors, isolation settings and SQL text. Probes and statements act on the catalog value instead.
- Creating the database itself (create_tables.py:411-427), and the `DuplicateDatabase` race (create_tables.py:105-106): they need a server. The model reconciles one database's catalog, and the outer loop over databases (create_tables.py:391) is one call per database.
- `add_info_table` and sync_status.py: fixed DDL behind one existence check, outside the reconciliation logic.
- Environment variables and YAML loading (create_tables.py:52-62): I/O. The schema description is a typed value.
- Printed messages: violations are a list of values, not strings.
- `str.lower()` beyond ASCII letters: Unicode case mapping is not modelled, and only 'A'-'Z' are lowered.
- The NOT NULL statement's spelling (`NOT_NULL (...) NOT VALID`, create_tables.py:259): modelled as adding the named constraint, as the source evidently means. PostgreSQL's checks of existing rows are not modelled.
- Constraints written inside CREATE TABLE (PRIMARY KEY, UNIQUE, NOT NULL in the tagging tables): only their foreign keys are recorded. Their index names are not, so a clash with them is not modelled.
- Constraint names are modelled per table; PostgreSQL's schema-wide index names are not.
- Enum labels are not validated, and enum types are never compared with the declared values. Duplicate labels make `CREATE TYPE` (create_tables.py:210-215) raise; in the model it goes through.
- `CONSTRAINT_NAMES`: unused by the code.
- The dict-shape checks on the description (create_tables.py:393, 432, 452, 460, 466, 475): the description is typed, so wrong types cannot occur. A descriptor's name is always a string, so only its empty column list is reported. The misplaced parenthesis at line 460 makes its type test always pass, which agrees with the typed model.
- Validation.HeadFaults: the messages at create_tables.py:445 and 449 read the key `table_name`, which a declaration normally lacks, so the script would crash there with a KeyError. The model reports the fault and goes on. Line 445 is never reached, because the reserved table name list is empty.
- Validation.EmptyDescriptorFaults: the message at create_tables.py:467 names the undefined `tableInf` and would crash the script. The model reports the fault and goes on.
- Catalog.ReconcileTables: whole-run idempotence is not stated. Two table declarations may generate colliding names, for example a table whose name equals another's tagging table. Idempotence is proved per table (CatalogProperties.ReconcileTableIdempotent).
- Identifier truncation: PostgreSQL cuts identifiers to 63 bytes, and the model keeps full names. For a table name longer than that, `table_exists` (create_tables.py:171-179) compares the full name and misses the stored table, so a second run re-issues CREATE TABLE and raises; the model finds the table and goes on. Generated names (`{t}_{c}_unique`, `{t}_{c}_enum`, `{t}_{d}_descriptors`, the tagging tables) that collide only after the cut are distinct in the model.
- Catalog.ReconcileTable, Catalog.EnforceColumn: three statement failures PostgreSQL raises are not modelled, so the model goes on where the source rolls the table back and ends the script:
  - a table name holding a quote: the main loop's existence probe (create_tables.py:485) pastes the name into its SQL text, unlike `table_exists` (create_tables.py:178), so the quote makes the probe a syntax error;
  - an empty column name: `sql.Identifier("")` (create_tables.py:217, 223) is a zero-length identifier, which PostgreSQL rejects;
  - an enum type named like a table, or a table named like an enum type: PostgreSQL keeps table row types and enum types in one namespace, so `CREATE TYPE` (create_tables.py:210-214) or `CREATE TABLE` raises, while the model keeps tables and enum types apart.
- Catalog.ReportedType: the catalog spells every column type under PostgreSQL's canonical name (never an alias such as "int4" or "bool"), and every type outside the built-in ones is an enum type that reads "USER-DEFINED". information_schema's other spellings (such as "character varying") are not modelled.
- Catalog.ReconcileDatabase: a database-level exception (connection loss) is not modelled. In the model a statement raises only on a taken enum type or constraint name, or on a referenced table without id; the failures listed above are not modelled.
- Catalog.EnforceTaggingTables: a REFERENCES clause raises only when the referenced table has no id column. PostgreSQL also rejects an id that is not a primary key or unique, or whose type does not compare with INT. The catalog records neither, so those failures are not modelled.
- Catalog.EnforceReservedColumns: the same holds for the `fk_primary_tags` foreign key (create_tables.py:302-306).
