/** The schema description the reconciler walks, as typed values: a database holds
    tables, a table holds columns and optionally descriptors, a descriptor holds
    columns of its own. Also the schema violations the main loop reports. */
module Schema {
  import opened Wrappers
  import opened Constants

  /** One entry of a table's "schema" list. `values` lists the labels of an enum
      column; `optional` defaults to true, `unique` and `comments` to false. */
  datatype ColumnSpec = ColumnSpec(
    name: string,
    dataType: LogicalType,
    values: seq<string>,
    optional: bool,
    unique: bool,
    comments: bool)

  /** One entry of a table's "descriptors" list: a sibling table with its own columns. */
  datatype DescriptorSpec = DescriptorSpec(name: string, columns: seq<ColumnSpec>)

  /** One entry of a database's "tables" list; `descriptors` is None when the key is absent. */
  datatype TableSpec = TableSpec(
    name: string,
    columns: seq<ColumnSpec>,
    tagging: bool,
    descriptors: Option<seq<DescriptorSpec>>)

  /** One entry of the top-level "data" list. */
  datatype DatabaseSpec = DatabaseSpec(name: string, tables: seq<TableSpec>)

  /** What the per-table checks find wrong with a table declaration. */
  datatype TableFault = ReservedName | ReservedSuffix | NoColumns | NoDescriptors | EmptyDescriptor

  /** A reported violation. Reporting one never stops the reconciliation. */
  datatype Violation =
    | ReservedDatabaseName(database: string)
    | NamelessTable
    | TableViolation(table: string, fault: TableFault)
}
