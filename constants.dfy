/** The fixed lookup tables of the schema reconciler: the reserved database, table
    and column names and suffixes, and the table from the logical type a column
    declaration names to the PostgreSQL type the column is created with. */
module Constants {

  const ReservedDatabaseNames: seq<string> := ["info"]
  const ReservedTableNames: seq<string> := []
  /** Reserved for the sibling tables the reconciler generates itself. */
  const ReservedTableSuffixes: seq<string> := ["tags", "tag_aliases", "tag_names", "tag_groups", "descriptors"]
  const ReservedColumnNames: seq<string> := ["id", "user", "users", "primary_tag"]
  const ReservedColumnSuffixes: seq<string> := ["comments"]

  /** PSQLDATATYPES: logical type name -> PostgreSQL type name. */
  const PsqlDataTypes: map<string, string> := map[
    "int" := "integer",
    "integer" := "integer",
    "float" := "real",
    "number" := "real",
    "double" := "double precision",
    "str" := "text",
    "string" := "text",
    "text" := "text",
    "bool" := "boolean",
    "boolean" := "boolean",
    "date" := "date",
    "time" := "time",
    "timestamp" := "timestamp",
    "interval" := "interval",
    "enum" := "enum"
  ]

  /** The logical types a column declaration may name: one per key of PsqlDataTypes. */
  datatype LogicalType =
    | Int | Integer | Float | Number | Double
    | Str | String | Text | Bool | Boolean
    | Date | Time | Timestamp | Interval | Enum

  const AllLogicalTypes: seq<LogicalType> :=
    [Int, Integer, Float, Number, Double, Str, String, Text, Bool, Boolean, Date, Time, Timestamp, Interval, Enum]

  /** How a logical type is spelled in a schema description. */
  function Key(ty: LogicalType): string {
    match ty
    case Int => "int"
    case Integer => "integer"
    case Float => "float"
    case Number => "number"
    case Double => "double"
    case Str => "str"
    case String => "string"
    case Text => "text"
    case Bool => "bool"
    case Boolean => "boolean"
    case Date => "date"
    case Time => "time"
    case Timestamp => "timestamp"
    case Interval => "interval"
    case Enum => "enum"
  }

  /** The total lookup PSQLDATATYPES[ty], grouped by the PostgreSQL type it yields;
      it agrees with the table entry for entry. */
  function PsqlType(ty: LogicalType): (r: string)
    ensures Key(ty) in PsqlDataTypes && r == PsqlDataTypes[Key(ty)]
  {
    match ty
    case Int | Integer => "integer"
    case Float | Number => "real"
    case Double => "double precision"
    case Str | String | Text => "text"
    case Bool | Boolean => "boolean"
    case Date => "date"
    case Time => "time"
    case Timestamp => "timestamp"
    case Interval => "interval"
    case Enum => "enum"
  }

  /** The logical types are exactly the keys of the table: every key is some type's spelling. */
  lemma {:induction false} LogicalTypesCoverTable()
    ensures forall ty: LogicalType :: ty in AllLogicalTypes
    ensures PsqlDataTypes.Keys == set ty | ty in AllLogicalTypes :: Key(ty)
  {
    forall ty: LogicalType ensures ty in AllLogicalTypes {
      match ty
      case Int =>
      case Integer =>
      case Float =>
      case Number =>
      case Double =>
      case Str =>
      case String =>
      case Text =>
      case Bool =>
      case Boolean =>
      case Date =>
      case Time =>
      case Timestamp =>
      case Interval =>
      case Enum =>
    }
    var spelled := set ty | ty in AllLogicalTypes :: Key(ty);
    forall k | k in PsqlDataTypes ensures k in spelled {
      if k == "int" {
        assert Key(Int) == k && Int in AllLogicalTypes;
      } else if k == "integer" {
        assert Key(Integer) == k && Integer in AllLogicalTypes;
      } else if k == "float" {
        assert Key(Float) == k && Float in AllLogicalTypes;
      } else if k == "number" {
        assert Key(Number) == k && Number in AllLogicalTypes;
      } else if k == "double" {
        assert Key(Double) == k && Double in AllLogicalTypes;
      } else if k == "str" {
        assert Key(Str) == k && Str in AllLogicalTypes;
      } else if k == "string" {
        assert Key(String) == k && String in AllLogicalTypes;
      } else if k == "text" {
        assert Key(Text) == k && Text in AllLogicalTypes;
      } else if k == "bool" {
        assert Key(Bool) == k && Bool in AllLogicalTypes;
      } else if k == "boolean" {
        assert Key(Boolean) == k && Boolean in AllLogicalTypes;
      } else if k == "date" {
        assert Key(Date) == k && Date in AllLogicalTypes;
      } else if k == "time" {
        assert Key(Time) == k && Time in AllLogicalTypes;
      } else if k == "timestamp" {
        assert Key(Timestamp) == k && Timestamp in AllLogicalTypes;
      } else if k == "interval" {
        assert Key(Interval) == k && Interval in AllLogicalTypes;
      } else if k == "enum" {
        assert Key(Enum) == k && Enum in AllLogicalTypes;
      }
    }
  }

  /** Numeric types (int, integer, float, number, double). */
  lemma NumericTypes()
    ensures PsqlType(Int) == PsqlType(Integer) == "integer"
    ensures PsqlType(Float) == PsqlType(Number) == "real"
    ensures PsqlType(Double) == "double precision"
  {
  }

  /** Text and boolean types (str, string, text, bool, boolean). */
  lemma TextAndBooleanTypes()
    ensures PsqlType(Str) == PsqlType(String) == PsqlType(Text) == "text"
    ensures PsqlType(Bool) == PsqlType(Boolean) == "boolean"
  {
  }

  /** date, time, timestamp, interval and enum map to their own spelling. */
  lemma PassThroughTypes()
    ensures forall ty :: ty in {Date, Time, Timestamp, Interval, Enum} ==> PsqlType(ty) == Key(ty)
  {
  }

  /** The reserved column names include the two columns the reconciler manages itself,
      and "info" is the only reserved database name. */
  lemma ReservedNameFacts()
    ensures "id" in ReservedColumnNames && "primary_tag" in ReservedColumnNames
    ensures ReservedDatabaseNames == ["info"] && ReservedTableNames == []
  {
  }
}
