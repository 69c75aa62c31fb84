/** The PostgreSQL-to-SQLite schema conversion: the fixed chain of rewrites
    that convert_pg_to_sqlite.py applies to the text of a Drizzle schema,
    from the import rewrite to the boolean-column annotations. Reading the
    source file and writing the result are left to the caller. */
module Conversion {
  import opened Text
  import opened Patterns
  import opened Rewrite

  // ---------------------------------------------------------------------------
  // Imports (lines 8-18)

  /** The import line of line 9, written as three literals so that facts
      about its characters can be checked piece by piece. */
  const PgCoreImport: string :=
    "import { pgTable, text, varchar, integer, "
    + "timestamp, pgEnum, numeric, boolean, "
    + "jsonb } from \"drizzle-orm/pg-core\";"
  /** The import line of line 10, likewise written as three literals. */
  const SqliteCoreImport: string :=
    "import { sqliteTable, text, "
    + "integer, real } from "
    + "\"drizzle-orm/sqlite-core\";"
  const SqlImport: string := "import { sql } from \"drizzle-orm\";"

  const ReplacePgImport: Rule := Literal(PgCoreImport, SqliteCoreImport)
  const DropSqlImport: Rule := Literal(SqlImport, "")

  /** The two lines put in front of the converted text, each followed by a
      newline, and one empty line after them. */
  const HeaderImport: string := "import { nanoid } from \"nanoid\";"
  const HeaderGenId: string := "const genId = () => nanoid();"
  const Header: string := HeaderImport + "\n" + HeaderGenId + "\n\n"

  // ---------------------------------------------------------------------------
  // Enum declarations, table and column types, arrays, UUID defaults (lines 21-38)

  const DropEnumDecls: Rule := EnumDecl
  const RenameTable: Rule := Literal("pgTable", "sqliteTable")
  const VarcharToText: Rule := Literal("varchar", "text")
  const NumericToReal: Rule := NumericCall
  const TimestampOptionsToInteger: Rule := TimestampWithOptions
  const TimestampToInteger: Rule := Literal("timestamp(", "integer(")
  const BooleanToInteger: Rule := Literal("boolean(", "integer(")
  const JsonbToText: Rule := Literal("jsonb(", "text(")
  const DropArray: Rule := Literal(".array()", "")
  const UuidDefault: Rule := Literal(".default(sql`gen_random_uuid()`)", ".$defaultFn(() => genId())")

  // ---------------------------------------------------------------------------
  // Enum columns (lines 41-56)

  /** The (enum constructor, column name) pairs whose columns become text. */
  const EnumColumns: seq<(string, string)> := [
    ("statusEnum", "status"),
    ("warehouseCategoryEnum", "category"),
    ("warehouseStatusEnum", "status"),
    ("transactionTypeEnum", "type"),
    ("financialTypeEnum", "type"),
    ("installationStatusEnum", "status"),
    ("priorityEnum", "priority"),
    ("documentTypeEnum", "type"),
    ("messageTypeEnum", "message_type"),
    ("dealDocumentTypeEnum", "document_type"),
    ("customFieldTypeEnum", "field_type")
  ]

  /** A call of `callee` on one quoted column name: `<callee>("<column>")`. */
  function ColumnCall(callee: string, column: string): string {
    callee + "(\"" + column + "\")"
  }

  /** `<enumName>("<column>")` becomes `text("<column>")`. */
  function EnumColumnRule(enumName: string, column: string): Rule {
    Literal(ColumnCall(enumName, column), ColumnCall("text", column))
  }

  function EnumColumnRules(table: seq<(string, string)>): seq<Rule> {
    seq(|table|, i requires 0 <= i < |table| => EnumColumnRule(table[i].0, table[i].1))
  }

  // ---------------------------------------------------------------------------
  // Boolean and timestamp defaults (lines 59-63)

  const DefaultTrue: Rule := Literal(".default(true)", ".default(1)")
  const DefaultFalse: Rule := Literal(".default(false)", ".default(0)")
  const DefaultNow: Rule := Literal(".defaultNow()", ".$defaultFn(() => new Date())")

  // ---------------------------------------------------------------------------
  // Boolean columns (lines 66-75)

  /** The integer columns that hold booleans. */
  const BooleanColumns: seq<string> := [
    "can_create_deals",
    "can_edit_deals",
    "can_delete_deals",
    "is_signed",
    "is_active"
  ]

  function BooleanCall(column: string): string {
    ColumnCall("integer", column)
  }

  /** A call of `callee` on a quoted column name and an options text:
      `<callee>("<column>",<options>)`. */
  function OptionsCall(callee: string, column: string, options: string): string {
    callee + "(\"" + column + "\"," + options + ")"
  }

  /** The options text line 75 adds to a boolean column. */
  const BooleanMode: string := " { mode: \"boolean\" }"

  function BooleanModeCall(column: string): string {
    OptionsCall("integer", column, BooleanMode)
  }

  /** `integer("<column>")` gains the option object `{ mode: "boolean" }`. */
  function BooleanModeRule(column: string): Rule {
    Literal(BooleanCall(column), BooleanModeCall(column))
  }

  function BooleanModeRules(columns: seq<string>): seq<Rule> {
    seq(|columns|, i requires 0 <= i < |columns| => BooleanModeRule(columns[i]))
  }

  // ---------------------------------------------------------------------------
  // The pipeline, stage by stage, in the script's order

  function ImportStage(s: string): string {
    SubstituteAll(DropSqlImport, SubstituteAll(ReplacePgImport, s))
  }

  function TypeStage(s: string): string {
    var noEnums := SubstituteAll(DropEnumDecls, s);
    var tables := SubstituteAll(RenameTable, noEnums);
    var texts := SubstituteAll(VarcharToText, tables);
    var reals := SubstituteAll(NumericToReal, texts);
    var stamped := SubstituteAll(TimestampOptionsToInteger, reals);
    var stamps := SubstituteAll(TimestampToInteger, stamped);
    var bools := SubstituteAll(BooleanToInteger, stamps);
    var jsons := SubstituteAll(JsonbToText, bools);
    var arrays := SubstituteAll(DropArray, jsons);
    SubstituteAll(UuidDefault, arrays)
  }

  function EnumColumnStage(s: string): string {
    ApplyRules(s, EnumColumnRules(EnumColumns))
  }

  function DefaultStage(s: string): string {
    SubstituteAll(DefaultNow, SubstituteAll(DefaultFalse, SubstituteAll(DefaultTrue, s)))
  }

  function BooleanStage(s: string): string {
    ApplyRules(s, BooleanModeRules(BooleanColumns))
  }

  /** The converted schema text for a given PostgreSQL schema text. */
  function Convert(input: string): string {
    BooleanStage(DefaultStage(EnumColumnStage(TypeStage(Header + ImportStage(input)))))
  }

  /** The loop of lines 55-56: every enum-column rule in table order. */
  method ReplaceEnumColumns(text: string) returns (content: string)
    ensures content == EnumColumnStage(text)
  {
    content := text;
    ghost var rules := EnumColumnRules(EnumColumns);
    for i := 0 to |EnumColumns|
      invariant content == ApplyRules(text, rules[..i])
    {
      var (enumName, column) := EnumColumns[i];
      content := SubstituteAll(EnumColumnRule(enumName, column), content);
      assert rules[..i + 1] == rules[..i] + [EnumColumnRule(enumName, column)];
      ApplyRulesSnoc(text, rules[..i], EnumColumnRule(enumName, column));
    }
    assert rules[..|EnumColumns|] == rules;
  }

  /** The loop of lines 74-75: every boolean-column rule in table order. */
  method AddBooleanModes(text: string) returns (content: string)
    ensures content == BooleanStage(text)
  {
    content := text;
    ghost var rules := BooleanModeRules(BooleanColumns);
    for i := 0 to |BooleanColumns|
      invariant content == ApplyRules(text, rules[..i])
    {
      var column := BooleanColumns[i];
      content := SubstituteAll(BooleanModeRule(column), content);
      assert rules[..i + 1] == rules[..i] + [BooleanModeRule(column)];
      ApplyRulesSnoc(text, rules[..i], BooleanModeRule(column));
    }
    assert rules[..|BooleanColumns|] == rules;
  }

  /** The script itself: one buffer, reassigned rule after rule. */
  method ConvertSchema(input: string) returns (content: string)
    ensures content == Convert(input)
  {
    content := input;
    content := SubstituteAll(ReplacePgImport, content);
    content := SubstituteAll(DropSqlImport, content);
    content := Header + content;
    content := SubstituteAll(DropEnumDecls, content);
    content := SubstituteAll(RenameTable, content);
    content := SubstituteAll(VarcharToText, content);
    content := SubstituteAll(NumericToReal, content);
    content := SubstituteAll(TimestampOptionsToInteger, content);
    content := SubstituteAll(TimestampToInteger, content);
    content := SubstituteAll(BooleanToInteger, content);
    content := SubstituteAll(JsonbToText, content);
    content := SubstituteAll(DropArray, content);
    content := SubstituteAll(UuidDefault, content);
    content := ReplaceEnumColumns(content);
    content := SubstituteAll(DefaultTrue, content);
    content := SubstituteAll(DefaultFalse, content);
    content := SubstituteAll(DefaultNow, content);
    content := AddBooleanModes(content);
  }
}
