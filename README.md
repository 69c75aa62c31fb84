# PostgreSQL-to-SQLite schema conversion, in Dafny

`convert_pg_to_sqlite.py` turns a Drizzle ORM schema source file written
for PostgreSQL into one written for SQLite. Between reading the input file
and writing the output file, it works on a single buffer, `content`. It
applies a fixed chain of textual rewrites to that buffer, in this order:

- it swaps the `pg-core` import line for the `sqlite-core` one and drops the `sql` import;
- it prepends a two-line `nanoid` header;
- it deletes the `pgEnum` declarations;
- it renames the table and column-type constructors, and turns `numeric(...)` into `real`;
- it turns `timestamp("x", {...})` into an integer column in timestamp mode;
- it drops `.array()` and replaces the UUID default;
- it turns eleven listed enum-column calls into `text("<column>")`;
- it rewrites the `.default(true)`, `.default(false)` and `.defaultNow()` defaults;
- it adds `{ mode: "boolean" }` to five listed integer columns.

The model has these modules:

- `Text`: character classes (`\w`, `\s`, negated single characters) and the greedy run of a class (`RunEnd`).
- `Patterns`: a substitution rule is either a literal pattern with its replacement (`str.replace`, and the `re.sub` calls whose pattern escapes every metacharacter) or one of the three genuine regular expressions of lines 21, 28 and 29. Each of the three is modelled by a bespoke scanner. Each scanner is proved sound and complete against a declarative description of the text its expression accepts.
- `Rewrite`: `SubstituteAll`, the leftmost, non-overlapping, scan-and-resume substitution of Python's `re.sub` and `str.replace`, plus the facts the conversion relies on. `ApplyRules` is a list of rules applied in order.
- `Conversion`: the script's constants and tables, the pipeline stage by stage as functions (`Convert`), and the script itself as a method (`ConvertSchema`). That method reassigns `content` step by step and runs the two table loops (`ReplaceEnumColumns`, `AddBooleanModes`) with their loop invariants.
- `HeaderFacts`: the prepended header survives every later rule.
- `RuleFacts`: what each individual rewrite does to the text it finds, and what it leaves.
- `TableFacts`: the two table-driven loops. The enum loop rewrites every occurrence of a listed `<enum>("<column>")` text, including one that ends a longer constructor name, and leaves a listed constructor with another column alone; after one run no listed call is left. The script's table lists eleven such pairs. The boolean loop annotates the listed columns, leaves calls that already carry options alone, and is idempotent.

Some of what the script does that deserves notice:

- The `numeric` rule of line 28 replaces the whole call, column name and all, by the bare word `real` (`RuleFacts.NumericCollapses`).
- The enum pattern of line 56 is not anchored at a word start. A longer constructor ending in a listed name, such as `mystatusEnum("status")`, is rewritten too (`TableFacts.LongerConstructorRewritten`).
- The argument run of the enum-declaration pattern of line 21 stops at the first `)`. When that `)` is followed by `;` inside the arguments, line 21 deletes only the text up to it, and the rest of the arguments and the declaration's own `);` stay (`RuleFacts.EnumDeclCutAtInnerClose`).

## Model

| member | source | states |
|---|---|---|
| Text.RunEnd | convert_pg_to_sqlite.py:21 | the greedy run of a character class (`\w+`, `[^)]+`, `\s*`) from `i`: every character before the returned end is in the class, and the character at the end, if any, is not |
| Patterns.MatchEnumDecl | convert_pg_to_sqlite.py:21 | a match of the enum-declaration pattern starts with `export const ` and covers more than that prefix and no more than the text |
| Patterns.EnumDeclSound | convert_pg_to_sqlite.py:21 | every match the scanner reports is `export const <word>Enum = pgEnum(<non-empty text without ')'>);`, and it is replaced by nothing |
| Patterns.EnumDeclComplete | convert_pg_to_sqlite.py:21 | every such declaration at the start of a text is matched, covering exactly the declaration |
| Patterns.MatchNumeric | convert_pg_to_sqlite.py:28 | a match of `numeric\([^)]+\)` starts with `numeric(` and is longer than it |
| Patterns.NumericSound | convert_pg_to_sqlite.py:28 | every reported match is `numeric(` followed by a non-empty argument text without `)` and then `)`, and it is replaced by `real` |
| Patterns.NumericComplete | convert_pg_to_sqlite.py:28 | every such call at the start of a text is matched with exactly its length and replaced by `real` |
| Patterns.MatchTimestamp | convert_pg_to_sqlite.py:29 | a match of the timestamp-with-options pattern starts with `timestamp("` and is longer than it |
| Patterns.TimestampSound | convert_pg_to_sqlite.py:29 | every reported match is `timestamp("<name without quote>",<white space>{<no '}'>})`, and its replacement `integer("<name>", { mode: "timestamp" })` carries the call's own name (group 1) |
| Patterns.TimestampComplete | convert_pg_to_sqlite.py:29 | every such call at the start of a text is matched with exactly its length and that replacement |
| Patterns.MatchAt | convert_pg_to_sqlite.py:8-38 | every match of any rule starts with the rule's fixed leading text and is non-empty, so the scan always makes progress |
| Rewrite.SubstituteAll | convert_pg_to_sqlite.py:8-75 | defines the scan of `re.sub` and `str.replace` (a match is replaced and the scan resumes after it; otherwise one character is kept); what it does is stated by the lemmas below |
| Rewrite.SubstituteQuietPrefix | convert_pg_to_sqlite.py:24 | a prefix where no match starts is copied unchanged, and the scan continues on the rest as if the prefix were absent |
| Rewrite.SubstituteIdentity | convert_pg_to_sqlite.py:24 | a text in which no match starts anywhere is left unchanged |
| Rewrite.SubstituteWithoutLead | convert_pg_to_sqlite.py:24 | a text not containing a rule's leading text is left unchanged |
| Rewrite.ReplaceAtStart | convert_pg_to_sqlite.py:24 | a match at the start is replaced, and the scan resumes right after it (no overlap) |
| Rewrite.ReplaceWhole | convert_pg_to_sqlite.py:24 | a text that is one whole match becomes the replacement |
| Rewrite.ReplaceThenCopy | convert_pg_to_sqlite.py:24 | a match followed by text without the leading text becomes the replacement followed by that text |
| Rewrite.ReplaceUnique | convert_pg_to_sqlite.py:24 | the one match in a text is replaced, and everything around it is kept |
| Rewrite.CopiedPrefix | convert_pg_to_sqlite.py:24 | a text that cannot overlap a replacement and occurs at the start of the output already occurred at the start of the input |
| Rewrite.AbsentAfter | convert_pg_to_sqlite.py:24 | a pattern whose occurrences are all occurrences of a literal rule's pattern, and which cannot straddle that rule's replacement, is absent after the rule runs |
| Rewrite.ApplyRules | convert_pg_to_sqlite.py:55-56 | defines a list of rules applied one after another, first rule first; stated by the lemmas below and by the loop methods of `Conversion` |
| Rewrite.ApplyRulesSnoc | convert_pg_to_sqlite.py:55-56 | applying a list of rules and then one more is applying the longer list |
| Rewrite.ApplyRulesPrefixStep | convert_pg_to_sqlite.py:55-56 | applying the first `n` rules is applying the first `n - 1` and then rule `n - 1` |
| Rewrite.ApplyRulesAbsent | convert_pg_to_sqlite.py:55-56 | rules none of whose leading texts occur leave the text unchanged |
| Rewrite.ApplyRulesAppend | convert_pg_to_sqlite.py:55-56 | applying two lists one after the other is applying their concatenation |
| Rewrite.ApplyRulesAround | convert_pg_to_sqlite.py:55-56 | when the rules before rule `i` leave the text alone, rule `i` rewrites it, and the rules after it leave the result alone, the whole list produces that result |
| Rewrite.ApplyRulesAbsentAfter | convert_pg_to_sqlite.py:55-56 | the rules after rule `i` leave unchanged a text that contains none of their leading texts |
| Patterns.TimestampRep | convert_pg_to_sqlite.py:29 | defines the replacement `integer("<name>", { mode: "timestamp" })`; that it carries the matched name is stated by `Patterns.TimestampSound` |
| Conversion.EnumColumnRule | convert_pg_to_sqlite.py:56 | defines the rule of one table pair, `<enum>("<column>")` to `text("<column>")`; stated by `TableFacts.OwnCallRewritten` |
| Conversion.BooleanModeRule | convert_pg_to_sqlite.py:75 | defines the rule of one boolean column; stated by `TableFacts.BooleanColumnStaysClear` |
| Conversion.ImportStage | convert_pg_to_sqlite.py:8-15 | defines lines 8-15; stated by `RuleFacts.PgImportReplaced`, `RuleFacts.SqlImportDropped`, `RuleFacts.ImportStageBothLines` and `RuleFacts.ImportStageBothLinesReversed` |
| Conversion.TypeStage | convert_pg_to_sqlite.py:21-38 | defines lines 21-38 in their order; stated by the `RuleFacts` lemmas of those lines and `HeaderFacts.TypeStageKeepsHeader` |
| Conversion.EnumColumnStage | convert_pg_to_sqlite.py:55-56 | defines the enum loop as a function; stated by `TableFacts.ListedPairRewritten`, `TableFacts.EnumStageIdempotent` and `Conversion.ReplaceEnumColumns` |
| Conversion.DefaultStage | convert_pg_to_sqlite.py:59-63 | defines lines 59-63; stated by `RuleFacts.DefaultStageRemovesDefaults` and the default lemmas |
| Conversion.BooleanStage | convert_pg_to_sqlite.py:74-75 | defines the boolean loop as a function; stated by `TableFacts.BooleanColumnAnnotated` and `TableFacts.BooleanStageIdempotent` |
| Conversion.Convert | convert_pg_to_sqlite.py:8-75 | defines the whole chain in the script's order; stated by `Conversion.ConvertSchema` and `HeaderFacts.ConvertKeepsHeader` |
| Conversion.ReplaceEnumColumns | convert_pg_to_sqlite.py:55-56 | the loop's buffer ends as the eleven enum-column rules applied in table order |
| Conversion.AddBooleanModes | convert_pg_to_sqlite.py:74-75 | the loop's buffer ends as the five boolean-column rules applied in list order |
| Conversion.ConvertSchema | convert_pg_to_sqlite.py:8-75 | the script's sequence of reassignments of `content` computes `Convert` of its input |
| HeaderFacts.LineInert | convert_pg_to_sqlite.py:18 | a rule whose leading text is blocked by a line copies that line and its newline, then works on what follows |
| HeaderFacts.BlankLineInert | convert_pg_to_sqlite.py:18 | a rule whose pattern does not start with a newline copies a leading newline |
| HeaderFacts.TwoLinesInert | convert_pg_to_sqlite.py:18 | a rule blocked by both header lines copies them and the empty line after them, and works on the rest |
| HeaderFacts.HeaderInert | convert_pg_to_sqlite.py:18 | a header-safe rule copies the header and works on the rest, as if the header were absent |
| HeaderFacts.ApplyRulesHeaderInert | convert_pg_to_sqlite.py:18 | a list of header-safe rules copies the header and works on the rest |
| HeaderFacts.DeclRulesHeaderSafe | convert_pg_to_sqlite.py:21-24 | the enum-declaration and table-rename rules cannot match inside the header |
| HeaderFacts.TypeRulesHeaderSafe | convert_pg_to_sqlite.py:27-28 | the varchar and numeric rules cannot match inside the header |
| HeaderFacts.TimestampRulesHeaderSafe | convert_pg_to_sqlite.py:29-30 | both timestamp rules cannot match inside the header |
| HeaderFacts.CallRulesHeaderSafe | convert_pg_to_sqlite.py:31-32 | the boolean and jsonb rules cannot match inside the header |
| HeaderFacts.MethodRulesHeaderSafe | convert_pg_to_sqlite.py:35-38 | the array and UUID-default rules cannot match inside the header |
| HeaderFacts.DefaultRulesHeaderSafe | convert_pg_to_sqlite.py:59-63 | the three default rules cannot match inside the header |
| HeaderFacts.EnumColumnRuleSafe | convert_pg_to_sqlite.py:56 | the rule for any constructor name holding an `E` cannot match inside the header |
| HeaderFacts.BooleanModeRuleSafe | convert_pg_to_sqlite.py:75 | the rule for any column name holding an underscore cannot match inside the header |
| HeaderFacts.TableRulesHeaderSafe | convert_pg_to_sqlite.py:41-75 | every rule of both table loops cannot match inside the header |
| HeaderFacts.TypeStageKeepsHeader | convert_pg_to_sqlite.py:21-38 | the rewrites of lines 21-38 keep the header in front and act on the rest alone |
| HeaderFacts.DefaultStageKeepsHeader | convert_pg_to_sqlite.py:59-63 | the default rewrites keep the header in front and act on the rest alone |
| HeaderFacts.ConvertKeepsHeader | convert_pg_to_sqlite.py:18 | the output is exactly the header followed by every later stage applied to the converted imports, so it begins with the header |
| RuleFacts.RemovesOwnPattern | convert_pg_to_sqlite.py:24 | a literal rule whose replacement cannot recreate its pattern across a boundary leaves no occurrence of the pattern |
| RuleFacts.RenameTableRemovesPgTable | convert_pg_to_sqlite.py:24 | after line 24, no `pgTable` remains |
| RuleFacts.VarcharToTextRemovesVarchar | convert_pg_to_sqlite.py:27 | after line 27, no `varchar` remains |
| RuleFacts.TimestampToIntegerRemovesTimestamp | convert_pg_to_sqlite.py:30 | after line 30, no `timestamp(` remains |
| RuleFacts.BooleanToIntegerRemovesBoolean | convert_pg_to_sqlite.py:31 | after line 31, no `boolean(` remains |
| RuleFacts.JsonbToTextRemovesJsonb | convert_pg_to_sqlite.py:32 | after line 32, no `jsonb(` remains |
| RuleFacts.ReplaceLoneOccurrence | convert_pg_to_sqlite.py:24 | a literal pattern whose first character occurs nowhere else is replaced at its one occurrence, and the rest is kept |
| RuleFacts.UnchangedAtMismatch | convert_pg_to_sqlite.py:59-63 | a text that starts like the pattern but differs from it at some position is kept |
| RuleFacts.PgImportReplaced | convert_pg_to_sqlite.py:8-12 | the PostgreSQL import line, wherever it starts a line (at the start of the text or after a newline) and occurs nowhere else, becomes the SQLite import line, and the text around it is kept |
| RuleFacts.SqlImportDropped | convert_pg_to_sqlite.py:15 | the `sql` import line, wherever it starts a line and occurs nowhere else, is deleted, and the text around it is kept |
| RuleFacts.ReplaceLine | convert_pg_to_sqlite.py:8-15 | a newline-free pattern that starts a line and occurs nowhere else in the text is replaced there once, and nothing else changes |
| RuleFacts.AbsentAcrossLine | convert_pg_to_sqlite.py:8-15 | a newline-free pattern absent from a text ending in a newline and from what follows it is absent from the two together |
| RuleFacts.SqlImportTellsPgImport | convert_pg_to_sqlite.py:8-15 | no suffix of the `sql` import line lines up with the PostgreSQL import line |
| RuleFacts.SqliteImportTellsSqlImport | convert_pg_to_sqlite.py:8-15 | no suffix of the SQLite import line lines up with the `sql` import line |
| RuleFacts.ImportStagePgStep | convert_pg_to_sqlite.py:8-12 | in a text holding the PostgreSQL import line and, on a later line, the `sql` import line, line 8 replaces the first and keeps everything else |
| RuleFacts.DropLineAfter | convert_pg_to_sqlite.py:15 | a pattern line after a text that cannot end in the start of the pattern is deleted, and everything else is kept |
| RuleFacts.ImportStageSqlStep | convert_pg_to_sqlite.py:15 | after the SQLite import line, line 15 deletes the later `sql` import line and keeps everything else |
| RuleFacts.ImportStageBothLines | convert_pg_to_sqlite.py:8-15 | a text holding the PostgreSQL import line and, on a later line, the `sql` import line, each once and each starting a line, leaves lines 8-15 with the SQLite import line in place of the first, the second deleted, and everything else unchanged |
| RuleFacts.ImportStagePgStepAfterSql | convert_pg_to_sqlite.py:8-12 | line 8 swaps a PostgreSQL import line that follows the `sql` import line and keeps everything else |
| RuleFacts.ImportStageSqlStepBeforeSqlite | convert_pg_to_sqlite.py:15 | line 15 deletes a `sql` import line in front of the SQLite import line and keeps everything else |
| RuleFacts.ImportStageBothLinesReversed | convert_pg_to_sqlite.py:8-15 | with the `sql` import line first, lines 8-15 delete it and swap the later PostgreSQL line for the SQLite line, leaving everything else unchanged |
| RuleFacts.EnumDeclDeleted | convert_pg_to_sqlite.py:21 | a declaration `export const <word>Enum = pgEnum(<non-empty, no ')'>);` is deleted entirely |
| RuleFacts.EnumDeclWithParenUnmatched | convert_pg_to_sqlite.py:21 | a declaration whose arguments' first `)` is not followed by `;` is not matched |
| RuleFacts.EnumDeclWithParenKept | convert_pg_to_sqlite.py:21 | such a declaration, whose arguments hold no further `export const `, survives line 21 unchanged |
| RuleFacts.EnumDeclTextSplit | convert_pg_to_sqlite.py:21 | a declaration whose arguments are non-empty and hold no `)` meets the declarative description of the pattern |
| RuleFacts.EnumDeclCutAtInnerClose | convert_pg_to_sqlite.py:21 | a declaration whose arguments hold `);` after a non-empty run without `)` is deleted only up to that `);`; the rest of the text is scanned on from there |
| RuleFacts.EnumDeclInnerCloseExample | convert_pg_to_sqlite.py:21 | `export const xEnum = pgEnum("a");b);` becomes `b);` |
| RuleFacts.NumericCallShape | convert_pg_to_sqlite.py:28 | `numeric(<non-empty, no ')'>)` is a call the numeric pattern accepts |
| RuleFacts.NumericCollapses | convert_pg_to_sqlite.py:28 | `numeric(<non-empty, no ')'>)` collapses to `real`, column name included |
| RuleFacts.EmptyNumericKept | convert_pg_to_sqlite.py:28 | `numeric()` with an empty argument list is left unchanged, together with surrounding text that holds no other `n` |
| RuleFacts.TimestampCallShape | convert_pg_to_sqlite.py:29 | `timestamp("<name>",<spaces>{<no '}'>})` is a call the timestamp pattern accepts, and its name is group 1 |
| RuleFacts.TimestampWithOptionsConverted | convert_pg_to_sqlite.py:29 | `timestamp("x", {...})` becomes `integer("x", { mode: "timestamp" })` |
| RuleFacts.NoTimestampLead | convert_pg_to_sqlite.py:29-30 | a text with no `(` from position 9 on contains the leading text of neither timestamp rule |
| RuleFacts.TimestampRepLacksCall | convert_pg_to_sqlite.py:29-30 | the replacement of line 29 holds no `timestamp(` unless the column name does |
| RuleFacts.TimestampRulesInOrder | convert_pg_to_sqlite.py:29-30 | in the script's order, the call on any column name without `"` or `timestamp(` becomes the timestamp-mode integer column, and line 30 leaves it alone |
| RuleFacts.TimestampRulesReversed | convert_pg_to_sqlite.py:29-30 | in the opposite order, only `timestamp(` is renamed and the options object survives, so line 29 must run first |
| RuleFacts.DropArrayDeletes | convert_pg_to_sqlite.py:35 | `.array()` is deleted, and the rest is kept |
| RuleFacts.DropArraySinglePass | convert_pg_to_sqlite.py:35 | the deletion is a single pass: `.arr.array()ay()` becomes `.array()`, which is not deleted again |
| RuleFacts.UuidDefaultRewrites | convert_pg_to_sqlite.py:38 | the UUID default becomes `.$defaultFn(() => genId())`, and the rest is kept |
| RuleFacts.DefaultTrueRewrites | convert_pg_to_sqlite.py:59-63 | `.default(true)` becomes `.default(1)` after all three default rules, and nothing else changes |
| RuleFacts.DefaultFalseRewrites | convert_pg_to_sqlite.py:59-63 | `.default(false)` becomes `.default(0)`, and nothing else changes |
| RuleFacts.DefaultNowRewrites | convert_pg_to_sqlite.py:59-63 | `.defaultNow()` becomes `.$defaultFn(() => new Date())`, and nothing else changes |
| RuleFacts.DefaultStageIdentity | convert_pg_to_sqlite.py:59-63 | a text without any of the three defaults passes the default rewrites unchanged |
| RuleFacts.DefaultTrueSeparate | convert_pg_to_sqlite.py:59-63 | no replacement of lines 59-63 can leave or recreate `.default(true)` across its boundary |
| RuleFacts.DefaultFalseSeparate | convert_pg_to_sqlite.py:60-63 | neither replacement of lines 60 and 63 can leave or recreate `.default(false)` across its boundary |
| RuleFacts.DefaultNowSeparate | convert_pg_to_sqlite.py:63 | the replacement of line 63 can neither leave nor recreate `.defaultNow()` across its boundary |
| RuleFacts.DefaultStageRemovesDefaults | convert_pg_to_sqlite.py:59-63 | after the default rewrites, whatever the input, none of `.default(true)`, `.default(false)` and `.defaultNow()` remains |
| TableFacts.EnumColumnsWellFormed | convert_pg_to_sqlite.py:41-53 | every listed pair is a constructor identifier holding `E` and ending in `m`, and a column identifier |
| TableFacts.EnumColumnsIndependent | convert_pg_to_sqlite.py:41-53 | no two listed pairs interfere: equal columns never come with constructor names of which one ends the other |
| TableFacts.BooleanColumnsWellFormed | convert_pg_to_sqlite.py:66-72 | every listed boolean column is an identifier holding an underscore |
| TableFacts.BooleanColumnsDistinct | convert_pg_to_sqlite.py:66-72 | the five boolean columns are pairwise distinct |
| TableFacts.CallAligned | convert_pg_to_sqlite.py:56 | a call found in a text whose one `(` opens a quoted name is aligned with that `(`, and names the same column |
| TableFacts.CallOverlap | convert_pg_to_sqlite.py:56 | a call found inside another call's text means the two pairs interfere |
| TableFacts.CallInCall | convert_pg_to_sqlite.py:56 | the call of a pair that does not interfere with another pair's call is absent from a text holding only that call |
| TableFacts.OwnCallRewritten | convert_pg_to_sqlite.py:56 | a pair's rule rewrites its own call, the one call in the text, and keeps the rest |
| TableFacts.EarlierRulesQuiet | convert_pg_to_sqlite.py:55-56 | the rules listed before a pair find nothing in that pair's call |
| TableFacts.LaterRulesQuiet | convert_pg_to_sqlite.py:55-56 | the rules listed after a pair find nothing in the rewritten `text("<column>")` call |
| TableFacts.ListedCallRewritten | convert_pg_to_sqlite.py:55-56 | for a well-formed, independent table, the loop turns each listed call into `text("<column>")` and changes nothing else, in a text whose only `(` is the call's own |
| TableFacts.ListedPairRewritten | convert_pg_to_sqlite.py:41-56 | each of the eleven listed calls becomes `text("<column>")`, and nothing else changes |
| TableFacts.UnlistedCallUnchanged | convert_pg_to_sqlite.py:55-56 | a call whose pair interferes with no listed pair passes the loop unchanged |
| TableFacts.StatusEnumOtherUnchanged | convert_pg_to_sqlite.py:41-56 | `statusEnum("other")` is left unchanged: a listed constructor with a column it is not listed with is not rewritten |
| TableFacts.LongerConstructorRewritten | convert_pg_to_sqlite.py:56 | `mystatusEnum("status")` becomes `mytext("status")`, because the pattern is not anchored at a word start |
| TableFacts.ColumnCallOneClose | convert_pg_to_sqlite.py:56 | a column call's only `)` is its last character |
| TableFacts.CallsSeparate | convert_pg_to_sqlite.py:56 | no suffix of one pair's call lines up with the call of a pair it does not interfere with |
| TableFacts.EnumRulesSeparate | convert_pg_to_sqlite.py:56 | no `text("<column>")` replacement can combine with surrounding text to form an enum pattern, and no pattern can start inside one |
| TableFacts.EnumPairStaysClear | convert_pg_to_sqlite.py:56 | one enum rule leaves no call of its own pair, and brings back no call of a pair already cleared |
| TableFacts.EnumRulesClear | convert_pg_to_sqlite.py:55-56 | after the first `n` iterations of the loop over any well-formed table, no `<enum>("<column>")` call of those `n` pairs is left, in any text |
| TableFacts.EnumStageIdempotent | convert_pg_to_sqlite.py:41-56 | running the enum loop a second time changes nothing |
| TableFacts.CallNotInOptionsCall | convert_pg_to_sqlite.py:75 | no single-argument call occurs in a text whose only call already carries an options object |
| TableFacts.BooleanRulesSeparate | convert_pg_to_sqlite.py:75 | no boolean replacement can combine with surrounding text to form a boolean pattern |
| TableFacts.BooleanColumnStaysClear | convert_pg_to_sqlite.py:75 | one boolean rule leaves no call of its own column, and brings back no call of a column already cleared |
| TableFacts.BooleanRulesClear | convert_pg_to_sqlite.py:74-75 | after the first `n` iterations of the loop, no `integer("<column>")` call of those `n` columns is left |
| TableFacts.BooleanStageIdempotent | convert_pg_to_sqlite.py:66-75 | running the boolean loop a second time changes nothing |
| TableFacts.EarlierBooleanRulesQuiet | convert_pg_to_sqlite.py:74-75 | the rules for the columns before a listed column find nothing in that column's call |
| TableFacts.LaterBooleanRulesQuiet | convert_pg_to_sqlite.py:74-75 | the rules for the columns after a listed column find nothing in its annotated call |
| TableFacts.ListedColumnAnnotated | convert_pg_to_sqlite.py:74-75 | for distinct identifier columns, the loop annotates each listed call and changes nothing else, in a text whose only `(` is the call's own |
| TableFacts.BooleanColumnAnnotated | convert_pg_to_sqlite.py:66-75 | `integer("<column>")` of each of the five columns gains `, { mode: "boolean" }`, and nothing else changes |
| TableFacts.OptionsCallUnchanged | convert_pg_to_sqlite.py:66-75 | an `integer` call that already has an options object is left unchanged |

## Left out

- Reading `shared/schema.pg.backup.ts`, writing `shared/schema.ts` and printing the completion message (lines 4-5, 78-79, 81) are I/O. The input is a `string` parameter and the output is the result.
- Python's general regular-expression engine is not modelled. Only the script's fixed patterns are, each as its own scanner with the leftmost, non-overlapping scan of `re.sub`.
- `\w` (line 21) is modelled as the ASCII word characters. Python 3 also counts non-ASCII letters and digits. `\s` (line 29) is modelled as the characters for which Python's `str.isspace` holds.
- UTF-8 decoding and encoding of the files is not modelled. Text is a sequence of characters.
- Whether the output is valid TypeScript or a valid Drizzle schema is not modelled, and the script does not check it.
- The absence of the UUID default after line 38 is not stated for arbitrary texts (the absence of the three defaults of lines 59-63 is, by `RuleFacts.DefaultStageRemovesDefaults`). `RuleFacts.UuidDefaultRewrites` covers one occurrence.
- RuleFacts.DefaultTrueRewrites, RuleFacts.DefaultFalseRewrites, RuleFacts.DefaultNowRewrites, RuleFacts.UuidDefaultRewrites and RuleFacts.DropArrayDeletes: stated for a text whose only `.` is the rewritten call's own, rather than for every text. Dots elsewhere could start further matches.
- TableFacts.ListedCallRewritten, TableFacts.ListedColumnAnnotated, TableFacts.ListedPairRewritten, TableFacts.UnlistedCallUnchanged, TableFacts.StatusEnumOtherUnchanged, TableFacts.BooleanColumnAnnotated and TableFacts.OptionsCallUnchanged: stated for a text whose only `(` belongs to the call itself. Other calls in the text are rewritten by the same loop independently.
- RuleFacts.EnumDeclDeleted, RuleFacts.NumericCollapses, RuleFacts.TimestampWithOptionsConverted and RuleFacts.TimestampRulesInOrder: stated for a text that is the declaration or call alone. `Rewrite.ReplaceUnique` carries such a result over to a surrounding text in which no other match starts.
- RuleFacts.EnumDeclWithParenKept: stated for arguments that hold no further `export const `. Another declaration head inside them would start a match of its own.
- RuleFacts.EmptyNumericKept: stated for surrounding text that holds no `n`. A `numeric(` elsewhere is rewritten by the rule independently.
- RuleFacts.PgImportReplaced, RuleFacts.SqlImportDropped, RuleFacts.ImportStageBothLines and RuleFacts.ImportStageBothLinesReversed: stated for import lines that start a line (at the start of the text or after a newline) and occur nowhere else. A second copy of a line is replaced or deleted by the same rule independently.
- RuleFacts.TimestampRulesInOrder: stated for column names without `timestamp(`. Line 30 would rename such text inside the name too.
