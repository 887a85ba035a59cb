# Phy.EfBulk SQL synthesis, modelled in Dafny

Phy.EfBulk adds three bulk operations to an Entity Framework Core `DbContext`.
Each one builds a single raw SQL statement and executes it, by default inside
a transaction:

* `BulkInsert` writes one `INSERT INTO <table> (<columns>) VALUES (...) , (...)`
  statement for a batch of entities. Row `i`, column `j` of `C` columns binds
  positional placeholder `{j + i*C}`.
* `BulkDelete` takes a filtered `IQueryable` and compiles it to SQL. It hoists
  the compiled text's parameter prelude (its `SET @p = v;` lines) and joins the
  remaining `SELECT` as a derived table on every primary-key column:
  `DELETE t FROM t INNER JOIN( <select> ) AS JoinTable1 ON ( t.k = JoinTable1.k AND ... )`.
* `BulkUpdate` does the same with `UPDATE t AS ut1 INNER JOIN (<select>) AS jt1 ON (...)`
  followed by ` SET `. Each member assignment of the updater's
  `new T { ... }` becomes one item:
  * `ut1.col = {k}` when the assigned value does not mention the row and is
    not null (a parameter is bound);
  * `ut1.col = NULL` when that value is null;
  * `ut1.col = <fragment>` when the assigned expression mentions the row. The
    fragment is cut out of the SQL the provider compiles for a one-column
    projection, and the projection's table alias is rewritten to `ut1`.

The model lays these out as follows.

* Generated SQL is a sequence of `Piece`s: literal `Text`, or a positional
  `Param(k)` that renders as `{k}` (module `SqlText`).
  * `Render` gives the statement text.
  * `Placeholders` gives the parameter indices in text order.
* Each `StringBuilder` loop of the source is an imperative `method` over that
  piece sequence and the parameter list. It is proved against a pure
  specification function: `RowsText`/`InsertParameters`,
  `JoinTerms`/`Equalities` and `Items`/`SetList`/`BoundValues`.
* The properties of the statements are proved about those functions:
  * the `Param` placeholders are exactly `0..m-1` for `m` bound parameters, in order;
  * parameter `j + i*C` is row `i`'s provider value for column `j`;
  * every statement's rendered text;
  * when each operation fails, and with which error.
* The regular expressions are modelled as explicit scans over `seq<char>`, with
  ASCII case-insensitive keyword matching:
  * `ParseSql`'s prelude/body split (module `PreludeSplit`);
  * the projection decomposition (`Decompose`);
  * the column-alias strip (`ColumnValue`);
  * the replacement of the table alias where no word character precedes it
    (`Rewrite`, module `ProjectionRewrite`).
* The metadata EF Core supplies (properties in the order `GetProperties()`
  returns them, each with its column name, value-generation policy,
  primary-key flag and converter) is an input
  (module `Mapping`). So are entities (maps from property name to value),
  query compilation (`compile`) and closure evaluation (`evaluate`).
* Execution is a trace of events (module `Execution`).

Notes on the behaviour of the source, which the model follows:

* `BulkInsert` leaves out only the columns whose value-generation policy is
  `OnAdd` (DbBulkExtensions.cs:31-32). A column generated on update, or on
  add or update, is still inserted.
* The join keys come in the order in which `GetProperties().Where(IsPrimaryKey)`
  yields them (DbBulkExtensions.cs:126-128, 192-194).
* `BulkUpdate` binds its values without applying a value converter
  (DbBulkExtensions.cs:264-268). Only `BulkInsert` converts.

## Model

All source paths are in `Phy.EfBulk/`.

| member | source | states |
|---|---|---|
| BulkInsertion.BulkInsert | Phy.EfBulk/DbBulkExtensions.cs:23-107 | The statement is the insert plan. When one is produced, its `Param` placeholders are exactly `{0}..{m-1}` in text order, for its `m` parameters. |
| BulkInsertion.InsertOutcome | Phy.EfBulk/DbBulkExtensions.cs:28-34 | It is a no-op exactly when the entities are null, empty, or no column survives the `OnAdd` filter. It fails exactly when some entity lacks the CLR property of some inserted column. |
| BulkInsertion.AppendRows | Phy.EfBulk/DbBulkExtensions.cs:48-89 | The row loop appends every row's `(...)` group and its parameters. Otherwise it returns the error of the first row and column that cannot be read. |
| BulkInsertion.AppendRowText | Phy.EfBulk/DbBulkExtensions.cs:52-69 | One row's text is ` , ` before every row but the first, then `(`, its placeholders, `)`. |
| BulkInsertion.AppendRowPlaceholders | Phy.EfBulk/DbBulkExtensions.cs:58-68 | The column loop appends `{base}` and then `,{base+j}` for each further column. |
| BulkInsertion.AppendRowParameters | Phy.EfBulk/DbBulkExtensions.cs:71-88 | It appends one row's provider values in column order, or fails on a column whose property cannot be read. |
| BulkInsertion.RowPlaceholdersNumbered | Phy.EfBulk/DbBulkExtensions.cs:58-68 | The placeholders of a row starting at `base` with `j` columns are `base..base+j-1`, in order. |
| BulkInsertion.RowTextNumbered | Phy.EfBulk/DbBulkExtensions.cs:57-69 | Row `i` carries placeholders `i*C .. i*C+C-1`, so column `j` gets `j + i*C`. |
| BulkInsertion.RowsTextNumbered | Phy.EfBulk/DbBulkExtensions.cs:48-69 | The `n` rows carry placeholders `0..n*C-1`, each exactly once and in increasing order. |
| BulkInsertion.RowPlaceholdersRender | Phy.EfBulk/DbBulkExtensions.cs:58-68 | One row renders as its `{k}` references joined by `,`. |
| BulkInsertion.RowTextRender | Phy.EfBulk/DbBulkExtensions.cs:57-69 | Row `i` renders as `(` + its references + `)`. |
| BulkInsertion.RowsTextRender | Phy.EfBulk/DbBulkExtensions.cs:52-69 | The VALUES list renders as the row groups joined by ` , `. |
| BulkInsertion.RowParametersValues | Phy.EfBulk/DbBulkExtensions.cs:71-88 | A row's parameters exist exactly when every column's property is on the entity. Entry `c` is then column `c`'s provider value, converted when a converter is present. |
| BulkInsertion.InsertParametersLength | Phy.EfBulk/DbBulkExtensions.cs:48-88 | Parameters for `n` rows exist exactly when every row has every column. There are then `n*C` of them. |
| BulkInsertion.InsertParameterRowMajor | Phy.EfBulk/DbBulkExtensions.cs:71-88 | Parameter `i*C + c` is row `i`'s provider value for column `c`. |
| BulkInsertion.InsertParameterAt | Phy.EfBulk/DbBulkExtensions.cs:71-88 | Parameter `k` is row `k / C`'s value for column `k % C`. |
| BulkInsertion.InsertHeaderColumns | Phy.EfBulk/DbBulkExtensions.cs:31-46 | The header is `INSERT INTO <table> (`, the column names of exactly the properties not generated on add, in property order, joined by `,`, then `) VALUES ` and a new line. |
| BulkInsertion.InsertPlanAligned | Phy.EfBulk/DbBulkExtensions.cs:46-96 | An insert statement carries `Param` placeholders `0..n*C-1` and exactly `n*C` parameters. |
| Mapping.Where | Phy.EfBulk/DbBulkExtensions.cs:31-32 | The filter keeps exactly the properties that satisfy the predicate, in their original order. |
| Mapping.ColumnsOfWhere | Phy.EfBulk/DbBulkExtensions.cs:31-43 | The column names of the filtered properties are the column names of exactly the properties that pass the filter, in property order. |
| Mapping.FindByName | Phy.EfBulk/DbBulkExtensions.cs:225-225 | It returns the first property with that name, or none when no property has it. |
| Mapping.ReadProperty | Phy.EfBulk/DbBulkExtensions.cs:75-75 | Reading succeeds exactly when the entity has the property, and yields its value. Otherwise it is the null-reference error for that property. |
| Mapping.ProviderValue | Phy.EfBulk/DbBulkExtensions.cs:76-86 | Without a converter the value is passed on unchanged. A null value never reaches the expression converter: it goes to `ConvertToProvider` when there is one and stays null otherwise. |
| KeyJoin.KeyColumnsInOrder | Phy.EfBulk/DbBulkExtensions.cs:126-128 | The key columns are the column names of exactly the primary-key properties, in property order. |
| KeyJoin.Equalities | Phy.EfBulk/DbBulkExtensions.cs:145-145 | There is one `L.c = R.c` term per key column, in key order. |
| KeyJoin.AppendKeyJoin | Phy.EfBulk/DbBulkExtensions.cs:137-151 | The key loop appends the join terms for all key columns. |
| KeyJoin.JoinTermsRender | Phy.EfBulk/DbBulkExtensions.cs:137-151 | The join condition renders as the equalities joined by ` AND `. |
| KeyJoin.JoinTermsAllText | Phy.EfBulk/DbBulkExtensions.cs:137-151 | The join condition binds no parameter. |
| BulkDeletion.BulkDelete | Phy.EfBulk/DbBulkExtensions.cs:115-162 | The delete statement renders as the hoisted prelude, the `DELETE ... INNER JOIN( body ) AS JoinTable1 ON ( ` head and the key equalities joined by ` AND `, then `)`. It binds no parameter. |
| BulkDeletion.AppendDelete | Phy.EfBulk/DbBulkExtensions.cs:129-152 | It assembles the delete statement from an already split query. Its rendering and its absence of parameters are as for `BulkDelete`. |
| BulkDeletion.DeleteSqlText | Phy.EfBulk/DbBulkExtensions.cs:132-152 | A hoisted header, the head line, the join terms and `)` render as their texts in that order, with no placeholders. |
| BulkDeletion.DeleteHoistsPrelude | Phy.EfBulk/DbBulkExtensions.cs:120-136 | Take a compiled query made of well-formed `SET` lines followed by a `SELECT` body. The prelude is hoisted, with a trailing space and new line, exactly when there is one. The body lands inside the join. |
| BulkUpdating.BulkUpdate | Phy.EfBulk/DbBulkExtensions.cs:176-341 | The result is the update plan. Its `Param` placeholders are exactly `{0}..{m-1}` for its `m` parameters. |
| BulkUpdating.UpdateOutcome | Phy.EfBulk/DbBulkExtensions.cs:182-231 | A body that is not a member-init is a no-op. A member-init fails exactly when one of its bindings cannot be classified. Otherwise a statement is produced. |
| BulkUpdating.AppendUpdateHeader | Phy.EfBulk/DbBulkExtensions.cs:197-214 | It builds the update header: hoisted prelude, `UPDATE` head, key join, `)`, new line and ` SET `. |
| BulkUpdating.AppendSetList | Phy.EfBulk/DbBulkExtensions.cs:216-273 | The binding loop appends the SET items of all bindings and their bound values. Otherwise it returns the first binding's error. |
| BulkUpdating.AppendItem | Phy.EfBulk/DbBulkExtensions.cs:264-272 | A bound item appends `ut1.col = {k}` with `k` the current parameter count, and adds the value. A null or inlined item adds no parameter. |
| BulkUpdating.ItemsSucceedIff | Phy.EfBulk/DbBulkExtensions.cs:216-273 | The set items exist exactly when every binding classifies successfully. |
| BulkUpdating.ItemsFirstError | Phy.EfBulk/DbBulkExtensions.cs:216-273 | A failure carries the error of the first binding that fails, and all earlier bindings succeed. |
| BulkUpdating.ItemsInOrder | Phy.EfBulk/DbBulkExtensions.cs:216-273 | Item `j` is binding `j`'s classification, in binding order. |
| BulkUpdating.SetListNumbered | Phy.EfBulk/DbBulkExtensions.cs:264-268 | The bound items carry placeholders `0..m-1` in order, where `m` is the number of bound values. |
| BulkUpdating.SetListRender | Phy.EfBulk/DbBulkExtensions.cs:216-273 | The SET list renders as the item texts joined by `, `. |
| BulkUpdating.ItemPiecesRender | Phy.EfBulk/DbBulkExtensions.cs:264-272 | An item renders as `ut1.col = {k}`, `ut1.col = NULL` or `ut1.col = <fragment>`. |
| BulkUpdating.UpdateHeaderRender | Phy.EfBulk/DbBulkExtensions.cs:197-214 | The header renders as the hoisted prelude, `UPDATE t AS ut1 INNER JOIN (body) AS jt1 ON (`, the `ut1.k = jt1.k` terms joined by ` AND `, `)`, a new line and ` SET `. |
| BulkUpdating.UpdateText | Phy.EfBulk/DbBulkExtensions.cs:197-328 | The whole update statement renders as that header followed by the item texts joined by `, `. |
| BulkUpdating.UpdatePlanAligned | Phy.EfBulk/DbBulkExtensions.cs:197-268 | The key join binds nothing, so the header plus the SET list carries `Param` placeholders `0..m-1` for its `m` bound values. |
| UpdateBinding.MentionsRowNodes | Phy.EfBulk/CustomExpressionVisitor.cs:19-25 | The visitor finds a row parameter exactly when some node of the expression tree is one. |
| UpdateBinding.Classify | Phy.EfBulk/DbBulkExtensions.cs:225-328 | A binding fails only with the null-reference error of its member, the argument error for a non-assignment binding, or the processing error. An accepted binding is an assignment to a property found by name, and the item names that property's column. A bound item never carries a null value. |
| UpdateBinding.ClassifyFollowsVisitor | Phy.EfBulk/DbBulkExtensions.cs:236-247 | An accepted assignment is inlined exactly when the visitor meets a row parameter among the nodes of its expression. |
| UpdateBinding.ClassifyOutcome | Phy.EfBulk/DbBulkExtensions.cs:225-328 | It spells out `Classify`'s cases one by one: an unknown member is a null reference; a non-assignment binding is an argument error; a row-free value is bound, or `NULL` when it is null; a row-dependent value is the inlined fragment of its compiled projection, or the processing error when that SQL cannot be decomposed. |
| UpdateBinding.InlineFragmentIff | Phy.EfBulk/DbBulkExtensions.cs:303-308 | Inlining succeeds exactly when the compiled SQL contains `SELECT` and, at least one character later, `FROM`. |
| UpdateBinding.InlineFragment | Phy.EfBulk/DbBulkExtensions.cs:298-328 | The fragment exists exactly when the projection decomposes. Otherwise it is the processing error. |
| UpdateBinding.InlineFragmentCut | Phy.EfBulk/DbBulkExtensions.cs:303-321 | When the projection has no table alias, the fragment is a piece of the projection's own SQL. |
| UpdateBinding.InlineQualifiedColumn | Phy.EfBulk/DbBulkExtensions.cs:298-328 | Take the projection `SELECT pre a.col post FROM t AS a`, where `a.col` may sit inside an expression such as `CONCAT(CAST(a.col AS char), ...)`, and `a` occurs only there without a word character before it. The projection may be followed by anything that starts with a non-word character and holds no `FROM` (a `WHERE` clause, say). The fragment is then `pre ut1.col post` followed by a new line. |
| PreludeSplit.ParseSql | Phy.EfBulk/DbBulkExtensions.cs:343-352 | The prelude followed by the body is the original query text. |
| PreludeSplit.ParseSqlShape | Phy.EfBulk/DbBulkExtensions.cs:345-351 | A prelude is split off only when the text opens with a `SET` statement and the rest opens with `SELECT`. Otherwise the whole text is the body. |
| PreludeSplit.ParseSqlRoundTrip | Phy.EfBulk/DbBulkExtensions.cs:345-349 | Any sequence of well-formed `SET @v = value;` statements followed by a `SELECT` body splits back into exactly those statements and that body. A well-formed statement has the keyword in any letter case, white space of any width before the variable, around `=` and after `;`, a variable of word characters and `@`, and a value without white space. |
| PreludeSplit.PreludeBlankIffEmpty | Phy.EfBulk/DbBulkExtensions.cs:132-135 | The prelude is blank exactly when it is empty, so the whitespace test hoists every non-empty prelude. |
| PreludeSplit.Hoist | Phy.EfBulk/DbBulkExtensions.cs:132-135 | The hoisted lines are literal text, and are empty exactly when the prelude is blank. A non-blank prelude is emitted followed by a space and a new line. |
| PreludeSplit.HoistParsed | Phy.EfBulk/DbBulkExtensions.cs:198-201 | For a parsed query, hoisting emits nothing exactly when the prelude is empty, and `prelude + " " + new line` otherwise. |
| PreludeSplit.SpacedValueNotHoisted | Phy.EfBulk/DbBulkExtensions.cs:346-346 | A `SET` value containing a space is not matched by the prelude pattern, so the whole text becomes the body. |
| ProjectionRewrite.FirstAt | Phy.EfBulk/DbBulkExtensions.cs:303-303 | It finds the first case-insensitive occurrence of a keyword at or after a position, or reports that there is none. |
| ProjectionRewrite.LastIn | Phy.EfBulk/DbBulkExtensions.cs:303-303 | It finds the last occurrence of a keyword in a range, where the greedy column group stops backtracking, or reports that there is none. |
| ProjectionRewrite.Decompose | Phy.EfBulk/DbBulkExtensions.cs:303-308 | A failed match is the processing error. The match exists exactly when there is a first `SELECT` and a `FROM` at least one character after it. The column then ends at the last such `FROM` and starts after the white space that follows `SELECT`. The table reference is read after that `FROM`, and the alias after the table reference. |
| ProjectionRewrite.DecomposeSucceedsIff | Phy.EfBulk/DbBulkExtensions.cs:303-308 | The projection regex matches exactly when `SELECT` occurs with `FROM` at least one character later. |
| ProjectionRewrite.DecomposeProjectionSql | Phy.EfBulk/DbBulkExtensions.cs:303-313 | The text a provider emits for `SELECT expr FROM t AS a` decomposes into the column `expr` plus a new line, the table `t` and the alias `a`. This also holds when a `WHERE` or `ORDER BY` clause without `FROM` follows the alias. |
| ProjectionRewrite.ColumnValue | Phy.EfBulk/DbBulkExtensions.cs:310-314 | The value is the slice of the column from its first non-white character up to the last `AS` that starts an alias tail. With no such `AS`, it runs to the end of the column. |
| ProjectionRewrite.LastAliasIsLast | Phy.EfBulk/DbBulkExtensions.cs:310-310 | The alias split chosen in a column is the last ` AS name` position, because the value group is greedy. |
| ProjectionRewrite.ColumnValueAliased | Phy.EfBulk/DbBulkExtensions.cs:310-314 | `value AS name`, with a name free of `as`, yields the value up to the `AS`, keeping one trailing space. |
| ProjectionRewrite.ColumnValueNoAlias | Phy.EfBulk/DbBulkExtensions.cs:310-314 | A column that starts with a non-white character and has no alias tail is its own value. |
| ProjectionRewrite.ColumnAt | Phy.EfBulk/DbBulkExtensions.cs:303-309 | The column group of a match is a slice of the compiled SQL. |
| ProjectionRewrite.ColumnValuePlain | Phy.EfBulk/DbBulkExtensions.cs:310-314 | A column without `as` yields itself without its leading white space. |
| ProjectionRewrite.ColumnValueCutsInsideAlias | Phy.EfBulk/DbBulkExtensions.cs:310-310 | An alias that itself contains `as` is cut there: `x AS Class` yields `x AS Cl`. |
| ProjectionRewrite.Rewrite | Phy.EfBulk/DbBulkExtensions.cs:322-326 | A value with no occurrence of the alias that is not preceded by a word character is left unchanged. Otherwise the text before the first such occurrence is copied, that occurrence becomes `ut1`, and the replacement resumes right after it. |
| ProjectionRewrite.FirstHit | Phy.EfBulk/DbBulkExtensions.cs:324-325 | It finds the first occurrence of the pattern not preceded by a word character at or after a position, with none before it, or reports that there is none. |
| ProjectionRewrite.ReplaceFirstHit | Phy.EfBulk/DbBulkExtensions.cs:324-325 | At the first match, the replacement copies the text before it, emits `ut1` for it, and continues after it. |
| ProjectionRewrite.RewriteInside | Phy.EfBulk/DbBulkExtensions.cs:322-326 | An alias that occurs once without a word character before it becomes `ut1` wherever it sits in the value, and the text around it is kept. |
| ProjectionRewrite.FirstHitOnly | Phy.EfBulk/DbBulkExtensions.cs:324-325 | When the only match of the pattern is at `h`, the first match is at `h`. |
| ProjectionRewrite.ReplaceUnchanged | Phy.EfBulk/DbBulkExtensions.cs:324-325 | The replacement copies any stretch that holds no match to the end of the text. |
| ProjectionRewrite.RewriteReference | Phy.EfBulk/DbBulkExtensions.cs:322-326 | `alias.column` becomes `ut1.column` when the column does not itself contain the alias. |
| ProjectionRewrite.RewriteNoRightBoundary | Phy.EfBulk/DbBulkExtensions.cs:324-325 | The pattern has no right word boundary, so `o.a+od` with alias `o` becomes `ut1.a+ut1d`. |
| ProjectionRewrite.RewriteBracketAlias | Phy.EfBulk/DbBulkExtensions.cs:324-325 | A bracketed alias `[o]` is read as a character class, so `[o].[a]` becomes `[ut1].[a]`. |
| SqlText.DecimalRoundTrip | Phy.EfBulk/DbBulkExtensions.cs:62-66 | The decimal text of a placeholder index parses back to the index. |
| SqlText.DecimalInjective | Phy.EfBulk/DbBulkExtensions.cs:266-266 | Distinct indices give distinct placeholder texts. |
| Execution.ExecuteSqlRaw | Phy.EfBulk/DbBulkExtensions.cs:354-370 | The statement executes exactly once, either between a begin and a commit, or with no transaction when transactions are disabled. |
| Execution.Run | Phy.EfBulk/DbBulkExtensions.cs:332-340 | A statement executes exactly when one was produced. A failed build executes nothing. |

## Left out

- Database execution and the affected-row count are out of scope. Execution is a trace of begin, execute and commit events, and the count the store reports is not modelled.
- EF Core metadata (`FindEntityType`, `GetTableName`, `GetColumnName`, `IsPrimaryKey`, `ValueGenerated`, type-mapping converters) is a parameter. `FindEntityType` returning null for an unmapped type is not modelled.
- Query compilation (`ToQueryString`, `CreateQuery`) is the `compile` parameter and always yields text. The exceptions these calls throw for a query the provider cannot translate (DbBulkExtensions.cs:120, 184, 298) are not modelled. Closure evaluation (`DynamicInvoke`) is the `evaluate` parameter and always yields a value. An exception thrown by the evaluated closure (DbBulkExtensions.cs:261) is not modelled. The unreachable "not a ConstantExpression" throw at DbBulkExtensions.cs:252-255 is not modelled.
- Converter invocation (`ConvertToProviderExpression.Compile().DynamicInvoke`, `ConvertToProvider`) is modelled as a function field of `Converter`. Its branch structure at DbBulkExtensions.cs:76-86 is kept. An exception thrown by a converter (DbBulkExtensions.cs:78, 82) is not modelled.
- Entities are maps and are never null. A null element in the entity list, which makes `GetValue` throw at DbBulkExtensions.cs:75, is not modelled.
- The expression visitor is modelled as a recursive predicate over an expression tree with a row-parameter leaf. .NET reflection and expression-tree node kinds beyond those needed are not modelled.
- The predicate overloads (DbBulkExtensions.cs:109-113, 170-174) only build `db.Set<T>().Where(predicate)` and delegate, so they are not modelled.
- The second `ExecuteSqlRaw` overload (DbBulkExtensions.cs:372-388) is identical to the first apart from its parameter type, so it is not modelled separately.
- The .NET regex engine is not modelled. The three patterns are written as scans with the same accepted language for the texts considered, and case folding is ASCII only.
- `Environment.NewLine` is fixed to `"\n"`.
- Strings are `seq<char>`, with no Unicode categories. `\w` is ASCII letters, digits and `_`, and `\s` is ASCII white space.
- Statement text is produced as a piece sequence rather than a `StringBuilder`. Only the rendered text and the parameter list are observable, and both are modelled.
- The `sql1` query text (DbBulkExtensions.cs:279) is never used, so it is not modelled. It is still compiled for every binding that reads the row, and the model does not capture the exception that compiling it can throw.
- Code that is commented out is not modelled.
- Braces in literal text (table and column names, inlined fragments) are not escaped, by the source as by the model. The placeholder statements therefore speak of `Param` pieces only: a literal `{0}` in a name or a fragment would be read by `ExecuteSqlRaw` as a format item too.
