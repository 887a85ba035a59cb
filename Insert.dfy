/**
 * BulkInsert: one multi-row `INSERT INTO t (c1,...) VALUES ({0},{1}) , ({2},{3}) ...`
 * statement with a row-major positional parameter list.
 */
module BulkInsertion {
  import opened Wrappers
  import opened SqlText
  import opened Mapping

  // ---------------------------------------------------------------------
  // The statement the loops build, defined the way the loops build it.

  /** The first j placeholders of the row whose first placeholder is `{base}`:
      `{base}`, `,{base+1}`, ..., `,{base+j-1}`. */
  function RowPlaceholders(base: nat, j: nat): Sql {
    if j == 0 then []
    else if j == 1 then [Param(base)]
    else RowPlaceholders(base, j - 1) + [Text(","), Param(j - 1 + base)]
  }

  /** Row i of the VALUES list: its placeholders in parentheses. */
  function RowText(i: nat, columnCount: nat): Sql {
    [Text("(")] + RowPlaceholders(i * columnCount, columnCount) + [Text(")")]
  }

  /** The VALUES list of the first n rows: `(...)`, ` , (...)`, ... */
  function RowsText(n: nat, columnCount: nat): Sql {
    if n == 0 then []
    else if n == 1 then RowText(0, columnCount)
    else RowsText(n - 1, columnCount) + [Text(" , ")] + RowText(n - 1, columnCount)
  }

  function InsertHeader(table: string, cols: seq<Property>): string {
    "INSERT INTO " + table + " (" + JoinWith(",", ColumnNames(cols)) + ") VALUES " + NewLine
  }

  /** The header lists, comma-separated, the columns of exactly the
      properties not generated on add, in property order. */
  lemma InsertHeaderColumns(table: string, properties: seq<Property>)
    ensures InsertHeader(table, Select(properties, Where(properties, IsInsertColumn)))
            == "INSERT INTO " + table + " (" + JoinWith(",", FilteredColumns(properties, IsInsertColumn)) + ") VALUES " + NewLine
  {
    ColumnsOfWhere(properties, IsInsertColumn);
  }

  /** The parameters of one entity for its first j columns. */
  function RowParameters(e: Entity, cols: seq<Property>, j: nat): Result<seq<Value>, Error>
    requires j <= |cols|
  {
    if j == 0 then Success([])
    else match RowParameters(e, cols, j - 1)
         case Failure(err) => Failure(err)
         case Success(ps) =>
           match ReadProperty(e, cols[j - 1])
           case Failure(err) => Failure(err)
           case Success(v) => Success(ps + [ProviderValue(cols[j - 1], v)])
  }

  /** The parameters of the first n entities, row after row. */
  function InsertParameters(rows: seq<Entity>, cols: seq<Property>, n: nat): Result<seq<Value>, Error>
    requires n <= |rows|
  {
    if n == 0 then Success([])
    else match InsertParameters(rows, cols, n - 1)
         case Failure(err) => Failure(err)
         case Success(ps) =>
           match RowParameters(rows[n - 1], cols, |cols|)
           case Failure(err) => Failure(err)
           case Success(rp) => Success(ps + rp)
  }

  /** What BulkInsert hands to the executor: nothing (`None`, the result is 0)
      when there are no entities or no insertable column, else the statement,
      unless reading an entity's property fails. */
  function InsertPlan(table: string, properties: seq<Property>, entities: Option<seq<Entity>>)
    : Result<Option<Statement>, Error>
  {
    var cols := Select(properties, Where(properties, IsInsertColumn));
    if entities.None? || |entities.value| == 0 || |cols| == 0 then Success(None)
    else match InsertParameters(entities.value, cols, |entities.value|)
         case Failure(err) => Failure(err)
         case Success(ps) =>
           Success(Some(Statement([Text(InsertHeader(table, cols))] + RowsText(|entities.value|, |cols|), ps)))
  }

  // ---------------------------------------------------------------------
  // The method, as the source runs it.

  method BulkInsert(table: string, properties: seq<Property>, entities: Option<seq<Entity>>)
    returns (r: Result<Option<Statement>, Error>)
    ensures r == InsertPlan(table, properties, entities)
    ensures r.Success? && r.value.Some? ==>
              Placeholders(r.value.value.sql) == Range(0, |r.value.value.parameters|)
  {
    r := Success(None);
    if entities.Some? && |entities.value| > 0 {
      var rows := entities.value;
      var cols := Select(properties, Where(properties, IsInsertColumn));
      var columnCount := |cols|;
      if columnCount > 0 {
        var header := [Text(InsertHeader(table, cols))];
        var built := AppendRows(header, rows, cols);
        if built.Failure? {
          return Failure(built.error);
        }
        r := Success(Some(Statement(built.value.0, built.value.1)));
        InsertPlanAligned(table, properties, rows);
      }
    }
  }

  /** The loop over the entities: appends each row's text and its
      parameters, or fails on the first property an entity does not have. */
  method AppendRows(header: Sql, rows: seq<Entity>, cols: seq<Property>)
    returns (r: Result<(Sql, seq<Value>), Error>)
    ensures InsertParameters(rows, cols, |rows|).Failure? ==>
              r == Failure(InsertParameters(rows, cols, |rows|).error)
    ensures InsertParameters(rows, cols, |rows|).Success? ==>
              r == Success((header + RowsText(|rows|, |cols|), InsertParameters(rows, cols, |rows|).value))
  {
    var columnCount := |cols|;
    var sql := header;
    var paras: seq<Value> := [];
    var i := 0;
    while i < |rows|
      invariant 0 <= i <= |rows|
      invariant sql == header + RowsText(i, columnCount)
      invariant InsertParameters(rows, cols, i) == Success(paras)
    {
      ghost var before := sql;
      sql := AppendRowText(sql, i, columnCount);
      RowsTextStep(header, before, i, columnCount);
      var rowParas := AppendRowParameters(paras, rows[i], cols);
      if rowParas.Failure? {
        InsertParametersFailureStays(rows, cols, i + 1, |rows|);
        return Failure(rowParas.error);
      }
      paras := rowParas.value;
      i := i + 1;
    }
    r := Success((sql, paras));
  }

  /** One row's text: ` , ` unless it is the first, then `(`, the placeholders and `)`. */
  method AppendRowText(sql: Sql, i: nat, columnCount: nat) returns (out: Sql)
    ensures out == sql + (if i != 0 then [Text(" , ")] else []) + RowText(i, columnCount)
  {
    out := sql;
    if i != 0 {
      out := out + [Text(" , ")];
    }
    ghost var started := out;
    out := out + [Text("(")];
    out := AppendRowPlaceholders(out, i * columnCount, columnCount);
    out := out + [Text(")")];
    assert out == started + RowText(i, columnCount);
  }

  /** Appending row i, after ` , ` unless it is the first, extends the VALUES list by one row. */
  lemma RowsTextStep(header: Sql, before: Sql, i: nat, columnCount: nat)
    requires before == header + RowsText(i, columnCount)
    ensures before + (if i != 0 then [Text(" , ")] else []) + RowText(i, columnCount)
            == header + RowsText(i + 1, columnCount)
  {
    var row := RowText(i, columnCount);
    if i == 0 {
      assert RowsText(0, columnCount) == [];
      assert header + [] == header;
    } else {
      var prev := RowsText(i, columnCount);
      assert RowsText(i + 1, columnCount) == prev + [Text(" , ")] + row;
      assert header + prev + [Text(" , ")] + row == header + (prev + [Text(" , ")] + row);
    }
  }

  /** The inner loop over j: appends `{base}`, `,{base+1}`, ..., `,{base+C-1}`. */
  method AppendRowPlaceholders(sql: Sql, base: nat, columnCount: nat) returns (out: Sql)
    ensures out == sql + RowPlaceholders(base, columnCount)
  {
    out := sql;
    var j := 0;
    while j < columnCount
      invariant 0 <= j <= columnCount
      invariant out == sql + RowPlaceholders(base, j)
    {
      if j == 0 {
        out := out + [Param(j + base)];
      } else {
        out := out + [Text(","), Param(j + base)];
      }
      j := j + 1;
    }
  }

  /** The loop over the insert columns: appends the provider value of each
      column of entity e, or fails on the first property e does not have. */
  method AppendRowParameters(paras: seq<Value>, e: Entity, cols: seq<Property>)
    returns (r: Result<seq<Value>, Error>)
    ensures r == (match RowParameters(e, cols, |cols|)
                  case Failure(err) => Failure(err)
                  case Success(rp) => Success(paras + rp))
  {
    var added: seq<Value> := [];
    var k := 0;
    while k < |cols|
      invariant 0 <= k <= |cols|
      invariant RowParameters(e, cols, k) == Success(added)
    {
      var original := ReadProperty(e, cols[k]);
      if original.Failure? {
        RowParametersFailureStays(e, cols, k + 1, |cols|);
        return Failure(original.error);
      }
      added := added + [ProviderValue(cols[k], original.value)];
      k := k + 1;
    }
    r := Success(paras + added);
  }

  lemma {:induction false} RowParametersFailureStays(e: Entity, cols: seq<Property>, j: nat, m: nat)
    requires j <= m <= |cols|
    requires RowParameters(e, cols, j).Failure?
    ensures RowParameters(e, cols, m) == RowParameters(e, cols, j)
    decreases m - j
  {
    if j < m {
      RowParametersFailureStays(e, cols, j + 1, m);
    }
  }

  lemma {:induction false} InsertParametersFailureStays(rows: seq<Entity>, cols: seq<Property>, n: nat, m: nat)
    requires n <= m <= |rows|
    requires InsertParameters(rows, cols, n).Failure?
    ensures InsertParameters(rows, cols, m) == InsertParameters(rows, cols, n)
    decreases m - n
  {
    if n < m {
      InsertParametersFailureStays(rows, cols, n + 1, m);
    }
  }

  // ---------------------------------------------------------------------
  // Placeholder numbering.

  /** A row's placeholders are base, base + 1, ..., base + j - 1. */
  lemma {:induction false} RowPlaceholdersNumbered(base: nat, j: nat)
    ensures Placeholders(RowPlaceholders(base, j)) == Range(base, base + j)
    decreases j
  {
    if j == 1 {
      ParamPiece(base);
      RangeSnoc(base, base);
    } else if j > 1 {
      var prev := RowPlaceholders(base, j - 1);
      RowPlaceholdersNumbered(base, j - 1);
      assert RowPlaceholders(base, j) == prev + [Text(",")] + [Param(j - 1 + base)];
      PlaceholdersAround(prev, [Text(",")], [Param(j - 1 + base)]);
      ParamPiece(j - 1 + base);
      RangeSnoc(base, base + j - 1);
    }
  }

  /** Across the whole VALUES list the placeholders are exactly 0, 1, ..., n*C - 1, in order. */
  lemma {:induction false} RowsTextNumbered(n: nat, columnCount: nat)
    ensures Placeholders(RowsText(n, columnCount)) == Range(0, n * columnCount)
    decreases n
  {
    if n == 1 {
      RowTextNumbered(0, columnCount);
    } else if n > 1 {
      assert (n - 1) * columnCount + columnCount == n * columnCount;
      var prev := RowsText(n - 1, columnCount);
      RowsTextNumbered(n - 1, columnCount);
      PlaceholdersAround(prev, [Text(" , ")], RowText(n - 1, columnCount));
      RowTextNumbered(n - 1, columnCount);
      RangeSplit(0, (n - 1) * columnCount, n * columnCount);
    }
  }

  /** Row i numbers its placeholders i*C, ..., i*C + C - 1. */
  lemma RowTextNumbered(i: nat, columnCount: nat)
    ensures Placeholders(RowText(i, columnCount)) == Range(i * columnCount, i * columnCount + columnCount)
  {
    var base := i * columnCount;
    RowPlaceholdersNumbered(base, columnCount);
    PlaceholdersAppend([Text("(")] + RowPlaceholders(base, columnCount), [Text(")")]);
    PlaceholdersAppend([Text("(")], RowPlaceholders(base, columnCount));
    AllTextNoPlaceholders([Text("(")]);
    AllTextNoPlaceholders([Text(")")]);
  }

  /** `{base}`, `{base+1}`, ..., `{base+j-1}` as separate strings. */
  function PlaceholderItems(base: nat, j: nat): (items: seq<string>)
    ensures |items| == j && forall k :: 0 <= k < j ==> items[k] == Placeholder(base + k)
  {
    if j == 0 then [] else PlaceholderItems(base, j - 1) + [Placeholder(base + j - 1)]
  }

  /** The text of row i as `string.Join` would write it: `(`, its placeholders
      `{i*C}`, ..., `{i*C + C - 1}` joined by `,`, then `)`. */
  function RowReference(i: nat, columnCount: nat): string {
    "(" + JoinWith(",", PlaceholderItems(i * columnCount, columnCount)) + ")"
  }

  /** The texts of rows 0, ..., n - 1. */
  function RowReferences(n: nat, columnCount: nat): (rows: seq<string>)
    ensures |rows| == n && forall i :: 0 <= i < n ==> rows[i] == RowReference(i, columnCount)
  {
    if n == 0 then [] else RowReferences(n - 1, columnCount) + [RowReference(n - 1, columnCount)]
  }

  lemma {:induction false} RowPlaceholdersRender(base: nat, j: nat)
    ensures Render(RowPlaceholders(base, j)) == JoinWith(",", PlaceholderItems(base, j))
    decreases j
  {
    if j == 1 {
      ParamPiece(base);
    } else if j > 1 {
      RowPlaceholdersRender(base, j - 1);
      RowPlaceholdersRenderStep(base, j);
    }
  }

  lemma RowPlaceholdersRenderStep(base: nat, j: nat)
    requires j > 1
    requires Render(RowPlaceholders(base, j - 1)) == JoinWith(",", PlaceholderItems(base, j - 1))
    ensures Render(RowPlaceholders(base, j)) == JoinWith(",", PlaceholderItems(base, j))
  {
    var prev := RowPlaceholders(base, j - 1);
    assert RowPlaceholders(base, j) == prev + [Text(",")] + [Param(j - 1 + base)];
    RenderAround(prev, [Text(",")], [Param(j - 1 + base)]);
    RenderTexts(",", ",");
    ParamPiece(j - 1 + base);
    JoinWithSnoc(",", PlaceholderItems(base, j - 1), Placeholder(base + j - 1));
  }

  /** The rendered VALUES list is the rows' texts joined by ` , `; each row is
      its placeholders joined by `,`, so row i, column j holds `{i*C + j}`. */
  lemma {:induction false} RowsTextRender(n: nat, columnCount: nat)
    ensures Render(RowsText(n, columnCount)) == JoinWith(" , ", RowReferences(n, columnCount))
    decreases n
  {
    if n == 1 {
      RowTextRender(0, columnCount);
    } else if n > 1 {
      var rowsRef := RowReferences(n, columnCount);
      var prev := RowsText(n - 1, columnCount);
      RenderAround(prev, [Text(" , ")], RowText(n - 1, columnCount));
      RenderTexts(" , ", " , ");
      RowTextRender(n - 1, columnCount);
      RowsTextRender(n - 1, columnCount);
      JoinWithLast(" , ", rowsRef);
      assert rowsRef[..n - 1] == RowReferences(n - 1, columnCount);
    }
  }

  /** Row i renders as its placeholders joined by `,` in parentheses. */
  lemma RowTextRender(i: nat, columnCount: nat)
    ensures Render(RowText(i, columnCount)) == RowReference(i, columnCount)
  {
    var base := i * columnCount;
    RenderAround([Text("(")], RowPlaceholders(base, columnCount), [Text(")")]);
    RenderTexts("(", ")");
    RenderTexts(")", ")");
    RowPlaceholdersRender(base, columnCount);
  }

  // ---------------------------------------------------------------------
  // The parameter list.

  lemma {:induction false} RowParametersValues(e: Entity, cols: seq<Property>, j: nat)
    requires j <= |cols|
    ensures RowParameters(e, cols, j).Success? <==> forall c :: 0 <= c < j ==> cols[c].name in e
    ensures RowParameters(e, cols, j).Success? ==>
              var ps := RowParameters(e, cols, j).value;
              |ps| == j && forall c :: 0 <= c < j ==> ps[c] == ProviderValue(cols[c], e[cols[c].name])
    decreases j
  {
    if j > 0 {
      RowParametersValues(e, cols, j - 1);
    }
  }

  lemma RowMajorBound(i: nat, j: nat, n: nat, columnCount: nat)
    requires i < n && j < columnCount
    ensures i * columnCount + j < n * columnCount
  {
    assert i * columnCount + j < (i + 1) * columnCount;
    assert (i + 1) * columnCount <= n * columnCount;
  }

  /** The parameter list exists exactly when every entity has every insert
      column's property, and it then holds n*C entries. */
  lemma {:induction false} InsertParametersLength(rows: seq<Entity>, cols: seq<Property>, n: nat)
    requires n <= |rows|
    ensures InsertParameters(rows, cols, n).Success? <==>
              forall i, c :: 0 <= i < n && 0 <= c < |cols| ==> cols[c].name in rows[i]
    ensures InsertParameters(rows, cols, n).Success? ==> |InsertParameters(rows, cols, n).value| == n * |cols|
    decreases n
  {
    if n > 0 {
      InsertParametersLength(rows, cols, n - 1);
      RowParametersValues(rows[n - 1], cols, |cols|);
      assert (n - 1) * |cols| + |cols| == n * |cols|;
    }
  }

  /** Entry i*C + c of the parameter list is the provider value of row i, column c. */
  lemma {:induction false} InsertParameterRowMajor(rows: seq<Entity>, cols: seq<Property>, n: nat, i: nat, c: nat)
    requires n <= |rows| && i < n && c < |cols|
    requires InsertParameters(rows, cols, n).Success?
    ensures cols[c].name in rows[i]
    ensures i * |cols| + c < |InsertParameters(rows, cols, n).value|
    ensures InsertParameters(rows, cols, n).value[i * |cols| + c]
            == ProviderValue(cols[c], rows[i][cols[c].name])
    decreases n
  {
    var C := |cols|;
    InsertParametersLength(rows, cols, n);
    InsertParametersLength(rows, cols, n - 1);
    RowParametersValues(rows[n - 1], cols, C);
    var prev := InsertParameters(rows, cols, n - 1).value;
    var rp := RowParameters(rows[n - 1], cols, C).value;
    assert InsertParameters(rows, cols, n).value == prev + rp;
    RowMajorBound(i, c, n, C);
    if i < n - 1 {
      RowMajorBound(i, c, n - 1, C);
      InsertParameterRowMajor(rows, cols, n - 1, i, c);
    } else {
      assert |prev| == i * C;
    }
  }

  lemma DivBound(k: nat, n: nat, columnCount: nat)
    requires columnCount > 0 && k < n * columnCount
    ensures k / columnCount < n
  {
    assert k == (k / columnCount) * columnCount + k % columnCount;
  }

  /** The same, for entry k: row k / C, column k % C. */
  lemma InsertParameterAt(rows: seq<Entity>, cols: seq<Property>, k: nat)
    requires |cols| > 0
    requires InsertParameters(rows, cols, |rows|).Success?
    requires k < |InsertParameters(rows, cols, |rows|).value|
    ensures k / |cols| < |rows| && cols[k % |cols|].name in rows[k / |cols|]
    ensures InsertParameters(rows, cols, |rows|).value[k]
            == ProviderValue(cols[k % |cols|], rows[k / |cols|][cols[k % |cols|].name])
  {
    var C := |cols|;
    assert k == (k / C) * C + k % C && k % C < C;
    InsertParametersLength(rows, cols, |rows|);
    var i, c := k / C, k % C;
    DivBound(k, |rows|, C);
    InsertParameterRowMajor(rows, cols, |rows|, i, c);
  }

  /** Nothing is executed exactly when the entities are null or empty or no
      column is insertable; otherwise the statement is produced unless some
      entity lacks a CLR property for some insertable column. */
  lemma InsertOutcome(table: string, properties: seq<Property>, entities: Option<seq<Entity>>)
    ensures var plan := InsertPlan(table, properties, entities);
            var cols := Select(properties, Where(properties, IsInsertColumn));
            (plan == Success(None) <==> entities.None? || |entities.value| == 0 || |cols| == 0)
            && (plan.Failure? <==>
                  entities.Some? && |entities.value| > 0 && |cols| > 0
                  && exists i, c :: 0 <= i < |entities.value| && 0 <= c < |cols| && cols[c].name !in entities.value[i])
  {
    var cols := Select(properties, Where(properties, IsInsertColumn));
    if entities.Some? && |entities.value| > 0 && |cols| > 0 {
      InsertParametersLength(entities.value, cols, |entities.value|);
    }
  }

  /** The whole statement: its placeholders are 0, ..., n*C - 1 in order,
      one per parameter. */
  lemma InsertPlanAligned(table: string, properties: seq<Property>, rows: seq<Entity>)
    requires InsertPlan(table, properties, Some(rows)).Success?
    requires InsertPlan(table, properties, Some(rows)).value.Some?
    ensures var st := InsertPlan(table, properties, Some(rows)).value.value;
            var C := |Where(properties, IsInsertColumn)|;
            Placeholders(st.sql) == Range(0, |rows| * C) && |st.parameters| == |rows| * C
  {
    var cols := Select(properties, Where(properties, IsInsertColumn));
    var header := [Text(InsertHeader(table, cols))];
    RowsTextNumbered(|rows|, |cols|);
    AllTextNoPlaceholders(header);
    PlaceholdersAppend(header, RowsText(|rows|, |cols|));
    InsertParametersLength(rows, cols, |rows|);
  }
}
