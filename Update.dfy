/**
 * BulkUpdate: one multiple-table UPDATE that joins the entity's table,
 * aliased `ut1`, with the compiled query, aliased `jt1`, on the primary key,
 * and sets one column per binding of the updater's member initialiser:
 *   [prelude ␠⏎] UPDATE t AS ut1 INNER JOIN (body) AS jt1 ON (⏎ ut1.k1 = jt1.k1 AND ... )⏎ SET item, item, ...
 * A bound item is `ut1.c = {k}` where k is the number of parameters
 * already collected, so the placeholders number the parameter list.
 */
module BulkUpdating {
  import opened Wrappers
  import opened SqlText
  import opened Mapping
  import opened KeyJoin
  import opened PreludeSplit
  import opened ProjectionRewrite
  import opened UpdateBinding

  const JoinAlias: string := "jt1"

  /** The body of the updater lambda. */
  datatype Updater = MemberInit(bindings: seq<Binding>) | OtherBody

  // ---------------------------------------------------------------------
  // The statement, defined the way the loop builds it.

  /** The items of the first n bindings, or the error of the first binding
      that fails. */
  function Items(classify: Binding -> Result<SetItem, Error>, bindings: seq<Binding>, n: nat)
    : (r: Result<seq<SetItem>, Error>)
    requires n <= |bindings|
    ensures r.Success? ==> |r.value| == n
  {
    if n == 0 then Success([])
    else match Items(classify, bindings, n - 1)
         case Failure(err) => Failure(err)
         case Success(items) =>
           match classify(bindings[n - 1])
           case Failure(err) => Failure(err)
           case Success(item) => Success(items + [item])
  }

  /** How BulkUpdate classifies each binding of its updater. */
  function Classifier(properties: seq<Property>, compile: Expr -> string, evaluate: Expr -> Value)
    : Binding -> Result<SetItem, Error>
  {
    b => Classify(properties, b, compile, evaluate)
  }

  /** The values of the bound items, in item order: the parameter list. */
  function BoundValues(items: seq<SetItem>): seq<Value> {
    if items == [] then []
    else BoundValues(items[..|items| - 1])
         + (if items[|items| - 1].Bound? then [items[|items| - 1].value] else [])
  }

  /** `ut1.<column> = ` */
  function Target(item: SetItem): string {
    UpdateAlias + "." + item.column + " = "
  }

  /** The pieces of one item; a bound item takes placeholder k. */
  function ItemPieces(item: SetItem, k: nat): Sql {
    match item
    case Bound(_, _) => [Text(Target(item)), Param(k)]
    case SetNull(_) => [Text(Target(item) + "NULL")]
    case Inlined(_, fragment) => [Text(Target(item) + fragment)]
  }

  /** The SET list: items separated by `, `, each bound item numbered by the
      bound items before it. */
  function SetList(items: seq<SetItem>): Sql {
    if items == [] then []
    else
      var init := items[..|items| - 1];
      SetList(init) + (if |init| != 0 then [Text(", ")] else [])
      + ItemPieces(items[|items| - 1], |BoundValues(init)|)
  }

  function UpdateHead(table: string, body: string): string {
    "UPDATE " + table + " AS " + UpdateAlias + " INNER JOIN (" + body + ") AS " + JoinAlias + " ON (" + NewLine
  }

  /** Everything before the first SET item. */
  function UpdateHeader(table: string, properties: seq<Property>, split: Split): Sql {
    var keys := KeyColumns(properties);
    Hoist(split.prelude) + [Text(UpdateHead(table, split.body))]
    + JoinTerms(UpdateAlias, JoinAlias, keys, |keys|) + [Text(")" + NewLine), Text(" SET ")]
  }

  /** What BulkUpdate hands to the executor: nothing when the updater is not
      a member initialiser, else the statement and its parameters, unless a
      binding fails. */
  function UpdatePlan(table: string, properties: seq<Property>, query: string, updater: Updater,
                      compile: Expr -> string, evaluate: Expr -> Value): Result<Option<Statement>, Error>
  {
    match updater
    case OtherBody => Success(None)
    case MemberInit(bindings) =>
      match Items(Classifier(properties, compile, evaluate), bindings, |bindings|)
      case Failure(err) => Failure(err)
      case Success(items) =>
        Success(Some(Statement(UpdateHeader(table, properties, ParseSql(query)) + SetList(items), BoundValues(items))))
  }

  // ---------------------------------------------------------------------
  // The method, as the source runs it.

  method BulkUpdate(table: string, properties: seq<Property>, query: string, updater: Updater,
                    compile: Expr -> string, evaluate: Expr -> Value)
    returns (r: Result<Option<Statement>, Error>)
    ensures r == UpdatePlan(table, properties, query, updater, compile, evaluate)
    ensures r.Success? && r.value.Some? ==>
              Placeholders(r.value.value.sql) == Range(0, |r.value.value.parameters|)
  {
    if updater.OtherBody? {
      return Success(None);
    }
    var split := ParseSql(query);
    var header := AppendUpdateHeader(table, properties, split);
    var built := AppendSetList(header, updater.bindings, Classifier(properties, compile, evaluate));
    if built.Failure? {
      return Failure(built.error);
    }
    r := Success(Some(Statement(built.value.0, built.value.1)));
    UpdatePlanAligned(table, properties, split, Items(Classifier(properties, compile, evaluate), updater.bindings, |updater.bindings|).value);
  }

  /** The SET loop: for each binding, the separator, then its item and, when
      the item is bound, its value; the first binding that fails stops the
      loop with its error. */
  method AppendSetList(header: Sql, bindings: seq<Binding>, classify: Binding -> Result<SetItem, Error>)
    returns (r: Result<(Sql, seq<Value>), Error>)
    ensures Items(classify, bindings, |bindings|).Failure? ==>
              r == Failure(Items(classify, bindings, |bindings|).error)
    ensures Items(classify, bindings, |bindings|).Success? ==>
              var items := Items(classify, bindings, |bindings|).value;
              r == Success((header + SetList(items), BoundValues(items)))
  {
    var sql := header;
    var paras: seq<Value> := [];
    ghost var items: seq<SetItem> := [];
    var i := 0;
    while i < |bindings|
      invariant 0 <= i <= |bindings| && |items| == i
      invariant Items(classify, bindings, i) == Success(items)
      invariant sql == header + SetList(items)
      invariant paras == BoundValues(items)
    {
      if i != 0 {
        sql := sql + [Text(", ")];
      }
      ghost var before := sql;
      var c := classify(bindings[i]);
      if c.Failure? {
        ItemsFailureStays(classify, bindings, i + 1, |bindings|);
        return Failure(c.error);
      }
      var item := c.value;
      var next;
      sql, next := AppendItem(sql, paras, item);
      LoopStep(classify, bindings, i, items, item, header, before, sql, paras, next);
      paras := next;
      items := items + [item];
      i := i + 1;
    }
    r := Success((sql, paras));
  }

  /** One item appended: `ut1.<column> = ` and a placeholder numbered by the
      parameters so far, with the value added to them; or NULL; or the
      inlined fragment. */
  method AppendItem(sql: Sql, paras: seq<Value>, item: SetItem) returns (out: Sql, next: seq<Value>)
    ensures out == sql + ItemPieces(item, |paras|)
    ensures next == if item.Bound? then paras + [item.value] else paras
  {
    var target := UpdateAlias + "." + item.column + " = ";
    match item
    case Bound(_, value) =>
      out, next := sql + [Text(target), Param(|paras|)], paras + [value];
    case SetNull(_) =>
      out, next := sql + [Text(target + "NULL")], paras;
    case Inlined(_, fragment) =>
      out, next := sql + [Text(target + fragment)], paras;
  }

  /** The prelude, the UPDATE line, the key join and ` SET `, appended in turn. */
  method AppendUpdateHeader(table: string, properties: seq<Property>, split: Split) returns (sql: Sql)
    ensures sql == UpdateHeader(table, properties, split)
  {
    var keys := KeyColumns(properties);
    sql := [];
    if !IsBlank(split.prelude) {
      sql := sql + [Text(split.prelude + " " + NewLine)];
    }
    ghost var hoist := sql;
    assert hoist == Hoist(split.prelude);
    sql := sql + [Text(UpdateHead(table, split.body))];
    sql := AppendKeyJoin(sql, UpdateAlias, JoinAlias, keys);
    sql := sql + [Text(")" + NewLine)];
    sql := sql + [Text(" SET ")];
    assert sql == hoist + [Text(UpdateHead(table, split.body))] + JoinTerms(UpdateAlias, JoinAlias, keys, |keys|)
                  + [Text(")" + NewLine), Text(" SET ")];
  }

  // ---------------------------------------------------------------------
  // Properties

  /** One pass of the SET loop keeps its invariant. */
  lemma LoopStep(classify: Binding -> Result<SetItem, Error>, bindings: seq<Binding>, i: nat,
                 items: seq<SetItem>, item: SetItem, header: Sql, before: Sql, sql: Sql,
                 paras: seq<Value>, next: seq<Value>)
    requires i < |bindings| && Items(classify, bindings, i) == Success(items)
    requires classify(bindings[i]) == Success(item)
    requires before == header + SetList(items) + (if |items| != 0 then [Text(", ")] else [])
    requires sql == before + ItemPieces(item, |BoundValues(items)|)
    requires paras == BoundValues(items) && next == if item.Bound? then paras + [item.value] else paras
    ensures Items(classify, bindings, i + 1) == Success(items + [item])
    ensures sql == header + SetList(items + [item])
    ensures next == BoundValues(items + [item])
  {
    SetListAppend(header, items, item, before, sql);
    SetListStep(items, item);
  }

  /** Appending an item appends its separator and pieces, numbered by the
      bound items before it, and its value when it is bound. */
  lemma SetListStep(items: seq<SetItem>, item: SetItem)
    ensures SetList(items + [item])
            == SetList(items) + (if |items| != 0 then [Text(", ")] else []) + ItemPieces(item, |BoundValues(items)|)
    ensures BoundValues(items + [item]) == BoundValues(items) + (if item.Bound? then [item.value] else [])
  {
    assert (items + [item])[..|items|] == items;
  }

  lemma SetListAppend(header: Sql, items: seq<SetItem>, item: SetItem, before: Sql, sql: Sql)
    requires before == header + SetList(items) + (if |items| != 0 then [Text(", ")] else [])
    requires sql == before + ItemPieces(item, |BoundValues(items)|)
    ensures sql == header + SetList(items + [item])
  {
    SetListStep(items, item);
  }

  /** A bound item carries the one placeholder k; the others carry none. */
  lemma ItemPiecesPlaceholders(item: SetItem, k: nat)
    ensures Placeholders(ItemPieces(item, k)) == if item.Bound? then [k] else []
  {
    var pieces := ItemPieces(item, k);
    if item.Bound? {
      var t: Sql := [Text(Target(item))];
      assert pieces == t + [Param(k)];
      AllTextNoPlaceholders(t);
      PlaceholdersAppend(t, [Param(k)]);
      assert [Param(k)][..0] == [];
    } else {
      assert pieces[..0] == [];
    }
  }

  lemma {:induction false} ItemsFailureStays(classify: Binding -> Result<SetItem, Error>, bindings: seq<Binding>,
                                             n: nat, m: nat)
    requires n <= m <= |bindings|
    requires Items(classify, bindings, n).Failure?
    ensures Items(classify, bindings, m) == Items(classify, bindings, n)
    decreases m - n
  {
    if n < m {
      ItemsFailureStays(classify, bindings, n + 1, m);
    }
  }

  /** The SET placeholders are 0, 1, ..., one per bound item, in order. */
  lemma {:induction false} SetListNumbered(items: seq<SetItem>)
    ensures Placeholders(SetList(items)) == Range(0, |BoundValues(items)|)
    decreases |items|
  {
    if items != [] {
      var init := items[..|items| - 1];
      assert items == init + [items[|items| - 1]];
      SetListNumbered(init);
      SetListNumberedStep(init, items[|items| - 1]);
    }
  }

  lemma SetListNumberedStep(items: seq<SetItem>, item: SetItem)
    requires Placeholders(SetList(items)) == Range(0, |BoundValues(items)|)
    ensures Placeholders(SetList(items + [item])) == Range(0, |BoundValues(items + [item])|)
  {
    var k := |BoundValues(items)|;
    var sep: Sql := if |items| != 0 then [Text(", ")] else [];
    SetListStep(items, item);
    PlaceholdersAround(SetList(items), sep, ItemPieces(item, k));
    ItemPiecesPlaceholders(item, k);
    if item.Bound? {
      RangeSnoc(0, k);
    }
  }

  /** The whole statement: its placeholders number its parameter list. */
  lemma UpdatePlanAligned(table: string, properties: seq<Property>, split: Split, items: seq<SetItem>)
    ensures Placeholders(UpdateHeader(table, properties, split) + SetList(items)) == Range(0, |BoundValues(items)|)
  {
    var keys := KeyColumns(properties);
    var header := UpdateHeader(table, properties, split);
    var terms := JoinTerms(UpdateAlias, JoinAlias, keys, |keys|);
    JoinTermsAllText(UpdateAlias, JoinAlias, keys, |keys|);
    assert AllText(header) by {
      var hoist := Hoist(split.prelude);
      var head: Sql := [Text(UpdateHead(table, split.body))];
      var tail: Sql := [Text(")" + NewLine), Text(" SET ")];
      assert header == hoist + head + terms + tail;
      forall j | 0 <= j < |header| ensures header[j].Text? {
        if j < |hoist| {
          assert header[j] == hoist[j];
        } else if j == |hoist| {
          assert header[j] == head[0];
        } else if j < |hoist| + 1 + |terms| {
          assert header[j] == terms[j - |hoist| - 1];
        } else {
          assert header[j] == tail[j - |hoist| - 1 - |terms|];
        }
      }
    }
    AllTextNoPlaceholders(header);
    PlaceholdersAppend(header, SetList(items));
    SetListNumbered(items);
  }

  /** An updater that is not a member initialiser changes nothing; a member
      initialiser fails exactly when one of its bindings does. */
  lemma UpdateOutcome(table: string, properties: seq<Property>, query: string, updater: Updater,
                      compile: Expr -> string, evaluate: Expr -> Value)
    ensures var plan := UpdatePlan(table, properties, query, updater, compile, evaluate);
            (updater.OtherBody? ==> plan == Success(None))
            && (updater.MemberInit? ==>
                  (plan.Failure? <==> exists j :: 0 <= j < |updater.bindings|
                                         && Classify(properties, updater.bindings[j], compile, evaluate).Failure?)
                  && (plan.Success? ==> plan.value.Some?))
  {
    if updater.MemberInit? {
      var classify := Classifier(properties, compile, evaluate);
      ItemsSucceedIff(classify, updater.bindings, |updater.bindings|);
      assert forall j :: 0 <= j < |updater.bindings| ==>
               classify(updater.bindings[j]) == Classify(properties, updater.bindings[j], compile, evaluate);
    }
  }

  /** The classification succeeds exactly when every binding does. */
  lemma {:induction false} ItemsSucceedIff(classify: Binding -> Result<SetItem, Error>, bindings: seq<Binding>, n: nat)
    requires n <= |bindings|
    ensures Items(classify, bindings, n).Success? <==> forall j :: 0 <= j < n ==> classify(bindings[j]).Success?
    decreases n
  {
    if n > 0 {
      ItemsSucceedIff(classify, bindings, n - 1);
    }
  }

  /** A failed classification stops at the first binding that fails, with
      that binding's error. */
  lemma {:induction false} ItemsFirstError(classify: Binding -> Result<SetItem, Error>, bindings: seq<Binding>, n: nat)
    requires n <= |bindings|
    requires Items(classify, bindings, n).Failure?
    ensures exists j :: 0 <= j < n
              && (forall l :: 0 <= l < j ==> classify(bindings[l]).Success?)
              && classify(bindings[j]).Failure?
              && Items(classify, bindings, n).error == classify(bindings[j]).error
    decreases n
  {
    var err := Items(classify, bindings, n).error;
    if Items(classify, bindings, n - 1).Failure? {
      ItemsFirstError(classify, bindings, n - 1);
      var j :| 0 <= j < n - 1
               && (forall l :: 0 <= l < j ==> classify(bindings[l]).Success?)
               && classify(bindings[j]).Failure?
               && Items(classify, bindings, n - 1).error == classify(bindings[j]).error;
      FirstErrorAt(classify, bindings, j, n, err);
    } else {
      ItemsSucceedIff(classify, bindings, n - 1);
      FirstErrorAt(classify, bindings, n - 1, n, err);
    }
  }

  lemma FirstErrorAt(classify: Binding -> Result<SetItem, Error>, bindings: seq<Binding>, j: nat, n: nat, err: Error)
    requires j < n <= |bindings| && (forall l :: 0 <= l < j ==> classify(bindings[l]).Success?)
    requires classify(bindings[j]) == Failure(err)
    ensures exists i :: 0 <= i < n
              && (forall l :: 0 <= l < i ==> classify(bindings[l]).Success?)
              && classify(bindings[i]).Failure?
              && err == classify(bindings[i]).error
  {
  }

  /** On success, item j is binding j's classification. */
  lemma {:induction false} ItemsInOrder(classify: Binding -> Result<SetItem, Error>, bindings: seq<Binding>, n: nat)
    requires n <= |bindings|
    requires Items(classify, bindings, n).Success?
    ensures forall j :: 0 <= j < n ==>
              classify(bindings[j]).Success? && Items(classify, bindings, n).value[j] == classify(bindings[j]).value
    decreases n
  {
    if n > 0 {
      ItemsInOrder(classify, bindings, n - 1);
      var items := Items(classify, bindings, n).value;
      assert items[..n - 1] == Items(classify, bindings, n - 1).value;
    }
  }

  // ---------------------------------------------------------------------
  // The text

  /** The text of one item; a bound item shows placeholder k. */
  function ItemText(item: SetItem, k: nat): string {
    Target(item) + match item
                   case Bound(_, _) => Placeholder(k)
                   case SetNull(_) => "NULL"
                   case Inlined(_, fragment) => fragment
  }

  /** The item texts, each bound item numbered by the bound items before it. */
  function ItemTexts(items: seq<SetItem>): (texts: seq<string>)
    ensures |texts| == |items|
  {
    if items == [] then []
    else ItemTexts(items[..|items| - 1]) + [ItemText(items[|items| - 1], |BoundValues(items[..|items| - 1])|)]
  }

  lemma ItemPiecesRender(item: SetItem, k: nat)
    ensures Render(ItemPieces(item, k)) == ItemText(item, k)
  {
    var pieces := ItemPieces(item, k);
    if item.Bound? {
      var t: Sql := [Text(Target(item))];
      assert pieces == t + [Param(k)];
      RenderAppend(t, [Param(k)]);
      assert t[..0] == [] && [Param(k)][..0] == [];
    } else {
      assert pieces[..0] == [];
    }
  }

  /** The SET list reads as the item texts joined by `, `. */
  lemma {:induction false} SetListRender(items: seq<SetItem>)
    ensures Render(SetList(items)) == JoinWith(", ", ItemTexts(items))
    decreases |items|
  {
    if items != [] {
      var n := |items|;
      var init := items[..n - 1];
      var last := items[n - 1];
      var k := |BoundValues(init)|;
      var sep: Sql := if n - 1 != 0 then [Text(", ")] else [];
      var texts := ItemTexts(items);
      assert Render(SetList(items)) == Render(SetList(init)) + Render(sep) + Render(ItemPieces(last, k)) by {
        assert SetList(items) == SetList(init) + sep + ItemPieces(last, k);
        RenderAppend(SetList(init) + sep, ItemPieces(last, k));
        RenderAppend(SetList(init), sep);
      }
      ItemPiecesRender(last, k);
      SetListRender(init);
      assert texts[..n - 1] == ItemTexts(init);
      if n - 1 == 0 {
        assert Render(sep) == "";
        assert ItemTexts(init) == [];
      } else {
        assert Render(sep) == ", " by {
          assert sep[..0] == [];
        }
        JoinWithLast(", ", texts);
      }
    }
  }

  /** The whole UPDATE: the hoisted prelude, the UPDATE line, one key
      equality per key column joined by ` AND `, the closing parenthesis on
      its own line, ` SET ` and the items joined by `, `. */
  lemma UpdateText(table: string, properties: seq<Property>, split: Split, items: seq<SetItem>)
    ensures var keys := KeyColumns(properties);
            Render(UpdateHeader(table, properties, split) + SetList(items))
            == (if IsBlank(split.prelude) then "" else split.prelude + " " + NewLine)
               + UpdateHead(table, split.body)
               + JoinWith(" AND ", Equalities(UpdateAlias, JoinAlias, keys)) + ")" + NewLine
               + " SET " + JoinWith(", ", ItemTexts(items))
  {
    RenderAppend(UpdateHeader(table, properties, split), SetList(items));
    UpdateHeaderRender(table, properties, split);
    SetListRender(items);
  }

  lemma UpdateHeaderRender(table: string, properties: seq<Property>, split: Split)
    ensures var keys := KeyColumns(properties);
            Render(UpdateHeader(table, properties, split))
            == (if IsBlank(split.prelude) then "" else split.prelude + " " + NewLine)
               + UpdateHead(table, split.body)
               + JoinWith(" AND ", Equalities(UpdateAlias, JoinAlias, keys)) + ")" + NewLine + " SET "
  {
    var keys := KeyColumns(properties);
    var hoist := Hoist(split.prelude);
    var terms := JoinTerms(UpdateAlias, JoinAlias, keys, |keys|);
    JoinTermsRender(UpdateAlias, JoinAlias, keys);
    HeaderParts(hoist, UpdateHead(table, split.body), terms,
                Render(hoist), JoinWith(" AND ", Equalities(UpdateAlias, JoinAlias, keys)));
  }

  /** The header's four parts render one after the other. */
  lemma HeaderParts(hoist: Sql, head: string, terms: Sql, hs: string, ts: string)
    requires Render(hoist) == hs && Render(terms) == ts
    ensures Render(hoist + [Text(head)] + terms + [Text(")" + NewLine), Text(" SET ")])
            == hs + head + ts + ")" + NewLine + " SET "
  {
    RenderFour(hoist, [Text(head)], terms, [Text(")" + NewLine), Text(" SET ")]);
    RenderTexts(head, "");
    RenderTexts(")" + NewLine, " SET ");
  }
}
