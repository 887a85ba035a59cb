/**
 * BulkDelete: one multiple-table DELETE that joins the entity's table with
 * the compiled query on the primary key,
 *   [prelude ␠⏎] DELETE t FROM t INNER JOIN( body ) AS JoinTable1 ON ( ⏎ t.k1 = JoinTable1.k1 AND ... )
 * where prelude and body are ParseSql's split of the query text. The
 * statement has no parameters.
 */
module BulkDeletion {
  import opened SqlText
  import opened Mapping
  import opened KeyJoin
  import opened PreludeSplit

  const JoinAlias: string := "JoinTable1"

  /** The statement's first line after the prelude. */
  function DeleteHead(table: string, body: string): string {
    "DELETE " + table + " FROM " + table + " INNER JOIN( " + body + " ) AS " + JoinAlias + " ON ( " + NewLine
  }

  /** The text of the DELETE, written with string.Join over the key
      equalities rather than the loop that appends them. */
  function DeleteText(table: string, keys: seq<string>, split: Split): string {
    (if IsBlank(split.prelude) then "" else split.prelude + " " + NewLine)
    + DeleteHead(table, split.body)
    + JoinWith(" AND ", Equalities(table, JoinAlias, keys)) + ")"
  }

  /** BulkDelete(query) up to the call of the executor, which receives the
      statement and no parameter. */
  method BulkDelete(table: string, properties: seq<Property>, query: string) returns (st: Statement)
    ensures Render(st.sql) == DeleteText(table, KeyColumns(properties), ParseSql(query))
    ensures Placeholders(st.sql) == [] && st.parameters == []
  {
    st := AppendDelete(table, KeyColumns(properties), ParseSql(query));
  }

  /** The statement for the query's split: the hoisted prelude, the DELETE
      line, the key join and the closing parenthesis, appended in turn. */
  method AppendDelete(table: string, keys: seq<string>, split: Split) returns (st: Statement)
    ensures Render(st.sql) == DeleteText(table, keys, split)
    ensures Placeholders(st.sql) == [] && st.parameters == []
  {
    var sql: Sql := [];
    if !IsBlank(split.prelude) {
      sql := sql + [Text(split.prelude + " " + NewLine)];
    }
    assert sql == Hoist(split.prelude);
    var head: Sql := sql + [Text(DeleteHead(table, split.body))];
    sql := AppendKeyJoin(head, table, JoinAlias, keys);
    sql := sql + [Text(")")];
    st := Statement(sql, []);
    DeleteSqlText(split.prelude, head, table, keys);
    assert Render(sql) == DeleteText(table, keys, split);
  }

  /** The pieces BulkDelete appends render to DeleteText and hold no placeholder. */
  lemma DeleteSqlText(prelude: string, head: Sql, table: string, keys: seq<string>)
    requires |head| >= 1 && head[..|head| - 1] == Hoist(prelude) && head[|head| - 1].Text?
    ensures var sql := head + JoinTerms(table, JoinAlias, keys, |keys|) + [Text(")")];
            Render(sql) == Render(Hoist(prelude)) + head[|head| - 1].s
                           + JoinWith(" AND ", Equalities(table, JoinAlias, keys)) + ")"
            && Placeholders(sql) == []
  {
    var terms := JoinTerms(table, JoinAlias, keys, |keys|);
    var sql := head + terms + [Text(")")];
    assert Render(head) == Render(Hoist(prelude)) + head[|head| - 1].s;
    RenderAppend(head + terms, [Text(")")]);
    RenderAppend(head, terms);
    JoinTermsRender(table, JoinAlias, keys);
    assert Render([Text(")")]) == ")" by {
      assert [Text(")")][..0] == [];
    }
    JoinTermsAllText(table, JoinAlias, keys, |keys|);
    assert AllText(sql) by {
      assert AllText(Hoist(prelude));
      forall i | 0 <= i < |sql| ensures sql[i].Text? {
        if i < |head| - 1 {
          assert sql[i] == Hoist(prelude)[i];
        } else if |head| <= i < |head| + |terms| {
          assert sql[i] == terms[i - |head|];
        }
      }
    }
    AllTextNoPlaceholders(sql);
  }

  /** A query whose text is a run of well-formed SET statements followed by a
      SELECT body is deleted through that body, with the run hoisted in
      front of the DELETE exactly when there is one. */
  lemma DeleteHoistsPrelude(table: string, keys: seq<string>, assignments: seq<SetAssignment>, body: string)
    requires forall k :: 0 <= k < |assignments| ==> WellFormed(assignments[k])
    requires IsSelectBody(body)
    ensures DeleteText(table, keys, ParseSql(PreludeText(assignments) + body))
            == (if assignments == [] then "" else PreludeText(assignments) + " " + NewLine)
               + DeleteHead(table, body)
               + JoinWith(" AND ", Equalities(table, JoinAlias, keys)) + ")"
  {
    var query := PreludeText(assignments) + body;
    ParseSqlRoundTrip(assignments, body);
    PreludeBlankIffEmpty(query);
    if assignments != [] {
      assert |PreludeText(assignments)| >= |SetText(assignments[0])| > 0;
    }
  }
}
