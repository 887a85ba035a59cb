/**
 * The primary-key join condition shared by BulkDelete and BulkUpdate:
 * `L.k1 = R.k1 AND L.k2 = R.k2 ...`, one equality per key column, in the
 * order of the entity's properties.
 */
module KeyJoin {
  import opened SqlText
  import opened Mapping

  /** The names of the primary-key columns, in property order. */
  function KeyColumns(properties: seq<Property>): seq<string> {
    ColumnNames(Select(properties, Where(properties, IsKeyColumn)))
  }

  /** The key columns are the columns of exactly the primary-key
      properties, in property order. */
  lemma KeyColumnsInOrder(properties: seq<Property>)
    ensures KeyColumns(properties) == FilteredColumns(properties, IsKeyColumn)
  {
    ColumnsOfWhere(properties, IsKeyColumn);
  }

  /** `L.c = R.c` */
  function Equality(left: string, right: string, column: string): string {
    left + "." + column + " = " + right + "." + column
  }

  /** The equalities for the first i key columns, as the loop appends them. */
  function JoinTerms(left: string, right: string, keys: seq<string>, i: nat): Sql
    requires i <= |keys|
  {
    if i == 0 then []
    else JoinTerms(left, right, keys, i - 1)
         + (if i - 1 != 0 then [Text(" AND ")] else [])
         + [Text(Equality(left, right, keys[i - 1]))]
  }

  /** One equality per key column, in key order. */
  function Equalities(left: string, right: string, keys: seq<string>): (eqs: seq<string>)
    ensures |eqs| == |keys| && forall k :: 0 <= k < |keys| ==> eqs[k] == Equality(left, right, keys[k])
  {
    if keys == [] then []
    else Equalities(left, right, keys[..|keys| - 1]) + [Equality(left, right, keys[|keys| - 1])]
  }

  /** The loop over the key columns (Phy.EfBulk/DbBulkExtensions.cs, both join loops). */
  method AppendKeyJoin(sql: Sql, left: string, right: string, keys: seq<string>) returns (out: Sql)
    ensures out == sql + JoinTerms(left, right, keys, |keys|)
  {
    out := sql;
    var i := 0;
    while i < |keys|
      invariant 0 <= i <= |keys|
      invariant out == sql + JoinTerms(left, right, keys, i)
    {
      if i != 0 {
        out := out + [Text(" AND ")];
      }
      out := out + [Text(Equality(left, right, keys[i]))];
      i := i + 1;
    }
  }

  lemma {:induction false} JoinTermsAllText(left: string, right: string, keys: seq<string>, i: nat)
    requires i <= |keys|
    ensures AllText(JoinTerms(left, right, keys, i))
    decreases i
  {
    if i > 0 {
      JoinTermsAllText(left, right, keys, i - 1);
    }
  }

  /** The rendered condition is the key equalities joined by ` AND `, so it
      holds exactly one `L.c = R.c` per key column, in order; with no key
      column it is empty. */
  lemma {:induction false} JoinTermsRender(left: string, right: string, keys: seq<string>)
    ensures Render(JoinTerms(left, right, keys, |keys|)) == JoinWith(" AND ", Equalities(left, right, keys))
    decreases |keys|
  {
    if |keys| > 0 {
      var n := |keys|;
      var init := keys[..n - 1];
      var eqs := Equalities(left, right, keys);
      var prev := JoinTerms(left, right, keys, n - 1);
      var sep: Sql := if n - 1 != 0 then [Text(" AND ")] else [];
      var last: Sql := [Text(Equality(left, right, keys[n - 1]))];
      assert Render(JoinTerms(left, right, keys, n)) == Render(prev) + Render(sep) + Render(last) by {
        assert JoinTerms(left, right, keys, n) == prev + sep + last;
        RenderAppend(prev + sep, last);
        RenderAppend(prev, sep);
      }
      assert Render(last) == eqs[n - 1] by {
        assert last[..0] == [];
      }
      assert Render(prev) == JoinWith(" AND ", Equalities(left, right, init)) by {
        JoinTermsPrefix(left, right, keys, n - 1);
        JoinTermsRender(left, right, init);
      }
      if n - 1 == 0 {
        assert Render(sep) == "";
      } else {
        assert Render(sep) == " AND " by {
          assert sep[..0] == [];
        }
        JoinWithLast(" AND ", eqs);
        assert eqs[..n - 1] == Equalities(left, right, init);
      }
    }
  }

  /** The terms for the first i keys depend only on those keys. */
  lemma {:induction false} JoinTermsPrefix(left: string, right: string, keys: seq<string>, i: nat)
    requires i <= |keys|
    ensures JoinTerms(left, right, keys, i) == JoinTerms(left, right, keys[..i], i)
    decreases i
  {
    if i > 0 {
      JoinTermsPrefix(left, right, keys, i - 1);
      JoinTermsPrefix(left, right, keys[..i], i - 1);
      assert keys[..i][..i - 1] == keys[..i - 1];
    }
  }
}
