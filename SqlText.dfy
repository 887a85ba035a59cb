/**
 * SQL text as the bulk operations build it: a composite-format string in
 * which `{k}` names the k-th entry of the positional parameter list.
 * A statement is kept as a sequence of pieces, literal text or a
 * placeholder, and `Render` gives the string that is handed to the store:
 * a `Param(k)` renders as `{k}`, and a `Text` piece renders as it is, with
 * any braces it holds left unescaped. `Placeholders` lists the `Param`
 * pieces only.
 * Also the character classes that the source's regular expressions use.
 */
module SqlText {

  /** A value bound to a placeholder; `Null` is the .NET `null`. */
  datatype Value = Null | IntValue(i: int) | StringValue(s: string) | BoolValue(b: bool)

  /** One appended fragment: literal text, or the placeholder `{index}`. */
  datatype Piece = Text(s: string) | Param(index: nat)

  type Sql = seq<Piece>

  /** A bulk statement: the SQL text and its positional parameter list. */
  datatype Statement = Statement(sql: Sql, parameters: seq<Value>)

  /** `StringBuilder.AppendLine` ends a line with the platform's newline. */
  const NewLine: string := "\n"

  // ---------------------------------------------------------------------
  // Decimal numerals, as `$"{{{k}}}"` prints k.

  predicate IsDigit(c: char) {
    '0' <= c <= '9'
  }

  function Digit(d: nat): (c: char)
    requires d < 10
    ensures IsDigit(c) && c as int - '0' as int == d
  {
    ('0' as int + d) as char
  }

  /** The shortest decimal numeral of n. */
  function Decimal(n: nat): (s: string)
    ensures |s| >= 1 && (forall i :: 0 <= i < |s| ==> IsDigit(s[i]))
    ensures |s| > 1 ==> s[0] != '0'
    decreases n
  {
    if n < 10 then [Digit(n)] else Decimal(n / 10) + [Digit(n % 10)]
  }

  /** The number a decimal numeral denotes. */
  function ParseDecimal(s: string): nat
    requires forall i :: 0 <= i < |s| ==> IsDigit(s[i])
  {
    if s == [] then 0
    else ParseDecimal(s[..|s| - 1]) * 10 + DigitValue(s[|s| - 1])
  }

  function DigitValue(c: char): nat
    requires IsDigit(c)
  {
    c as int - '0' as int
  }

  /** Reading a placeholder's numeral back gives its index, so distinct
      placeholders render as distinct text. */
  lemma {:induction false} DecimalRoundTrip(n: nat)
    ensures ParseDecimal(Decimal(n)) == n
    decreases n
  {
    if n >= 10 {
      var s := Decimal(n);
      assert s[..|s| - 1] == Decimal(n / 10);
      DecimalRoundTrip(n / 10);
    }
  }

  lemma DecimalInjective(m: nat, n: nat)
    requires Decimal(m) == Decimal(n)
    ensures m == n
  {
    DecimalRoundTrip(m);
    DecimalRoundTrip(n);
  }

  // ---------------------------------------------------------------------
  // Rendering and the placeholder sequence.

  function Placeholder(k: nat): string {
    "{" + Decimal(k) + "}"
  }

  function Render(sql: Sql): string {
    if sql == [] then ""
    else Render(sql[..|sql| - 1]) + (match sql[|sql| - 1]
                                     case Text(s) => s
                                     case Param(k) => Placeholder(k))
  }

  /** The indices of the placeholders of `sql`, left to right. */
  function Placeholders(sql: Sql): seq<nat> {
    if sql == [] then []
    else Placeholders(sql[..|sql| - 1]) + (match sql[|sql| - 1]
                                           case Text(_) => []
                                           case Param(k) => [k])
  }

  lemma {:induction false} RenderAppend(a: Sql, b: Sql)
    ensures Render(a + b) == Render(a) + Render(b)
    decreases |b|
  {
    if b != [] {
      assert (a + b)[..|a + b| - 1] == a + b[..|b| - 1];
      RenderAppend(a, b[..|b| - 1]);
    } else {
      assert a + b == a;
    }
  }

  lemma {:induction false} PlaceholdersAppend(a: Sql, b: Sql)
    ensures Placeholders(a + b) == Placeholders(a) + Placeholders(b)
    decreases |b|
  {
    if b != [] {
      assert (a + b)[..|a + b| - 1] == a + b[..|b| - 1];
      PlaceholdersAppend(a, b[..|b| - 1]);
    } else {
      assert a + b == a;
    }
  }

  lemma RenderFour(a: Sql, b: Sql, c: Sql, d: Sql)
    ensures Render(a + b + c + d) == Render(a) + Render(b) + Render(c) + Render(d)
  {
    RenderAppend(a + b + c, d);
    RenderAppend(a + b, c);
    RenderAppend(a, b);
  }

  lemma RenderTexts(s: string, t: string)
    ensures Render([Text(s)]) == s
    ensures Render([Text(s), Text(t)]) == s + t
  {
    assert [Text(s)][..0] == [];
    assert [Text(s), Text(t)][..1] == [Text(s)];
  }

  /** Text made only of literal pieces has no placeholder. */
  predicate AllText(sql: Sql) {
    forall i :: 0 <= i < |sql| ==> sql[i].Text?
  }

  lemma {:induction false} AllTextNoPlaceholders(sql: Sql)
    requires AllText(sql)
    ensures Placeholders(sql) == []
    decreases |sql|
  {
    if sql != [] {
      AllTextNoPlaceholders(sql[..|sql| - 1]);
    }
  }

  /** Text between two parts adds no placeholder. */
  lemma PlaceholdersAround(a: Sql, sep: Sql, b: Sql)
    requires AllText(sep)
    ensures Placeholders(a + sep + b) == Placeholders(a) + Placeholders(b)
  {
    PlaceholdersAppend(a + sep, b);
    PlaceholdersAppend(a, sep);
    AllTextNoPlaceholders(sep);
  }

  lemma RenderAround(a: Sql, sep: Sql, b: Sql)
    ensures Render(a + sep + b) == Render(a) + Render(sep) + Render(b)
  {
    RenderAppend(a + sep, b);
    RenderAppend(a, sep);
  }

  /** A lone placeholder renders as `{k}` and numbers k. */
  lemma ParamPiece(k: nat)
    ensures Render([Param(k)]) == Placeholder(k) && Placeholders([Param(k)]) == [k]
  {
    assert [Param(k)][..0] == [];
  }

  /** lo, lo + 1, ..., hi - 1. */
  function Range(lo: nat, hi: nat): (r: seq<nat>)
    requires lo <= hi
    ensures |r| == hi - lo && forall i :: 0 <= i < |r| ==> r[i] == lo + i
  {
    seq(hi - lo, i requires 0 <= i < hi - lo => lo + i)
  }

  lemma RangeSplit(lo: nat, mid: nat, hi: nat)
    requires lo <= mid <= hi
    ensures Range(lo, mid) + Range(mid, hi) == Range(lo, hi)
  {
    var a, b, c := Range(lo, mid), Range(mid, hi), Range(lo, hi);
    assert |a + b| == |c|;
    forall i | 0 <= i < |c| ensures (a + b)[i] == c[i] {
      if i < |a| { assert (a + b)[i] == a[i]; } else { assert (a + b)[i] == b[i - |a|]; }
    }
  }

  lemma RangeSnoc(lo: nat, hi: nat)
    requires lo <= hi
    ensures Range(lo, hi) + [hi] == Range(lo, hi + 1)
  {
    var a, c := Range(lo, hi), Range(lo, hi + 1);
    assert |a + [hi]| == |c|;
    forall i | 0 <= i < |c| ensures (a + [hi])[i] == c[i] {
      if i < |a| { assert (a + [hi])[i] == a[i]; }
    }
  }

  // ---------------------------------------------------------------------
  // string.Join

  /** `string.Join(sep, items)`. */
  function JoinWith(sep: string, items: seq<string>): string
    decreases |items|
  {
    if |items| == 0 then ""
    else if |items| == 1 then items[0]
    else items[0] + sep + JoinWith(sep, items[1..])
  }

  /** Joining one item more adds the separator and that item. */
  lemma JoinWithSnoc(sep: string, items: seq<string>, x: string)
    requires |items| >= 1
    ensures JoinWith(sep, items + [x]) == JoinWith(sep, items) + sep + x
  {
    JoinWithLast(sep, items + [x]);
    assert (items + [x])[..|items|] == items;
  }

  /** Joining splits off the last item with its separator. */
  lemma {:induction false} JoinWithLast(sep: string, items: seq<string>)
    requires |items| >= 2
    ensures JoinWith(sep, items) == JoinWith(sep, items[..|items| - 1]) + sep + items[|items| - 1]
    decreases |items|
  {
    if |items| == 2 {
      assert items[1..] == [items[1]];
      assert items[..1] == [items[0]];
    } else {
      assert items[1..][..|items| - 2] == items[..|items| - 1][1..];
      JoinWithLast(sep, items[1..]);
    }
  }

  // ---------------------------------------------------------------------
  // Character classes of the source's regular expressions (ASCII part).

  /** `\s` and `char.IsWhiteSpace`: space, tab, line feed, vertical tab, form feed, carriage return. */
  predicate IsWhite(c: char) {
    c == ' ' || 9 <= c as int <= 13
  }

  /** `\w`: letters, digits and the underscore. */
  predicate IsWord(c: char) {
    'a' <= c <= 'z' || 'A' <= c <= 'Z' || '0' <= c <= '9' || c == '_'
  }

  function Lower(c: char): char {
    if 'A' <= c <= 'Z' then (c as int + 32) as char else c
  }

  /** `s` holds `word` (given in lower case) at position i, ignoring case. */
  predicate MatchesAt(s: string, i: nat, word: string) {
    i + |word| <= |s| && forall k :: 0 <= k < |word| ==> Lower(s[i + k]) == word[k]
  }

  /** `string.IsNullOrWhiteSpace` of a non-null string. */
  predicate IsBlank(s: string) {
    forall i :: 0 <= i < |s| ==> IsWhite(s[i])
  }

  /** The first position at or after i that is not white space. */
  function SkipWhite(s: string, i: nat): (j: nat)
    requires i <= |s|
    ensures i <= j <= |s|
    ensures forall k :: i <= k < j ==> IsWhite(s[k])
    ensures j < |s| ==> !IsWhite(s[j])
    decreases |s| - i
  {
    if i < |s| && IsWhite(s[i]) then SkipWhite(s, i + 1) else i
  }

  /** SkipWhite stops at j when the characters from i to j are white and the one at j is not. */
  lemma SkipWhiteIs(s: string, i: nat, j: nat)
    requires i <= j <= |s|
    requires forall k :: i <= k < j ==> IsWhite(s[k])
    requires j < |s| ==> !IsWhite(s[j])
    ensures SkipWhite(s, i) == j
  {
  }
}
