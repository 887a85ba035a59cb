/**
 * ParseSql: splits the text a compiled query renders to into a leading run
 * of `SET <variable> = <value>;` statements and the `SELECT` body, so that
 * the run can be hoisted in front of the outer DELETE or UPDATE.
 *
 * The source's pattern, applied to the whole text and ignoring case,
 * accepts an optional run of statements followed by a body. A statement is
 * optional white space, the keyword SET, white space, a variable made of `@`
 * and word characters, optional white space, `=`, optional white space, a
 * value of non-white characters ending in `;`, and at least one white
 * space character. The body is optional white space, the keyword SELECT,
 * white space, and at least one more character of any kind.
 * Each statement parses in one way only: the white-space runs are maximal,
 * the variable is a maximal run of `@` and word characters, and the value
 * with its `;` is a maximal run of non-white characters, because each is
 * followed by a character the next part requires. So the greedy repetition
 * takes the longest run of statements, and backtracking to a shorter run
 * never helps: the body would then start where a statement starts, with
 * `SET` followed by white space, which is not `SELECT`. The match therefore
 * succeeds exactly when the text after the longest run is a SELECT body.
 */
module PreludeSplit {
  import opened Wrappers
  import opened SqlText

  /** The two parts ParseSql returns. */
  datatype Split = Split(prelude: string, body: string)

  predicate IsNameChar(c: char) {
    c == '@' || IsWord(c)
  }

  /** The end of the run of word characters and `@` starting at i. */
  function SkipName(s: string, i: nat): (j: nat)
    requires i <= |s|
    ensures i <= j <= |s|
    ensures forall k :: i <= k < j ==> IsNameChar(s[k])
    ensures j < |s| ==> !IsNameChar(s[j])
    decreases |s| - i
  {
    if i < |s| && IsNameChar(s[i]) then SkipName(s, i + 1) else i
  }

  /** The end of the run of non-white characters starting at i. */
  function SkipNonWhite(s: string, i: nat): (j: nat)
    requires i <= |s|
    ensures i <= j <= |s|
    ensures forall k :: i <= k < j ==> !IsWhite(s[k])
    ensures j < |s| ==> IsWhite(s[j])
    decreases |s| - i
  {
    if i < |s| && !IsWhite(s[i]) then SkipNonWhite(s, i + 1) else i
  }

  /** A whole statement at position i (white space, `SET`, the variable, `=`
      and the value): where it ends, if it matches. */
  function SetStatementEnd(s: string, i: nat): (r: Option<nat>)
    requires i <= |s|
    ensures r.Some? ==> SkipWhite(s, i) < r.value <= |s| && MatchesAt(s, SkipWhite(s, i), "set")
  {
    SetStatementFrom(s, SkipWhite(s, i))
  }

  /** The statement once the white space before the keyword is skipped. */
  function SetStatementFrom(s: string, keyword: nat): (r: Option<nat>)
    requires keyword <= |s|
    ensures r.Some? ==> keyword < r.value <= |s| && MatchesAt(s, keyword, "set")
  {
    if !MatchesAt(s, keyword, "set") then None else AssignmentEnd(s, keyword + 3)
  }

  /** White space, the variable, optional white space and `=` after the
      keyword, which ends at a, then the value. */
  function AssignmentEnd(s: string, a: nat): (r: Option<nat>)
    requires a <= |s|
    ensures r.Some? ==> a < r.value <= |s|
  {
    var nameStart := SkipWhite(s, a);
    var nameEnd := SkipName(s, nameStart);
    var equals := SkipWhite(s, nameEnd);
    if nameStart == a || nameEnd == nameStart || equals == |s| || s[equals] != '=' then None
    else ValueEnd(s, equals)
  }

  /** Optional white space, a run of non-white characters ending in `;`, and
      white space, after the `=` at position equals: where it ends, if it matches. */
  function ValueEnd(s: string, equals: nat): (r: Option<nat>)
    requires equals < |s|
    ensures r.Some? ==> equals < r.value <= |s|
  {
    var valueStart := SkipWhite(s, equals + 1);
    var valueEnd := SkipNonWhite(s, valueStart);
    if valueEnd < valueStart + 2 || s[valueEnd - 1] != ';' then None
    else
      var next := SkipWhite(s, valueEnd);
      if next == valueEnd then None else Some(next)
  }

  /** The end of the longest run of SET statements starting at i. */
  function StatementsEnd(s: string, i: nat): (j: nat)
    requires i <= |s|
    ensures i <= j <= |s|
    ensures j > i ==> SetStatementEnd(s, i).Some? && SetStatementEnd(s, i).value <= j
    decreases |s| - i
  {
    match SetStatementEnd(s, i)
    case None => i
    case Some(next) => StatementsEnd(s, next)
  }

  /** From position p to the end: optional white space, `SELECT`, white
      space, and at least one more character. */
  predicate SelectBodyAt(s: string, p: nat)
    requires p <= |s|
  {
    var keyword := SkipWhite(s, p);
    MatchesAt(s, keyword, "select") && keyword + 8 <= |s| && IsWhite(s[keyword + 6])
  }

  /** ParseSql (Phy.EfBulk/DbBulkExtensions.cs:343-352). */
  function ParseSql(sql: string): (r: Split)
    ensures r.prelude + r.body == sql
  {
    var p := StatementsEnd(sql, 0);
    if SelectBodyAt(sql, p) then SplitAt(sql, p) else Split("", sql)
  }

  /** The text cut in two at p. */
  function SplitAt(sql: string, p: nat): (r: Split)
    requires p <= |sql|
    ensures r.prelude + r.body == sql && |r.prelude| == p
  {
    Split(sql[..p], sql[p..])
  }

  /** A non-empty prelude starts with a SET statement and is followed by a
      SELECT body; when the pattern does not match, the prelude is empty and
      the body is the whole text. */
  lemma ParseSqlShape(sql: string)
    ensures var r := ParseSql(sql);
            r.prelude != [] ==> SetStatementEnd(sql, 0).Some? && SelectBodyAt(r.body, 0)
    ensures !SelectBodyAt(sql, StatementsEnd(sql, 0)) ==> ParseSql(sql) == Split("", sql)
  {
    var p := StatementsEnd(sql, 0);
    if SelectBodyAt(sql, p) {
      SelectBodyShift(sql, p);
    }
  }

  lemma SkipWhiteShift(s: string, p: nat)
    requires p <= |s|
    ensures SkipWhite(s[p..], 0) == SkipWhite(s, p) - p
  {
    var j := SkipWhite(s, p) - p;
    var t := s[p..];
    assert forall k :: 0 <= k < j ==> IsWhite(t[k]);
    assert j < |t| ==> !IsWhite(t[j]);
  }

  lemma SelectBodyShift(s: string, p: nat)
    requires p <= |s|
    ensures SelectBodyAt(s, p) <==> SelectBodyAt(s[p..], 0)
  {
    SkipWhiteShift(s, p);
  }

  /** A prelude is hoisted exactly when there is one: the source's
      `IsNullOrWhiteSpace` test on ParseSql's first part is a test for emptiness. */
  lemma PreludeBlankIffEmpty(sql: string)
    ensures IsBlank(ParseSql(sql).prelude) <==> ParseSql(sql).prelude == []
  {
    var r := ParseSql(sql);
    if r.prelude != [] {
      var p := StatementsEnd(sql, 0);
      var keyword := SkipWhite(sql, 0);
      assert r.prelude == sql[..p];
      assert keyword < p;
      assert MatchesAt(sql, keyword, "set");
      assert Lower(sql[keyword + 0]) == "set"[0];
      assert !IsWhite(r.prelude[keyword]);
    }
  }

  // ---------------------------------------------------------------------
  // Round trip: a run of well-formed SET statements in front of a SELECT
  // body is split off exactly.

  /** One parameter assignment `SET <variable> = <value>;` and the white
      space after it: the keyword in any mix of cases, white space before
      the variable, optional white space on either side of `=`, and the
      white space that ends the statement. */
  datatype SetAssignment = SetAssignment(
    keyword: string, space: string, variable: string,
    before: string, after: string, value: string, gap: string)

  predicate AllWhite(w: string) {
    forall k :: 0 <= k < |w| ==> IsWhite(w[k])
  }

  /** Each part holds the characters the statement pattern asks of it. */
  predicate WellFormed(a: SetAssignment) {
    |a.keyword| == 3 && MatchesAt(a.keyword, 0, "set")
    && |a.space| >= 1 && AllWhite(a.space)
    && |a.variable| >= 1 && (forall k :: 0 <= k < |a.variable| ==> IsNameChar(a.variable[k]))
    && AllWhite(a.before) && AllWhite(a.after)
    && |a.value| >= 1 && (forall k :: 0 <= k < |a.value| ==> !IsWhite(a.value[k]))
    && |a.gap| >= 1 && AllWhite(a.gap)
  }

  /** The statement's text: the part up to and including `=`, then the rest. */
  function SetText(a: SetAssignment): string {
    HeadText(a) + ValueText(a)
  }

  /** The keyword, the variable and `=`, grouped from the right so that each
      part can be peeled off the front in turn. */
  function HeadText(a: SetAssignment): string {
    a.keyword + (a.space + (a.variable + (a.before + "=")))
  }

  /** The value, its `;` and the white space after it. */
  function ValueText(a: SetAssignment): string {
    a.after + (a.value + (";" + a.gap))
  }

  function PreludeText(assignments: seq<SetAssignment>): string {
    if assignments == [] then "" else SetText(assignments[0]) + PreludeText(assignments[1..])
  }

  /** A SELECT body: `SELECT`, white space, and at least one more character. */
  predicate IsSelectBody(body: string) {
    MatchesAt(body, 0, "select") && |body| >= 8 && IsWhite(body[6])
  }

  lemma SkipNameIs(s: string, i: nat, j: nat)
    requires i <= j <= |s|
    requires forall k :: i <= k < j ==> IsNameChar(s[k])
    requires j < |s| ==> !IsNameChar(s[j])
    ensures SkipName(s, i) == j
  {
  }

  lemma SkipNonWhiteIs(s: string, i: nat, j: nat)
    requires i <= j <= |s|
    requires forall k :: i <= k < j ==> !IsWhite(s[k])
    requires j < |s| ==> IsWhite(s[j])
    ensures SkipNonWhite(s, i) == j
  {
  }

  /** A name character is never white space. */
  lemma NameCharNotWhite(c: char)
    requires IsNameChar(c)
    ensures !IsWhite(c)
  {
  }

  /** SetStatementEnd, once the keyword is found at kw. */
  lemma StatementEndsAt(s: string, i: nat, kw: nat)
    requires i <= |s| && SkipWhite(s, i) == kw && MatchesAt(s, kw, "set")
    ensures SetStatementEnd(s, i) == AssignmentEnd(s, kw + 3)
  {
    assert SetStatementEnd(s, i) == SetStatementFrom(s, kw);
  }

  /** AssignmentEnd, given where the scans up to the `=` stop. */
  lemma AssignmentEndsAt(s: string, a: nat, ns: nat, ne: nat, eq: nat)
    requires a <= |s| && SkipWhite(s, a) == ns && ns != a
    requires SkipName(s, ns) == ne && ne != ns && SkipWhite(s, ne) == eq && eq < |s| && s[eq] == '='
    ensures AssignmentEnd(s, a) == ValueEnd(s, eq)
  {
    assert !(ns == a || ne == ns || eq == |s| || s[eq] != '=');
  }

  /** ValueEnd, given where its scans stop. */
  lemma ValueEndsAt(s: string, eq: nat, vs: nat, ve: nat, next: nat)
    requires eq < |s| && SkipWhite(s, eq + 1) == vs && SkipNonWhite(s, vs) == ve
    requires ve >= vs + 2 && s[ve - 1] == ';' && SkipWhite(s, ve) == next && next != ve
    ensures ValueEnd(s, eq) == Some(next)
  {
  }

  /** The scans of `SET <variable> ` at p. */
  lemma ScanHead(s: string, p: nat, n: nat)
    requires 1 <= n && p + 6 + n < |s|
    requires s[p] == 'S' && s[p + 1] == 'E' && s[p + 2] == 'T' && s[p + 3] == ' '
    requires forall k :: p + 4 <= k < p + 4 + n ==> IsNameChar(s[k])
    requires s[p + 4 + n] == ' ' && s[p + 5 + n] == '='
    ensures SkipWhite(s, p) == p && MatchesAt(s, p, "set")
    ensures SkipWhite(s, p + 3) == p + 4 && SkipName(s, p + 4) == p + 4 + n
    ensures SkipWhite(s, p + 4 + n) == p + 5 + n
    ensures SetStatementEnd(s, p) == ValueEnd(s, p + 5 + n)
  {
    SkipWhiteIs(s, p, p);
    assert MatchesAt(s, p, "set") by {
      assert Lower(s[p + 0]) == 's' && Lower(s[p + 1]) == 'e' && Lower(s[p + 2]) == 't';
    }
    assert IsNameChar(s[p + 4]);
    NameCharNotWhite(s[p + 4]);
    SkipWhiteIs(s, p + 3, p + 4);
    SkipNameIs(s, p + 4, p + 4 + n);
    SkipWhiteIs(s, p + 4 + n, p + 5 + n);
    StatementEndsAt(s, p, p);
    AssignmentEndsAt(s, p + 3, p + 4, p + 4 + n, p + 5 + n);
  }

  /** t is written in s from position p on, one character at a time. */
  predicate SitsAt(s: string, p: nat, t: string)
    decreases |t|
  {
    p + |t| <= |s| && (t == [] || (s[p] == t[0] && SitsAt(s, p + 1, t[1..])))
  }

  /** The k-th character of text sitting at p. */
  lemma {:induction false} CharAt(s: string, p: nat, t: string, k: nat)
    requires SitsAt(s, p, t) && k < |t|
    ensures s[p + k] == t[k]
    decreases k
  {
    if k > 0 {
      CharAt(s, p + 1, t[1..], k - 1);
    }
  }

  /** Text sitting at p splits into its two parts. */
  lemma {:induction false} SitsAtSplit(s: string, p: nat, t: string, u: string)
    requires SitsAt(s, p, t + u)
    ensures SitsAt(s, p, t) && SitsAt(s, p + |t|, u)
    decreases |t|
  {
    if t == [] {
      assert t + u == u;
    } else {
      assert (t + u)[0] == t[0] && (t + u)[1..] == t[1..] + u;
      SitsAtSplit(s, p + 1, t[1..], u);
    }
  }

  /** The characters of `SET`, white space, a variable of n characters and
      white space of width b, with `=` after them: the head of a statement
      at p whose keyword is followed by w white-space characters. */
  predicate HeadLaidOut(s: string, p: nat, w: nat, n: nat, b: nat) {
    var name := p + 3 + w;
    var eq := name + n + b;
    1 <= w && 1 <= n && eq < |s| && MatchesAt(s, p, "set")
    && (forall k :: p + 3 <= k < name ==> IsWhite(s[k]))
    && (forall k :: name <= k < name + n ==> IsNameChar(s[k]))
    && (forall k :: name + n <= k < eq ==> IsWhite(s[k]))
    && s[eq] == '='
  }

  /** The characters after the `=` at q - 1: white space of width c, a value
      of v non-white characters, `;`, and white space of width g followed by
      a non-white character. */
  predicate ValueLaidOut(s: string, q: nat, c: nat, v: nat, g: nat) {
    var value := q + c;
    var semi := value + v;
    var e := semi + 1 + g;
    1 <= v && 1 <= g && e < |s| && !IsWhite(s[e])
    && (forall k :: q <= k < value ==> IsWhite(s[k]))
    && (forall k :: value <= k < semi ==> !IsWhite(s[k]))
    && s[semi] == ';'
    && (forall k :: semi + 1 <= k < e ==> IsWhite(s[k]))
  }

  /** Where the scans of the head of a statement laid out at p stop. */
  lemma ScanHeadLaidOut(s: string, p: nat, w: nat, n: nat, b: nat)
    requires HeadLaidOut(s, p, w, n, b)
    ensures var name := p + 3 + w;
            SkipWhite(s, p) == p && SkipWhite(s, p + 3) == name
            && SkipName(s, name) == name + n && SkipWhite(s, name + n) == name + n + b
  {
    var name := p + 3 + w;
    var eq := name + n + b;
    assert Lower(s[p + 0]) == "set"[0];
    SkipWhiteIs(s, p, p);
    assert IsNameChar(s[name]);
    NameCharNotWhite(s[name]);
    SkipWhiteIs(s, p + 3, name);
    assert !IsNameChar(s[name + n]) by {
      if b == 0 {
        assert s[name + n] == '=';
      } else {
        assert IsWhite(s[name + n]);
      }
    }
    SkipNameIs(s, name, name + n);
    SkipWhiteIs(s, name + n, eq);
  }

  /** SetStatementEnd, given where each scan of the head stops. */
  lemma HeadChain(s: string, p: nat, name: nat, nameEnd: nat, eq: nat)
    requires p + 3 <= |s| && SkipWhite(s, p) == p && MatchesAt(s, p, "set")
    requires SkipWhite(s, p + 3) == name && name != p + 3
    requires SkipName(s, name) == nameEnd && nameEnd != name
    requires SkipWhite(s, nameEnd) == eq && eq < |s| && s[eq] == '='
    ensures SetStatementEnd(s, p) == ValueEnd(s, eq)
  {
    StatementEndsAt(s, p, p);
    AssignmentEndsAt(s, p + 3, name, nameEnd, eq);
  }

  /** Where the scans of the value of a statement laid out at q stop. */
  lemma ScanValueLaidOut(s: string, q: nat, c: nat, v: nat, g: nat)
    requires ValueLaidOut(s, q, c, v, g)
    ensures var semi := q + c + v;
            SkipWhite(s, q) == q + c && SkipNonWhite(s, q + c) == semi + 1
            && SkipWhite(s, semi + 1) == semi + 1 + g
  {
    var value := q + c;
    var semi := value + v;
    assert !IsWhite(s[value]);
    SkipWhiteIs(s, q, value);
    assert IsWhite(s[semi + 1]);
    SkipNonWhiteIs(s, value, semi + 1);
    SkipWhiteIs(s, semi + 1, semi + 1 + g);
  }

  /** The characters of the head of a well-formed statement sitting at p. */
  lemma HeadLaidOutAt(s: string, p: nat, a: SetAssignment)
    requires WellFormed(a) && SitsAt(s, p, HeadText(a))
    ensures HeadLaidOut(s, p, |a.space|, |a.variable|, |a.before|)
  {
    var name := p + 3 + |a.space|;
    var after := name + |a.variable|;
    var eq := after + |a.before|;
    SitsAtSplit(s, p, a.keyword, a.space + (a.variable + (a.before + "=")));
    SitsAtSplit(s, p + 3, a.space, a.variable + (a.before + "="));
    SitsAtSplit(s, name, a.variable, a.before + "=");
    SitsAtSplit(s, after, a.before, "=");
    forall k | 0 <= k < 3 ensures Lower(s[p + k]) == "set"[k] {
      CharAt(s, p, a.keyword, k);
      assert a.keyword[k] == a.keyword[0 + k];
    }
    forall k | p + 3 <= k < name ensures IsWhite(s[k]) {
      CharAt(s, p + 3, a.space, k - p - 3);
    }
    forall k | name <= k < after ensures IsNameChar(s[k]) {
      CharAt(s, name, a.variable, k - name);
    }
    forall k | after <= k < eq ensures IsWhite(s[k]) {
      CharAt(s, after, a.before, k - after);
    }
    CharAt(s, eq, "=", 0);
  }

  /** The characters of the value of a well-formed statement sitting at q,
      followed by a non-white character. */
  lemma ValueLaidOutAt(s: string, q: nat, a: SetAssignment)
    requires WellFormed(a) && SitsAt(s, q, ValueText(a))
    requires q + |ValueText(a)| < |s| && !IsWhite(s[q + |ValueText(a)|])
    ensures ValueLaidOut(s, q, |a.after|, |a.value|, |a.gap|)
  {
    var value := q + |a.after|;
    var semi := value + |a.value|;
    SitsAtSplit(s, q, a.after, a.value + (";" + a.gap));
    SitsAtSplit(s, value, a.value, ";" + a.gap);
    SitsAtSplit(s, semi, ";", a.gap);
    assert |ValueText(a)| == |a.after| + |a.value| + 1 + |a.gap|;
    forall k | q <= k < value ensures IsWhite(s[k]) {
      CharAt(s, q, a.after, k - q);
    }
    forall k | value <= k < semi ensures !IsWhite(s[k]) {
      CharAt(s, value, a.value, k - value);
    }
    CharAt(s, semi, ";", 0);
    forall k | semi + 1 <= k < semi + 1 + |a.gap| ensures IsWhite(s[k]) {
      CharAt(s, semi + 1, a.gap, k - semi - 1);
    }
  }

  /** SetStatementEnd, given where each scan of the statement at p stops. */
  lemma StatementChain(s: string, p: nat, name: nat, nameEnd: nat, eq: nat, value: nat, valueEnd: nat, e: nat)
    requires p + 3 <= |s| && SkipWhite(s, p) == p && MatchesAt(s, p, "set")
    requires SkipWhite(s, p + 3) == name && name != p + 3
    requires SkipName(s, name) == nameEnd && nameEnd != name
    requires SkipWhite(s, nameEnd) == eq && eq < |s| && s[eq] == '='
    requires SkipWhite(s, eq + 1) == value && SkipNonWhite(s, value) == valueEnd
    requires valueEnd >= value + 2 && s[valueEnd - 1] == ';' && SkipWhite(s, valueEnd) == e && e != valueEnd
    ensures SetStatementEnd(s, p) == Some(e)
  {
    ValueEndsAt(s, eq, value, valueEnd, e);
    HeadChain(s, p, name, nameEnd, eq);
  }

  /** Where the scans of the head of a well-formed statement sitting at p
      stop: after the white space at name, nameEnd and eq. */
  lemma HeadScansAt(s: string, p: nat, a: SetAssignment, name: nat, nameEnd: nat, eq: nat)
    requires WellFormed(a) && SitsAt(s, p, HeadText(a))
    requires name == p + 3 + |a.space| && nameEnd == name + |a.variable| && eq == nameEnd + |a.before|
    ensures eq < |s| && s[eq] == '=' && MatchesAt(s, p, "set")
    ensures SkipWhite(s, p) == p && SkipWhite(s, p + 3) == name
    ensures SkipName(s, name) == nameEnd && SkipWhite(s, nameEnd) == eq
  {
    HeadLaidOutAt(s, p, a);
    ScanHeadLaidOut(s, p, |a.space|, |a.variable|, |a.before|);
  }

  /** Where the scans of the value of a well-formed statement sitting at q,
      followed by a non-white character, stop: at value, valueEnd and e. */
  lemma ValueScansAt(s: string, q: nat, a: SetAssignment, value: nat, valueEnd: nat, e: nat)
    requires WellFormed(a) && SitsAt(s, q, ValueText(a))
    requires value == q + |a.after| && valueEnd == value + |a.value| + 1 && e == q + |ValueText(a)|
    requires e < |s| && !IsWhite(s[e])
    ensures valueEnd <= |s| && s[valueEnd - 1] == ';'
    ensures SkipWhite(s, q) == value && SkipNonWhite(s, value) == valueEnd && SkipWhite(s, valueEnd) == e
  {
    ValueLaidOutAt(s, q, a);
    ScanValueLaidOut(s, q, |a.after|, |a.value|, |a.gap|);
  }

  /** A well-formed statement whose text sits at p, followed by a non-white
      character at e, parses to its end. */
  lemma SetStatementEndAt(s: string, p: nat, a: SetAssignment, e: nat)
    requires WellFormed(a) && SitsAt(s, p, SetText(a)) && e == p + |SetText(a)|
    requires e < |s| && !IsWhite(s[e])
    ensures SetStatementEnd(s, p) == Some(e)
  {
    var name := p + 3 + |a.space|;
    var nameEnd := name + |a.variable|;
    var eq := nameEnd + |a.before|;
    var value := eq + 1 + |a.after|;
    var valueEnd := value + |a.value| + 1;
    assert |HeadText(a)| == eq + 1 - p;
    assert |SetText(a)| == |HeadText(a)| + |ValueText(a)|;
    SitsAtSplit(s, p, HeadText(a), ValueText(a));
    HeadScansAt(s, p, a, name, nameEnd, eq);
    ValueScansAt(s, eq + 1, a, value, valueEnd, e);
    StatementChain(s, p, name, nameEnd, eq, value, valueEnd, e);
  }

  /** What `SELECT` at p says about the characters there. */
  lemma SelectLetters(s: string, p: nat)
    requires MatchesAt(s, p, "select")
    ensures Lower(s[p]) == 's' && Lower(s[p + 2]) == 'l' && !IsWhite(s[p])
  {
    assert Lower(s[p + 0]) == "select"[0];
    assert Lower(s[p + 2]) == "select"[2];
  }

  /** Where `SELECT` starts, no SET statement does, so the run stops there. */
  lemma RunStopsAtSelect(s: string, p: nat)
    requires p <= |s| && MatchesAt(s, p, "select")
    ensures StatementsEnd(s, p) == p
  {
    SelectLetters(s, p);
    SkipWhiteIs(s, p, p);
    assert !MatchesAt(s, p, "set") by {
      assert "set"[2] == 't';
    }
  }

  /** The text of a run of statements followed by a SELECT starts with a
      character that is not white space. */
  lemma RunStartsSolid(s: string, p: nat, e: nat, assignments: seq<SetAssignment>)
    requires forall k :: 0 <= k < |assignments| ==> WellFormed(assignments[k])
    requires e == p + |PreludeText(assignments)| && SitsAt(s, p, PreludeText(assignments))
    requires MatchesAt(s, e, "select")
    ensures p < |s| && !IsWhite(s[p])
  {
    if assignments == [] {
      SelectLetters(s, p);
    } else {
      var a := assignments[0];
      CharAt(s, p, PreludeText(assignments), 0);
      assert s[p] == PreludeText(assignments)[0] == SetText(a)[0] == a.keyword[0];
      assert Lower(a.keyword[0 + 0]) == "set"[0];
    }
  }

  /** A statement ending at q continues the run from q. */
  lemma RunStep(s: string, p: nat, q: nat)
    requires p <= |s| && SetStatementEnd(s, p) == Some(q)
    ensures StatementsEnd(s, p) == StatementsEnd(s, q)
  {
  }

  lemma {:induction false} RunEnd(s: string, p: nat, e: nat, assignments: seq<SetAssignment>)
    requires forall k :: 0 <= k < |assignments| ==> WellFormed(assignments[k])
    requires e == p + |PreludeText(assignments)| && SitsAt(s, p, PreludeText(assignments))
    requires MatchesAt(s, e, "select")
    ensures StatementsEnd(s, p) == e
    decreases |assignments|
  {
    if assignments == [] {
      RunStopsAtSelect(s, p);
    } else {
      var a, rest := assignments[0], assignments[1..];
      var t, tail := SetText(a), PreludeText(rest);
      var q := p + |t|;
      assert PreludeText(assignments) == t + tail;
      SitsAtSplit(s, p, t, tail);
      RunStartsSolid(s, q, e, rest);
      SetStatementEndAt(s, p, a, q);
      RunStep(s, p, q);
      RunEnd(s, q, e, rest);
    }
  }

  /** The line written ahead of the outer DELETE or UPDATE: the prelude
      followed by a space and a line break, or nothing when the prelude is
      null or white space. */
  function Hoist(prelude: string): (lines: Sql)
    ensures AllText(lines)
    ensures lines == [] <==> IsBlank(prelude)
    ensures Render(lines) == if IsBlank(prelude) then "" else prelude + " " + NewLine
  {
    if IsBlank(prelude) then []
    else
      var line := [Text(prelude + " " + NewLine)];
      assert line[..0] == [];
      line
  }

  /** A prelude is hoisted exactly when ParseSql splits one off, and then it
      is written out unchanged. */
  lemma HoistParsed(sql: string)
    ensures var prelude := ParseSql(sql).prelude;
            (Hoist(prelude) == [] <==> prelude == [])
            && Render(Hoist(prelude)) == if prelude == [] then "" else prelude + " " + NewLine
  {
    var prelude := ParseSql(sql).prelude;
    PreludeBlankIffEmpty(sql);
  }

  /** A SELECT body keeps its keyword behind any prefix. */
  lemma SelectAfter(pre: string, body: string)
    requires IsSelectBody(body)
    ensures MatchesAt(pre + body, |pre|, "select")
    ensures SelectBodyAt(body, 0)
  {
    var sql := pre + body;
    forall k | 0 <= k < 6 ensures Lower(sql[|pre| + k]) == "select"[k] {
      assert sql[|pre| + k] == body[k];
    }
    SelectLetters(body, 0);
    SkipWhiteIs(body, 0, 0);
  }

  /** Text whose characters are those of s from p on sits at p. */
  lemma {:induction false} SitsAtChars(s: string, p: nat, t: string)
    requires p + |t| <= |s| && forall k :: 0 <= k < |t| ==> s[p + k] == t[k]
    ensures SitsAt(s, p, t)
    decreases |t|
  {
    if t != [] {
      forall k | 0 <= k < |t| - 1 ensures s[p + 1 + k] == t[1..][k] {
        assert s[p + (k + 1)] == t[k + 1];
      }
      SitsAtChars(s, p + 1, t[1..]);
    }
  }

  lemma SitsAtStart(pre: string, body: string)
    ensures SitsAt(pre + body, 0, pre)
  {
    SitsAtChars(pre + body, 0, pre);
  }

  lemma ParseSqlAt(sql: string, p: nat)
    requires p <= |sql| && StatementsEnd(sql, 0) == p && SelectBodyAt(sql[p..], 0)
    ensures ParseSql(sql) == Split(sql[..p], sql[p..])
  {
    SelectBodyShift(sql, p);
  }

  /** The run of statements in front of a SELECT body ends where the body starts. */
  lemma RunBeforeBody(assignments: seq<SetAssignment>, body: string)
    requires forall k :: 0 <= k < |assignments| ==> WellFormed(assignments[k])
    requires IsSelectBody(body)
    ensures StatementsEnd(PreludeText(assignments) + body, 0) == |PreludeText(assignments)|
  {
    var pre := PreludeText(assignments);
    SelectAfter(pre, body);
    SitsAtStart(pre, body);
    RunEnd(pre + body, 0, |pre|, assignments);
  }

  /** ParseSql splits a run of well-formed SET statements off a SELECT body
      exactly: the prelude is the run and the body is the rest. */
  lemma ParseSqlRoundTrip(assignments: seq<SetAssignment>, body: string)
    requires forall k :: 0 <= k < |assignments| ==> WellFormed(assignments[k])
    requires IsSelectBody(body)
    ensures ParseSql(PreludeText(assignments) + body) == Split(PreludeText(assignments), body)
  {
    var pre := PreludeText(assignments);
    var sql := pre + body;
    RunBeforeBody(assignments, body);
    assert sql[|pre|..] == body && sql[..|pre|] == pre;
    SelectAfter(pre, body);
    ParseSqlAt(sql, |pre|);
  }

  /** Where the parts of `SET <variable> = <first> <rest>` sit. */
  lemma SpacedLayout(variable: string, first: string, rest: string)
    ensures var s, n, v := "SET " + variable + " = " + first + " " + rest, |variable|, |first|;
            |s| == 8 + n + v + |rest|
            && s[0] == 'S' && s[1] == 'E' && s[2] == 'T' && s[3] == ' '
            && (forall k :: 4 <= k < 4 + n ==> s[k] == variable[k - 4])
            && s[4 + n] == ' ' && s[5 + n] == '=' && s[6 + n] == ' '
            && (forall k :: 7 + n <= k < 7 + n + v ==> s[k] == first[k - 7 - n])
            && s[7 + n + v] == ' '
  {
    var n, v := |variable|, |first|;
    var t1 := "SET " + variable;
    var t2 := t1 + " = ";
    var t3 := t2 + first;
    var t4 := t3 + " ";
    var s := t4 + rest;
    assert s == "SET " + variable + " = " + first + " " + rest;
    assert forall k :: 4 <= k < 4 + n ==> t1[k] == variable[k - 4];
    assert forall k :: 0 <= k < |t1| ==> t4[k] == t1[k];
    assert forall k :: 7 + n <= k < 7 + n + v ==> t3[k] == first[k - 7 - n];
    assert forall k :: 0 <= k < |t4| ==> s[k] == t4[k];
  }

  /** ValueEnd fails when the value's run of non-white characters does not end in `;`. */
  lemma ValueUnterminated(s: string, eq: nat, vs: nat, ve: nat)
    requires eq < |s| && SkipWhite(s, eq + 1) == vs && SkipNonWhite(s, vs) == ve && vs < ve && s[ve - 1] != ';'
    ensures ValueEnd(s, eq) == None
  {
  }

  /** The scan of a statement whose value stops at white space before any `;`. */
  lemma ScanSpaced(s: string, n: nat, v: nat)
    requires 1 <= n && 1 <= v && 8 + n + v <= |s|
    requires s[0] == 'S' && s[1] == 'E' && s[2] == 'T' && s[3] == ' '
    requires forall k :: 4 <= k < 4 + n ==> IsNameChar(s[k])
    requires s[4 + n] == ' ' && s[5 + n] == '=' && s[6 + n] == ' '
    requires forall k :: 7 + n <= k < 7 + n + v ==> !IsWhite(s[k])
    requires s[6 + n + v] != ';' && s[7 + n + v] == ' '
    ensures SetStatementEnd(s, 0) == None
  {
    ScanHead(s, 0, n);
    assert !IsWhite(s[7 + n]);
    SkipWhiteIs(s, 6 + n, 7 + n);
    SkipNonWhiteIs(s, 7 + n, 7 + n + v);
    ValueUnterminated(s, 5 + n, 7 + n, 7 + n + v);
  }

  /** Text that starts with `SET` and no statement is not split. */
  lemma NotSplit(s: string)
    requires |s| >= 3 && s[0] == 'S' && s[1] == 'E' && s[2] == 'T'
    requires SetStatementEnd(s, 0) == None
    ensures ParseSql(s) == Split("", s)
  {
    assert StatementsEnd(s, 0) == 0;
    assert !IsWhite(s[0]);
    SkipWhiteIs(s, 0, 0);
    assert Lower(s[0 + 2]) != "select"[2];
    assert !SelectBodyAt(s, 0);
  }

  /** A leading SET statement whose value holds white space (a quoted
      string with a blank in it, say) does not fit the pattern's value, a
      run of non-white characters closed by `;`, so the whole pattern fails
      and nothing is hoisted: the statement stays in the body that is
      nested into the outer statement. */
  lemma SpacedValueNotHoisted(variable: string, first: string, rest: string)
    requires variable != [] && forall k :: 0 <= k < |variable| ==> IsNameChar(variable[k])
    requires first != [] && forall k :: 0 <= k < |first| ==> !IsWhite(first[k])
    requires first[|first| - 1] != ';'
    ensures var sql := "SET " + variable + " = " + first + " " + rest;
            ParseSql(sql) == Split("", sql)
  {
    var s := "SET " + variable + " = " + first + " " + rest;
    var n, v := |variable|, |first|;
    SpacedLayout(variable, first, rest);
    assert forall k :: 4 <= k < 4 + n ==> IsNameChar(s[k]) by {
      forall k | 4 <= k < 4 + n ensures IsNameChar(s[k]) {
        assert s[k] == variable[k - 4];
      }
    }
    assert forall k :: 7 + n <= k < 7 + n + v ==> !IsWhite(s[k]) by {
      forall k | 7 + n <= k < 7 + n + v ensures !IsWhite(s[k]) {
        assert s[k] == first[k - 7 - n];
      }
    }
    assert s[6 + n + v] == first[v - 1];
    ScanSpaced(s, n, v);
    NotSplit(s);
  }
}
