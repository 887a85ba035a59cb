/**
 * The projection decomposer and alias rewriter of BulkUpdate
 * (Phy.EfBulk/DbBulkExtensions.cs:303-326). When an assigned value reads
 * the row, the source compiles `query.Select(value)` to SQL, cuts the
 * projected column and the table alias out of it with two regular
 * expressions, and replaces the alias by the UPDATE's own alias `ut1`.
 *
 * The regular expressions are modelled as the deterministic scans their
 * greedy matching amounts to:
 *   - the projection pattern (`SELECT`, a column of any characters, `FROM`,
 *     an optional table reference, then optionally `AS` and a table alias,
 *     with optional white space between the parts), ignoring case and
 *     unanchored: the match starts at the first `SELECT`;
 *     the column, being greedy, runs up to the LAST `FROM` (at least one
 *     character after `SELECT`), keeping any white space before `FROM`;
 *     everything after `FROM` is optional, so the first way through wins:
 *     a table reference if one is there, then `AS` and an alias if both are.
 *   - the column pattern (a value, optionally followed by `AS` and an alias
 *     of word characters, backquotes and brackets, up to the end),
 *     ignoring case: the value is cut before the LAST `AS` that is
 *     followed only by alias characters and white space; without one, the
 *     value is the column after its leading white space.
 *   - the replacement pattern, the alias not preceded by a word character,
 *     with the alias spliced in unescaped and matched case-sensitively:
 *     a `[name]` alias becomes a character class matching any one of its
 *     characters; there is no boundary after the alias.
 * White space, word characters and case folding are those of ASCII.
 */
module ProjectionRewrite {
  import opened Wrappers
  import opened SqlText
  import opened Mapping

  /** The alias the UPDATE statement gives the updated table. */
  const UpdateAlias: string := "ut1"

  /** The raised error when the compiled projection does not match. */
  const ProcessError: Error := ArgumentError("The MemberAssignment expression could not be processed.", "updater")

  /** The groups the first regular expression captures. */
  datatype Projection = Projection(column: string, tableName: string, tableAlias: string)

  // ---------------------------------------------------------------------
  // Scanning

  /** The first position at or after i where `word` starts, ignoring case. */
  function FirstAt(s: string, word: string, i: nat): (r: Option<nat>)
    requires i <= |s|
    ensures r.Some? ==> i <= r.value <= |s| && MatchesAt(s, r.value, word)
    ensures r.Some? ==> forall q :: i <= q < r.value ==> !MatchesAt(s, q, word)
    ensures r.None? ==> forall q :: i <= q <= |s| ==> !MatchesAt(s, q, word)
    decreases |s| - i
  {
    if MatchesAt(s, i, word) then Some(i)
    else if i == |s| then None
    else FirstAt(s, word, i + 1)
  }

  /** The last position in [lo, hi) where `word` starts, ignoring case. */
  function LastIn(s: string, word: string, lo: nat, hi: nat): (r: Option<nat>)
    ensures r.Some? ==> lo <= r.value < hi && MatchesAt(s, r.value, word) && r.value + |word| <= |s|
    ensures r.Some? ==> forall q :: r.value < q < hi ==> !MatchesAt(s, q, word)
    ensures r.None? ==> forall q :: lo <= q < hi ==> !MatchesAt(s, q, word)
    decreases hi
  {
    if hi <= lo then None
    else if MatchesAt(s, hi - 1, word) then Some(hi - 1)
    else LastIn(s, word, lo, hi - 1)
  }

  /** The end of the run of word characters starting at i. */
  function SkipWord(s: string, i: nat): (j: nat)
    requires i <= |s|
    ensures i <= j <= |s|
    ensures forall k :: i <= k < j ==> IsWord(s[k])
    ensures j < |s| ==> !IsWord(s[j])
    decreases |s| - i
  {
    if i < |s| && IsWord(s[i]) then SkipWord(s, i + 1) else i
  }

  /** A table reference at i (word characters, bare, in backquotes or in
      brackets): where it ends, if it matches. */
  function TableRefEnd(s: string, i: nat): (r: Option<nat>)
    requires i <= |s|
    ensures r.Some? ==> i < r.value <= |s|
  {
    var w := SkipWord(s, i);
    if w > i then Some(w)
    else if i < |s| && (s[i] == '`' || s[i] == '[') then
      var close := if s[i] == '`' then '`' else ']';
      var e := SkipWord(s, i + 1);
      if e > i + 1 && e < |s| && s[e] == close then Some(e + 1) else None
    else None
  }

  /** The text captured by the optional table-reference group at i. */
  function TableRefAt(s: string, i: nat): (r: string)
    requires i <= |s|
  {
    match TableRefEnd(s, i)
    case None => ""
    case Some(e) => s[i..e]
  }

  // ---------------------------------------------------------------------
  // Decomposition of the compiled projection

  /** Where the end of the table-reference group lies: after it, or at t when it is absent. */
  function TableEnd(sql: string, t: nat): (e: nat)
    requires t <= |sql|
    ensures t <= e <= |sql|
  {
    match TableRefEnd(sql, t)
    case None => t
    case Some(e) => e
  }

  /** The optional `AS` and table alias after the table reference. */
  function AliasAfter(sql: string, i: nat): string
    requires i <= |sql|
  {
    AliasFrom(sql, SkipWhite(sql, i))
  }

  /** The alias part once the white space before `AS` is skipped. */
  function AliasFrom(sql: string, a: nat): string
    requires a <= |sql|
  {
    if MatchesAt(sql, a, "as") then TableRefAt(sql, SkipWhite(sql, a + 2)) else ""
  }

  /** The groups, once `SELECT` is found at s and the last `FROM` at f. */
  function ProjectionAt(sql: string, s: nat, f: nat): (p: Projection)
    requires s + 7 <= f && f + 4 <= |sql|
    ensures |p.column| >= 1
    ensures GroupsAt(sql, s, f, p)
  {
    var c := SkipWhite(sql, s + 6);
    var start := if c < f then c else f - 1;
    var t := SkipWhite(sql, f + 4);
    Projection(sql[start..f], sql[t..TableEnd(sql, t)], AliasAfter(sql, TableEnd(sql, t)))
  }

  /** The Column group, with `SELECT` at s and `FROM` at f: a non-empty
      slice ending at f, after the white space that follows `SELECT`; it
      starts with a character that is not white space unless only its last
      character is left. */
  predicate ColumnBefore(sql: string, s: nat, f: nat, column: string)
    requires s + 7 <= f <= |sql|
  {
    var c := f - |column|;
    s + 6 <= c < f && column == sql[c..f]
    && (forall k :: s + 6 <= k < c ==> IsWhite(sql[k]))
    && (c + 1 < f ==> !IsWhite(sql[c]))
  }

  /** The three groups, with `SELECT` at s and the last `FROM` at f: the
      column before f, then the table reference read after the white space
      that follows `FROM`, then the optional `AS` alias after that. */
  predicate GroupsAt(sql: string, s: nat, f: nat, p: Projection)
    requires s + 7 <= f && f + 4 <= |sql|
  {
    var t := SkipWhite(sql, f + 4);
    ColumnBefore(sql, s, f, p.column)
    && p.tableName == TableRefAt(sql, t)
    && p.tableAlias == AliasAfter(sql, TableEnd(sql, t))
  }

  /** The first regular expression applied to the projection's SQL. The
      match starts at the first `SELECT`; the column runs up to the last
      `FROM` at least one character later; the table reference and the
      alias are read after that `FROM`. */
  function Decompose(sql: string): (r: Result<Projection, Error>)
    ensures r.Failure? ==> r.error == ProcessError
    ensures r.Success? <==>
              FirstAt(sql, "select", 0).Some?
              && LastIn(sql, "from", FirstAt(sql, "select", 0).value + 7, |sql|).Some?
    ensures r.Success? ==>
              var s := FirstAt(sql, "select", 0).value;
              GroupsAt(sql, s, LastIn(sql, "from", s + 7, |sql|).value, r.value)
  {
    match FirstAt(sql, "select", 0)
    case None => Failure(ProcessError)
    case Some(s) => DecomposeLast(sql, s, LastIn(sql, "from", s + 7, |sql|))
  }

  /** The rest of the match, once the last `FROM` after `SELECT` at s is searched for. */
  function DecomposeLast(sql: string, s: nat, from: Option<nat>): (r: Result<Projection, Error>)
    requires from.Some? ==> s + 7 <= from.value && from.value + 4 <= |sql|
    ensures r.Failure? ==> r.error == ProcessError
    ensures r.Success? <==> from.Some?
    ensures r.Success? ==> GroupsAt(sql, s, from.value, r.value)
  {
    match from
    case None => Failure(ProcessError)
    case Some(f) => Success(ProjectionAt(sql, s, f))
  }

  /** Where the column group of a match sits in the text. */
  lemma ColumnAt(sql: string) returns (c: nat, f: nat)
    requires Decompose(sql).Success?
    ensures c <= f <= |sql| && Decompose(sql).value.column == sql[c..f]
  {
    var s := FirstAt(sql, "select", 0).value;
    f := LastIn(sql, "from", s + 7, |sql|).value;
    c := f - |Decompose(sql).value.column|;
  }

  /** The projection decomposes exactly when some `SELECT` is followed, at
      least one character after it, by some `FROM`. */
  lemma DecomposeSucceedsIff(sql: string)
    ensures Decompose(sql).Success? <==>
            exists s: nat, f: nat :: MatchesAt(sql, s, "select") && MatchesAt(sql, f, "from") && s + 7 <= f
  {
    var first := FirstAt(sql, "select", 0);
    if first.Some? {
      var s := first.value;
      var last := LastIn(sql, "from", s + 7, |sql|);
      if last.Some? {
        assert MatchesAt(sql, s, "select") && MatchesAt(sql, last.value, "from") && s + 7 <= last.value;
      }
    }
    if exists s: nat, f: nat :: MatchesAt(sql, s, "select") && MatchesAt(sql, f, "from") && s + 7 <= f {
      var s: nat, f: nat :| MatchesAt(sql, s, "select") && MatchesAt(sql, f, "from") && s + 7 <= f;
      assert s <= |sql|;
      assert first.Some? && first.value <= s;
      assert first.value + 7 <= f < |sql|;
    }
  }

  // ---------------------------------------------------------------------
  // The column value

  predicate IsAliasChar(c: char) {
    c == '`' || c == '[' || c == ']' || IsWord(c)
  }

  /** The end of the run of alias characters (word characters, backquotes
      and brackets) starting at i. */
  function SkipAliasChars(s: string, i: nat): (j: nat)
    requires i <= |s|
    ensures i <= j <= |s|
    ensures forall k :: i <= k < j ==> IsAliasChar(s[k])
    ensures j < |s| ==> !IsAliasChar(s[j])
    decreases |s| - i
  {
    if i < |s| && IsAliasChar(s[i]) then SkipAliasChars(s, i + 1) else i
  }

  /** From i to the end: optional white space, at least one alias character
      (word characters, backquotes, brackets), optional white space. */
  predicate AliasTail(col: string, i: nat)
    requires i <= |col|
  {
    var a := SkipWhite(col, i);
    var b := SkipAliasChars(col, a);
    b > a && SkipWhite(col, b) == |col|
  }

  predicate AliasAt(col: string, q: nat) {
    q + 2 <= |col| && MatchesAt(col, q, "as") && AliasTail(col, q + 2)
  }

  /** The last position in [lo, hi) where `holds` is true. */
  function LastWhere(holds: nat -> bool, lo: nat, hi: nat): (r: Option<nat>)
    ensures r.Some? ==> lo <= r.value < hi && holds(r.value)
    ensures r.Some? ==> forall q: nat :: r.value < q < hi ==> !holds(q)
    ensures r.None? ==> forall q: nat :: lo <= q < hi ==> !holds(q)
    decreases hi
  {
    if hi <= lo then None
    else if holds(hi - 1) then Some(hi - 1)
    else LastWhere(holds, lo, hi - 1)
  }

  /** The last position in [lo, hi) where `AS` starts an alias tail. */
  function LastAlias(col: string, lo: nat, hi: nat): (r: Option<nat>)
    ensures r.Some? ==> lo <= r.value < hi && AliasAt(col, r.value)
  {
    LastWhere((q: nat) => AliasAt(col, q), lo, hi)
  }

  /** No alias tail lies after the one LastAlias finds, nor in the range when it finds none. */
  lemma LastAliasIsLast(col: string, lo: nat, hi: nat)
    ensures var r := LastAlias(col, lo, hi);
            (r.Some? ==> forall q: nat :: r.value < q < hi ==> !AliasAt(col, q))
            && (r.None? ==> forall q: nat :: lo <= q < hi ==> !AliasAt(col, q))
  {
    var holds := (q: nat) => AliasAt(col, q);
    var r := LastWhere(holds, lo, hi);
    var from := if r.Some? then r.value + 1 else lo;
    forall q: nat | from <= q < hi ensures !AliasAt(col, q) {
      assert !holds(q);
    }
  }

  /** Where the ColumnValue group starts: after the column's leading white
      space, but no later than its last character, as the group takes at
      least one. */
  function ValueStart(col: string): (start: nat)
    requires col != []
    ensures start < |col|
    ensures forall k :: 0 <= k < start ==> IsWhite(col[k])
    ensures start + 1 < |col| ==> !IsWhite(col[start])
  {
    var l := SkipWhite(col, 0);
    if l < |col| then l else |col| - 1
  }

  /** v is the value group of col when the value starts at start: it runs
      from there to the last `AS` that starts an alias tail, or to the end
      of col when no `AS` after start does. */
  predicate ValueGroupAt(col: string, start: nat, v: string) {
    var e := start + |v|;
    start < e <= |col| && v == col[start..e]
    && (e < |col| ==> AliasAt(col, e) && forall q: nat :: e < q < |col| ==> !AliasAt(col, q))
    && (e == |col| ==> forall q: nat :: start < q < |col| ==> !AliasAt(col, q))
  }

  /** The second regular expression: the ColumnValue group of the column.
      It is the slice from ValueStart up to the last `AS` that starts an
      alias tail, or up to the end of the column when no `AS` does. */
  function ColumnValue(col: string): (v: string)
    ensures col == [] ==> v == []
    ensures col != [] ==> ValueGroupAt(col, ValueStart(col), v)
  {
    if col == [] then []
    else
      var start := ValueStart(col);
      LastAliasIsLast(col, start + 1, |col|);
      match LastAlias(col, start + 1, |col|)
      case Some(q) => col[start..q]
      case None => col[start..]
  }

  /** Where the column value sits in its column. */
  lemma ValueBounds(col: string) returns (start: nat, e: nat)
    ensures start <= e <= |col| && ColumnValue(col) == col[start..e]
  {
    if col == [] {
      start, e := 0, 0;
    } else {
      start := ValueStart(col);
      e := start + |ColumnValue(col)|;
    }
  }

  // ---------------------------------------------------------------------
  // The alias rewrite

  /** What the spliced alias matches: itself, or, written `[chars]`, any one of its characters. */
  datatype AliasPattern = Literal(text: string) | OneOf(chars: string)

  function PatternOf(alias: string): (p: AliasPattern)
    ensures alias != [] ==> PatternLength(p) >= 1
  {
    if |alias| >= 3 && alias[0] == '[' && alias[|alias| - 1] == ']' then OneOf(alias[1..|alias| - 1])
    else Literal(alias)
  }

  function PatternLength(p: AliasPattern): nat {
    match p
    case Literal(w) => |w|
    case OneOf(_) => 1
  }

  predicate PatternAt(v: string, i: nat, p: AliasPattern) {
    match p
    case Literal(w) => i + |w| <= |v| && forall k :: 0 <= k < |w| ==> v[i + k] == w[k]
    case OneOf(cs) => i < |v| && v[i] in cs
  }

  /** The pattern at i, with no word character just before it. */
  predicate HitAt(v: string, i: nat, p: AliasPattern)
    requires i <= |v|
  {
    (i == 0 || !IsWord(v[i - 1])) && PatternAt(v, i, p)
  }

  /** Regex.Replace from position i on: matches are taken left to right,
      the scan resumes after each, and the lookbehind reads the original text. */
  function ReplaceFrom(v: string, p: AliasPattern, i: nat): (r: string)
    requires i <= |v|
    requires PatternLength(p) >= 1
    decreases |v| - i
  {
    if i == |v| then []
    else if HitAt(v, i, p) && i + PatternLength(p) <= |v| then UpdateAlias + ReplaceFrom(v, p, i + PatternLength(p))
    else [v[i]] + ReplaceFrom(v, p, i + 1)
  }

  /** No occurrence of the pattern from i on: the rewrite leaves that part alone. */
  predicate NoHitFrom(v: string, p: AliasPattern, i: nat) {
    forall j :: i <= j < |v| ==> !HitAt(v, j, p)
  }

  /** The first match at or after i, if any. */
  function FirstHit(v: string, p: AliasPattern, i: nat): (r: Option<nat>)
    requires i <= |v|
    ensures r.None? <==> NoHitFrom(v, p, i)
    ensures r.Some? ==> i <= r.value < |v| && HitAt(v, r.value, p)
                        && forall j :: i <= j < r.value ==> !HitAt(v, j, p)
    decreases |v| - i
  {
    if i == |v| then None
    else if HitAt(v, i, p) then Some(i)
    else FirstHit(v, p, i + 1)
  }

  /** The rewrite of the column value, applied when the alias is not empty:
      the text before the first occurrence of the alias that does not
      follow a word character is copied, that occurrence becomes `ut1`,
      and the replacement goes on after it; text with no such occurrence
      is left as it is. */
  function Rewrite(value: string, alias: string): (r: string)
    requires alias != []
    ensures NoHitFrom(value, PatternOf(alias), 0) ==> r == value
    ensures FirstHit(value, PatternOf(alias), 0).Some? ==>
              var h, n := FirstHit(value, PatternOf(alias), 0).value, PatternLength(PatternOf(alias));
              h + n <= |value| && r == value[..h] + UpdateAlias + ReplaceFrom(value, PatternOf(alias), h + n)
  {
    var p := PatternOf(alias);
    ReplaceUnchanged(value, p, 0);
    match FirstHit(value, p, 0)
    case None => ReplaceFrom(value, p, 0)
    case Some(h) =>
      ReplaceFirstHit(value, p, 0, h);
      ReplaceFrom(value, p, 0)
  }

  /** Regex.Replace at the first match h from i on: what comes before it is
      copied, the match becomes `ut1`, and the scan resumes right after it. */
  lemma {:induction false} ReplaceFirstHit(v: string, p: AliasPattern, i: nat, h: nat)
    requires PatternLength(p) >= 1 && i <= h < |v| && HitAt(v, h, p)
    requires forall j :: i <= j < h ==> !HitAt(v, j, p)
    ensures h + PatternLength(p) <= |v|
    ensures ReplaceFrom(v, p, i) == v[i..h] + UpdateAlias + ReplaceFrom(v, p, h + PatternLength(p))
  {
    ReplaceCopies(v, p, i, h);
    ReplaceHit(v, p, h);
  }

  /** Text with no match from i on comes out of the replacement unchanged. */
  lemma {:induction false} ReplaceUnchanged(v: string, p: AliasPattern, i: nat)
    requires i <= |v| && PatternLength(p) >= 1
    ensures NoHitFrom(v, p, i) ==> ReplaceFrom(v, p, i) == v[i..]
    decreases |v| - i
  {
    if i < |v| && NoHitFrom(v, p, i) {
      assert !HitAt(v, i, p);
      ReplaceUnchanged(v, p, i + 1);
      assert v[i..] == [v[i]] + v[i + 1..];
    }
  }

  /** An alias written as a name or in backquotes is matched as itself; so
      a qualified reference `alias.column` becomes `ut1.column`, provided the
      column does not itself contain the alias. */
  lemma RewriteReference(alias: string, column: string)
    requires alias != [] && PatternOf(alias) == Literal(alias) && alias[0] != '.'
    requires forall j :: 0 <= j < |column| ==> !PatternAt(column, j, Literal(alias))
    ensures Rewrite(alias + "." + column, alias) == UpdateAlias + "." + column
  {
    var v := alias + "." + column;
    var p := Literal(alias);
    var n := |alias|;
    assert HitAt(v, 0, p);
    assert v[n] == '.';
    assert !PatternAt(v, n, p);
    assert forall j :: n + 1 <= j < |v| ==> !HitAt(v, j, p) by {
      forall j | n + 1 <= j < |v| ensures !PatternAt(v, j, p) {
        if j + n <= |v| {
          var c := j - n - 1;
          assert !PatternAt(column, c, p);
          var k :| 0 <= k < n && column[c + k] != alias[k];
          assert v[j + k] == column[c + k];
        }
      }
    }
    assert NoHitFrom(v, p, n + 1);
    ReplaceUnchanged(v, p, n + 1);
    assert ReplaceFrom(v, p, n) == [v[n]] + ReplaceFrom(v, p, n + 1);
    assert ReplaceFrom(v, p, 0) == UpdateAlias + ReplaceFrom(v, p, n);
    assert v[n + 1..] == column;
  }

  /** The alias, where it occurs once without a word character before it,
      becomes `ut1` wherever it sits in the text. */
  lemma RewriteInside(pre: string, alias: string, tail: string)
    requires alias != [] && PatternOf(alias) == Literal(alias)
    requires pre == [] || !IsWord(pre[|pre| - 1])
    requires forall j :: 0 <= j < |pre + alias + tail| && j != |pre|
               ==> !HitAt(pre + alias + tail, j, Literal(alias))
    ensures Rewrite(pre + alias + tail, alias) == pre + UpdateAlias + tail
  {
    var v, p, h := pre + alias + tail, Literal(alias), |pre|;
    assert v[h..h + |alias|] == alias;
    assert HitAt(v, h, p) by {
      assert forall k :: 0 <= k < |alias| ==> v[h + k] == alias[k];
      if h > 0 {
        assert v[h - 1] == pre[h - 1];
      }
    }
    var e := h + |alias|;
    assert PatternLength(p) == |alias|;
    FirstHitOnly(v, p, h);
    assert Rewrite(v, alias) == v[..h] + UpdateAlias + ReplaceFrom(v, p, e);
    assert NoHitFrom(v, p, e);
    ReplaceUnchanged(v, p, e);
    assert v[..h] == pre && v[e..] == tail;
  }

  /** A text whose only match is at h has its first match there. */
  lemma FirstHitOnly(v: string, p: AliasPattern, h: nat)
    requires h < |v| && HitAt(v, h, p)
    requires forall j :: 0 <= j < |v| && j != h ==> !HitAt(v, j, p)
    ensures FirstHit(v, p, 0) == Some(h)
  {
    assert !NoHitFrom(v, p, 0);
    assert HitAt(v, FirstHit(v, p, 0).value, p);
  }

  /** A column with no trailing `AS name` is its own value, once it starts
      with a character that is not white space. */
  lemma ColumnValueNoAlias(col: string)
    requires col != [] && !IsWhite(col[0])
    requires forall q: nat :: q < |col| ==> !AliasAt(col, q)
    ensures ColumnValue(col) == col
  {
    var start, e := ValueBounds(col);
    assert ValueStart(col) == 0;
    assert ValueGroupAt(col, 0, ColumnValue(col));
  }

  /** Without `AS` anywhere, the column value is the column after its
      leading white space. */
  lemma ColumnValuePlain(space: string, col: string)
    requires IsBlank(space) && col != [] && !IsWhite(col[0])
    requires forall q :: 0 <= q < |space + col| ==> !MatchesAt(space + col, q, "as")
    ensures ColumnValue(space + col) == col
  {
    var text := space + col;
    SkipWhiteIs(text, 0, |space|);
    LastAliasIsLast(text, |space| + 1, |text|);
    assert text[|space|..] == col;
  }

  /** `AS name` at the end of a column is an alias tail. */
  lemma AliasAtEnd(value: string, name: string)
    requires name != [] && forall k :: 0 <= k < |name| ==> IsAliasChar(name[k])
    ensures AliasAt(value + " AS " + name, |value| + 1)
  {
    var col := value + " AS " + name;
    var q := |value| + 1;
    assert col[q] == 'A' && col[q + 1] == 'S' && col[q + 2] == ' ';
    assert MatchesAt(col, q, "as");
    assert forall k :: q + 3 <= k < |col| ==> col[k] == name[k - q - 3];
    assert !IsWhite(col[q + 3]) by {
      assert IsAliasChar(name[0]);
    }
    SkipWhiteIs(col, q + 2, q + 3);
    assert SkipAliasChars(col, q + 3) == |col|;
  }

  /** No `AS` starts after the one before the alias name. */
  lemma NoAsAfter(value: string, name: string)
    requires forall q :: 0 <= q < |name| ==> !MatchesAt(name, q, "as")
    ensures var col := value + " AS " + name;
            forall r :: |value| + 1 < r < |col| ==> !MatchesAt(col, r, "as")
  {
    var col := value + " AS " + name;
    var q := |value| + 1;
    forall r | q < r < |col| ensures !MatchesAt(col, r, "as") {
      if r == q + 1 {
        assert col[r + 1] == ' ';
        assert Lower(col[r + 1]) != "as"[1];
      } else if r == q + 2 {
        assert col[r] == ' ';
        assert Lower(col[r + 0]) != "as"[0];
      } else {
        assert !MatchesAt(name, r - q - 3, "as");
      }
    }
  }

  /** A column aliased with `AS` loses the alias, keeping the white space
      before `AS`, provided the alias name does not itself contain `as`. */
  lemma ColumnValueAliased(value: string, name: string)
    requires value != [] && !IsWhite(value[0])
    requires name != [] && forall k :: 0 <= k < |name| ==> IsAliasChar(name[k])
    requires forall q :: 0 <= q < |name| ==> !MatchesAt(name, q, "as")
    ensures ColumnValue(value + " AS " + name) == value + " "
  {
    var col := value + " AS " + name;
    var q := |value| + 1;
    assert col[0] == value[0];
    SkipWhiteIs(col, 0, 0);
    AliasAtEnd(value, name);
    NoAsAfter(value, name);
    assert LastAlias(col, 1, |col|) == Some(q) by {
      LastAliasIs(col, 1, |col|, q);
    }
    assert col[0..q] == value + " ";
  }

  lemma LastAliasIs(col: string, lo: nat, hi: nat, q: nat)
    requires lo <= q < hi && AliasAt(col, q)
    requires forall r :: q < r < hi ==> !MatchesAt(col, r, "as")
    ensures LastAlias(col, lo, hi) == Some(q)
  {
    var holds := (r: nat) => AliasAt(col, r);
    forall r: nat | q < r < hi ensures !holds(r) {
      assert !MatchesAt(col, r, "as");
    }
    LastWhereIs(holds, lo, hi, q);
  }

  /** LastWhere finds q when `holds` is true at q and nowhere after it. */
  lemma {:induction false} LastWhereIs(holds: nat -> bool, lo: nat, hi: nat, q: nat)
    requires lo <= q < hi && holds(q)
    requires forall r: nat :: q < r < hi ==> !holds(r)
    ensures LastWhere(holds, lo, hi) == Some(q)
    decreases hi
  {
    if hi - 1 != q {
      LastWhereIs(holds, lo, hi - 1, q);
    }
  }

  /** The greedy value group cuts at the last `as` followed by alias
      characters, even one inside the alias name. */
  lemma ColumnValueCutsInsideAlias()
    ensures ColumnValue("x AS Class") == "x AS Cl"
  {
    var col := "x AS Class";
    assert !AliasAt(col, 9);
    assert !AliasAt(col, 8);
    assert MatchesAt(col, 7, "as");
    SkipWhiteIs(col, 9, 9);
    SkipWhiteIs(col, 10, 10);
    assert SkipAliasChars(col, 9) == 10;
    assert AliasAt(col, 7);
    assert LastAlias(col, 1, 10) == Some(7);
    SkipWhiteIs(col, 0, 0);
  }

  /** A stretch without a match is copied as it stands. */
  lemma {:induction false} ReplaceCopies(v: string, p: AliasPattern, i: nat, j: nat)
    requires i <= j <= |v| && PatternLength(p) >= 1
    requires forall k :: i <= k < j ==> !HitAt(v, k, p)
    ensures ReplaceFrom(v, p, i) == v[i..j] + ReplaceFrom(v, p, j)
    decreases j - i
  {
    if i < j {
      var rest := ReplaceFrom(v, p, j);
      calc {
        ReplaceFrom(v, p, i);
      == { ReplaceMiss(v, p, i); }
        [v[i]] + ReplaceFrom(v, p, i + 1);
      == { ReplaceCopies(v, p, i + 1, j); }
        [v[i]] + (v[i + 1..j] + rest);
      == { assert v[i..j] == [v[i]] + v[i + 1..j]; }
        v[i..j] + rest;
      }
    }
  }

  /** A position without a match is copied and the scan moves one on. */
  lemma ReplaceMiss(v: string, p: AliasPattern, i: nat)
    requires i < |v| && PatternLength(p) >= 1 && !HitAt(v, i, p)
    ensures ReplaceFrom(v, p, i) == [v[i]] + ReplaceFrom(v, p, i + 1)
  {
  }

  /** A match is replaced by the UPDATE's alias and the scan resumes after it. */
  lemma ReplaceHit(v: string, p: AliasPattern, i: nat)
    requires i + PatternLength(p) <= |v| && PatternLength(p) >= 1 && HitAt(v, i, p)
    ensures ReplaceFrom(v, p, i) == UpdateAlias + ReplaceFrom(v, p, i + PatternLength(p))
  {
  }

  /** The rewrite has no boundary after the alias: a word that merely
      starts with it is cut. */
  lemma RewriteNoRightBoundary()
    ensures Rewrite("o.a+od", "o") == "ut1.a+ut1d"
  {
    RewriteCutsWord("o.a+od");
  }

  lemma RewriteCutsWord(v: string)
    requires v == "o.a+od"
    ensures Rewrite(v, "o") == "ut1.a+ut1d"
  {
    var p := Literal("o");
    assert PatternOf("o") == p;
    assert v[0] == 'o' && v[4] == 'o' && v[3] == '+';
    assert v[1] != 'o' && v[2] != 'o' && v[3] != 'o' && v[5] != 'o';
    assert v[1..4] == ".a+" && v[5..6] == "d";
    calc {
      Rewrite(v, "o");
      ReplaceFrom(v, p, 0);
    == { ReplaceHit(v, p, 0); }
      UpdateAlias + ReplaceFrom(v, p, 1);
    == { ReplaceCopies(v, p, 1, 4); }
      UpdateAlias + (v[1..4] + ReplaceFrom(v, p, 4));
    == { ReplaceHit(v, p, 4); }
      UpdateAlias + (v[1..4] + (UpdateAlias + ReplaceFrom(v, p, 5)));
    == { ReplaceCopies(v, p, 5, 6); }
      UpdateAlias + (v[1..4] + (UpdateAlias + (v[5..6] + ReplaceFrom(v, p, 6))));
    ==
      "ut1" + (".a+" + ("ut1" + ("d" + [])));
    }
  }

  /** A bracketed alias is a character class: it matches one of its
      characters, so only the name inside the brackets is replaced. */
  lemma RewriteBracketAlias()
    ensures Rewrite("[o].[a]", "[o]") == "[ut1].[a]"
  {
    RewriteBracketed("[o].[a]");
  }

  lemma RewriteBracketed(v: string)
    requires v == "[o].[a]"
    ensures Rewrite(v, "[o]") == "[ut1].[a]"
  {
    var p := OneOf("o");
    assert PatternOf("[o]") == p;
    assert v[0] == '[' && v[1] == 'o';
    assert v[0..1] == "[" && v[2..7] == "].[a]";
    calc {
      Rewrite(v, "[o]");
      ReplaceFrom(v, p, 0);
    == { ReplaceCopies(v, p, 0, 1); }
      v[0..1] + ReplaceFrom(v, p, 1);
    == { ReplaceHit(v, p, 1); }
      v[0..1] + (UpdateAlias + ReplaceFrom(v, p, 2));
    == { ReplaceCopies(v, p, 2, 7); }
      v[0..1] + (UpdateAlias + (v[2..7] + ReplaceFrom(v, p, 7)));
    ==
      "[" + ("ut1" + ("].[a]" + []));
    }
  }

  // ---------------------------------------------------------------------
  // The projection as the query compiler writes it

  predicate AllWord(w: string) {
    forall k :: 0 <= k < |w| ==> IsWord(w[k])
  }

  /** A table reference in one of the three forms the pattern accepts. */
  predicate IsTableRef(t: string) {
    |t| >= 1
    && (AllWord(t)
        || (|t| >= 3 && ((t[0] == '`' && t[|t| - 1] == '`') || (t[0] == '[' && t[|t| - 1] == ']'))
            && AllWord(t[1..|t| - 1])))
  }

  /** No `FROM`, in any case, anywhere in x. */
  predicate NoFrom(x: string) {
    forall q :: 0 <= q < |x| ==> !MatchesAt(x, q, "from")
  }

  lemma SkipWordIs(s: string, i: nat, j: nat)
    requires i <= j <= |s|
    requires forall k :: i <= k < j ==> IsWord(s[k])
    requires j < |s| ==> !IsWord(s[j])
    ensures SkipWord(s, i) == j
  {
  }

  /** A table reference sitting at i, followed by a non-word character, is read whole. */
  lemma TableRefEndAt(s: string, i: nat, t: string)
    requires i + |t| <= |s| && IsTableRef(t) && s[i..i + |t|] == t
    requires i + |t| < |s| ==> !IsWord(s[i + |t|])
    ensures TableRefEnd(s, i) == Some(i + |t|)
  {
    SliceSitsAt(s, i, t);
    var e := i + |t|;
    if AllWord(t) {
      assert forall k :: i <= k < e ==> IsWord(s[k]) by {
        forall k | i <= k < e ensures IsWord(s[k]) {
          assert s[k] == t[k - i];
        }
      }
      TableRefEndWord(s, i, e);
    } else {
      var inner := t[1..|t| - 1];
      assert s[i] == t[0] && s[e - 1] == t[|t| - 1];
      assert forall k :: i + 1 <= k < e - 1 ==> IsWord(s[k]) by {
        forall k | i + 1 <= k < e - 1 ensures IsWord(s[k]) {
          assert s[k] == t[k - i] == inner[k - i - 1];
        }
      }
      TableRefEndQuoted(s, i, e);
    }
  }

  /** A run of word characters from i to e is a table reference ending at e. */
  lemma TableRefEndWord(s: string, i: nat, e: nat)
    requires i < e <= |s| && (e < |s| ==> !IsWord(s[e]))
    requires forall k :: i <= k < e ==> IsWord(s[k])
    ensures TableRefEnd(s, i) == Some(e)
  {
    SkipWordIs(s, i, e);
  }

  /** Word characters between backquotes or brackets, from i to e, are a
      table reference ending at e. */
  lemma TableRefEndQuoted(s: string, i: nat, e: nat)
    requires i + 3 <= e <= |s|
    requires (s[i] == '`' && s[e - 1] == '`') || (s[i] == '[' && s[e - 1] == ']')
    requires forall k :: i + 1 <= k < e - 1 ==> IsWord(s[k])
    ensures TableRefEnd(s, i) == Some(e)
  {
    assert !IsWord(s[i]) && !IsWord(s[e - 1]);
    SkipWordIs(s, i, i);
    SkipWordIs(s, i + 1, e - 1);
  }

  /** An occurrence in the second part of a concatenation is one in that part. */
  lemma MatchesShift(x: string, y: string, j: nat, word: string)
    ensures MatchesAt(x + y, |x| + j, word) ==> MatchesAt(y, j, word)
  {
    if MatchesAt(x + y, |x| + j, word) {
      forall k | 0 <= k < |word| ensures Lower(y[j + k]) == word[k] {
        assert (x + y)[|x| + j + k] == y[j + k];
      }
    }
  }

  /** An occurrence inside the first part of a concatenation is one in that part. */
  lemma MatchesPrefix(x: string, y: string, q: nat, word: string)
    requires q + |word| <= |x|
    ensures MatchesAt(x + y, q, word) ==> MatchesAt(x, q, word)
  {
    if MatchesAt(x + y, q, word) {
      forall k | 0 <= k < |word| ensures Lower(x[q + k]) == word[k] {
        assert (x + y)[q + k] == x[q + k];
      }
    }
  }

  /** A character that is not a word character never lies inside `FROM`. */
  lemma NonWordBreaksFrom(s: string, q: nat, k: nat)
    requires k < 4 && q + k < |s| && !IsWord(s[q + k])
    ensures !MatchesAt(s, q, "from")
  {
    assert 'a' <= "from"[k] <= 'z';
    assert Lower(s[q + k]) != "from"[k];
  }

  /** Two texts without `FROM` joined where one side is not a word character. */
  lemma NoFromAppend(x: string, y: string)
    requires NoFrom(x) && NoFrom(y)
    requires (x != [] && !IsWord(x[|x| - 1])) || (y != [] && !IsWord(y[0]))
    ensures NoFrom(x + y)
  {
    var s := x + y;
    forall q | 0 <= q < |s| ensures !MatchesAt(s, q, "from") {
      if q >= |x| {
        MatchesShift(x, y, q - |x|, "from");
      } else if q + 4 <= |x| {
        MatchesPrefix(x, y, q, "from");
      } else if x != [] && !IsWord(x[|x| - 1]) {
        assert s[|x| - 1] == x[|x| - 1];
        NonWordBreaksFrom(s, q, |x| - 1 - q);
      } else {
        assert s[|x|] == y[0];
        NonWordBreaksFrom(s, q, |x| - q);
      }
    }
  }

  /** LastIn finds p when `word` starts at p and nowhere after it. */
  lemma {:induction false} LastInIs(s: string, word: string, lo: nat, hi: nat, p: nat)
    requires lo <= p < hi && MatchesAt(s, p, word)
    requires forall q :: p < q < hi ==> !MatchesAt(s, q, word)
    ensures LastIn(s, word, lo, hi) == Some(p)
    decreases hi
  {
    if hi - 1 != p {
      LastInIs(s, word, lo, hi - 1, p);
    }
  }

  /** The SQL the query compiler writes for a one-column projection:
      `SELECT <expr>`, a line break, `FROM <table> AS <alias>`, and whatever
      the query adds after the alias, such as a line break and a `WHERE`
      clause. */
  function ProjectionSql(expr: string, table: string, alias: string, rest: string): string {
    "SELECT " + expr + NewLine + "FROM " + table + " AS " + alias + rest
  }

  /** What may follow the alias: nothing, or text that starts with a
      character that is not a word character and holds no `FROM` (a
      `WHERE` or `ORDER BY` clause without a subquery). */
  predicate AliasFollower(rest: string) {
    NoFrom(rest) && (rest == [] || !IsWord(rest[0]))
  }

  /** Where each part of ProjectionSql sits. */
  predicate Layout(s: string, expr: string, table: string, alias: string, rest: string) {
    var f, t := 8 + |expr|, |table|;
    var a := f + 9 + t + |alias|;
    |s| == a + |rest|
    && s[..6] == "SELECT" && s[6] == ' '
    && s[7..f - 1] == expr && s[f - 1] == '\n'
    && s[f..f + 4] == "FROM" && s[f + 4] == ' '
    && s[f + 5..f + 5 + t] == table
    && s[f + 5 + t] == ' ' && s[f + 6 + t] == 'A' && s[f + 7 + t] == 'S' && s[f + 8 + t] == ' '
    && s[f + 9 + t..a] == alias && s[a..] == rest
  }

  lemma ProjectionSqlLayout(expr: string, table: string, alias: string, rest: string)
    ensures Layout(ProjectionSql(expr, table, alias, rest), expr, table, alias, rest)
  {
  }

  /** `word`, given in lower case, written in upper case at i. */
  lemma UpperAt(s: string, i: nat, upper: string, word: string)
    requires i + |upper| <= |s| && s[i..i + |upper|] == upper && |word| == |upper|
    requires forall k :: 0 <= k < |upper| ==> Lower(upper[k]) == word[k]
    ensures MatchesAt(s, i, word)
  {
    forall k | 0 <= k < |word| ensures Lower(s[i + k]) == word[k] {
      assert s[i + k] == s[i..i + |upper|][k];
    }
  }

  /** A slice of s equal to t gives the positionwise facts. */
  lemma SliceSitsAt(s: string, i: nat, t: string)
    requires i + |t| <= |s| && s[i..i + |t|] == t
    ensures forall k :: i <= k < i + |t| ==> s[k] == t[k - i]
  {
    forall k | i <= k < i + |t| ensures s[k] == t[k - i] {
      assert s[k] == s[i..i + |t|][k - i];
    }
  }

  /** No `FROM` after the one that starts the table part. */
  lemma NoFromInTail(table: string, alias: string, rest: string)
    requires IsTableRef(table) && NoFrom(table) && NoFrom(alias) && AliasFollower(rest)
    ensures NoFrom("ROM " + table + " AS " + alias + rest)
  {
    assert NoFrom("ROM ") by {
      assert Lower('R') != "from"[0];
    }
    assert NoFrom(" AS ") by {
      assert Lower(' ') != "from"[0];
    }
    NoFromAppend("ROM ", table);
    NoFromAppend("ROM " + table, " AS ");
    NoFromAppend("ROM " + table + " AS ", alias);
    if rest == [] {
      assert "ROM " + table + " AS " + alias + rest == "ROM " + table + " AS " + alias;
    } else {
      NoFromAppend("ROM " + table + " AS " + alias, rest);
    }
  }

  /** The projection the query compiler writes decomposes into its parts:
      the column is the expression with the line break before `FROM`, and
      what follows the alias is not part of any group. */
  lemma DecomposeProjectionSql(expr: string, table: string, alias: string, rest: string)
    requires expr != [] && !IsWhite(expr[0])
    requires IsTableRef(table) && NoFrom(table) && IsTableRef(alias) && NoFrom(alias)
    requires AliasFollower(rest)
    ensures Decompose(ProjectionSql(expr, table, alias, rest)) == Success(Projection(expr + NewLine, table, alias))
  {
    ProjectionSqlKeywords(expr, table, alias, rest);
    ProjectionSqlLayout(expr, table, alias, rest);
    DecomposeLayout(ProjectionSql(expr, table, alias, rest), expr, table, alias, rest);
  }

  /** Decompose on any text laid out as ProjectionSql lays it out. */
  lemma DecomposeLayout(sql: string, expr: string, table: string, alias: string, rest: string)
    requires expr != [] && !IsWhite(expr[0]) && IsTableRef(table) && IsTableRef(alias)
    requires AliasFollower(rest) && Layout(sql, expr, table, alias, rest)
    requires FirstAt(sql, "select", 0) == Some(0) && LastIn(sql, "from", 7, |sql|) == Some(8 + |expr|)
    ensures Decompose(sql) == Success(Projection(expr + NewLine, table, alias))
  {
    var f, t := 8 + |expr|, |table|;
    LayoutWhite(sql, expr, table, alias, rest, f);
    LayoutTable(sql, expr, table, alias, rest, f, t);
    LayoutAlias(sql, expr, table, alias, rest, f, t);
    LayoutSlices(sql, expr, table, alias, rest, f, t);
    DecomposeParts(sql, f, t, expr + NewLine, table, alias);
  }

  /** In ProjectionSql, `SELECT` is at 0 and the last `FROM` ends the line after the expression. */
  lemma ProjectionSqlKeywords(expr: string, table: string, alias: string, rest: string)
    requires NoFrom(table) && NoFrom(alias) && IsTableRef(table) && AliasFollower(rest)
    ensures var sql, f := ProjectionSql(expr, table, alias, rest), 8 + |expr|;
            f + 4 <= |sql|
            && FirstAt(sql, "select", 0) == Some(0) && LastIn(sql, "from", 7, |sql|) == Some(f)
  {
    var sql := ProjectionSql(expr, table, alias, rest);
    var f := 8 + |expr|;
    ProjectionSqlLayout(expr, table, alias, rest);
    UpperAt(sql, 0, "SELECT", "select");
    UpperAt(sql, f, "FROM", "from");
    var head, tail := "SELECT " + expr + NewLine + "F", "ROM " + table + " AS " + alias + rest;
    NoFromInTail(table, alias, rest);
    ProjectionSqlSplit(expr, table, alias, rest);
    NoFromAfter(head, tail);
    LastInIs(sql, "from", 7, |sql|, f);
  }

  /** ProjectionSql cut right after the `F` of `FROM`. */
  lemma ProjectionSqlSplit(expr: string, table: string, alias: string, rest: string)
    ensures ProjectionSql(expr, table, alias, rest)
            == ("SELECT " + expr + NewLine + "F") + ("ROM " + table + " AS " + alias + rest)
  {
    assert "FROM " == "F" + "ROM ";
  }

  /** No `FROM` starts inside a second part that holds none. */
  lemma NoFromAfter(x: string, y: string)
    requires NoFrom(y)
    ensures forall q :: |x| <= q < |x + y| ==> !MatchesAt(x + y, q, "from")
  {
    forall q | |x| <= q < |x + y| ensures !MatchesAt(x + y, q, "from") {
      MatchesShift(x, y, q - |x|, "from");
    }
  }

  /** The white-space skips before the column and before the table. */
  lemma LayoutWhite(sql: string, expr: string, table: string, alias: string, rest: string, f: nat)
    requires expr != [] && !IsWhite(expr[0]) && IsTableRef(table)
    requires Layout(sql, expr, table, alias, rest) && f == 8 + |expr|
    ensures SkipWhite(sql, 6) == 7 && SkipWhite(sql, f + 4) == f + 5
  {
    assert sql[7] == expr[0];
    SkipWhiteIs(sql, 6, 7);
    SliceSitsAt(sql, f + 5, table);
    SkipWhiteIs(sql, f + 4, f + 5);
  }

  /** The table reference after `FROM `. */
  lemma LayoutTable(sql: string, expr: string, table: string, alias: string, rest: string, f: nat, t: nat)
    requires IsTableRef(table)
    requires Layout(sql, expr, table, alias, rest) && f == 8 + |expr| && t == |table|
    ensures TableEnd(sql, f + 5) == f + 5 + t
  {
    assert sql[f + 5..f + 5 + t] == table && sql[f + 5 + t] == ' ';
    TableRefEndAt(sql, f + 5, table);
  }

  /** The alias after ` AS `. */
  lemma LayoutAlias(sql: string, expr: string, table: string, alias: string, rest: string, f: nat, t: nat)
    requires IsTableRef(alias) && AliasFollower(rest)
    requires Layout(sql, expr, table, alias, rest) && f == 8 + |expr| && t == |table|
    ensures AliasAfter(sql, f + 5 + t) == alias
  {
    var i := f + 5 + t;
    assert sql[i] == ' ' && sql[i + 1] == 'A' && sql[i + 2] == 'S' && sql[i + 3] == ' ';
    assert sql[i + 4..i + 4 + |alias|] == alias && sql[i + 4 + |alias|..] == rest;
    AliasFollowed(sql, i, alias, rest);
  }

  /** ` AS <alias>` followed by what AliasFollower admits, read by AliasAfter. */
  lemma AliasFollowed(sql: string, i: nat, alias: string, rest: string)
    requires IsTableRef(alias) && AliasFollower(rest) && i + 4 + |alias| + |rest| == |sql|
    requires sql[i] == ' ' && sql[i + 1] == 'A' && sql[i + 2] == 'S' && sql[i + 3] == ' '
    requires sql[i + 4..i + 4 + |alias|] == alias && sql[i + 4 + |alias|..] == rest
    ensures AliasAfter(sql, i) == alias
  {
    var a := i + 4 + |alias|;
    if a < |sql| {
      assert sql[a] == rest[0] by {
        assert sql[a..] == rest;
      }
    }
    AliasPart(sql, i, alias);
  }

  /** The column runs from the expression to the line break; the table part is the table. */
  lemma LayoutSlices(sql: string, expr: string, table: string, alias: string, rest: string, f: nat, t: nat)
    requires Layout(sql, expr, table, alias, rest) && f == 8 + |expr| && t == |table|
    ensures f + 9 + t <= |sql|
    ensures sql[7..f] == expr + NewLine && sql[f + 5..f + 5 + t] == table
  {
    assert sql[7..f] == sql[7..f - 1] + [sql[f - 1]];
  }

  /** Decompose, once every scan is known, names the parts. */
  lemma DecomposeParts(sql: string, f: nat, t: nat, column: string, table: string, alias: string)
    requires 7 < f && f + 4 <= |sql|
    requires FirstAt(sql, "select", 0) == Some(0) && LastIn(sql, "from", 7, |sql|) == Some(f)
    requires SkipWhite(sql, 6) == 7 && SkipWhite(sql, f + 4) == f + 5
    requires TableEnd(sql, f + 5) == f + 5 + t && AliasAfter(sql, f + 5 + t) == alias
    requires sql[7..f] == column && sql[f + 5..f + 5 + t] == table
    ensures Decompose(sql) == Success(Projection(column, table, alias))
  {
    DecomposeFound(sql, f, t, alias);
  }

  /** Decompose, once `SELECT` is found at 0, the last `FROM` at f, the
      column at 7 and the table reference right after `FROM `. */
  lemma DecomposeFound(sql: string, f: nat, t: nat, alias: string)
    requires 7 < f && f + 4 <= |sql|
    requires FirstAt(sql, "select", 0) == Some(0) && LastIn(sql, "from", 7, |sql|) == Some(f)
    requires SkipWhite(sql, 6) == 7 && SkipWhite(sql, f + 4) == f + 5
    requires TableEnd(sql, f + 5) == f + 5 + t && AliasAfter(sql, f + 5 + t) == alias
    ensures Decompose(sql) == Success(Projection(sql[7..f], sql[f + 5..f + 5 + t], alias))
  {
    ProjectionAtSteps(sql, f, f + 5, f + 5 + t, alias);
    DecomposeAt(sql, f);
  }

  /** Decompose, once `SELECT` is found at 0 and the last `FROM` at f. */
  lemma DecomposeAt(sql: string, f: nat)
    requires FirstAt(sql, "select", 0) == Some(0) && LastIn(sql, "from", 7, |sql|) == Some(f)
    ensures 7 <= f && f + 4 <= |sql|
    ensures Decompose(sql) == Success(ProjectionAt(sql, 0, f))
  {
  }

  /** ` AS <alias>`, followed by the end of the text or by a character
      that is not a word character, read by AliasAfter. */
  lemma AliasPart(sql: string, i: nat, alias: string)
    requires IsTableRef(alias) && i + 4 + |alias| <= |sql|
    requires sql[i] == ' ' && sql[i + 1] == 'A' && sql[i + 2] == 'S' && sql[i + 3] == ' '
    requires sql[i + 4..i + 4 + |alias|] == alias
    requires i + 4 + |alias| < |sql| ==> !IsWord(sql[i + 4 + |alias|])
    ensures AliasAfter(sql, i) == alias
  {
    TableRefStart(alias);
    assert sql[i + 4] == alias[0];
    AliasKeyword(sql, i);
    TableRefEndAt(sql, i + 4, alias);
    AliasAfterSteps(sql, i, i + 1, i + 4, i + 4 + |alias|);
  }

  /** A table reference starts with a word character, a backquote or a bracket. */
  lemma TableRefStart(t: string)
    requires IsTableRef(t)
    ensures !IsWhite(t[0])
  {
    if AllWord(t) {
      assert IsWord(t[0]);
    }
  }

  /** ` AS ` followed by a character that is not white space. */
  lemma AliasKeyword(sql: string, i: nat)
    requires i + 4 < |sql| && !IsWhite(sql[i + 4])
    requires sql[i] == ' ' && sql[i + 1] == 'A' && sql[i + 2] == 'S' && sql[i + 3] == ' '
    ensures SkipWhite(sql, i) == i + 1 && MatchesAt(sql, i + 1, "as") && SkipWhite(sql, i + 3) == i + 4
  {
    SkipWhiteIs(sql, i, i + 1);
    SkipWhiteIs(sql, i + 3, i + 4);
  }

  /** The groups read step by step, once `SELECT` is at 0 and the column and
      the table-reference part are known. */
  lemma ProjectionAtSteps(sql: string, f: nat, t: nat, te: nat, alias: string)
    requires 7 < f && f + 4 <= |sql|
    requires SkipWhite(sql, 6) == 7
    requires SkipWhite(sql, f + 4) == t && TableEnd(sql, t) == te && AliasAfter(sql, te) == alias
    ensures ProjectionAt(sql, 0, f) == Projection(sql[7..f], sql[t..te], alias)
  {
  }

  /** The alias part when `AS` and a table reference are both there. */
  lemma AliasAfterSteps(sql: string, te: nat, a: nat, a1: nat, ae: nat)
    requires te <= |sql|
    requires SkipWhite(sql, te) == a && MatchesAt(sql, a, "as")
    requires SkipWhite(sql, a + 2) == a1 && TableRefEnd(sql, a1) == Some(ae)
    ensures AliasAfter(sql, te) == sql[a1..ae]
  {
    assert AliasAfter(sql, te) == AliasFrom(sql, a);
    assert TableRefAt(sql, a1) == sql[a1..ae];
  }
}
