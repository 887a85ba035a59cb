/**
 * The binding step of BulkUpdate: each member binding of the updater's
 * member initialiser becomes one SET item, either a bound parameter, NULL,
 * or a SQL fragment cut out of the compiled single-column projection of
 * the binding's expression and re-aliased to `ut1`.
 *
 * Expressions are a small tree; whether a binding is computed from the row
 * is whether its tree holds a parameter whose type is the entity type.
 * Evaluating a closure and compiling a projection to SQL are done by the
 * host runtime and the query provider, so they are the parameters
 * `evaluate` and `compile`.
 */
module UpdateBinding {
  import opened Wrappers
  import opened SqlText
  import opened Mapping
  import opened ProjectionRewrite

  /** The expression nodes an assignment can be made of. */
  datatype Expr =
    | Constant(value: Value)
    | Parameter(id: string, ofEntityType: bool)  // ofEntityType: its type is the entity type
    | Member(target: Expr, member: string)
    | Unary(op: string, operand: Expr)
    | Binary(op: string, left: Expr, right: Expr)
    | Call(name: string, args: seq<Expr>)

  /** A parameter the visitor records: one whose type is the entity type. */
  predicate IsRowParameter(e: Expr) {
    e.Parameter? && e.ofEntityType
  }

  /** Whether the visitor finds a row parameter anywhere in the tree. */
  predicate MentionsRow(e: Expr)
    decreases e, 1
  {
    match e
    case Constant(_) => false
    case Parameter(_, ofEntityType) => ofEntityType
    case Member(target, _) => MentionsRow(target)
    case Unary(_, operand) => MentionsRow(operand)
    case Binary(_, left, right) => MentionsRow(left) || MentionsRow(right)
    case Call(_, args) => AnyMentionsRow(args)
  }

  predicate AnyMentionsRow(args: seq<Expr>)
    decreases args, 0
  {
    args != [] && (MentionsRow(args[0]) || AnyMentionsRow(args[1..]))
  }

  /** Every node of the tree, in the order a visitor reaches them. */
  function Nodes(e: Expr): seq<Expr>
    decreases e, 1
  {
    [e] + match e
          case Constant(_) => []
          case Parameter(_, _) => []
          case Member(target, _) => Nodes(target)
          case Unary(_, operand) => Nodes(operand)
          case Binary(_, left, right) => Nodes(left) + Nodes(right)
          case Call(_, args) => NodesOf(args)
  }

  function NodesOf(args: seq<Expr>): seq<Expr>
    decreases args, 0
  {
    if args == [] then [] else Nodes(args[0]) + NodesOf(args[1..])
  }

  /** The predicate is the visitor's question: is some node a row parameter? */
  lemma {:induction false} MentionsRowNodes(e: Expr)
    ensures MentionsRow(e) <==> exists n :: n in Nodes(e) && IsRowParameter(n)
    decreases e, 1
  {
    match e
    case Constant(_) =>
      assert Nodes(e) == [e];
    case Parameter(_, _) =>
      assert Nodes(e) == [e] && e in Nodes(e);
    case Member(target, _) =>
      MentionsRowNodes(target);
      InTail(e, Nodes(target));
    case Unary(_, operand) =>
      MentionsRowNodes(operand);
      InTail(e, Nodes(operand));
    case Binary(_, left, right) =>
      MentionsRowNodes(left);
      MentionsRowNodes(right);
      InTail(e, Nodes(left) + Nodes(right));
      InEither(Nodes(left), Nodes(right));
    case Call(_, args) =>
      MentionsRowNodesOf(args);
      InTail(e, NodesOf(args));
  }

  lemma {:induction false} MentionsRowNodesOf(args: seq<Expr>)
    ensures AnyMentionsRow(args) <==> exists n :: n in NodesOf(args) && IsRowParameter(n)
    decreases args, 0
  {
    if args != [] {
      MentionsRowNodes(args[0]);
      MentionsRowNodesOf(args[1..]);
      InEither(Nodes(args[0]), NodesOf(args[1..]));
    }
  }

  /** A row parameter among a node and its descendants is the node or one of theirs. */
  lemma InTail(e: Expr, rest: seq<Expr>)
    ensures (exists n :: n in [e] + rest && IsRowParameter(n))
            <==> IsRowParameter(e) || exists n :: n in rest && IsRowParameter(n)
  {
  }

  lemma InEither(a: seq<Expr>, b: seq<Expr>)
    ensures (exists n :: n in a + b && IsRowParameter(n))
            <==> (exists n :: n in a && IsRowParameter(n)) || (exists n :: n in b && IsRowParameter(n))
  {
  }

  // ---------------------------------------------------------------------
  // One binding, one SET item

  const BindingsMessage: string := "Bindings of updater expression must only by type MemberAssignment."

  /** A member binding of the initialiser: an assignment, or a nested
      member or list initialiser. */
  datatype Binding = Assignment(member: string, expr: Expr) | OtherBinding(member: string)

  /** What a binding writes after `ut1.<column> = `. */
  datatype SetItem =
    | Bound(column: string, value: Value)          // a placeholder, its value appended to the parameters
    | SetNull(column: string)                      // NULL
    | Inlined(column: string, fragment: string)    // SQL computed from the row

  /** The value of an expression that does not mention the row: a
      constant's own value, otherwise what evaluating it gives. */
  function ClosureValue(e: Expr, evaluate: Expr -> Value): Value {
    if e.Constant? then e.value else evaluate(e)
  }

  /** The fragment a row-computed assignment is written as: the column value
      of the compiled projection, its table alias rewritten to `ut1` when
      there is one. */
  function InlineFragment(selectSql: string): (r: Result<string, Error>)
    ensures r.Success? <==> Decompose(selectSql).Success?
    ensures r.Failure? ==> r == Failure(ProcessError)
  {
    match Decompose(selectSql)
    case Failure(e) => Failure(e)
    case Success(p) =>
      var value := ColumnValue(p.column);
      Success(if p.tableAlias != [] then Rewrite(value, p.tableAlias) else value)
  }

  /** The fragment exists exactly when the projection has a `SELECT`
      followed, at least one character later, by a `FROM`. */
  lemma InlineFragmentIff(selectSql: string)
    ensures InlineFragment(selectSql).Success? <==> exists s: nat, f: nat ::
              MatchesAt(selectSql, s, "select") && MatchesAt(selectSql, f, "from") && s + 7 <= f
  {
    DecomposeSucceedsIff(selectSql);
  }

  /** Without a table alias nothing is rewritten: the fragment is a piece
      of the projection's own SQL, the column value cut from between
      `SELECT` and the last `FROM`. */
  lemma InlineFragmentCut(selectSql: string)
    requires Decompose(selectSql).Success? && Decompose(selectSql).value.tableAlias == []
    ensures InlineFragment(selectSql).Success?
    ensures exists i: nat, j: nat :: i <= j <= |selectSql| && InlineFragment(selectSql).value == selectSql[i..j]
  {
    var c, f := ColumnAt(selectSql);
    var start, e := ValueBounds(Decompose(selectSql).value.column);
    SliceOfSlice(selectSql, c, f, start, e);
    assert InlineFragment(selectSql).value == selectSql[c + start..c + e];
  }

  lemma SliceOfSlice(x: string, c: nat, f: nat, a: nat, b: nat)
    requires c <= f <= |x| && a <= b <= f - c
    ensures x[c..f][a..b] == x[c + a..c + b]
  {
    forall k | 0 <= k < b - a
      ensures x[c..f][a..b][k] == x[c + a..c + b][k]
    {
    }
  }

  /** No trailing `AS name` starts anywhere in x. */
  predicate NoAliasTail(x: string) {
    forall q: nat :: q < |x| ==> !AliasAt(x, q)
  }

  /** A member read through the query's table alias, `alias.column`, is
      inlined as the same column of `ut1`, wherever it sits in the projected
      expression (inside a `CONCAT(CAST(...))`, say), followed by the line
      break the query compiler puts before `FROM`. The rest of the
      expression is kept as it is, and a filter or ordering the query adds
      after the alias does not reach the fragment. */
  lemma InlineQualifiedColumn(table: string, alias: string, pre: string, column: string, post: string, rest: string)
    requires IsTableRef(table) && NoFrom(table) && IsTableRef(alias) && NoFrom(alias)
    requires AliasFollower(rest) && PatternOf(alias) == Literal(alias)
    requires pre == [] || (!IsWhite(pre[0]) && !IsWord(pre[|pre| - 1]))
    requires forall j :: 0 <= j < |pre + alias + "." + column + post + NewLine| && j != |pre|
               ==> !HitAt(pre + alias + "." + column + post + NewLine, j, Literal(alias))
    requires NoAliasTail(pre + alias + "." + column + post + NewLine)
    ensures InlineFragment(ProjectionSql(pre + alias + "." + column + post, table, alias, rest))
            == Success(pre + UpdateAlias + ("." + column + post + NewLine))
  {
    var expr := pre + alias + "." + column + post;
    var tail := "." + column + post + NewLine;
    assert expr + NewLine == pre + alias + tail;
    assert expr[0] == if pre == [] then alias[0] else pre[0];
    InlineWholeExpression(expr, table, alias, rest);
    RewriteInside(pre, alias, tail);
  }

  /** A projected expression with no trailing `AS name` is inlined whole,
      with the alias rewritten. */
  lemma InlineWholeExpression(expr: string, table: string, alias: string, rest: string)
    requires expr != [] && !IsWhite(expr[0]) && NoAliasTail(expr + NewLine)
    requires IsTableRef(table) && NoFrom(table) && IsTableRef(alias) && NoFrom(alias)
    requires AliasFollower(rest)
    ensures InlineFragment(ProjectionSql(expr, table, alias, rest)) == Success(Rewrite(expr + NewLine, alias))
  {
    DecomposeProjectionSql(expr, table, alias, rest);
    ColumnValueNoAlias(expr + NewLine);
  }

  /** One binding as the SET loop treats it: it fails only with the three
      errors the loop raises, and a binding it accepts is an assignment to
      a mapped property whose column it names, bound to a value only when
      that value is not null. */
  function Classify(properties: seq<Property>, b: Binding, compile: Expr -> string, evaluate: Expr -> Value)
    : (r: Result<SetItem, Error>)
    ensures r.Failure? ==> r.error == NullReference(b.member)
                           || r.error == ArgumentError(BindingsMessage, "updater")
                           || r.error == ProcessError
    ensures r.Success? ==> b.Assignment? && FindByName(properties, b.member).Some?
                           && r.value.column == properties[FindByName(properties, b.member).value].column
    ensures r.Success? && r.value.Bound? ==> r.value.value != Null
  {
    match FindByName(properties, b.member)
    case None => Failure(NullReference(b.member))
    case Some(i) =>
      var column := properties[i].column;
      match b
      case OtherBinding(_) => Failure(ArgumentError(BindingsMessage, "updater"))
      case Assignment(_, e) =>
        if !MentionsRow(e) then
          var value := ClosureValue(e, evaluate);
          Success(if value != Null then Bound(column, value) else SetNull(column))
        else
          match InlineFragment(compile(e))
          case Failure(err) => Failure(err)
          case Success(fragment) => Success(Inlined(column, fragment))
  }

  /** The outcome of one binding. The property is looked up by
      name first, and a miss dereferences null; then a binding that is not
      an assignment is refused; then an expression that does not mention
      the row is bound as a parameter when its value is not null and
      written NULL when it is; an expression that mentions the row is
      inlined, and refused when its projection cannot be decomposed. */
  lemma ClassifyOutcome(properties: seq<Property>, b: Binding, compile: Expr -> string, evaluate: Expr -> Value)
    ensures var r, found := Classify(properties, b, compile, evaluate), FindByName(properties, b.member);
            (found.None? ==> r == Failure(NullReference(b.member)))
            && (found.Some? && b.OtherBinding? ==> r == Failure(ArgumentError(BindingsMessage, "updater")))
            && (r.Success? ==>
                  b.Assignment? && found.Some? && r.value.column == properties[found.value].column
                  && (r.value.Inlined? <==> MentionsRow(b.expr))
                  && (r.value.Bound? <==> !MentionsRow(b.expr) && ClosureValue(b.expr, evaluate) != Null)
                  && (r.value.Bound? ==> r.value.value == ClosureValue(b.expr, evaluate))
                  && (r.value.Inlined? ==> InlineFragment(compile(b.expr)) == Success(r.value.fragment)))
            && (r.Failure? && b.Assignment? && found.Some? ==>
                  MentionsRow(b.expr) && r.error == ProcessError && InlineFragment(compile(b.expr)).Failure?)
  {
  }

  /** An accepted assignment is inlined exactly when the visitor meets a
      parameter of the row among the nodes of its expression. */
  lemma ClassifyFollowsVisitor(properties: seq<Property>, b: Binding, compile: Expr -> string, evaluate: Expr -> Value)
    requires Classify(properties, b, compile, evaluate).Success?
    ensures Classify(properties, b, compile, evaluate).value.Inlined?
            <==> exists n :: n in Nodes(b.expr) && IsRowParameter(n)
  {
    MentionsRowNodes(b.expr);
  }
}
