/**
 * ExecuteSqlRaw, seen from the bulk operations: the statement is sent to
 * the store once, inside a transaction begun before it and committed after
 * it, unless transactions are disabled. What the store does with the
 * statement, and the row count it reports, are outside this model; a run
 * is the trace of what is asked of the store.
 */
module Execution {
  import opened Wrappers
  import opened SqlText
  import opened Mapping

  datatype Event = BeginTransaction | Execute(statement: Statement) | Commit

  /** The statements a trace sends to the store, in order. */
  function Executed(trace: seq<Event>): seq<Statement> {
    if trace == [] then []
    else Executed(trace[..|trace| - 1])
         + (if trace[|trace| - 1].Execute? then [trace[|trace| - 1].statement] else [])
  }

  /** The statement is executed exactly once; with transactions enabled the
      trace opens with a begin and closes with a commit, and with them
      disabled no transaction is begun or committed. */
  function ExecuteSqlRaw(st: Statement, disableTran: bool): (trace: seq<Event>)
    ensures Executed(trace) == [st]
    ensures !disableTran ==> trace[0] == BeginTransaction && trace[|trace| - 1] == Commit
    ensures disableTran ==> BeginTransaction !in trace && Commit !in trace
  {
    if disableTran then [Execute(st)]
    else
      var trace := [BeginTransaction, Execute(st), Commit];
      assert trace[..2] == [BeginTransaction, Execute(st)] && trace[..2][..1] == [BeginTransaction];
      assert [BeginTransaction][..0] == [];
      assert Executed([BeginTransaction]) == [];
      assert Executed(trace[..2]) == [st];
      trace
  }

  /** A bulk operation's run: the statement it produced is executed, and
      nothing is executed when it raised an error before execution or had
      nothing to do. */
  function Run(plan: Result<Option<Statement>, Error>, disableTran: bool): (trace: seq<Event>)
    ensures Executed(trace) == if plan.Success? && plan.value.Some? then [plan.value.value] else []
    ensures plan.Failure? ==> trace == []
  {
    if plan.Success? && plan.value.Some? then ExecuteSqlRaw(plan.value.value, disableTran) else []
  }
}
