/** What a catch clause catches, and what becomes of an exception that it does not catch. */
module CatchClauses {
  import opened ExceptionFrames
  import opened TryLanguage
  import opened Wrappers

  /** A clause for up to three types is taken exactly by these; any other exception goes to the next clause. */
  lemma TypedClause(x: Exc, y: Exc, z: Exc, handler: Stmt, rest: Clauses, e: Exc)
    ensures Handler(Clause(Types([x]), handler, rest), e) == if e == x then Some(handler) else Handler(rest, e)
    ensures Handler(Clause(Types([x, y]), handler, rest), e)
            == if e == x || e == y then Some(handler) else Handler(rest, e)
    ensures Handler(Clause(Types([x, y, z]), handler, rest), e)
            == if e == x || e == y || e == z then Some(handler) else Handler(rest, e)
  {
  }

  /** JVM_CATCH_ALL takes the exceptions from 0 to 256. */
  lemma CatchAllClause(handler: Stmt, rest: Clauses, e: Exc)
    ensures Handler(Clause(All, handler, rest), e) == if 0 <= e <= 256 then Some(handler) else Handler(rest, e)
  {
  }

  /** The handler of a listed type runs with that exception, and if it does not throw, its end is the end of the
      JVM_TRY: a return leaves one frame more behind. If it throws, that goes to the same clauses again. */
  lemma CaughtHere(body: Stmt, types: seq<Exc>, handler: Stmt, rest: Clauses, top: Top, k: nat, vars: Vars, log: seq<Exc>,
                   vars': Vars, log': seq<Exc>, fuel: nat)
    requires k < |types| && Eval(body, Guarded(0), vars, log, fuel) == Raise(types[k], vars', log')
    ensures var clauses := Clause(Types(types), handler, rest);
      var o, run := Eval(Try(body, clauses), top, vars, log, fuel), Eval(handler, Guarded(types[k]), vars', log', fuel);
      && (run.Normal? ==> o == Normal(0, run.vars, run.log))
      && (run.Returned? ==> o == Returned(run.left + 1, run.vars, run.log))
      && (run.Raise? && fuel > 0 ==> o == Dispatch(clauses, top, run.exc, run.vars, run.log, fuel - 1))
      && (run.Halt? || run.OutOfFuel? ==> o == run)
  {
    assert types[k] in types;
  }

  /** Where no type is the raised one the clause might as well not be there: the clauses behind it decide,
      unless a handler of theirs throws again. */
  lemma PassedOn(body: Stmt, types: seq<Exc>, handler: Stmt, rest: Clauses, top: Top, e: Exc, vars: Vars, log: seq<Exc>,
                 vars': Vars, log': seq<Exc>, fuel: nat)
    requires Eval(body, Guarded(0), vars, log, fuel) == Raise(e, vars', log')
    requires forall i :: 0 <= i < |types| ==> types[i] != e
    requires Handler(rest, e).Some? ==> !Eval(Handler(rest, e).value, Guarded(e), vars', log', fuel).Raise?
    ensures Eval(Try(body, Clause(Types(types), handler, rest)), top, vars, log, fuel)
            == Eval(Try(body, rest), top, vars, log, fuel)
  {
  }

  /** Behind the last clause an exception goes outward, or at the outermost level to the default handler. */
  lemma PastTheLast(body: Stmt, top: Top, e: Exc, vars: Vars, log: seq<Exc>, vars': Vars, log': seq<Exc>, fuel: nat)
    requires Eval(body, Guarded(0), vars, log, fuel) == Raise(e, vars', log')
    ensures var o := Eval(Try(body, NoClause), top, vars, log, fuel);
      && (top.Empty? ==> o == Normal(0, vars', log' + [e]))
      && (top.Guarded? ==> o == Raise(e, vars', log'))
      && (top.Stale? ==> o == Halt(StaleFrame, vars', log'))
  {
    RaiseFacts(body, Guarded(0), vars, log, fuel);
  }

  // ---------- what single statements do ----------

  /** A throw without a JVM_TRY around it calls the default handler and goes on; EXC_NOEXCEPTION is no exception. */
  lemma Uncaught(e: Exc, top: Top, vars: Vars, log: seq<Exc>, fuel: nat)
    ensures Eval(Throw(0), top, vars, log, fuel) == Normal(0, vars, log)
    ensures e != 0 ==> Eval(Throw(e), Empty, vars, log, fuel) == Normal(0, vars, log + [e])
    ensures e != 0 && top.Guarded? ==> Eval(Throw(e), top, vars, log, fuel) == Raise(e, vars, log)
    ensures top == Guarded(e) ==> Eval(Rethrow, top, vars, log, fuel) == Eval(Throw(e), top, vars, log, fuel)
  {
  }

  /** The branch is that of the condition, and statements act one after the other. */
  lemma InTurn(cond: Vars -> bool, x: Exc, y: Exc, vars: Vars, log: seq<Exc>, fuel: nat)
    requires x != 0 && y != 0
    ensures Eval(If(cond, Throw(x), Throw(y)), Empty, vars, log, fuel)
            == Normal(0, vars, log + if cond(vars) then [x] else [y])
    ensures Eval(Seq(Throw(x), Throw(y)), Empty, vars, log, fuel) == Normal(0, vars, log + [x, y])
    ensures Eval(Seq(Throw(x), Throw(y)), Guarded(0), vars, log, fuel) == Raise(x, vars, log)
  {
    assert log + [x] + [y] == log + [x, y];
  }

  function Count(vars: Vars): int {
    if "i" in vars then vars["i"] else 0
  }

  function Below(n: int): Vars -> bool {
    vars => Count(vars) < n
  }

  function Increment(vars: Vars): Vars {
    vars["i" := Count(vars) + 1]
  }

  /** A loop that counts up to n calls its body until the count is n, and no further. */
  lemma {:induction false} CountingLoop(n: int, e: Exc, vars: Vars, log: seq<Exc>, fuel: nat)
    requires e != 0 && fuel >= n - Count(vars)
    ensures var o := Eval(While(Below(n), Seq(Prim(Increment), Throw(e))), Empty, vars, log, fuel);
      && o.Normal? && o.left == 0
      && Count(o.vars) == (if Count(vars) < n then n else Count(vars))
      && o.log == log + Repeated(e, n - Count(vars))
    decreases n - Count(vars)
  {
    if Count(vars) < n {
      var next, body := Increment(vars), Seq(Prim(Increment), Throw(e));
      assert Count(next) == Count(vars) + 1 && Below(n)(vars);
      assert Eval(body, Empty, vars, log, fuel) == Normal(0, next, log + [e]);
      CountingLoop(n, e, next, log + [e], fuel - 1);
      assert log + [e] + Repeated(e, n - Count(next)) == log + Repeated(e, n - Count(vars));
    }
  }

  function Repeated(e: Exc, times: int): (es: seq<Exc>)
    ensures |es| == if times > 0 then times else 0
    ensures forall i :: 0 <= i < |es| ==> es[i] == e
  {
    if times <= 0 then [] else [e] + Repeated(e, times - 1)
  }
}
