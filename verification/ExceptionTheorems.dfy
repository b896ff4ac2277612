/** When code written with the macros keeps the frame stack, and when it ends. */
module TryProperties {
  import opened Sequences
  import opened ExceptionFrames
  import opened TryLanguage
  import opened FrameMachine
  import opened FrameMachineCorrect
  import opened Wrappers

  // ---------- the default handler ----------

  /** Inside a JVM_TRY the default handler is never called. */
  lemma {:induction false} EnclosedNeverDefaults(s: Stmt, top: Top, vars: Vars, log: seq<Exc>, fuel: nat)
    requires !top.Empty?
    ensures var o := Eval(s, top, vars, log, fuel); o.OutOfFuel? || o.log == log
    decreases fuel, Size(s), 0
  {
    match s
    case If(cond, a, b) => EnclosedNeverDefaults(if cond(vars) then a else b, top, vars, log, fuel);
    case While(cond, a) =>
      EnclosedNeverDefaults(a, top, vars, log, fuel);
      var o := Eval(a, top, vars, log, fuel);
      if cond(vars) && o.Normal? && fuel > 0 {
        EnclosedNeverDefaults(s, Topped(top, o.left), o.vars, o.log, fuel - 1);
      }
    case Seq(a, b) =>
      EnclosedNeverDefaults(a, top, vars, log, fuel);
      var o := Eval(a, top, vars, log, fuel);
      if o.Normal? {
        EnclosedNeverDefaults(b, Topped(top, o.left), o.vars, o.log, fuel);
      }
    case Call(a) => EnclosedNeverDefaults(a, top, vars, log, fuel);
    case Try(body, clauses) =>
      EnclosedNeverDefaults(body, Guarded(NO_EXCEPTION), vars, log, fuel);
      var o := Eval(body, Guarded(NO_EXCEPTION), vars, log, fuel);
      if o.Raise? {
        DispatchDefaults(clauses, top, o.exc, o.vars, o.log, fuel);
      }
    case _ =>
  }

  /** The last exception that is sent to the clauses when e is. */
  function LastSent(clauses: Clauses, e: Exc, vars: Vars, log: seq<Exc>, fuel: nat): Exc
    decreases fuel
  {
    match Handler(clauses, e)
    case None => e
    case Some(handler) =>
      var o := Eval(handler, Guarded(e), vars, log, fuel);
      if o.Raise? && fuel > 0 then LastSent(clauses, o.exc, o.vars, o.log, fuel - 1) else e
  }

  /** A JVM_TRY calls the default handler at most once, at the outermost level only, and then as its
      last act, with an exception that none of its clauses accepts: exactly when the last exception sent to the
      clauses is such a one. */
  lemma {:induction false} DispatchDefaults(clauses: Clauses, top: Top, e: Exc, vars: Vars, log: seq<Exc>, fuel: nat)
    ensures var o := Dispatch(clauses, top, e, vars, log, fuel);
      || o.OutOfFuel?
      || o.log == log
      || (top.Empty? && o.Normal? && exists x: Exc :: o.log == log + [x] && Handler(clauses, x).None?)
    ensures var o, x := Dispatch(clauses, top, e, vars, log, fuel), LastSent(clauses, e, vars, log, fuel);
      || o.OutOfFuel?
      || o.log == if top.Empty? && x != NO_EXCEPTION && Handler(clauses, x).None? then log + [x] else log
    decreases fuel, ClausesSize(clauses), 0
  {
    var h := Handler(clauses, e);
    if h.Some? {
      EnclosedNeverDefaults(h.value, Guarded(e), vars, log, fuel);
      var o := Eval(h.value, Guarded(e), vars, log, fuel);
      if o.Raise? && fuel > 0 {
        DispatchDefaults(clauses, top, o.exc, o.vars, o.log, fuel - 1);
      }
    }
  }

  // ---------- the frame stack is kept ----------

  /** No return statement, except inside called functions. */
  predicate ReturnFree(s: Stmt)
    decreases Size(s)
  {
    match s
    case Return => false
    case If(_, a, b) => ReturnFree(a) && ReturnFree(b)
    case While(_, a) => ReturnFree(a)
    case Seq(a, b) => ReturnFree(a) && ReturnFree(b)
    case Try(body, clauses) => ReturnFree(body) && HandlersReturnFree(clauses)
    case _ => true
  }

  predicate HandlersReturnFree(clauses: Clauses)
    decreases ClausesSize(clauses)
  {
    clauses.Clause? ==> ReturnFree(clauses.handler) && HandlersReturnFree(clauses.rest)
  }

  /** No function, here or called, returns from the body or a handler of a JVM_TRY. */
  predicate NoReturnInTry(s: Stmt)
    decreases Size(s)
  {
    match s
    case If(_, a, b) => NoReturnInTry(a) && NoReturnInTry(b)
    case While(_, a) => NoReturnInTry(a)
    case Seq(a, b) => NoReturnInTry(a) && NoReturnInTry(b)
    case Call(a) => NoReturnInTry(a)
    case Try(body, clauses) =>
      ReturnFree(body) && HandlersReturnFree(clauses) && NoReturnInTry(body) && HandlersNoReturnInTry(clauses)
    case _ => true
  }

  predicate HandlersNoReturnInTry(clauses: Clauses)
    decreases ClausesSize(clauses)
  {
    clauses.Clause? ==> NoReturnInTry(clauses.handler) && HandlersNoReturnInTry(clauses.rest)
  }

  lemma {:induction false} HandlerNoReturn(clauses: Clauses, e: Exc)
    requires HandlersReturnFree(clauses) && HandlersNoReturnInTry(clauses)
    ensures var h := Handler(clauses, e); h.Some? ==> ReturnFree(h.value) && NoReturnInTry(h.value)
    decreases clauses
  {
    if clauses.Clause? {
      HandlerNoReturn(clauses.rest, e);
    }
  }

  /** Nothing is left on the stack, and no frame is used whose function has returned. */
  predicate Keeps(o: Outcome) {
    match o
    case Normal(left, _, _) => left == 0
    case Returned(left, _, _) => left == 0
    case Halt(fault, _, _) => fault.NullFrame?
    case _ => true
  }

  lemma {:induction false} StackKept(s: Stmt, top: Top, vars: Vars, log: seq<Exc>, fuel: nat)
    requires NoReturnInTry(s) && !top.Stale?
    ensures Keeps(Eval(s, top, vars, log, fuel))
    ensures ReturnFree(s) ==> !Eval(s, top, vars, log, fuel).Returned?
    decreases fuel, Size(s), 0
  {
    match s
    case If(cond, a, b) => StackKept(if cond(vars) then a else b, top, vars, log, fuel);
    case While(cond, a) =>
      StackKept(a, top, vars, log, fuel);
      var o := Eval(a, top, vars, log, fuel);
      if cond(vars) && o.Normal? && fuel > 0 {
        StackKept(s, top, o.vars, o.log, fuel - 1);
      }
    case Seq(a, b) =>
      StackKept(a, top, vars, log, fuel);
      var o := Eval(a, top, vars, log, fuel);
      if o.Normal? {
        StackKept(b, top, o.vars, o.log, fuel);
      }
    case Call(a) => StackKept(a, top, vars, log, fuel);
    case Try(body, clauses) =>
      StackKept(body, Guarded(NO_EXCEPTION), vars, log, fuel);
      var o := Eval(body, Guarded(NO_EXCEPTION), vars, log, fuel);
      if o.Raise? {
        DispatchKept(clauses, top, o.exc, o.vars, o.log, fuel);
      }
    case _ =>
  }

  lemma {:induction false} DispatchKept(clauses: Clauses, top: Top, e: Exc, vars: Vars, log: seq<Exc>, fuel: nat)
    requires HandlersReturnFree(clauses) && HandlersNoReturnInTry(clauses) && !top.Stale?
    ensures var o := Dispatch(clauses, top, e, vars, log, fuel); Keeps(o) && !o.Returned?
    decreases fuel, ClausesSize(clauses), 0
  {
    HandlerNoReturn(clauses, e);
    var h := Handler(clauses, e);
    if h.Some? {
      StackKept(h.value, Guarded(e), vars, log, fuel);
      var o := Eval(h.value, Guarded(e), vars, log, fuel);
      if o.Raise? && fuel > 0 {
        DispatchKept(clauses, top, o.exc, o.vars, o.log, fuel - 1);
      }
    }
  }

  /** Without a return inside a JVM_TRY the machine stops with an empty frame stack, and never uses a frame
      of a function that has returned. */
  lemma FramesRestored(s: Stmt, vars: Vars, log: seq<Exc>, n: nat)
    requires NoReturnInTry(s) && !Live(Compile(s, 0), Exec(Compile(s, 0), Start(vars, log), n))
    ensures var r := Exec(Compile(s, 0), Start(vars, log), n);
      r.thread.frames == [] && r.status != Failed(StaleFrame)
  {
    hide Exec, Compile, Live, Eval;
    MacrosPreserveMeaning(s, vars, log);
    var fuel :| Eval(s, Empty, vars, log, fuel) != OutOfFuel;
    StackKept(s, Empty, vars, log, fuel);
  }

  // ---------- what a statement does first ----------

  /** What a statement does whatever the data: pass by, leave the function with so many frames left behind,
      raise an exception, or depend on the data. */
  datatype Flow = Passes | Leaves(left: nat) | Throws(exc: Exc) | Depends

  /** The flow of a JVM_TRY whose body or handler flows like this and does not throw. */
  function FlowOut(f: Flow): Flow {
    match f
    case Passes => Passes
    case Leaves(k) => Leaves(k + 1)
    case _ => Depends
  }

  /** current is the exception last sent to the JVM_TRY around the statement, None outside all of them. */
  function FlowOf(s: Stmt, current: Option<Exc>): Flow
    decreases Size(s)
  {
    match s
    case Prim(_) => Passes
    case If(_, a, b) => if FlowOf(a, current) == FlowOf(b, current) then FlowOf(a, current) else Depends
    case While(_, _) => Depends
    case Seq(a, b) => if FlowOf(a, current).Passes? then FlowOf(b, current) else FlowOf(a, current)
    case Throw(e) => if e == NO_EXCEPTION || current.None? then Passes else Throws(e)
    case Rethrow =>
      if current.None? then Depends else if current.value == NO_EXCEPTION then Passes else Throws(current.value)
    case Return => Leaves(0)
    case Call(a) =>
      var f := FlowOf(a, current);
      if f == Leaves(0) then Passes else if f.Leaves? then Depends else f
    case Try(body, clauses) =>
      var f := FlowOf(body, Some(NO_EXCEPTION));
      if !f.Throws? then FlowOut(f)
      else match Handler(clauses, f.exc)
        case None => if current.None? then Passes else f
        case Some(h) => FlowOut(FlowOf(h, Some(f.exc)))
  }

  function TopFor(current: Option<Exc>): Top {
    match current
    case None => Empty
    case Some(e) => Guarded(e)
  }

  predicate FlowsAs(f: Flow, o: Outcome) {
    match f
    case Passes => o.Normal? && o.left == 0
    case Leaves(k) => o.Returned? && o.left == k
    case Throws(e) => o.Raise? && o.exc == e && e != NO_EXCEPTION
    case Depends => true
  }

  lemma {:induction false} FlowHolds(s: Stmt, current: Option<Exc>, vars: Vars, log: seq<Exc>, fuel: nat)
    ensures FlowsAs(FlowOf(s, current), Eval(s, TopFor(current), vars, log, fuel))
    ensures FlowOf(s, current).Throws? ==> current.Some?
    decreases Size(s)
  {
    match s
    case If(cond, a, b) => FlowHolds(if cond(vars) then a else b, current, vars, log, fuel);
    case Seq(a, b) =>
      FlowHolds(a, current, vars, log, fuel);
      var o := Eval(a, TopFor(current), vars, log, fuel);
      if FlowOf(a, current).Passes? {
        FlowHolds(b, current, o.vars, o.log, fuel);
      }
    case Call(a) => FlowHolds(a, current, vars, log, fuel);
    case Try(body, clauses) =>
      FlowHolds(body, Some(NO_EXCEPTION), vars, log, fuel);
      var f, o := FlowOf(body, Some(NO_EXCEPTION)), Eval(body, Guarded(NO_EXCEPTION), vars, log, fuel);
      if f.Throws? && Handler(clauses, f.exc).Some? {
        FlowHolds(Handler(clauses, f.exc).value, Some(f.exc), o.vars, o.log, fuel);
      }
    case _ =>
  }

  /** A function that returns from inside JVM_TRYs, whatever the data, leaves as many frames as it was inside
      of when it reached the return. */
  lemma ReturnLeavesFrames(s: Stmt, vars: Vars, log: seq<Exc>)
    requires FlowOf(s, None).Leaves?
    ensures var code, st := Compile(s, 0), Start(vars, log);
      && Halts(code, st)
      && forall n | !Live(code, Exec(code, st, n)) ::
           Exec(code, st, n).status.Done? && |Exec(code, st, n).thread.frames| == FlowOf(s, None).left
  {
    hide Exec, Compile, Live, Eval, FlowOf, Halts;
    MacrosPreserveMeaning(s, vars, log);
    FlowHolds(s, None, vars, log, 0);
    assert Terminates(s, vars, log);
  }

  /** A handler that returns leaves the frame of its JVM_TRY, whatever the body did before it raised e. */
  lemma HandlerReturnLeavesFrame(body: Stmt, clauses: Clauses, e: Exc, top: Top, vars: Vars, log: seq<Exc>, fuel: nat)
    requires Eval(body, Guarded(NO_EXCEPTION), vars, log, fuel).Raise?
    requires e == Eval(body, Guarded(NO_EXCEPTION), vars, log, fuel).exc && Handler(clauses, e).Some?
    requires FlowOf(Handler(clauses, e).value, Some(e)).Leaves?
    ensures var o := Eval(Try(body, clauses), top, vars, log, fuel);
      o.Returned? && o.left == FlowOf(Handler(clauses, e).value, Some(e)).left + 1
  {
    var o := Eval(body, Guarded(NO_EXCEPTION), vars, log, fuel);
    FlowHolds(Handler(clauses, e).value, Some(e), o.vars, o.log, fuel);
  }

  /** The next exception after a call that left frames jumps to a function that has returned: the clauses of
      the caller's own JVM_TRY never see it, whatever they are. */
  lemma ThrowAfterReturn(a: Stmt, e: Exc, clauses: Clauses, vars: Vars, log: seq<Exc>, fuel: nat)
    requires e != NO_EXCEPTION
    requires var o := Eval(a, Guarded(NO_EXCEPTION), vars, log, fuel); o.Returned? && o.left > 0
    ensures var code, st := Compile(Try(Seq(Call(a), Throw(e)), clauses), 0), Start(vars, log);
      && Halts(code, st)
      && forall n | !Live(code, Exec(code, st, n)) :: Exec(code, st, n).status == Failed(StaleFrame)
  {
    var s := Try(Seq(Call(a), Throw(e)), clauses);
    var o := Eval(a, Guarded(NO_EXCEPTION), vars, log, fuel);
    assert Eval(Call(a), Guarded(NO_EXCEPTION), vars, log, fuel) == Normal(o.left, o.vars, o.log);
    assert Eval(s.body, Guarded(NO_EXCEPTION), vars, log, fuel) == Halt(StaleFrame, o.vars, o.log);
    assert Eval(s, Empty, vars, log, fuel) == Halt(StaleFrame, o.vars, o.log);
    hide Exec, Compile, Live, Eval, Halts;
    MacrosPreserveMeaning(s, vars, log);
    assert Terminates(s, vars, log);
  }

  /** A JVM_TRY that ends leaves nothing behind, whatever its body and handlers, or functions called from
      them, left on the stack. */
  lemma {:induction false} EndTryRestores(body: Stmt, clauses: Clauses, top: Top, vars: Vars, log: seq<Exc>, fuel: nat)
    ensures var o := Eval(Try(body, clauses), top, vars, log, fuel); o.Normal? ==> o.left == 0
  {
    var o := Eval(body, Guarded(NO_EXCEPTION), vars, log, fuel);
    if o.Raise? {
      DispatchRestores(clauses, top, o.exc, o.vars, o.log, fuel);
    }
  }

  lemma {:induction false} DispatchRestores(clauses: Clauses, top: Top, e: Exc, vars: Vars, log: seq<Exc>, fuel: nat)
    ensures var o := Dispatch(clauses, top, e, vars, log, fuel); o.Normal? ==> o.left == 0
    decreases fuel
  {
    var h := Handler(clauses, e);
    if h.Some? && fuel > 0 {
      var o := Eval(h.value, Guarded(e), vars, log, fuel);
      if o.Raise? {
        DispatchRestores(clauses, top, o.exc, o.vars, o.log, fuel - 1);
      }
    }
  }

  // ---------- when dispatching ends ----------

  /** What the handler of e throws, if it throws. */
  function HandlerThrows(clauses: Clauses, e: Exc): Option<Exc> {
    match Handler(clauses, e)
    case None => None
    case Some(h) => if FlowOf(h, Some(e)).Throws? then Some(FlowOf(h, Some(e)).exc) else None
  }

  /** The exception at step k of the chain in which each handler's exception is dispatched again. */
  function Chain(clauses: Clauses, e: Exc, k: nat): Option<Exc>
    decreases k
  {
    if k == 0 then Some(e)
    else match HandlerThrows(clauses, e)
      case None => None
      case Some(x) => Chain(clauses, x, k - 1)
  }

  /** What each handler does is known from its text. */
  ghost predicate Predictable(clauses: Clauses) {
    forall e {:trigger Handler(clauses, e)} ::
      Handler(clauses, e).Some? ==> !FlowOf(Handler(clauses, e).value, Some(e)).Depends?
  }

  /** Fuel for k more dispatches suffices exactly when the chain has ended after k + 1 steps. */
  lemma {:induction false} DispatchFollowsChain(clauses: Clauses, top: Top, e: Exc, vars: Vars, log: seq<Exc>, fuel: nat)
    requires Predictable(clauses)
    ensures Dispatch(clauses, top, e, vars, log, fuel) != OutOfFuel <==> Chain(clauses, e, fuel + 1).None?
    decreases fuel
  {
    var h := Handler(clauses, e);
    if h.Some? {
      FlowHolds(h.value, Some(e), vars, log, fuel);
      var o := Eval(h.value, Guarded(e), vars, log, fuel);
      if FlowOf(h.value, Some(e)).Throws? {
        assert Chain(clauses, e, fuel + 1) == Chain(clauses, o.exc, fuel);
        if fuel > 0 {
          DispatchFollowsChain(clauses, top, o.exc, o.vars, o.log, fuel - 1);
        }
      }
    }
  }

  /** A JVM_TRY whose body raises e ends exactly when the chain of e leaves the clauses. */
  lemma TryEnds(body: Stmt, clauses: Clauses, e: Exc, vars: Vars, log: seq<Exc>, vars': Vars, log': seq<Exc>, fuel: nat)
    requires Predictable(clauses)
    requires Eval(body, Guarded(NO_EXCEPTION), vars, log, fuel) == Raise(e, vars', log')
    ensures Halts(Compile(Try(body, clauses), 0), Start(vars, log))
            <==> Chain(clauses, e, |Constants(clauses)| + 1).None?
  {
    var s := Try(body, clauses);
    hide *;
    MacrosPreserveMeaning(s, vars, log);
    if Terminates(s, vars, log) {
      var f := FuelOf(s, vars, log);
      TryDispatches(body, clauses, e, vars, log, vars', log', fuel, f);
      DispatchFollowsChain(clauses, Empty, e, vars', log', f);
      ChainBound(clauses, e, f + 1);
    }
    if Chain(clauses, e, |Constants(clauses)| + 1).None? {
      var f := fuel + |Constants(clauses)|;
      ChainStays(clauses, e, |Constants(clauses)| + 1, f + 1);
      DispatchFollowsChain(clauses, Empty, e, vars', log', f);
      DispatchEnds(body, clauses, e, vars, log, vars', log', fuel, f);
    }
  }

  lemma FuelOf(s: Stmt, vars: Vars, log: seq<Exc>) returns (f: nat)
    requires Terminates(s, vars, log)
    ensures Eval(s, Empty, vars, log, f) != OutOfFuel
  {
    hide Eval;
    f :| Eval(s, Empty, vars, log, f) != OutOfFuel;
  }

  lemma TryDispatches(body: Stmt, clauses: Clauses, e: Exc, vars: Vars, log: seq<Exc>, vars': Vars, log': seq<Exc>,
                      fuel: nat, f: nat)
    requires Eval(body, Guarded(NO_EXCEPTION), vars, log, fuel) == Raise(e, vars', log')
    requires Eval(Try(body, clauses), Empty, vars, log, f) != OutOfFuel
    ensures Dispatch(clauses, Empty, e, vars', log', f) != OutOfFuel
  {
    hide Dispatch;
    SameRaise(body, e, vars, log, vars', log', fuel, f);
  }

  lemma DispatchEnds(body: Stmt, clauses: Clauses, e: Exc, vars: Vars, log: seq<Exc>, vars': Vars, log': seq<Exc>,
                     fuel: nat, f: nat)
    requires Eval(body, Guarded(NO_EXCEPTION), vars, log, fuel) == Raise(e, vars', log') && fuel <= f
    requires Dispatch(clauses, Empty, e, vars', log', f) != OutOfFuel
    ensures Terminates(Try(body, clauses), vars, log)
  {
    hide Dispatch;
    EnoughFuel(body, Guarded(NO_EXCEPTION), vars, log, fuel, f);
    assert Eval(Try(body, clauses), Empty, vars, log, f) != OutOfFuel;
  }

  lemma SameRaise(body: Stmt, e: Exc, vars: Vars, log: seq<Exc>, vars': Vars, log': seq<Exc>, fuel: nat, f: nat)
    requires Eval(body, Guarded(NO_EXCEPTION), vars, log, fuel) == Raise(e, vars', log')
    requires Eval(body, Guarded(NO_EXCEPTION), vars, log, f) != OutOfFuel
    ensures Eval(body, Guarded(NO_EXCEPTION), vars, log, f) == Raise(e, vars', log')
  {
    hide Eval;
    EnoughFuel(body, Guarded(NO_EXCEPTION), vars, log, fuel, fuel + f);
    EnoughFuel(body, Guarded(NO_EXCEPTION), vars, log, f, fuel + f);
  }

  /** A handler that throws what it caught, as a first act whatever the data, never ends: whatever the other
      clauses are, and whatever the body did before it raised e. */
  lemma RethrowLoops(body: Stmt, clauses: Clauses, e: Exc, vars: Vars, log: seq<Exc>, vars': Vars, log': seq<Exc>, fuel: nat)
    requires Eval(body, Guarded(NO_EXCEPTION), vars, log, fuel) == Raise(e, vars', log')
    requires HandlerThrows(clauses, e) == Some(e)
    ensures !Halts(Compile(Try(body, clauses), 0), Start(vars, log))
  {
    var s := Try(body, clauses);
    hide Compile, Halts;
    MacrosPreserveMeaning(s, vars, log);
    if f: nat :| Eval(s, Empty, vars, log, f) != OutOfFuel {
      SameRaise(body, e, vars, log, vars', log', fuel, f);
      DispatchLoops(clauses, Empty, e, vars', log', f);
    }
  }

  lemma {:induction false} DispatchLoops(clauses: Clauses, top: Top, e: Exc, vars: Vars, log: seq<Exc>, fuel: nat)
    requires HandlerThrows(clauses, e) == Some(e)
    ensures Dispatch(clauses, top, e, vars, log, fuel) == OutOfFuel
    decreases fuel
  {
    var h := Handler(clauses, e).value;
    FlowHolds(h, Some(e), vars, log, fuel);
    var o := Eval(h, Guarded(e), vars, log, fuel);
    if fuel > 0 {
      DispatchLoops(clauses, top, e, o.vars, o.log, fuel - 1);
    }
  }

  /** The catch-all clause that throws the current exception again. */
  lemma CatchAllRethrowLoops(body: Stmt, rest: Stmt, e: Exc, vars: Vars, log: seq<Exc>, vars': Vars, log': seq<Exc>, fuel: nat)
    requires Eval(body, Guarded(NO_EXCEPTION), vars, log, fuel) == Raise(e, vars', log') && e <= MAX_EXCEPTION
    ensures !Halts(Compile(Try(body, Clause(All, Seq(Rethrow, rest), NoClause)), 0), Start(vars, log))
  {
    var clauses := Clause(All, Seq(Rethrow, rest), NoClause);
    RaiseFacts(body, Guarded(NO_EXCEPTION), vars, log, fuel);
    hide Eval;
    assert Handler(clauses, e) == Some(Seq(Rethrow, rest));
    assert FlowOf(Rethrow, Some(e)) == Throws(e);
    RethrowLoops(body, clauses, e, vars, log, vars', log', fuel);
  }

  // ---------- how far a chain has to be followed ----------

  /** The exceptions named in throw statements. */
  function ThrownIn(s: Stmt): set<Exc>
    decreases Size(s)
  {
    match s
    case If(_, a, b) => ThrownIn(a) + ThrownIn(b)
    case While(_, a) => ThrownIn(a)
    case Seq(a, b) => ThrownIn(a) + ThrownIn(b)
    case Throw(e) => {e}
    case Call(a) => ThrownIn(a)
    case Try(body, clauses) => ThrownIn(body) + Constants(clauses)
    case _ => {}
  }

  function Constants(clauses: Clauses): set<Exc>
    decreases ClausesSize(clauses)
  {
    if clauses.NoClause? then {} else ThrownIn(clauses.handler) + Constants(clauses.rest)
  }

  lemma {:induction false} HandlerConstants(clauses: Clauses, e: Exc)
    requires Handler(clauses, e).Some?
    ensures ThrownIn(Handler(clauses, e).value) <= Constants(clauses)
    decreases clauses
  {
    if !Accepts(clauses.filter, e) {
      HandlerConstants(clauses.rest, e);
    }
  }

  lemma {:induction false} FlowThrows(s: Stmt, current: Option<Exc>)
    requires FlowOf(s, current).Throws?
    ensures FlowOf(s, current).exc in ThrownIn(s) || current == Some(FlowOf(s, current).exc)
    ensures FlowOf(s, current).exc != NO_EXCEPTION
    decreases Size(s)
  {
    match s
    case If(_, a, b) => FlowThrows(a, current);
    case Seq(a, b) => FlowThrows(if FlowOf(a, current).Passes? then b else a, current);
    case Call(a) => FlowThrows(a, current);
    case Try(body, clauses) => FlowThrows(body, Some(NO_EXCEPTION));
    case _ =>
  }

  lemma HandlerThrowsIn(clauses: Clauses, e: Exc)
    requires HandlerThrows(clauses, e).Some?
    ensures HandlerThrows(clauses, e).value in Constants(clauses) || HandlerThrows(clauses, e) == Some(e)
  {
    FlowThrows(Handler(clauses, e).value, Some(e));
    HandlerConstants(clauses, e);
  }

  lemma {:induction false} ChainAdd(clauses: Clauses, e: Exc, i: nat, j: nat)
    requires Chain(clauses, e, i).Some?
    ensures Chain(clauses, e, i + j) == Chain(clauses, Chain(clauses, e, i).value, j)
    decreases i
  {
    if i > 0 {
      ChainAdd(clauses, HandlerThrows(clauses, e).value, i - 1, j);
    }
  }

  /** Once ended, a chain stays ended. */
  lemma {:induction false} ChainStays(clauses: Clauses, e: Exc, i: nat, j: nat)
    requires i <= j && Chain(clauses, e, i).None?
    ensures Chain(clauses, e, j).None?
    decreases i
  {
    if HandlerThrows(clauses, e).Some? {
      ChainStays(clauses, HandlerThrows(clauses, e).value, i - 1, j - 1);
    }
  }

  /** No exception comes twice in a chain that ends. */
  lemma ChainDistinct(clauses: Clauses, e: Exc, k: nat, i: nat, j: nat)
    requires i < j < k && Chain(clauses, e, k - 1).Some? && Chain(clauses, e, k).None?
    requires Chain(clauses, e, i).Some? && Chain(clauses, e, j).Some?
    ensures Chain(clauses, e, i) != Chain(clauses, e, j)
  {
    hide Chain;
    if Chain(clauses, e, i) == Chain(clauses, e, j) {
      ChainAdd(clauses, e, i, k - j);
      ChainAdd(clauses, e, j, k - j);
      ChainStays(clauses, e, i + (k - j), k - 1);
    }
  }

  /** If a chain ends at all, it ends within one step more than there are exceptions to throw. */
  lemma {:induction false} ChainBound(clauses: Clauses, e: Exc, k: nat)
    requires Chain(clauses, e, k).None?
    ensures Chain(clauses, e, |Constants(clauses)| + 1).None?
    decreases k
  {
    var n := |Constants(clauses)|;
    if k <= n + 1 {
      ChainStays(clauses, e, k, n + 1);
    } else if Chain(clauses, e, k - 1).None? {
      ChainBound(clauses, e, k - 1);
    } else {
      var xs := Steps(clauses, e, k);
      Pigeonhole(xs, Constants(clauses));
    }
  }

  /** The exceptions of a chain after its first, up to where it ends. */
  lemma Steps(clauses: Clauses, e: Exc, k: nat) returns (xs: seq<Exc>)
    requires k > 0 && Chain(clauses, e, k - 1).Some? && Chain(clauses, e, k).None?
    ensures |xs| == k - 1
    ensures forall i :: 0 <= i < |xs| ==> xs[i] in Constants(clauses)
    ensures forall i, j :: 0 <= i < j < |xs| ==> xs[i] != xs[j]
  {
    hide Chain, Constants;
    forall i | 0 <= i < k ensures Chain(clauses, e, i).Some? {
      if Chain(clauses, e, i).None? {
        ChainStays(clauses, e, i, k - 1);
      }
    }
    xs := seq(k - 1, i requires 0 <= i < k - 1 => Chain(clauses, e, i + 1).value);
    forall i | 0 <= i < |xs| ensures xs[i] in Constants(clauses) {
      ChainDistinct(clauses, e, k, i, i + 1);
      OneStep(clauses, e, i);
    }
    forall i, j | 0 <= i < j < |xs| ensures xs[i] != xs[j] {
      ChainDistinct(clauses, e, k, i + 1, j + 1);
    }
  }

  lemma OneStep(clauses: Clauses, e: Exc, i: nat)
    requires Chain(clauses, e, i).Some? && Chain(clauses, e, i + 1).Some?
    requires Chain(clauses, e, i) != Chain(clauses, e, i + 1)
    ensures Chain(clauses, e, i + 1).value in Constants(clauses)
  {
    var x := Chain(clauses, e, i).value;
    ChainAdd(clauses, e, i, 1);
    assert Chain(clauses, x, 1) == HandlerThrows(clauses, x);
    HandlerThrowsIn(clauses, x);
  }

  // ---------- code that always ends ----------

  /** The exceptions a statement may raise. */
  function MayRaise(s: Stmt): set<Exc>
    decreases Size(s)
  {
    match s
    case If(_, a, b) => MayRaise(a) + MayRaise(b)
    case While(_, a) => MayRaise(a)
    case Seq(a, b) => MayRaise(a) + MayRaise(b)
    case Throw(e) => {e}
    case Call(a) => MayRaise(a)
    case Try(body, clauses) => set e | e in MayRaise(body) + HandlersMayRaise(clauses) && Handler(clauses, e).None?
    case _ => {}
  }

  function HandlersMayRaise(clauses: Clauses): set<Exc>
    decreases ClausesSize(clauses)
  {
    if clauses.NoClause? then {} else MayRaise(clauses.handler) + HandlersMayRaise(clauses.rest)
  }

  /** No loops, and no handler throws what its own clauses accept. */
  predicate NoSelfCatch(s: Stmt, inHandler: bool)
    decreases Size(s)
  {
    match s
    case If(_, a, b) => NoSelfCatch(a, inHandler) && NoSelfCatch(b, inHandler)
    case While(_, _) => false
    case Seq(a, b) => NoSelfCatch(a, inHandler) && NoSelfCatch(b, inHandler)
    case Rethrow => !inHandler
    case Call(a) => NoSelfCatch(a, inHandler)
    case Try(body, clauses) =>
      && NoSelfCatch(body, false) && HandlersNoSelfCatch(clauses)
      && forall e <- HandlersMayRaise(clauses) :: Handler(clauses, e).None?
    case _ => true
  }

  predicate HandlersNoSelfCatch(clauses: Clauses)
    decreases ClausesSize(clauses)
  {
    clauses.Clause? ==> NoSelfCatch(clauses.handler, true) && HandlersNoSelfCatch(clauses.rest)
  }

  lemma {:induction false} HandlerOfSafe(clauses: Clauses, e: Exc)
    requires HandlersNoSelfCatch(clauses) && Handler(clauses, e).Some?
    ensures NoSelfCatch(Handler(clauses, e).value, true)
    ensures MayRaise(Handler(clauses, e).value) <= HandlersMayRaise(clauses)
    decreases clauses
  {
    if !Accepts(clauses.filter, e) {
      HandlerOfSafe(clauses.rest, e);
    }
  }

  /** One more dispatch is always enough. */
  lemma {:induction false} SafeEnds(s: Stmt, top: Top, inHandler: bool, vars: Vars, log: seq<Exc>, fuel: nat)
    requires NoSelfCatch(s, inHandler) && fuel >= 1
    requires top.Guarded? && top.exc != NO_EXCEPTION ==> inHandler
    ensures var o := Eval(s, top, vars, log, fuel);
      o != OutOfFuel && (o.Raise? ==> o.exc in MayRaise(s))
    decreases Size(s), 1
  {
    match s
    case If(cond, a, b) => SafeEnds(if cond(vars) then a else b, top, inHandler, vars, log, fuel);
    case Seq(a, b) =>
      SafeEnds(a, top, inHandler, vars, log, fuel);
      var o := Eval(a, top, vars, log, fuel);
      if o.Normal? {
        SafeEnds(b, Topped(top, o.left), inHandler, o.vars, o.log, fuel);
      }
    case Call(a) => SafeEnds(a, top, inHandler, vars, log, fuel);
    case Try(body, clauses) =>
      SafeEnds(body, Guarded(NO_EXCEPTION), false, vars, log, fuel);
      var o := Eval(body, Guarded(NO_EXCEPTION), vars, log, fuel);
      if o.Raise? {
        SafeDispatch(body, clauses, top, o.exc, o.vars, o.log, fuel);
      }
    case _ =>
  }

  lemma {:induction false} SafeDispatch(body: Stmt, clauses: Clauses, top: Top, e: Exc, vars: Vars, log: seq<Exc>, fuel: nat)
    requires HandlersNoSelfCatch(clauses) && fuel >= 1 && e in MayRaise(body)
    requires forall x <- HandlersMayRaise(clauses) :: Handler(clauses, x).None?
    ensures var o := Dispatch(clauses, top, e, vars, log, fuel);
      o != OutOfFuel && (o.Raise? ==> o.exc in MayRaise(Try(body, clauses)))
    decreases Size(Try(body, clauses)), 0
  {
    var h := Handler(clauses, e);
    if h.Some? {
      HandlerOfSafe(clauses, e);
      SafeEnds(h.value, Guarded(e), true, vars, log, fuel);
    }
  }

  /** Code without loops in which no handler throws an exception its own clauses accept always ends. */
  lemma NoSelfCatchEnds(s: Stmt, vars: Vars, log: seq<Exc>)
    requires NoSelfCatch(s, false)
    ensures Terminates(s, vars, log) && Halts(Compile(s, 0), Start(vars, log))
  {
    hide Eval, Halts, Compile;
    SafeEnds(s, Empty, false, vars, log, 1);
    MacrosPreserveMeaning(s, vars, log);
  }

  // ---------- the conditions on single texts ----------

  /** Which texts keep the stack. */
  lemma ReturnSamples(f: Vars -> Vars)
    ensures NoReturnInTry(Seq(Try(Throw(5), Clause(Types([5]), Prim(f), NoClause)), Return))
    ensures !NoReturnInTry(Try(Return, NoClause)) && !NoReturnInTry(Call(Try(Prim(f), Clause(All, Return, NoClause))))
    ensures NoReturnInTry(Try(Call(Return), NoClause))
  {
    assert HandlersNoReturnInTry(NoClause) && HandlersReturnFree(NoClause);
    assert NoReturnInTry(Throw(5)) && NoReturnInTry(Prim(f)) && NoReturnInTry(Return);
    assert HandlersNoReturnInTry(Clause(Types([5]), Prim(f), NoClause));
    assert NoReturnInTry(Try(Throw(5), Clause(Types([5]), Prim(f), NoClause)));
    assert !ReturnFree(Return) && !HandlersReturnFree(Clause(All, Return, NoClause));
    assert !NoReturnInTry(Try(Prim(f), Clause(All, Return, NoClause)));
  }

  /** How many frames texts leave behind, and what they throw. */
  lemma FlowSamples(f: Vars -> Vars)
    ensures FlowOf(Try(Seq(Prim(f), Try(Return, NoClause)), NoClause), None) == Leaves(2)
    ensures FlowOf(Try(Throw(5), Clause(Types([5]), Return, NoClause)), None) == Leaves(1)
    ensures FlowOf(Try(Throw(5), Clause(Types([7]), Return, NoClause)), None) == Passes
    ensures FlowOf(Seq(Throw(5), Return), Some(0)) == Throws(5)
  {
    assert FlowOf(Return, Some(0)) == Leaves(0) && FlowOf(Prim(f), Some(0)) == Passes;
    assert FlowOf(Try(Return, NoClause), Some(0)) == Leaves(1);
    assert FlowOf(Seq(Prim(f), Try(Return, NoClause)), Some(0)) == Leaves(1);
  }

  /** The chain of two handlers that throw to each other and to themselves. */
  lemma ChainSamples()
    ensures var turns := Clause(Types([5]), Throw(7), Clause(Types([7]), Rethrow, NoClause));
      Predictable(turns) && Chain(turns, 5, 1) == Some(7) && Chain(turns, 5, 2) == Some(7) && Chain(turns, 6, 1).None?
  {
    var turns := Clause(Types([5]), Throw(7), Clause(Types([7]), Rethrow, NoClause));
    assert Chain(turns, 5, 2) == Chain(turns, 7, 1) == Chain(turns, 7, 0);
  }

  /** Which handlers throw what they catch. */
  lemma SelfCatchSamples(f: Vars -> Vars)
    ensures NoSelfCatch(Try(Throw(5), Clause(Types([5]), Throw(6), NoClause)), false)
    ensures !NoSelfCatch(Try(Prim(f), Clause(Types([5]), Throw(5), NoClause)), false)
  {
    var self := Clause(Types([5]), Throw(5), NoClause);
    assert MayRaise(Throw(5)) == {5} && 5 in HandlersMayRaise(self) && Handler(self, 5) == Some(Throw(5));
    var other := Clause(Types([5]), Throw(6), NoClause);
    assert MayRaise(Throw(6)) == {6} && HandlersMayRaise(NoClause) == {} && HandlersMayRaise(other) == {6};
    assert HandlersNoSelfCatch(NoClause) && NoSelfCatch(Throw(6), true) && Handler(other, 6) == Handler(NoClause, 6) == None;
  }
}
