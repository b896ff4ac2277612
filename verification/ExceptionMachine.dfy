/** Statements written with the macros of Jvmexcpt.h, and what they mean without any frame stack. */
module TryLanguage {
  import opened ExceptionFrames
  import opened Wrappers

  type Vars = map<string, int>

  datatype Stmt =
    | Prim(effect: Vars -> Vars)
    | If(cond: Vars -> bool, thn: Stmt, els: Stmt)
    | While(cond: Vars -> bool, body: Stmt)
    | Seq(first: Stmt, second: Stmt)
    | Throw(exc: Exc)
    | Rethrow  // JVM_THROW_EXCEPTION( JVM_GET_EXCEPTION_TYPE() )
    | Return   // leaves the C function at once
    | Call(body: Stmt)  // calls a C function with this body
    | Try(body: Stmt, clauses: Clauses)

  datatype Clauses = NoClause | Clause(filter: Filter, handler: Stmt, rest: Clauses)

  /** What is on top of the thread's frame stack: nothing, the frame of a JVM_TRY in progress with the
      exception last sent to it, or a frame whose function has returned. */
  datatype Top = Empty | Guarded(exc: Exc) | Stale

  /** A null frame was read, or a frame of a function that has returned was used. */
  datatype Fault = NullFrame | StaleFrame

  /** Normal and Returned count the frames they leave on the stack that were not there before. */
  datatype Outcome =
    | Normal(left: nat, vars: Vars, log: seq<Exc>)
    | Returned(left: nat, vars: Vars, log: seq<Exc>)
    | Raise(exc: Exc, vars: Vars, log: seq<Exc>)
    | Halt(fault: Fault, vars: Vars, log: seq<Exc>)
    | OutOfFuel

  function Size(s: Stmt): nat {
    match s
    case If(_, a, b) => 1 + Size(a) + Size(b)
    case While(_, a) => 1 + Size(a)
    case Seq(a, b) => 1 + Size(a) + Size(b)
    case Call(a) => 1 + Size(a)
    case Try(body, clauses) => 1 + Size(body) + ClausesSize(clauses)
    case _ => 1
  }

  function ClausesSize(clauses: Clauses): nat {
    match clauses
    case NoClause => 1
    case Clause(_, handler, rest) => 1 + Size(handler) + ClausesSize(rest)
  }

  /** The handler of the first clause that accepts e. */
  function Handler(clauses: Clauses, e: Exc): (handler: Option<Stmt>)
    ensures handler.Some? ==> Size(handler.value) < ClausesSize(clauses)
  {
    match clauses
    case NoClause => None
    case Clause(filter, h, rest) => if Accepts(filter, e) then Some(h) else Handler(rest, e)
  }

  /** What is on top once this many stale frames were left there. */
  function Topped(top: Top, left: nat): Top {
    if left > 0 then Stale else top
  }

  /** An outcome of a statement that began with this many frames left by the one before. */
  function Above(left: nat, o: Outcome): Outcome {
    match o
    case Normal(k, vars, log) => Normal(left + k, vars, log)
    case Returned(k, vars, log) => Returned(left + k, vars, log)
    case _ => o
  }

  /** What a called function's end means to its caller. */
  function Called(o: Outcome): Outcome {
    if o.Returned? then Normal(o.left, o.vars, o.log) else o
  }

  /** A body or handler that did not raise, seen from outside its JVM_TRY: JVM_END_TRY drops every frame
      above, a return leaves the frame of the JVM_TRY behind as well. */
  function Leaving(o: Outcome): Outcome {
    match o
    case Normal(_, vars, log) => Normal(0, vars, log)
    case Returned(k, vars, log) => Returned(k + 1, vars, log)
    case _ => o
  }

  /** The meaning of a statement that finds top on the frame stack. Fuel bounds how often a loop repeats
      and a JVM_TRY dispatches again. */
  function Eval(s: Stmt, top: Top, vars: Vars, log: seq<Exc>, fuel: nat): Outcome
    decreases fuel, Size(s), 0
  {
    match s
    case Prim(effect) => Normal(0, effect(vars), log)
    case If(cond, a, b) => Eval(if cond(vars) then a else b, top, vars, log, fuel)
    case While(cond, a) =>
      if !cond(vars) then Normal(0, vars, log)
      else
        var o := Eval(a, top, vars, log, fuel);
        if !o.Normal? then o
        else if fuel == 0 then OutOfFuel
        else Above(o.left, Eval(s, Topped(top, o.left), o.vars, o.log, fuel - 1))
    case Seq(a, b) =>
      var o := Eval(a, top, vars, log, fuel);
      if o.Normal? then Above(o.left, Eval(b, Topped(top, o.left), o.vars, o.log, fuel)) else o
    case Throw(e) => EvalThrow(e, top, vars, log)
    case Rethrow =>
      (match top
       case Empty => Halt(NullFrame, vars, log)
       case Guarded(e) => EvalThrow(e, top, vars, log)
       case Stale => Halt(StaleFrame, vars, log))
    case Return => Returned(0, vars, log)
    case Call(a) => Called(Eval(a, top, vars, log, fuel))
    case Try(body, clauses) =>
      var o := Eval(body, Guarded(NO_EXCEPTION), vars, log, fuel);
      if o.Raise? then Dispatch(clauses, top, o.exc, o.vars, o.log, fuel) else Leaving(o)
  }

  function EvalThrow(e: Exc, top: Top, vars: Vars, log: seq<Exc>): Outcome {
    if e == NO_EXCEPTION then Normal(0, vars, log)
    else match top
      case Empty => Normal(0, vars, log + [e])
      case Guarded(_) => Raise(e, vars, log)
      case Stale => Halt(StaleFrame, vars, log)
  }

  /** e was sent to a JVM_TRY with these clauses. An exception out of a handler comes back to the same
      clauses; one that no clause accepts goes outward, or to the default handler at the outermost level. */
  function Dispatch(clauses: Clauses, top: Top, e: Exc, vars: Vars, log: seq<Exc>, fuel: nat): Outcome
    decreases fuel, ClausesSize(clauses), 0
  {
    match Handler(clauses, e)
    case None => EvalThrow(e, top, vars, log)
    case Some(handler) =>
      var o := Eval(handler, Guarded(e), vars, log, fuel);
      if !o.Raise? then Leaving(o)
      else if fuel == 0 then OutOfFuel
      else Dispatch(clauses, top, o.exc, o.vars, o.log, fuel - 1)
  }

  /** Only real exceptions are raised, and only towards a JVM_TRY in progress. */
  lemma {:induction false} RaiseFacts(s: Stmt, top: Top, vars: Vars, log: seq<Exc>, fuel: nat)
    ensures var o := Eval(s, top, vars, log, fuel);
            o.Raise? ==> top.Guarded? && o.exc != NO_EXCEPTION
    decreases fuel, Size(s), 0
  {
    match s
    case If(cond, a, b) => RaiseFacts(if cond(vars) then a else b, top, vars, log, fuel);
    case While(cond, a) =>
      RaiseFacts(a, top, vars, log, fuel);
      var o := Eval(a, top, vars, log, fuel);
      if cond(vars) && o.Normal? && fuel > 0 {
        RaiseFacts(s, Topped(top, o.left), o.vars, o.log, fuel - 1);
      }
    case Seq(a, b) =>
      RaiseFacts(a, top, vars, log, fuel);
      var o := Eval(a, top, vars, log, fuel);
      if o.Normal? {
        RaiseFacts(b, Topped(top, o.left), o.vars, o.log, fuel);
      }
    case Call(a) => RaiseFacts(a, top, vars, log, fuel);
    case Try(body, clauses) =>
      RaiseFacts(body, Guarded(NO_EXCEPTION), vars, log, fuel);
      var o := Eval(body, Guarded(NO_EXCEPTION), vars, log, fuel);
      if o.Raise? {
        DispatchRaiseFacts(clauses, top, o.exc, o.vars, o.log, fuel);
      }
    case _ =>
  }

  lemma {:induction false} DispatchRaiseFacts(clauses: Clauses, top: Top, e: Exc, vars: Vars, log: seq<Exc>, fuel: nat)
    requires e != NO_EXCEPTION
    ensures var o := Dispatch(clauses, top, e, vars, log, fuel);
            o.Raise? ==> top.Guarded? && o.exc != NO_EXCEPTION
    decreases fuel, ClausesSize(clauses), 0
  {
    var h := Handler(clauses, e);
    if h.Some? {
      RaiseFacts(h.value, Guarded(e), vars, log, fuel);
      var o := Eval(h.value, Guarded(e), vars, log, fuel);
      if o.Raise? && fuel > 0 {
        DispatchRaiseFacts(clauses, top, o.exc, o.vars, o.log, fuel - 1);
      }
    }
  }

  /** More fuel changes no outcome that was reached without running out. */
  lemma {:induction false} MoreFuel(s: Stmt, top: Top, vars: Vars, log: seq<Exc>, fuel: nat)
    requires Eval(s, top, vars, log, fuel) != OutOfFuel
    ensures Eval(s, top, vars, log, fuel + 1) == Eval(s, top, vars, log, fuel)
    decreases fuel, Size(s), 0
  {
    match s
    case If(cond, a, b) => MoreFuel(if cond(vars) then a else b, top, vars, log, fuel);
    case While(cond, a) =>
      if cond(vars) {
        MoreFuel(a, top, vars, log, fuel);
        var o := Eval(a, top, vars, log, fuel);
        if o.Normal? {
          MoreFuel(s, Topped(top, o.left), o.vars, o.log, fuel - 1);
        }
      }
    case Seq(a, b) =>
      MoreFuel(a, top, vars, log, fuel);
      var o := Eval(a, top, vars, log, fuel);
      if o.Normal? {
        MoreFuel(b, Topped(top, o.left), o.vars, o.log, fuel);
      }
    case Call(a) => MoreFuel(a, top, vars, log, fuel);
    case Try(body, clauses) =>
      MoreFuel(body, Guarded(NO_EXCEPTION), vars, log, fuel);
      var o := Eval(body, Guarded(NO_EXCEPTION), vars, log, fuel);
      if o.Raise? {
        DispatchMoreFuel(clauses, top, o.exc, o.vars, o.log, fuel);
      }
    case _ =>
  }

  lemma {:induction false} DispatchMoreFuel(clauses: Clauses, top: Top, e: Exc, vars: Vars, log: seq<Exc>, fuel: nat)
    requires Dispatch(clauses, top, e, vars, log, fuel) != OutOfFuel
    ensures Dispatch(clauses, top, e, vars, log, fuel + 1) == Dispatch(clauses, top, e, vars, log, fuel)
    decreases fuel, ClausesSize(clauses), 0
  {
    var h := Handler(clauses, e);
    if h.Some? {
      MoreFuel(h.value, Guarded(e), vars, log, fuel);
      var o := Eval(h.value, Guarded(e), vars, log, fuel);
      if o.Raise? {
        DispatchMoreFuel(clauses, top, o.exc, o.vars, o.log, fuel - 1);
      }
    }
  }

  lemma {:induction false} EnoughFuel(s: Stmt, top: Top, vars: Vars, log: seq<Exc>, fuel: nat, more: nat)
    requires Eval(s, top, vars, log, fuel) != OutOfFuel && fuel <= more
    ensures Eval(s, top, vars, log, more) == Eval(s, top, vars, log, fuel)
    decreases more
  {
    hide Eval;
    if fuel < more {
      EnoughFuel(s, top, vars, log, fuel, more - 1);
      MoreFuel(s, top, vars, log, more - 1);
    }
  }
}

/** The same statements compiled to jumps over a stack of frames, as the macros expand. */
module FrameMachine {
  import opened ExceptionFrames
  import opened TryLanguage

  datatype Instr =
    | DoPrim(effect: Vars -> Vars)
    | Jump(target: nat)
    | JumpUnless(cond: Vars -> bool, target: nat)
    | PushFrame(target: nat)         // JVM_TRY: link the frame, setjmp returns 0
    | CallThrow(exc: Exc)            // JvmThrowException
    | CallRethrow
    | TestCatch(filter: Filter, next: nat)  // else if ( JvmCatchException(..) )
    | CallUnhandled                  // else JvmThrowUnhandledException()
    | PopFrame                       // JVM_END_TRY
    | CallFunction(target: nat)
    | DoReturn

  datatype Status = Running | Done | Failed(fault: Fault)

  /** calls lists the calls in progress, innermost first. */
  datatype State = State(pc: nat, calls: seq<Activation>, thread: Thread, vars: Vars, status: Status)

  function CodeSize(s: Stmt): nat {
    match s
    case If(_, a, b) => 2 + CodeSize(a) + CodeSize(b)
    case While(_, a) => 2 + CodeSize(a)
    case Seq(a, b) => CodeSize(a) + CodeSize(b)
    case Call(a) => 3 + CodeSize(a)
    case Try(body, clauses) => 4 + CodeSize(body) + ClausesCodeSize(clauses)
    case _ => 1
  }

  function ClausesCodeSize(clauses: Clauses): nat {
    match clauses
    case NoClause => 0
    case Clause(_, handler, rest) => 2 + CodeSize(handler) + ClausesCodeSize(rest)
  }

  /** Where control lands when a frame pushed by the JVM_TRY at base is jumped to. */
  function CatchPoint(body: Stmt, base: nat): nat {
    base + 2 + CodeSize(body)
  }

  function EndPoint(body: Stmt, clauses: Clauses, base: nat): nat {
    CatchPoint(body, base) + ClausesCodeSize(clauses) + 1
  }

  function Compile(s: Stmt, base: nat): (code: seq<Instr>)
    ensures |code| == CodeSize(s)
  {
    match s
    case Prim(effect) => [DoPrim(effect)]
    case If(cond, a, b) =>
      var other := base + 2 + CodeSize(a);
      [JumpUnless(cond, other)] + Compile(a, base + 1) + [Jump(other + CodeSize(b))] + Compile(b, other)
    case While(cond, a) => [JumpUnless(cond, base + 2 + CodeSize(a))] + Compile(a, base + 1) + [Jump(base)]
    case Seq(a, b) => Compile(a, base) + Compile(b, base + CodeSize(a))
    case Throw(e) => [CallThrow(e)]
    case Rethrow => [CallRethrow]
    case Return => [DoReturn]
    case Call(a) => [CallFunction(base + 2)] + [Jump(base + 3 + CodeSize(a))] + Compile(a, base + 2) + [DoReturn]
    case Try(body, clauses) =>
      var catchPoint, end := CatchPoint(body, base), EndPoint(body, clauses, base);
      [PushFrame(catchPoint)] + Compile(body, base + 1) + [Jump(end)]
      + CompileClauses(clauses, catchPoint, end) + [CallUnhandled] + [PopFrame]
  }

  function CompileClauses(clauses: Clauses, base: nat, end: nat): (code: seq<Instr>)
    ensures |code| == ClausesCodeSize(clauses)
  {
    match clauses
    case NoClause => []
    case Clause(filter, handler, rest) =>
      var next := base + 2 + CodeSize(handler);
      [TestCatch(filter, next)] + Compile(handler, base + 1) + [Jump(end)] + CompileClauses(rest, next, end)
  }

  function Fail(st: State, fault: Fault): State {
    st.(status := Failed(fault))
  }

  /** A jump to a frame restores the calls that were in progress there; those must not have returned. */
  function Resume(st: State, r: (Thread, Control)): State {
    match r.1
    case Continue => st.(thread := r.0, pc := st.pc + 1)
    case LongJump(Gone) => Fail(st, StaleFrame)
    case LongJump(Saved(pc, calls)) => st.(thread := r.0, pc := pc, calls := calls)
  }

  /** The variables of the current call, with one more JVM_TRY begun. */
  function Opened(calls: seq<Activation>, height: nat): seq<Activation>
    requires calls != []
  {
    [calls[0].(opens := [height] + calls[0].opens)] + calls[1..]
  }

  /** JVM_END_TRY: back to the frames, and the variables, from before the JVM_TRY. */
  function Closed(st: State): State {
    if st.calls == [] || st.calls[0].opens == [] || st.calls[0].opens[0] > |st.thread.frames| then Fail(st, NullFrame)
    else
      var frames, call := st.thread.frames, st.calls[0];
      st.(pc := st.pc + 1, calls := [call.(opens := call.opens[1..])] + st.calls[1..],
          thread := st.thread.(frames := frames[|frames| - call.opens[0]..]))
  }

  /** The first n frames lived in a function that has returned. */
  function Buried(frames: seq<Frame>, n: int): (buried: seq<Frame>)
    ensures |buried| == |frames|
    ensures forall i :: 0 <= i < |frames| ==>
      buried[i] == if i < n then frames[i].(target := Gone) else frames[i]
  {
    seq(|frames|, i requires 0 <= i < |frames| => if i < n then frames[i].(target := Gone) else frames[i])
  }

  function Returning(st: State): State {
    if |st.calls| <= 1 then st.(status := Done)
    else
      var frames := st.thread.frames;
      st.(pc := st.calls[0].ret, calls := st.calls[1..],
          thread := st.thread.(frames := Buried(frames, |frames| - st.calls[0].height)))
  }

  predicate Live(code: seq<Instr>, st: State) {
    st.status.Running? && st.pc < |code|
  }

  function Step(code: seq<Instr>, st: State): State {
    if !Live(code, st) then st else
    var frames := st.thread.frames;
    match code[st.pc]
    case DoPrim(effect) => st.(vars := effect(st.vars), pc := st.pc + 1)
    case Jump(target) => st.(pc := target)
    case JumpUnless(cond, target) => st.(pc := if cond(st.vars) then st.pc + 1 else target)
    case PushFrame(target) =>
      if st.calls == [] then Fail(st, NullFrame)
      else
        var calls := Opened(st.calls, |frames|);
        st.(calls := calls, thread := Enter(st.thread, Saved(target, calls)), pc := st.pc + 1)
    case CallThrow(e) => Resume(st, Thrown(st.thread, e))
    case CallRethrow =>
      if frames == [] then Fail(st, NullFrame)
      else if frames[0].target.Gone? then Fail(st, StaleFrame)
      else Resume(st, Thrown(st.thread, frames[0].exc))
    case TestCatch(filter, next) =>
      if frames == [] then Fail(st, NullFrame)
      else if Accepts(filter, frames[0].exc) then st.(pc := st.pc + 1) else st.(pc := next)
    case CallUnhandled => if frames == [] then Fail(st, NullFrame) else Resume(st, Unhandled(st.thread))
    case PopFrame => Closed(st)
    case CallFunction(target) => st.(pc := target, calls := [Activation(st.pc + 1, |frames|, [])] + st.calls)
    case DoReturn => Returning(st)
  }

  function Exec(code: seq<Instr>, st: State, n: nat): State
    decreases n
  {
    if n == 0 then st else Exec(code, Step(code, st), n - 1)
  }

  lemma {:induction false} ExecAdd(code: seq<Instr>, st: State, m: nat, n: nat)
    ensures Exec(code, st, m + n) == Exec(code, Exec(code, st, m), n)
    decreases m
  {
    hide Step;
    if m > 0 {
      ExecAdd(code, Step(code, st), m - 1, n);
    }
  }

  lemma {:induction false} ExecStopped(code: seq<Instr>, st: State, n: nat)
    requires !Live(code, st)
    ensures Exec(code, st, n) == st
    decreases n
  {
    if n > 0 {
      assert Step(code, st) == st;
      hide Step;
      ExecStopped(code, st, n - 1);
    }
  }
}
