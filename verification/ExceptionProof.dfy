/** The compiled statement and the direct meaning agree. */
module FrameMachineCorrect {
  import opened ExceptionFrames
  import opened TryLanguage
  import opened FrameMachine
  import opened Wrappers

  ghost predicate CodeAt(code: seq<Instr>, base: nat, block: seq<Instr>) {
    base + |block| <= |code| && forall i :: 0 <= i < |block| ==> code[base + i] == block[i]
  }

  function TopOf(frames: seq<Frame>): Top {
    if frames == [] then Empty else if frames[0].target.Gone? then Stale else Guarded(frames[0].exc)
  }

  /** What a block finds around it: the calls in progress and the frames on the stack. */
  datatype Place = Place(calls: seq<Activation>, frames: seq<Frame>)

  function PlaceOf(st: State): Place {
    Place(st.calls, st.thread.frames)
  }

  /** This many frames lie above those of the place. */
  ghost predicate OnTop(left: nat, frames: seq<Frame>, under: seq<Frame>) {
    |frames| == left + |under| && frames[left..] == under
  }

  ghost predicate AllGone(left: nat, frames: seq<Frame>) {
    left <= |frames| && forall i :: 0 <= i < left ==> frames[i].target.Gone?
  }

  /** The end of a block: only frames of functions that have returned were left behind. */
  ghost predicate AtEnd(r: State, p: Place, end: nat, left: nat, vars: Vars, log: seq<Exc>) {
    && r == State(end, p.calls, Thread(r.thread.frames, log), vars, Running)
    && OnTop(left, r.thread.frames, p.frames) && AllGone(left, r.thread.frames)
  }

  /** A return is about to be executed in the call the block belongs to. */
  ghost predicate AtReturn(code: seq<Instr>, r: State, p: Place, left: nat, vars: Vars, log: seq<Exc>) {
    && r.status.Running? && r.vars == vars && r.thread.log == log
    && r.pc < |code| && code[r.pc] == DoReturn
    && p.calls != [] && r.calls != [] && r.calls == [p.calls[0].(opens := r.calls[0].opens)] + p.calls[1..]
    && OnTop(left, r.thread.frames, p.frames)
  }

  /** Control is at the setjmp of the innermost frame around the block, with that frame's calls. */
  ghost predicate AtFrame(r: State, p: Place, e: Exc, vars: Vars, log: seq<Exc>) {
    && p.frames != [] && p.frames[0].target.Saved?
    && r == State(p.frames[0].target.pc, p.frames[0].target.calls,
                  Thread(p.frames[0 := p.frames[0].(exc := e)], log), vars, Running)
  }

  ghost predicate AtFault(r: State, fault: Fault, vars: Vars, log: seq<Exc>) {
    && r.status == Failed(fault) && r.vars == vars && r.thread.log == log
    && (fault.NullFrame? ==> r.thread.frames == [])
  }

  /** After n steps from st the machine is where outcome o says, as seen from the place of the block, or
      still running after at least fuel steps. */
  ghost predicate Reached(code: seq<Instr>, st: State, p: Place, end: nat, o: Outcome, fuel: nat, n: nat) {
    var r := Exec(code, st, n);
    match o
    case Normal(left, vars, log) => AtEnd(r, p, end, left, vars, log)
    case Returned(left, vars, log) => AtReturn(code, r, p, left, vars, log)
    case Raise(e, vars, log) => AtFrame(r, p, e, vars, log)
    case Halt(fault, vars, log) => AtFault(r, fault, vars, log)
    case OutOfFuel => n >= fuel && Live(code, r)
  }

  lemma CodeSplit(code: seq<Instr>, base: nat, a: seq<Instr>, b: seq<Instr>)
    requires CodeAt(code, base, a + b)
    ensures CodeAt(code, base, a) && CodeAt(code, base + |a|, b)
  {
    assert forall i :: 0 <= i < |a| ==> (a + b)[i] == a[i];
    assert forall i :: 0 <= i < |b| ==> (a + b)[|a| + i] == b[i];
  }

  lemma CodeHead(code: seq<Instr>, base: nat, i: Instr)
    requires CodeAt(code, base, [i])
    ensures base < |code| && code[base] == i
  {
    assert code[base + 0] == [i][0];
  }

  /** A block of the form: one instruction, a block, one instruction, a block. */
  lemma CodeFour(code: seq<Instr>, base: nat, i: Instr, a: seq<Instr>, j: Instr, b: seq<Instr>)
    requires CodeAt(code, base, [i] + a + [j] + b)
    ensures base + 1 + |a| < |code| && code[base] == i && code[base + 1 + |a|] == j
    ensures CodeAt(code, base + 1, a) && CodeAt(code, base + 2 + |a|, b)
  {
    hide CodeAt;
    CodeSplit(code, base, [i] + a + [j], b);
    CodeSplit(code, base, [i] + a, [j]);
    CodeSplit(code, base, [i], a);
    CodeHead(code, base, i);
    CodeHead(code, base + 1 + |a|, j);
  }

  lemma ExecNone(code: seq<Instr>, st: State)
    ensures Exec(code, st, 0) == st
  {
  }

  lemma StepThen(code: seq<Instr>, st: State, st': State)
    requires Step(code, st) == st'
    ensures Exec(code, st, 1) == st'
  {
    hide Step;
    assert Exec(code, st', 0) == st';
  }

  lemma After(code: seq<Instr>, st: State, m: nat, st': State, p: Place, end: nat, o: Outcome, fuel: nat, n: nat)
    requires Exec(code, st, m) == st'
    requires Reached(code, st', p, end, o, fuel, n)
    ensures Reached(code, st, p, end, o, fuel, m + n)
  {
    hide Exec, AtEnd, AtReturn, AtFrame, AtFault;
    ExecAdd(code, st, m, n);
  }

  /** A loop or dispatch costs at least one step, and one unit of fuel. */
  lemma AfterRefuel(code: seq<Instr>, st: State, m: nat, st': State, p: Place, end: nat, o: Outcome, fuel: nat, n: nat)
    requires m >= 1 && Exec(code, st, m) == st'
    requires Reached(code, st', p, end, o, fuel, n)
    ensures Reached(code, st, p, end, o, fuel + 1, m + n)
  {
    hide Exec, AtEnd, AtReturn, AtFrame, AtFault;
    ExecAdd(code, st, m, n);
  }

  lemma EndFacts(code: seq<Instr>, st: State, p: Place, end: nat, o: Outcome, fuel: nat, n: nat)
    requires o.Normal? && Reached(code, st, p, end, o, fuel, n)
    ensures var r := Exec(code, st, n);
      AtEnd(r, p, end, o.left, r.vars, r.thread.log) && r.vars == o.vars && r.thread.log == o.log && r.status.Running?
  {
    hide Exec, OnTop, AllGone;
  }

  lemma StillRunning(code: seq<Instr>, st: State, p: Place, end: nat, n: nat)
    requires Live(code, Exec(code, st, n))
    ensures Reached(code, st, p, end, OutOfFuel, 0, n)
  {
  }

  lemma AlreadyThere(code: seq<Instr>, st: State, st': State, end: nat, fuel: nat)
    requires Exec(code, st, 1) == st' && st'.status.Running? && st'.pc == end
    ensures Reached(code, st, PlaceOf(st'), end, Normal(0, st'.vars, st'.thread.log), fuel, 1)
  {
    hide Exec;
    assert st'.thread.frames[0..] == st'.thread.frames;
  }

  /** What began on top of frames left behind, seen from below them. */
  lemma Lower(code: seq<Instr>, st: State, p: Place, left: nat, end: nat, o: Outcome, fuel: nat, n: nat)
    requires OnTop(left, st.thread.frames, p.frames) && AllGone(left, st.thread.frames) && st.calls == p.calls
    requires Reached(code, st, PlaceOf(st), end, o, fuel, n)
    ensures Reached(code, st, p, end, Above(left, o), fuel, n)
  {
    hide Exec;
    var r := Exec(code, st, n);
    if o.Normal? || o.Returned? {
      OnTopTwice(o.left, r.thread.frames, left, st.thread.frames, p.frames);
      if o.Normal? {
        assert forall i :: o.left <= i < o.left + left ==> r.thread.frames[i] == r.thread.frames[o.left..][i - o.left];
      }
    } else if o.Raise? {
      assert left == 0;
      assert st.thread.frames[0..] == st.thread.frames;
    }
  }

  lemma OnTopTwice(k: nat, top: seq<Frame>, left: nat, mid: seq<Frame>, under: seq<Frame>)
    requires OnTop(k, top, mid) && OnTop(left, mid, under)
    ensures OnTop(left + k, top, under)
  {
    assert top[k..][left..] == top[left + k..];
  }

  function Meaning(s: Stmt, st: State, fuel: nat): Outcome {
    Eval(s, TopOf(st.thread.frames), st.vars, st.thread.log, fuel)
  }

  ghost predicate Ready(code: seq<Instr>, s: Stmt, base: nat, st: State) {
    CodeAt(code, base, Compile(s, base)) && st.pc == base && st.status.Running? && st.calls != []
  }

  /** A compiled statement, placed anywhere and started on any frame stack, goes where its meaning says. */
  lemma {:induction false} Sim(code: seq<Instr>, s: Stmt, base: nat, st: State, fuel: nat) returns (n: nat)
    requires Ready(code, s, base, st)
    ensures Reached(code, st, PlaceOf(st), base + CodeSize(s), Meaning(s, st, fuel), fuel, n)
    decreases fuel, Size(s), 2
  {
    hide Exec, CodeAt, Step, Compile, Reached, Meaning;
    match s
    case If(cond, a, b) => n := SimIf(code, s, base, st, fuel);
    case While(cond, a) => n := SimWhile(code, s, base, st, fuel);
    case Seq(a, b) => n := SimSeq(code, s, base, st, fuel);
    case Call(a) => n := SimCall(code, s, base, st, fuel);
    case Try(body, clauses) => n := SimTry(code, s, base, st, fuel);
    case _ => n := SimSimple(code, s, base, st, fuel);
  }

  lemma SimSimple(code: seq<Instr>, s: Stmt, base: nat, st: State, fuel: nat) returns (n: nat)
    requires Ready(code, s, base, st) && (s.Prim? || s.Throw? || s.Rethrow? || s.Return?)
    ensures Reached(code, st, PlaceOf(st), base + CodeSize(s), Meaning(s, st, fuel), fuel, n)
  {
    CodeHead(code, base, Compile(s, base)[0]);
    assert st.thread.frames[0..] == st.thread.frames;
    if s.Return? {
      n := 0;
      assert st.calls == [st.calls[0].(opens := st.calls[0].opens)] + st.calls[1..];
      ExecNone(code, st);
    } else {
      n := 1;
      StepThen(code, st, Step(code, st));
      hide Exec;
    }
  }

  lemma {:induction false} SimSeq(code: seq<Instr>, s: Stmt, base: nat, st: State, fuel: nat) returns (n: nat)
    requires s.Seq? && Ready(code, s, base, st)
    ensures Reached(code, st, PlaceOf(st), base + CodeSize(s), Meaning(s, st, fuel), fuel, n)
    decreases fuel, Size(s), 1
  {
    hide Exec, Step, CodeAt, Compile, Eval, Reached, AtEnd, Meaning, Above, Topped, TopOf, CodeSize;
    var a, b, p := s.first, s.second, PlaceOf(st);
    var mid, o := base + CodeSize(a), Meaning(a, st, fuel);
    SeqLayout(code, s, base, st);
    SeqMeaning(a, b, st, fuel);
    n := Sim(code, a, base, st, fuel);
    if o.Normal? {
      var st' := Exec(code, st, n);
      EndFacts(code, st, p, mid, o, fuel, n);
      var k := SimNext(code, b, mid, st', p, o.left, fuel);
      After(code, st, n, st', p, mid + CodeSize(b), Meaning(s, st, fuel), fuel, k);
      n := n + k;
    } else {
      SameUnlessNormal(code, st, mid, base + CodeSize(s), o, fuel);
    }
  }

  lemma SeqCode(a: Stmt, b: Stmt, base: nat)
    ensures Compile(Seq(a, b), base) == Compile(a, base) + Compile(b, base + CodeSize(a))
  {
    hide CodeSize;
  }

  lemma SeqLayout(code: seq<Instr>, s: Stmt, base: nat, st: State)
    requires s.Seq? && Ready(code, s, base, st)
    ensures var mid := base + CodeSize(s.first);
      && base + CodeSize(s) == mid + CodeSize(s.second)
      && Ready(code, s.first, base, st) && CodeAt(code, mid, Compile(s.second, mid)) && PlaceOf(st).calls != []
  {
    hide CodeAt, Compile;
    var mid := base + CodeSize(s.first);
    SeqCode(s.first, s.second, base);
    CodeSplit(code, base, Compile(s.first, base), Compile(s.second, mid));
  }

  /** Only an outcome at the end of a statement says where that is. */
  lemma SameUnlessNormal(code: seq<Instr>, st: State, end: nat, end': nat, o: Outcome, fuel: nat)
    requires !o.Normal?
    ensures forall n :: Reached(code, st, PlaceOf(st), end, o, fuel, n) ==> Reached(code, st, PlaceOf(st), end', o, fuel, n)
  {
    hide Exec;
  }

  lemma SeqMeaning(a: Stmt, b: Stmt, st: State, fuel: nat)
    ensures var o := Meaning(a, st, fuel);
      Meaning(Seq(a, b), st, fuel) ==
        if o.Normal? then Above(o.left, Eval(b, Topped(TopOf(st.thread.frames), o.left), o.vars, o.log, fuel)) else o
  {
  }

  /** The top of the stack after frames were left on it. */
  lemma TopLeft(left: nat, frames: seq<Frame>, under: seq<Frame>)
    requires OnTop(left, frames, under) && AllGone(left, frames)
    ensures TopOf(frames) == Topped(TopOf(under), left)
  {
    if left == 0 {
      assert frames[0..] == frames;
    }
  }

  /** The statement after one that ended normally. */
  lemma {:induction false} SimNext(code: seq<Instr>, b: Stmt, mid: nat, st: State, p: Place, left: nat, fuel: nat) returns (n: nat)
    requires CodeAt(code, mid, Compile(b, mid)) && p.calls != []
    requires AtEnd(st, p, mid, left, st.vars, st.thread.log)
    ensures Reached(code, st, p, mid + CodeSize(b),
                    Above(left, Eval(b, Topped(TopOf(p.frames), left), st.vars, st.thread.log, fuel)), fuel, n)
    decreases fuel, Size(b), 3
  {
    hide Exec, Step, CodeAt, Compile, Eval, Reached;
    n := Sim(code, b, mid, st, fuel);
    TopLeft(left, st.thread.frames, p.frames);
    Lower(code, st, p, left, mid + CodeSize(b), Meaning(b, st, fuel), fuel, n);
  }

  lemma IfCode(cond: Vars -> bool, a: Stmt, b: Stmt, base: nat)
    ensures var other := base + 2 + CodeSize(a);
      Compile(If(cond, a, b), base)
        == [JumpUnless(cond, other)] + Compile(a, base + 1) + [Jump(other + CodeSize(b))] + Compile(b, other)
  {
    hide CodeSize;
  }

  lemma IfLayout(code: seq<Instr>, cond: Vars -> bool, a: Stmt, b: Stmt, base: nat)
    requires CodeAt(code, base, Compile(If(cond, a, b), base))
    ensures var other := base + 2 + CodeSize(a);
      && base + 1 + CodeSize(a) < |code|
      && code[base] == JumpUnless(cond, other)
      && CodeAt(code, base + 1, Compile(a, base + 1))
      && code[base + 1 + CodeSize(a)] == Jump(other + CodeSize(b))
      && CodeAt(code, other, Compile(b, other))
  {
    var other := base + 2 + CodeSize(a);
    hide *;
    IfCode(cond, a, b, base);
    CodeFour(code, base, JumpUnless(cond, other), Compile(a, base + 1), Jump(other + CodeSize(b)), Compile(b, other));
  }

  lemma {:induction false} SimIf(code: seq<Instr>, s: Stmt, base: nat, st: State, fuel: nat) returns (n: nat)
    requires s.If? && Ready(code, s, base, st)
    ensures Reached(code, st, PlaceOf(st), base + CodeSize(s), Meaning(s, st, fuel), fuel, n)
    decreases fuel, Size(s), 1
  {
    var branch := if s.cond(st.vars) then s.thn else s.els;
    assert Size(branch) < Size(s);
    hide *;
    var st1 := InBranch(s, base, st);
    IfEntered(code, s, base, st);
    IfMeaning(s, base, st, fuel);
    n := Sim(code, branch, st1.pc, st1, fuel);
    if s.cond(st.vars) {
      n := BranchEnds(code, st1, n, PlaceOf(st), base + 1 + CodeSize(s.thn), base + CodeSize(s), Meaning(s, st, fuel), fuel);
    }
    After(code, st, 1, st1, PlaceOf(st), base + CodeSize(s), Meaning(s, st, fuel), fuel, n);
    n := 1 + n;
  }

  function InBranch(s: Stmt, base: nat, st: State): State
    requires s.If?
  {
    st.(pc := if s.cond(st.vars) then base + 1 else base + 2 + CodeSize(s.thn))
  }

  /** The test of an if statement, and what is then to be done. */
  lemma IfEntered(code: seq<Instr>, s: Stmt, base: nat, st: State)
    requires s.If? && Ready(code, s, base, st)
    ensures var branch := if s.cond(st.vars) then s.thn else s.els; var st1 := InBranch(s, base, st);
      && Exec(code, st, 1) == st1
      && st1.pc == (if s.cond(st.vars) then base + 1 else base + 2 + CodeSize(s.thn))
      && Ready(code, branch, st1.pc, st1)
    ensures base + CodeSize(s) == base + 2 + CodeSize(s.thn) + CodeSize(s.els)
    ensures base + 1 + CodeSize(s.thn) < |code| && code[base + 1 + CodeSize(s.thn)] == Jump(base + CodeSize(s))
  {
    hide Exec, CodeAt, Compile, Step;
    IfLayout(code, s.cond, s.thn, s.els, base);
    TestLoop(code, st, s.cond, base + 2 + CodeSize(s.thn));
  }

  lemma IfMeaning(s: Stmt, base: nat, st: State, fuel: nat)
    requires s.If?
    ensures var st1 := InBranch(s, base, st);
      PlaceOf(st1) == PlaceOf(st) && Meaning(s, st, fuel) == Meaning(if s.cond(st.vars) then s.thn else s.els, st1, fuel)
  {
  }

  lemma BranchEnds(code: seq<Instr>, st: State, n: nat, p: Place, at: nat, end: nat, o: Outcome, fuel: nat) returns (n': nat)
    requires at < |code| && code[at] == Jump(end) && Reached(code, st, p, at, o, fuel, n)
    ensures Reached(code, st, p, end, o, fuel, n')
  {
    n' := n;
    if o.Normal? {
      n' := ThenJump(code, st, n, p, at, end, o, fuel);
    } else {
      hide Exec;
    }
  }

  /** A jump at the end of a block moves its end. */
  lemma ThenJump(code: seq<Instr>, st: State, n: nat, p: Place, at: nat, end: nat, o: Outcome, fuel: nat) returns (n': nat)
    requires at < |code| && code[at] == Jump(end) && o.Normal?
    requires Reached(code, st, p, at, o, fuel, n)
    ensures Reached(code, st, p, end, o, fuel, n') && n' > n
  {
    var st' := Exec(code, st, n);
    StepThen(code, st', st'.(pc := end));
    hide Exec, Step;
    After(code, st, n, st', p, end, o, fuel, 1);
    n' := n + 1;
  }

  lemma WhileCode(cond: Vars -> bool, a: Stmt, base: nat)
    ensures Compile(While(cond, a), base)
            == [JumpUnless(cond, base + 2 + CodeSize(a))] + Compile(a, base + 1) + [Jump(base)]
  {
    hide CodeSize;
  }

  lemma WhileLayout(code: seq<Instr>, cond: Vars -> bool, a: Stmt, base: nat)
    requires CodeAt(code, base, Compile(While(cond, a), base))
    ensures base + 1 + CodeSize(a) < |code|
    ensures code[base] == JumpUnless(cond, base + 2 + CodeSize(a))
    ensures CodeAt(code, base + 1, Compile(a, base + 1))
    ensures code[base + 1 + CodeSize(a)] == Jump(base)
  {
    var test, again := JumpUnless(cond, base + 2 + CodeSize(a)), Jump(base);
    hide *;
    WhileCode(cond, a, base);
    CodeSplit(code, base, [test] + Compile(a, base + 1), [again]);
    CodeSplit(code, base, [test], Compile(a, base + 1));
    CodeHead(code, base, test);
    CodeHead(code, base + 1 + CodeSize(a), again);
  }

  lemma TestLoop(code: seq<Instr>, st: State, cond: Vars -> bool, end: nat)
    requires Live(code, st) && code[st.pc] == JumpUnless(cond, end)
    ensures Exec(code, st, 1) == st.(pc := if cond(st.vars) then st.pc + 1 else end)
  {
    StepThen(code, st, Step(code, st));
  }

  lemma WhileMeaning(s: Stmt, st: State, fuel: nat)
    requires s.While?
    ensures var o := Meaning(s.body, st, fuel);
      Meaning(s, st, fuel) ==
        if !s.cond(st.vars) then Normal(0, st.vars, st.thread.log)
        else if !o.Normal? then o
        else if fuel == 0 then OutOfFuel
        else Above(o.left, Eval(s, Topped(TopOf(st.thread.frames), o.left), o.vars, o.log, fuel - 1))
  {
  }

  lemma WhileStart(code: seq<Instr>, s: Stmt, base: nat, st: State, fuel: nat)
    requires s.While? && Ready(code, s, base, st)
    ensures CodeAt(code, base, Compile(s, base)) && PlaceOf(st).calls != []
    ensures var at := base + 1 + CodeSize(s.body); at < |code| && code[at] == Jump(base)
    ensures var st1 := st.(pc := if s.cond(st.vars) then base + 1 else base + CodeSize(s));
      && Exec(code, st, 1) == st1 && st1.status.Running? && PlaceOf(st1) == PlaceOf(st)
      && (s.cond(st.vars) ==> Ready(code, s.body, base + 1, st1))
    ensures var st1 := st.(pc := if s.cond(st.vars) then base + 1 else base + CodeSize(s));
      var o := Meaning(s.body, st1, fuel);
      Meaning(s, st, fuel) ==
        if !s.cond(st.vars) then Normal(0, st.vars, st.thread.log)
        else if !o.Normal? then o
        else if fuel == 0 then OutOfFuel
        else Above(o.left, Eval(s, Topped(TopOf(PlaceOf(st).frames), o.left), o.vars, o.log, fuel - 1))
    ensures base < |code| && Size(s.body) < Size(s)
  {
    hide CodeAt, Exec, Compile, Eval, Step;
    WhileLayout(code, s.cond, s.body, base);
    WhileMeaning(s, st, fuel);
    TestLoop(code, st, s.cond, base + CodeSize(s));
  }

  lemma {:induction false} SimWhile(code: seq<Instr>, s: Stmt, base: nat, st: State, fuel: nat) returns (n: nat)
    requires s.While? && Ready(code, s, base, st)
    ensures Reached(code, st, PlaceOf(st), base + CodeSize(s), Meaning(s, st, fuel), fuel, n)
    decreases fuel, Size(s), 1
  {
    hide *;
    WhileStart(code, s, base, st, fuel);
    var a, p, end := s.body, PlaceOf(st), base + CodeSize(s);
    var st1 := st.(pc := if s.cond(st.vars) then base + 1 else end);
    var oa, o := Meaning(a, st1, fuel), Meaning(s, st, fuel);
    if !s.cond(st.vars) {
      AlreadyThere(code, st, st1, end, fuel);
      return 1;
    }
    n := Sim(code, a, base + 1, st1, fuel);
    if oa.Normal? {
      n := ThenJump(code, st1, n, p, base + 1 + CodeSize(a), base, oa, fuel);
      EndFacts(code, st1, p, base, oa, fuel, n);
      ExecAdd(code, st, 1, n);
      n := 1 + n;
      var st2 := Exec(code, st, n);
      if fuel == 0 {
        LiveAt(code, st2, p, base, oa.left);
        StillRunning(code, st, p, end, n);
        return;
      }
      var k := SimNext(code, s, base, st2, p, oa.left, fuel - 1);
      AfterRefuel(code, st, n, st2, p, end, o, fuel - 1, k);
      n := n + k;
    } else {
      Elsewhere(code, st1, p, base + 1 + CodeSize(a), end, oa, fuel, n);
      After(code, st, 1, st1, p, end, o, fuel, n);
      n := 1 + n;
    }
  }

  lemma LiveAt(code: seq<Instr>, st: State, p: Place, at: nat, left: nat)
    requires AtEnd(st, p, at, left, st.vars, st.thread.log) && at < |code|
    ensures Live(code, st)
  {
  }

  /** Only a normal outcome has anything to do with the end of the block. */
  lemma Elsewhere(code: seq<Instr>, st: State, p: Place, at: nat, end: nat, o: Outcome, fuel: nat, n: nat)
    requires !o.Normal? && Reached(code, st, p, at, o, fuel, n)
    ensures Reached(code, st, p, end, o, fuel, n)
  {
    hide Exec, AtReturn, AtFrame, AtFault;
  }

  lemma CallCode(a: Stmt, base: nat)
    ensures Compile(Call(a), base)
            == [CallFunction(base + 2)] + [Jump(base + 3 + CodeSize(a))] + Compile(a, base + 2) + [DoReturn]
  {
    hide CodeSize;
  }

  lemma CallLayout(code: seq<Instr>, a: Stmt, base: nat)
    requires CodeAt(code, base, Compile(Call(a), base))
    ensures var end := base + 3 + CodeSize(a);
      && end <= |code| && code[base] == CallFunction(base + 2) && code[base + 1] == Jump(end)
      && CodeAt(code, base + 2, Compile(a, base + 2)) && code[end - 1] == DoReturn
  {
    var end := base + 3 + CodeSize(a);
    hide *;
    CallCode(a, base);
    CodeSplit(code, base, [CallFunction(base + 2)] + [Jump(end)] + Compile(a, base + 2), [DoReturn]);
    CodeSplit(code, base, [CallFunction(base + 2)] + [Jump(end)], Compile(a, base + 2));
    CodeSplit(code, base, [CallFunction(base + 2)], [Jump(end)]);
    CodeHead(code, base, CallFunction(base + 2));
    CodeHead(code, base + 1, Jump(end));
    CodeHead(code, end - 1, DoReturn);
  }

  lemma {:induction false} SimCall(code: seq<Instr>, s: Stmt, base: nat, st: State, fuel: nat) returns (n: nat)
    requires s.Call? && Ready(code, s, base, st)
    ensures Reached(code, st, PlaceOf(st), base + CodeSize(s), Meaning(s, st, fuel), fuel, n)
    decreases fuel, Size(s), 1
  {
    var a, p, end := s.body, PlaceOf(st), base + CodeSize(s);
    hide *;
    var st1 := InFunction(st, base);
    CallMeaning(s, st, st1, fuel);
    CallLayoutOf(code, s, base, st);
    CallEntered(code, s, base, st);
    n := Sim(code, a, base + 2, st1, fuel);
    n := LeaveFunction(code, st1, p, st1.calls[0], base + 2 + CodeSize(a), end, Meaning(a, st1, fuel), fuel, n);
    After(code, st, 1, st1, p, end, Meaning(s, st, fuel), fuel, n);
    n := 1 + n;
  }

  /** From inside a function to behind its call. */
  lemma LeaveFunction(code: seq<Instr>, st: State, p: Place, call: Activation, at: nat, end: nat, o: Outcome, fuel: nat, n: nat)
      returns (m: nat)
    requires Reached(code, st, Place([call] + p.calls, p.frames), at, o, fuel, n)
    requires at < |code| && code[at] == DoReturn && p.calls != []
    requires call.height == |p.frames| && call.ret < |code| && code[call.ret] == Jump(end)
    ensures Reached(code, st, p, end, Called(o), fuel, m)
  {
    hide *;
    CalledIs(o);
    m := n;
    if o.Normal? || o.Returned? {
      var k := SimReturn(code, st, n, p, call, at, end, o, fuel);
      m := n + k;
    } else {
      FromInside(code, st, p, call, at, end, o, fuel, n);
    }
  }

  /** The state once a function was called from code at this place. */
  function InFunction(st: State, base: nat): (st1: State)
    ensures st1.calls != []
  {
    st.(pc := base + 2, calls := [Activation(base + 1, |st.thread.frames|, [])] + st.calls)
  }

  lemma CallLayoutOf(code: seq<Instr>, s: Stmt, base: nat, st: State)
    requires s.Call? && Ready(code, s, base, st)
    ensures var end := base + CodeSize(s);
      && end == base + 3 + CodeSize(s.body) && end <= |code|
      && code[base] == CallFunction(base + 2) && code[base + 1] == Jump(end)
      && CodeAt(code, base + 2, Compile(s.body, base + 2)) && code[end - 1] == DoReturn
    ensures PlaceOf(st).calls != []
  {
    hide CodeAt, Compile;
    CallLayout(code, s.body, base);
  }

  /** The call itself: one step into the function. */
  lemma CallEntered(code: seq<Instr>, s: Stmt, base: nat, st: State)
    requires s.Call? && Ready(code, s, base, st) && base < |code| && code[base] == CallFunction(base + 2)
    requires CodeAt(code, base + 2, Compile(s.body, base + 2))
    ensures var st1 := InFunction(st, base); var call := st1.calls[0];
      && Exec(code, st, 1) == st1 && Ready(code, s.body, base + 2, st1)
      && PlaceOf(st1) == Place([call] + PlaceOf(st).calls, PlaceOf(st).frames)
      && call.height == |PlaceOf(st).frames| && call.ret == base + 1
  {
    var st1 := InFunction(st, base);
    hide CodeAt, Compile;
    StepThen(code, st, st1);
  }

  lemma CallMeaning(s: Stmt, st: State, st1: State, fuel: nat)
    requires s.Call? && st1.thread == st.thread && st1.vars == st.vars
    ensures Meaning(s, st, fuel) == Called(Meaning(s.body, st1, fuel))
  {
  }

  lemma CalledIs(o: Outcome)
    ensures Called(o) == if o.Returned? then Normal(o.left, o.vars, o.log) else o
  {
  }

  /** A call that did not come to its end looks the same from the caller's place. */
  lemma FromInside(code: seq<Instr>, st: State, p: Place, call: Activation, at: nat, end: nat, o: Outcome, fuel: nat, n: nat)
    requires !o.Normal? && !o.Returned?
    requires Reached(code, st, Place([call] + p.calls, p.frames), at, o, fuel, n)
    ensures Reached(code, st, p, end, o, fuel, n)
  {
    hide Exec;
  }

  /** A return to the caller: the frames that the call leaves behind are gone. */
  lemma SimReturn(code: seq<Instr>, st: State, n: nat, p: Place, call: Activation, at: nat, end: nat, o: Outcome, fuel: nat)
      returns (k: nat)
    requires (o.Normal? || o.Returned?) && Reached(code, st, Place([call] + p.calls, p.frames), at, o, fuel, n)
    requires at < |code| && code[at] == DoReturn && p.calls != []
    requires call.height == |p.frames| && call.ret < |code| && code[call.ret] == Jump(end)
    ensures Reached(code, st, p, end, Normal(o.left, o.vars, o.log), fuel, n + k)
  {
    var r := Exec(code, st, n);
    hide Exec;
    var frames := Buried(r.thread.frames, o.left);
    assert r.calls[1..] == p.calls;
    var st1 := r.(pc := call.ret, calls := p.calls, thread := r.thread.(frames := frames));
    assert Step(code, r) == st1;
    StepThen(code, r, st1);
    assert frames[o.left..] == p.frames;
    var st2 := st1.(pc := end);
    StepThen(code, st1, st2);
    hide Step;
    ExecAdd(code, r, 1, 1);
    ExecAdd(code, st, n, 2);
    k := 2;
  }

  /** The pieces of a compiled JVM_TRY. */
  ghost predicate TryCode(code: seq<Instr>, body: Stmt, clauses: Clauses, base: nat) {
    var catchPoint, end := CatchPoint(body, base), EndPoint(body, clauses, base);
    && end < |code|
    && code[base] == PushFrame(catchPoint)
    && CodeAt(code, base + 1, Compile(body, base + 1))
    && code[catchPoint - 1] == Jump(end)
    && CodeAt(code, catchPoint, CompileClauses(clauses, catchPoint, end))
    && code[end - 1] == CallUnhandled
    && code[end] == PopFrame
  }

  lemma TryLayout(code: seq<Instr>, body: Stmt, clauses: Clauses, base: nat)
    requires CodeAt(code, base, Compile(Try(body, clauses), base))
    ensures TryCode(code, body, clauses, base)
  {
    var catchPoint, end := CatchPoint(body, base), EndPoint(body, clauses, base);
    var block := [PushFrame(catchPoint)] + Compile(body, base + 1) + [Jump(end)]
                 + CompileClauses(clauses, catchPoint, end);
    assert Compile(Try(body, clauses), base) == block + [CallUnhandled] + [PopFrame];
    hide CodeAt; hide Compile; hide CompileClauses;
    CodeSplit(code, base, block + [CallUnhandled], [PopFrame]);
    CodeSplit(code, base, block, [CallUnhandled]);
    CodeFour(code, base, PushFrame(catchPoint), Compile(body, base + 1), Jump(end),
             CompileClauses(clauses, catchPoint, end));
    CodeHead(code, end - 1, CallUnhandled);
    CodeHead(code, end, PopFrame);
  }

  lemma PushStep(code: seq<Instr>, st: State, target: nat)
    requires Live(code, st) && code[st.pc] == PushFrame(target) && st.calls != []
    ensures Exec(code, st, 1) == Inside(st, target)
  {
    StepThen(code, st, Step(code, st));
  }

  /** The state once JVM_TRY has linked its frame. */
  function Inside(st: State, target: nat): State
    requires st.calls != []
  {
    var calls := Opened(st.calls, |st.thread.frames|);
    st.(pc := st.pc + 1, calls := calls, thread := Enter(st.thread, Saved(target, calls)))
  }

  /** The place inside a JVM_TRY whose frame was sent e. */
  function Within(p: Place, target: nat, e: Exc): (q: Place)
    requires p.calls != []
    ensures q.frames != [] && q.frames[1..] == p.frames
  {
    var calls := Opened(p.calls, |p.frames|);
    Place(calls, [Frame(Saved(target, calls), e)] + p.frames)
  }

  lemma {:induction false} SimTry(code: seq<Instr>, s: Stmt, base: nat, st: State, fuel: nat) returns (n: nat)
    requires s.Try? && Ready(code, s, base, st)
    ensures Reached(code, st, PlaceOf(st), base + CodeSize(s), Meaning(s, st, fuel), fuel, n)
    decreases fuel, Size(s), 1
  {
    var catchPoint := CatchPoint(s.body, base);
    TryLayout(code, s.body, s.clauses, base);
    PushStep(code, st, catchPoint);
    var st1, p := Inside(st, catchPoint), PlaceOf(st);
    assert base + CodeSize(s) == EndPoint(s.body, s.clauses, base) + 1;
    assert PlaceOf(st1) == Within(p, catchPoint, NO_EXCEPTION);
    assert TryMeaning(s, st1, p, fuel) == Meaning(s, st, fuel);
    hide Exec, CodeAt, Compile, CompileClauses, Eval, Dispatch, TryCode, CatchPoint, EndPoint, Reached, Within, TryMeaning;
    n := SimBody(code, s, base, st1, p, fuel);
    After(code, st, 1, st1, p, base + CodeSize(s), Meaning(s, st, fuel), fuel, n);
    n := 1 + n;
  }

  /** The meaning of a JVM_TRY, once its frame is on the stack. */
  function TryMeaning(s: Stmt, st: State, p: Place, fuel: nat): Outcome
    requires s.Try?
  {
    var o := Eval(s.body, Guarded(NO_EXCEPTION), st.vars, st.thread.log, fuel);
    if o.Raise? then Dispatch(s.clauses, TopOf(p.frames), o.exc, o.vars, o.log, fuel) else Leaving(o)
  }

  lemma BodyStart(code: seq<Instr>, s: Stmt, base: nat, st: State, p: Place, fuel: nat)
    requires s.Try? && TryCode(code, s.body, s.clauses, base) && p.calls != []
    requires st.pc == base + 1 && st.status.Running?
    requires PlaceOf(st) == Within(p, CatchPoint(s.body, base), NO_EXCEPTION)
    ensures var catchPoint, end := CatchPoint(s.body, base), EndPoint(s.body, s.clauses, base);
      && 0 < catchPoint < end < |code|
      && code[catchPoint - 1] == Jump(end) && code[end - 1] == CallUnhandled && code[end] == PopFrame
      && catchPoint - 1 == base + 1 + CodeSize(s.body) && end == catchPoint + ClausesCodeSize(s.clauses) + 1
      && CodeAt(code, catchPoint, CompileClauses(s.clauses, catchPoint, end))
    ensures Ready(code, s.body, base + 1, st)
    ensures var o := Meaning(s.body, st, fuel);
      && o == Eval(s.body, Guarded(NO_EXCEPTION), st.vars, st.thread.log, fuel)
      && TryMeaning(s, st, p, fuel) ==
           if o.Raise? then Dispatch(s.clauses, TopOf(p.frames), o.exc, o.vars, o.log, fuel) else Leaving(o)
    ensures Size(s.body) < Size(s) && ClausesSize(s.clauses) < Size(s)
    ensures PlaceOf(st) == Within(p, CatchPoint(s.body, base), NO_EXCEPTION)
  {
    hide CodeAt, Compile, CompileClauses, Eval, Dispatch;
  }

  /** An exception raised inside a JVM_TRY: control is at its setjmp, its frame has the exception. */
  lemma Raised(code: seq<Instr>, st: State, p: Place, target: nat, e: Exc, at: nat, o: Outcome, fuel: nat, n: nat)
    requires o.Raise? && p.calls != [] && Reached(code, st, Within(p, target, e), at, o, fuel, n)
    ensures var r := Exec(code, st, n);
      && r.pc == target && r.status.Running? && PlaceOf(r) == Within(p, target, o.exc)
      && r.vars == o.vars && r.thread.log == o.log
  {
    hide Exec;
  }

  lemma {:induction false} SimBody(code: seq<Instr>, s: Stmt, base: nat, st: State, p: Place, fuel: nat)
      returns (n: nat)
    requires s.Try? && TryCode(code, s.body, s.clauses, base) && p.calls != []
    requires st.pc == base + 1 && st.status.Running?
    requires PlaceOf(st) == Within(p, CatchPoint(s.body, base), NO_EXCEPTION)
    ensures Reached(code, st, p, EndPoint(s.body, s.clauses, base) + 1, TryMeaning(s, st, p, fuel), fuel, n)
    decreases fuel, Size(s), 0
  {
    hide *;
    var body, clauses := s.body, s.clauses;
    var catchPoint, end := CatchPoint(body, base), EndPoint(body, clauses, base);
    var o, ob := TryMeaning(s, st, p, fuel), Meaning(body, st, fuel);
    BodyStart(code, s, base, st, p, fuel);
    n := Sim(code, body, base + 1, st, fuel);
    if ob.Raise? {
      RaiseFacts(body, Guarded(NO_EXCEPTION), st.vars, st.thread.log, fuel);
      var st2 := Exec(code, st, n);
      Raised(code, st, p, catchPoint, NO_EXCEPTION, catchPoint - 1, ob, fuel, n);
      var k := SimDispatch(code, clauses, catchPoint, end, st2, ob.exc, p, fuel);
      After(code, st, n, st2, p, end + 1, o, fuel, k);
      n := n + k;
    } else {
      n := SimLeaving(code, st, n, p, catchPoint, NO_EXCEPTION, catchPoint - 1, end, ob, fuel);
    }
  }

  /** A body or handler that did not raise: at its end comes JVM_END_TRY. */
  lemma SimLeaving(code: seq<Instr>, st: State, n: nat, p: Place, target: nat, e: Exc, at: nat, end: nat, o: Outcome, fuel: nat)
      returns (n': nat)
    requires p.calls != [] && !o.Raise?
    requires at < |code| && code[at] == Jump(end) && end < |code| && code[end] == PopFrame
    requires Reached(code, st, Within(p, target, e), at, o, fuel, n)
    ensures Reached(code, st, p, end + 1, Leaving(o), fuel, n')
  {
    hide Exec, Step;
    n' := n;
    var r, q := Exec(code, st, n), Within(p, target, e);
    if o.Normal? {
      n' := ThenJump(code, st, n, q, at, end, o, fuel);
      var r' := Exec(code, st, n');
      PopStep(code, r', p, target, e, end, o.left, fuel);
      After(code, st, n', r', p, end + 1, Leaving(o), fuel, 1);
      n' := n' + 1;
    } else if o.Returned? {
      assert r.thread.frames[o.left + 1..] == r.thread.frames[o.left..][1..];
      assert r.calls == [p.calls[0].(opens := r.calls[0].opens)] + p.calls[1..];
    }
  }

  lemma PopStep(code: seq<Instr>, r: State, p: Place, target: nat, e: Exc, end: nat, left: nat, fuel: nat)
    requires p.calls != [] && end < |code| && code[end] == PopFrame
    requires AtEnd(r, Within(p, target, e), end, left, r.vars, r.thread.log)
    ensures Reached(code, r, p, end + 1, Normal(0, r.vars, r.thread.log), fuel, 1)
  {
    var frames := r.thread.frames;
    assert frames[|frames| - |p.frames|..] == frames[left..][1..];
    assert p.calls == [p.calls[0]] + p.calls[1..];
    StepThen(code, r, Step(code, r));
    hide Exec;
  }

  lemma ClauseCode(filter: Filter, handler: Stmt, rest: Clauses, base: nat, end: nat)
    ensures var next := base + 2 + CodeSize(handler);
      CompileClauses(Clause(filter, handler, rest), base, end)
        == [TestCatch(filter, next)] + Compile(handler, base + 1) + [Jump(end)] + CompileClauses(rest, next, end)
  {
    hide Compile;
  }

  lemma ClauseLayout(code: seq<Instr>, filter: Filter, handler: Stmt, rest: Clauses, base: nat, end: nat)
    requires CodeAt(code, base, CompileClauses(Clause(filter, handler, rest), base, end))
    ensures var next := base + 2 + CodeSize(handler);
      && base + 1 + CodeSize(handler) < |code|
      && code[base] == TestCatch(filter, next)
      && CodeAt(code, base + 1, Compile(handler, base + 1))
      && code[base + 1 + CodeSize(handler)] == Jump(end)
      && CodeAt(code, next, CompileClauses(rest, next, end))
  {
    var next := base + 2 + CodeSize(handler);
    hide *;
    ClauseCode(filter, handler, rest, base, end);
    CodeFour(code, base, TestCatch(filter, next), Compile(handler, base + 1), Jump(end), CompileClauses(rest, next, end));
  }

  lemma TestStep(code: seq<Instr>, st: State, filter: Filter, next: nat)
    requires Live(code, st) && code[st.pc] == TestCatch(filter, next) && st.thread.frames != []
    ensures Exec(code, st, 1) == st.(pc := if Accepts(filter, st.thread.frames[0].exc) then st.pc + 1 else next)
  {
    StepThen(code, st, Step(code, st));
  }

  /** After n steps the catch tests led to this place: the handler of e, or behind them all. */
  ghost predicate Found(code: seq<Instr>, clauses: Clauses, base: nat, end: nat, e: Exc, n: nat, at: nat) {
    match Handler(clauses, e)
    case None => at == base + ClausesCodeSize(clauses)
    case Some(h) =>
      && n >= 1 && CodeAt(code, at, Compile(h, at))
      && at + CodeSize(h) < |code| && code[at + CodeSize(h)] == Jump(end)
  }

  lemma FoundNone(code: seq<Instr>, base: nat, end: nat, e: Exc)
    ensures Found(code, NoClause, base, end, e, 0, base)
  {
  }

  lemma FoundHere(code: seq<Instr>, filter: Filter, handler: Stmt, rest: Clauses, base: nat, end: nat, e: Exc)
    requires Accepts(filter, e) && CodeAt(code, base + 1, Compile(handler, base + 1))
    requires base + 1 + CodeSize(handler) < |code| && code[base + 1 + CodeSize(handler)] == Jump(end)
    ensures Found(code, Clause(filter, handler, rest), base, end, e, 1, base + 1)
  {
    hide CodeAt, Compile, Accepts;
  }

  lemma FoundLater(code: seq<Instr>, filter: Filter, handler: Stmt, rest: Clauses, base: nat, end: nat, e: Exc, n: nat, at: nat)
    requires !Accepts(filter, e) && Found(code, rest, base + 2 + CodeSize(handler), end, e, n, at)
    ensures Found(code, Clause(filter, handler, rest), base, end, e, 1 + n, at)
  {
    hide CodeAt, Compile, Accepts;
  }

  /** Walks the catch tests to the handler of e, or past them all. */
  lemma {:induction false} FindClause(code: seq<Instr>, clauses: Clauses, base: nat, end: nat, st: State, e: Exc)
      returns (n: nat, at: nat)
    requires CodeAt(code, base, CompileClauses(clauses, base, end))
    requires st.pc == base && st.status.Running? && st.thread.frames != [] && st.thread.frames[0].exc == e
    ensures Exec(code, st, n) == st.(pc := at) && Found(code, clauses, base, end, e, n, at)
    decreases clauses
  {
    hide *;
    match clauses
    case NoClause =>
      n, at := 0, base;
      ExecNone(code, st);
      FoundNone(code, base, end, e);
    case Clause(filter, handler, rest) =>
      var next := base + 2 + CodeSize(handler);
      ClauseLayout(code, filter, handler, rest, base, end);
      AboutToTest(code, st);
      TestStep(code, st, filter, next);
      if Accepts(filter, e) {
        n, at := 1, base + 1;
        FoundHere(code, filter, handler, rest, base, end, e);
      } else {
        var k, there := FindClause(code, rest, next, end, st.(pc := next), e);
        ExecAdd(code, st, 1, k);
        FoundLater(code, filter, handler, rest, base, end, e, k, there);
        n, at := 1 + k, there;
      }
  }

  lemma AboutToTest(code: seq<Instr>, st: State)
    requires st.status.Running? && st.pc < |code|
    ensures Live(code, st)
  {
  }

  /** No clause matched: outward to the next frame, or the default handler and on past JVM_END_TRY. */
  lemma SimUnhandled(code: seq<Instr>, end: nat, st: State, target: nat, e: Exc, p: Place, fuel: nat) returns (n: nat)
    requires 0 < end < |code| && code[end - 1] == CallUnhandled && code[end] == PopFrame
    requires e != NO_EXCEPTION && p.calls != []
    requires st.pc == end - 1 && st.status.Running? && PlaceOf(st) == Within(p, target, e)
    ensures Reached(code, st, p, end + 1, EvalThrow(e, TopOf(p.frames), st.vars, st.thread.log), fuel, n)
  {
    var st1 := Step(code, st);
    StepThen(code, st, st1);
    n := 1;
    if p.frames == [] {
      assert AtEnd(st1, Within(p, target, e), end, 0, st1.vars, st1.thread.log) by {
        assert st.thread.frames[0..] == st.thread.frames;
      }
      hide Exec, Step;
      PopStep(code, st1, p, target, e, end, 0, fuel);
      After(code, st, 1, st1, p, end + 1, EvalThrow(e, Empty, st.vars, st.thread.log), fuel, 1);
      n := 2;
    } else {
      hide Exec;
    }
  }

  lemma FoundMeans(code: seq<Instr>, clauses: Clauses, base: nat, end: nat, e: Exc, n: nat, at: nat)
    requires Found(code, clauses, base, end, e, n, at)
    ensures match Handler(clauses, e)
            case None => at == base + ClausesCodeSize(clauses)
            case Some(h) =>
              && n >= 1 && CodeAt(code, at, Compile(h, at))
              && at + CodeSize(h) < |code| && code[at + CodeSize(h)] == Jump(end)
  {
    hide CodeAt, Compile;
  }

  /** After a jump to a frame: the first accepting clause runs with the frame still on top, and what it
      raises comes back to the same clauses. */
  lemma {:induction false} SimDispatch(code: seq<Instr>, clauses: Clauses, catchPoint: nat, end: nat, st: State,
                                       e: Exc, p: Place, fuel: nat) returns (n: nat)
    requires CodeAt(code, catchPoint, CompileClauses(clauses, catchPoint, end)) && p.calls != []
    requires end == catchPoint + ClausesCodeSize(clauses) + 1
    requires end < |code| && code[end - 1] == CallUnhandled && code[end] == PopFrame
    requires e != NO_EXCEPTION
    requires st.pc == catchPoint && st.status.Running? && PlaceOf(st) == Within(p, catchPoint, e)
    ensures Reached(code, st, p, end + 1,
                    Dispatch(clauses, TopOf(p.frames), e, st.vars, st.thread.log, fuel), fuel, n)
    decreases fuel, ClausesSize(clauses), 0
  {
    hide Exec, CodeAt, Compile, CompileClauses, Eval, AtFault, AtReturn, AtEnd;
    var o := Dispatch(clauses, TopOf(p.frames), e, st.vars, st.thread.log, fuel);
    var m, at := FindClause(code, clauses, catchPoint, end, st, e);
    var st1 := Exec(code, st, m);
    FoundMeans(code, clauses, catchPoint, end, e, m, at);
    match Handler(clauses, e) {
      case None =>
        n := SimUnhandled(code, end, st1, catchPoint, e, p, fuel);
      case Some(h) =>
        var oh := Meaning(h, st1, fuel);
        assert oh == Eval(h, Guarded(e), st1.vars, st1.thread.log, fuel);
        hide Meaning;
        n := Sim(code, h, at, st1, fuel);
        if oh.Raise? {
          RaiseFacts(h, Guarded(e), st1.vars, st1.thread.log, fuel);
          var st2 := Exec(code, st1, n);
          ExecAdd(code, st, m, n);
          assert PlaceOf(st2) == Within(p, catchPoint, oh.exc);
          if fuel > 0 {
            var k := SimDispatch(code, clauses, catchPoint, end, st2, oh.exc, p, fuel - 1);
            AfterRefuel(code, st, m + n, st2, p, end + 1, o, fuel - 1, k);
            return m + n + k;
          }
          return m + n;
        }
        n := SimLeaving(code, st1, n, p, catchPoint, e, at + CodeSize(h), end, oh, fuel);
    }
    After(code, st, m, st1, p, end + 1, o, fuel, n);
    n := m + n;
  }

  // ---------- whole functions ----------

  /** A thread begins in its first function, without frames. */
  function Start(vars: Vars, log: seq<Exc>): State {
    State(0, [Activation(0, 0, [])], Thread([], log), vars, Running)
  }

  ghost predicate Terminates(s: Stmt, vars: Vars, log: seq<Exc>) {
    exists fuel :: Eval(s, Empty, vars, log, fuel) != OutOfFuel
  }

  ghost predicate Halts(code: seq<Instr>, st: State) {
    exists n :: !Live(code, Exec(code, st, n))
  }

  /** What a stopped machine must look like: vars and calls of the default handler as the meaning says, and
      as many frames on the stack as it says were left. */
  ghost predicate Agrees(s: Stmt, r: State, o: Outcome) {
    match o
    case Normal(left, vars, log) =>
      r.status.Running? && r.pc == CodeSize(s) && r.vars == vars && r.thread.log == log && |r.thread.frames| == left
    case Returned(left, vars, log) =>
      r.status.Done? && r.vars == vars && r.thread.log == log && |r.thread.frames| == left
    case Halt(fault, vars, log) => AtFault(r, fault, vars, log)
    case _ => false
  }

  lemma HaltsOnce(code: seq<Instr>, st: State, m: nat, n: nat)
    requires !Live(code, Exec(code, st, m)) && !Live(code, Exec(code, st, n))
    ensures Exec(code, st, m) == Exec(code, st, n)
  {
    hide Exec; hide Live;
    if m <= n {
      ExecAdd(code, st, m, n - m);
      ExecStopped(code, Exec(code, st, m), n - m);
    } else {
      ExecAdd(code, st, n, m - n);
      ExecStopped(code, Exec(code, st, n), m - n);
    }
  }

  lemma NoEarlyStop(code: seq<Instr>, st: State, m: nat, n: nat)
    requires m <= n && Live(code, Exec(code, st, n))
    ensures Live(code, Exec(code, st, m))
  {
    hide Exec;
    if !Live(code, Exec(code, st, m)) {
      ExecAdd(code, st, m, n - m);
      ExecStopped(code, Exec(code, st, m), n - m);
    }
  }

  lemma ReturnStep(code: seq<Instr>, st: State)
    requires Live(code, st) && code[st.pc] == DoReturn && |st.calls| == 1
    ensures Exec(code, st, 1) == st.(status := Done)
  {
    StepThen(code, st, Step(code, st));
  }

  lemma RunToEnd(s: Stmt, vars: Vars, log: seq<Exc>, fuel: nat) returns (n: nat)
    ensures var code, o := Compile(s, 0), Eval(s, Empty, vars, log, fuel);
      if o.OutOfFuel? then n >= fuel && Live(code, Exec(code, Start(vars, log), n))
      else !Live(code, Exec(code, Start(vars, log), n)) && Agrees(s, Exec(code, Start(vars, log), n), o)
  {
    var code, st := Compile(s, 0), Start(vars, log);
    var o := Eval(s, Empty, vars, log, fuel);
    CodeWhole(s);
    hide Exec, Compile, Eval, CodeAt, Step, Reached, Agrees;
    n := Sim(code, s, 0, st, fuel);
    RaiseFacts(s, Empty, vars, log, fuel);
    if o.Returned? {
      ReturnedToStart(code, s, st, o, fuel, n);
      n := n + 1;
    } else {
      EndedFromStart(code, s, st, o, fuel, n);
    }
  }

  lemma EndedFromStart(code: seq<Instr>, s: Stmt, st: State, o: Outcome, fuel: nat, n: nat)
    requires |code| == CodeSize(s) && st.thread.frames == [] && !o.Raise? && !o.Returned?
    requires Reached(code, st, PlaceOf(st), CodeSize(s), o, fuel, n)
    ensures if o.OutOfFuel? then n >= fuel && Live(code, Exec(code, st, n))
            else !Live(code, Exec(code, st, n)) && Agrees(s, Exec(code, st, n), o)
  {
    hide Exec;
  }

  lemma ReturnedToStart(code: seq<Instr>, s: Stmt, st: State, o: Outcome, fuel: nat, n: nat)
    requires st.thread.frames == [] && |st.calls| == 1 && o.Returned?
    requires Reached(code, st, PlaceOf(st), CodeSize(s), o, fuel, n)
    ensures !Live(code, Exec(code, st, n + 1)) && Agrees(s, Exec(code, st, n + 1), o)
  {
    hide Exec, Step;
    ReturnStep(code, Exec(code, st, n));
    ExecAdd(code, st, n, 1);
  }

  lemma CodeWhole(s: Stmt)
    ensures CodeAt(Compile(s, 0), 0, Compile(s, 0))
  {
    hide Compile;
  }

  /** The macros preserve meaning. The machine halts exactly when the statement terminates; wherever it
      halts, variables, calls of the default handler and the frame stack are as the meaning says. */
  lemma MacrosPreserveMeaning(s: Stmt, vars: Vars, log: seq<Exc>)
    ensures var code, st := Compile(s, 0), Start(vars, log);
      && (Halts(code, st) <==> Terminates(s, vars, log))
      && (forall fuel, n | Eval(s, Empty, vars, log, fuel) != OutOfFuel && !Live(code, Exec(code, st, n)) ::
            Agrees(s, Exec(code, st, n), Eval(s, Empty, vars, log, fuel)))
  {
    var code, st := Compile(s, 0), Start(vars, log);
    hide Exec; hide Compile; hide Live; hide Eval; hide Agrees;
    if n: nat :| !Live(code, Exec(code, st, n)) {
      var m := RunToEnd(s, vars, log, n);
      if Eval(s, Empty, vars, log, n) == OutOfFuel {
        NoEarlyStop(code, st, n, m);
      }
      assert Terminates(s, vars, log);
    }
    forall fuel | Eval(s, Empty, vars, log, fuel) != OutOfFuel
      ensures Halts(code, st)
      ensures forall n | !Live(code, Exec(code, st, n)) ::
                Agrees(s, Exec(code, st, n), Eval(s, Empty, vars, log, fuel))
    {
      var m := RunToEnd(s, vars, log, fuel);
      forall n | !Live(code, Exec(code, st, n))
        ensures Agrees(s, Exec(code, st, n), Eval(s, Empty, vars, log, fuel))
      {
        HaltsOnce(code, st, m, n);
      }
    }
  }
}
