/** The thread state of Jvmexcpt.c: a stack of exception frames, innermost first. */
module ExceptionFrames {

  /** eJVMExceptionType; EXC_NOEXCEPTION is 0. */
  type Exc = nat

  const NO_EXCEPTION: Exc := 0
  const MIN_EXCEPTION: Exc := 0
  const MAX_EXCEPTION: Exc := 256

  /** A call in progress: where it returns to, how many exception frames there were when it began, and for
      each JVM_TRY it is inside of, innermost first, how many there were below that. */
  datatype Activation = Activation(ret: nat, height: nat, opens: seq<nat>)

  /** What setjmp saves: where to go on, and the calls in progress there. Gone once that call has returned. */
  datatype JmpBuf = Gone | Saved(pc: nat, calls: seq<Activation>)

  /** One JVM_TRY in progress: where its setjmp returns to, and the exception last sent there. */
  datatype Frame = Frame(target: JmpBuf, exc: Exc)

  /** What a thread remembers: its frames and the exceptions its default handler was called with. */
  datatype Thread = Thread(frames: seq<Frame>, log: seq<Exc>)

  /** A C function either returns to its caller or jumps to a frame's setjmp. */
  datatype Control = Continue | LongJump(target: JmpBuf)

  /** What one catch clause accepts: one to three types, or all. */
  datatype Filter = Types(types: seq<Exc>) | All

  predicate Accepts(filter: Filter, e: Exc) {
    match filter
    case Types(types) => e in types
    case All => MIN_EXCEPTION <= e <= MAX_EXCEPTION
  }

  function Enter(t: Thread, target: JmpBuf): Thread {
    t.(frames := [Frame(target, NO_EXCEPTION)] + t.frames)
  }

  function Leave(t: Thread): Thread
    requires t.frames != []
  {
    t.(frames := t.frames[1..])
  }

  /** Sends e to the innermost frame. */
  function Send(t: Thread, e: Exc): Thread
    requires t.frames != []
  {
    t.(frames := t.frames[0 := t.frames[0].(exc := e)])
  }

  function Default(t: Thread, e: Exc): Thread {
    t.(log := t.log + [e])
  }

  function Thrown(t: Thread, e: Exc): (Thread, Control) {
    if e == NO_EXCEPTION then (t, Continue)
    else if t.frames != [] then (Send(t, e), LongJump(t.frames[0].target))
    else (Default(t, e), Continue)
  }

  function Unhandled(t: Thread): (Thread, Control)
    requires t.frames != []
  {
    var e := t.frames[0].exc;
    if |t.frames| > 1 then (Send(Leave(t), e), LongJump(t.frames[1].target))
    else (Default(t, e), Continue)
  }
}

/** The C functions and macros on the linked frames themselves. */
module ExceptionRuntime {
  import opened ExceptionFrames

  /** _JVM_Except_Frame */
  class ExceptFrame {
    var prev: ExceptFrame?
    var exc: Exc
    const target: JmpBuf

    constructor (prev: ExceptFrame?, target: JmpBuf)
      ensures this.prev == prev && this.target == target && exc == NO_EXCEPTION
    {
      this.prev, this.target, this.exc := prev, target, NO_EXCEPTION;
    }
  }

  /** chain lists the frames from top down to the outermost one. */
  ghost predicate Linked(top: ExceptFrame?, chain: seq<ExceptFrame>)
    reads chain`prev
  {
    if chain == [] then top == null
    else top == chain[0] && Linked(chain[0].prev, chain[1..])
  }

  ghost function Frames(chain: seq<ExceptFrame>): (frames: seq<Frame>)
    reads chain
    ensures |frames| == |chain|
    ensures forall i :: 0 <= i < |chain| ==> frames[i] == Frame(chain[i].target, chain[i].exc)
  {
    if chain == [] then []
    else [Frame(chain[0].target, chain[0].exc)] + Frames(chain[1..])
  }

  lemma {:induction false} LinkedSuffix(top: ExceptFrame?, chain: seq<ExceptFrame>, depth: nat)
    requires Linked(top, chain) && depth < |chain|
    ensures Linked(chain[depth].prev, chain[depth + 1..])
  {
    if depth > 0 {
      LinkedSuffix(chain[0].prev, chain[1..], depth - 1);
      assert chain[1..][depth..] == chain[depth + 1..];
    }
  }

  /** The exception part of _JVM_Thread_State. */
  class ThreadState {
    var top: ExceptFrame?
    var log: seq<Exc>
    ghost var chain: seq<ExceptFrame>

    ghost predicate Valid()
      reads this, chain
    {
      && Linked(top, chain)
      && forall i, j :: 0 <= i < j < |chain| ==> chain[i] != chain[j]
    }

    ghost function Abstract(): Thread
      reads this, chain
    {
      Thread(Frames(chain), log)
    }

    constructor ()
      ensures Valid() && Abstract() == Thread([], []) && chain == []
    {
      top, log, chain := null, [], [];
    }

    /** JVM_TRY: pushes the frame that lives in the current C function. */
    method EnterTry(target: JmpBuf) returns (frame: ExceptFrame)
      requires Valid()
      modifies this
      ensures Valid() && fresh(frame) && chain == [frame] + old(chain)
      ensures frame.target == target && frame.exc == 0 && frame.prev == old(top) && top == frame && log == old(log)
      ensures Abstract() == Enter(old(Abstract()), target)
    {
      frame := new ExceptFrame(top, target);
      top := frame;
      chain := [frame] + chain;
      assert chain[1..] == old(chain);
    }

    /** JVM_END_TRY: whatever is on top, the stack is what it was below this frame. */
    method EndTry(frame: ExceptFrame, ghost depth: nat)
      requires Valid() && depth < |chain| && chain[depth] == frame
      modifies this
      ensures Valid() && chain == old(chain)[depth + 1..]
      ensures Abstract().frames == old(Abstract()).frames[depth + 1..] && log == old(log)
      ensures depth == 0 ==> Abstract() == Leave(old(Abstract()))
    {
      LinkedSuffix(top, chain, depth);
      top := frame.prev;
      chain := chain[depth + 1..];
    }

    method ThrowException(e: Exc) returns (control: Control)
      requires Valid()
      modifies this, chain
      ensures Valid() && chain == old(chain)
      ensures e == 0 ==> control == Continue && log == old(log) && forall f :: f in chain ==> f.exc == old(f.exc)
      ensures e != 0 && chain != [] ==>
        && control == LongJump(chain[0].target) && chain[0].exc == e && log == old(log)
        && forall i :: 0 < i < |chain| ==> chain[i].exc == old(chain[i].exc)
      ensures e != 0 && chain == [] ==> control == Continue && log == old(log) + [e]
      ensures (Abstract(), control) == Thrown(old(Abstract()), e)
    {
      if e == NO_EXCEPTION {
        return Continue;
      }
      var frame := top;
      if frame != null {
        frame.exc := e;
        assert Frames(chain) == old(Frames(chain))[0 := Frame(frame.target, e)];
        return LongJump(frame.target);
      } else {
        log := log + [e];
        return Continue;
      }
    }

    method ThrowUnhandledException() returns (control: Control)
      requires Valid() && chain != []
      modifies this, chain
      ensures Valid()
      ensures chain == if |old(chain)| > 1 then old(chain)[1..] else old(chain)
      ensures |old(chain)| > 1 ==>
        && control == LongJump(chain[0].target) && chain[0].exc == old(chain[0].exc) && log == old(log)
        && forall i :: 0 < i < |chain| ==> chain[i].exc == old(chain[i + 1].exc)
      ensures |old(chain)| == 1 ==> control == Continue && log == old(log) + [old(chain[0].exc)]
      ensures (Abstract(), control) == Unhandled(old(Abstract()))
    {
      var frame := top;
      assert Linked(frame.prev, chain[1..]);
      assert |chain| > 1 ==> chain[1..][0] == chain[1];
      if frame.prev != null {
        frame.prev.exc := frame.exc;
        top := frame.prev;
        chain := chain[1..];
        assert Frames(chain) == old(Frames(chain))[1..][0 := Frame(top.target, frame.exc)];
        return LongJump(top.target);
      } else {
        log := log + [frame.exc];
        return Continue;
      }
    }

    method CatchException(e: Exc) returns (caught: bool)
      requires Valid() && chain != []
      ensures caught <==> chain[0].exc == e
      ensures caught == Accepts(Types([e]), Abstract().frames[0].exc)
    {
      caught := top.exc == e;
    }

    /** The test of JVM_CATCH_TWO_EXCEPTIONS. */
    method CatchTwoExceptions(x: Exc, y: Exc) returns (caught: bool)
      requires Valid() && chain != []
      ensures caught <==> chain[0].exc == x || chain[0].exc == y
      ensures caught == Accepts(Types([x, y]), Abstract().frames[0].exc)
    {
      caught := CatchException(x);
      if !caught {
        caught := CatchException(y);
      }
    }

    /** The test of JVM_CATCH_THREE_EXCEPTIONS. */
    method CatchThreeExceptions(x: Exc, y: Exc, z: Exc) returns (caught: bool)
      requires Valid() && chain != []
      ensures caught <==> chain[0].exc == x || chain[0].exc == y || chain[0].exc == z
      ensures caught == Accepts(Types([x, y, z]), Abstract().frames[0].exc)
    {
      caught := CatchTwoExceptions(x, y);
      if !caught {
        caught := CatchException(z);
      }
    }

    method CatchAllExceptions() returns (caught: bool)
      requires Valid() && chain != []
      ensures caught <==> 0 <= chain[0].exc <= 256
      ensures caught == Accepts(All, Abstract().frames[0].exc)
    {
      caught := MIN_EXCEPTION <= top.exc && top.exc <= MAX_EXCEPTION;
    }

    method GetExceptionType() returns (e: Exc)
      requires Valid() && chain != []
      ensures e == chain[0].exc == Abstract().frames[0].exc
    {
      e := top.exc;
    }
  }
}
