# Verification of the JVM engines and their helpers

Dafny models of seven pieces of this repository, with proofs:

1. **CRC-32** (`crc32.c`, `crctab.c`). The unrolled, table-driven loop is proved equal to a bit-serial shift
   register, the register to the polynomial division that the comment in `crctab.c` describes, and every
   error inside 32 consecutive bits is proved to change the checksum.
2. **The setjmp exceptions** (`Jvmexcpt.h`, `Jvmexcpt.c`). Statements with `JVM_TRY`, loops, function calls and
   returns are given a meaning without a frame stack; the macro expansion, run on a stack of frames with jumps
   between calls, is proved to have that meaning and to halt exactly when it does. Conditions on the text say
   when the stack is left as it was, and when dispatching ends. The C functions on linked frames refine the
   stack.
3. **The descriptor parser** (`Jvmparse.c`) and the frame layout computed from it (`Jvmrt.c`). Printing and
   parsing are inverse, in both directions, and the slots of the parameters are disjoint.
4. **The argument tokenizer** (`envargs.c`), in its UNIX, DOS-family and plain variants, with the cut made in
   place in the buffer.
5. **The containers** (`Hashtabl.c`, `bintree.c`). The chained table refines a map from key classes to stacks;
   the search tree sorts stably.
6. **The class hierarchy** (`ClassInfo.cpp`, `DClassView.cpp`, `jdependsDoc.cpp`). Loading encodes the
   supertype relation in child and sibling links, the view decodes it, and reference counts own the nodes.
7. **Array allocation** (`Jvmrt.c`). Creating an array of any number of dimensions and destroying it restores
   the heap.

Code that changes state is modelled by classes and methods, proved against functions whose properties are
then proved as lemmas. `dafny verify dfyconfig.toml` checks the project.

| files | contents |
|---|---|
| `Common` | optional values, sequences with one element left out, blocks of text inside longer ones |
| `Crc32`, `CrcPolynomial`, `CrcBurst`, `CrcSamples` | the register, the table and the loop; division over GF(2); burst errors; values known elsewhere |
| `Exceptions`, `ExceptionMachine`, `ExceptionClauses`, `ExceptionProof`, `ExceptionTheorems` | the run-time functions; the language and its compilation; what clauses catch; the simulation; when the stack is kept and when code ends |
| `Descriptor`, `DescriptorProof`, `DescriptorParser` | grammar and parser functions; their proofs; the parser on a cursor |
| `StackMap`, `ReferenceMap` | frame layout and stack map; when the map tells where references live |
| `ArgTokens`, `ArgLayout`, `EnvArgs` | tokens as functions; what they are for words and quotes; counting and cutting in place |
| `BinTree`, `TableModel`, `HashTable` | tree; table as a value; table as linked chains |
| `ClassHierarchy`, `ClassCycles`, `ClassRegistry`, `ClassLoader`, `ClassDocument`, `ClassTreeView` | relation and encoding; when loading ends; reference counts; `LoadClass`; documents; the view |
| `JvmArrays` | arrays on an explicit heap |

Where the code and what is said about it differ, the model follows the code:

- An object name that does not end within `JVM_MAX_NAME` characters makes the scan fail with the cursor
  already moved (`Jvmparse.c:340-373`), and the array test then looks where it stopped. So some texts that are
  no descriptor are accepted (`DescriptorProof.OverlongNameAccepted`); the accepted text is the printed form
  of the result exactly when every name ends in time (`DescriptorProof.MethodSoundness`).
- The stack map marks parameters by the object flag, so an array of a base type, though a reference, is not
  marked (`Jvmrt.c:5068`, `StackMap.ObjectFlagMeaning`).
- Local variables are marked one slot after the other behind the parameters (`Jvmrt.c:5079-5087`), although a
  variable lives in the slot of its `jwIndex` (`Jvmrt.h:124`, `jvmloadr.c:2806`), by which the bytecodes read
  the map (`Jvmrt.c:774-776`). And the marks begin with a receiver in slot 0, also for static methods, which have
  none and whose parameters begin there (`Jvmrt.c:6292-6293`). `ReferenceMap.MapTrueExactly` says for methods of both
  kinds, and for every parameter list and table, when the map tells exactly where references live;
  `ReferenceMap.InstanceMapTrue` and `ReferenceMap.StaticMapTrue` are what that comes to for each kind while the index
  does not wrap in the table.
- Without arrays of base types the map of a static method is never true (`ReferenceMap.StaticNeverTrue`);
  `ReferenceMap.StaticParamsTrue` says for which parameters it is when there is no table, and
  `ReferenceMap.StaticIntAndObject` shows `(ILA;)V`. Nor is that of a method whose table, without such arrays, lists
  `this` or a reference parameter (`ReferenceMap.ParameterEntryMarkedWrong`, `ReferenceMap.ThisEntry`); with such an array
  it can be true (`ReferenceMap.ThisAndBaseArray`). In a table in the order of the slots, every reference variable
  must have its entry's own position as its index (`ReferenceMap.OrderedTable`).
- `invokestatic` hands over the number of parameters where a number of words is asked for (`Jvmrt.c:3092-3093`), so
  not every word of its arguments is copied if there are longs or doubles (`StackMap.EveryWordCopied`).
- The index into the stack map is a 16-bit word. The map has the layout that the code goes by, right or not,
  exactly when nothing to be marked lies at slot 65536 or beyond (`StackMap.MapExact`, with a descriptor that
  wraps in `StackMap.LongListWraps`).
- A `return` inside a `JVM_TRY`, as at `jvmloadr.c:1431`, `jvmloadr.c:1436`, `jvmloadr.c:1442`,
  `jvmloadr.c:4201` and `Jvmrt.c:6347`, leaves frames on the stack of a function that has returned.
  `TryProperties.FramesRestored` gives the condition under which this never happens,
  `TryProperties.ReturnLeavesFrames` how many are left otherwise, `TryProperties.ThrowAfterReturn` what the next
  exception then does, and `TryProperties.EndTryRestores` that the caller's own JVM_END_TRY repairs the stack.
- What a handler throws is sent to the same clauses again. A clause whose first act is to throw what it caught,
  like the catch-all at `jvmloadr.c:1980-1984`, never ends (`TryProperties.RethrowLoops`,
  `TryProperties.CatchAllRethrowLoops`); `TryProperties.TryEnds` says exactly when a JVM_TRY ends whose handlers
  do what their text says first, and `TryProperties.NoSelfCatchEnds` gives a condition for all code.
- Removing from an empty bucket returns the invalid value rather than 0 (`Hashtabl.c:248`).
- `bintree.c:84` numbers the traversals from 0; the code subtracts one, as the constants 1 to 3 demand.
- A class that cannot be loaded ends the loading of its sibling list (`ClassInfo.cpp:551-556` is inside the
  success branch), and the interfaces of a class without a superclass are linked to nothing
  (`ClassInfo.cpp:527-540`). `ClassHierarchy.HierarchyShown` says exactly when the displayed tree is complete,
  and `ClassHierarchy.MissingSuperclass` shows one that is not.
- An item without a text is not inserted, and what belongs below it goes to the top (`jdepends.cpp:284-301`);
  `ClassTreeView.ShowHierarchy` says exactly when the reader sees the whole hierarchy nevertheless.
- `LoadClass` returns exactly when it meets no class above itself (`ClassCycles.LoadEnds`).
- The document deletes its root without looking at the reference count (`jdependsDoc.cpp:62`);
  `ClassRegistry.Registry.SoleReference` says exactly when nothing is left dangling
  (`ClassRegistry.Registry.Dangling`, `ClassRegistry.ListedRoot`).
- A one-dimensional array counts its header element in its length (`Jvmrt.c:5702`, `Jvmrt.c:5712`), an array
  of more dimensions does not (`Jvmrt.c:5761`).

## Model

| member | source | states |
|---|---|---|
| `Crc32.MakeCrcTable` | crctab.c:116-121 | each of the 256 entries is eight steps of the shift register on its index |
| `Crc32.ComputeCrc32` | crc32.c:29-54 | the unrolled loop and its tail return the bit-serial register's checksum of the first len bytes, from any starting value; 0 for a null buffer |
| `Crc32.TableStepRuns` | crc32.c:22 | one table look-up is eight bits, lowest first, through the register |
| `CrcSamples.TableEntries` | crctab.c:135-186 | the entries of the generated table for single bits are those of the table the source spells out |
| `CrcSamples.CheckValue` | crc32.c:29-54 | the check value of CRC-32, the checksum of the digits from 1 to 9 |
| `Crc32.Do1` | crc32.c:23 | one byte is run through the register and the pointer moves by one |
| `Crc32.Do2` | crc32.c:24 | the same for two bytes |
| `Crc32.Do4` | crc32.c:25 | the same for four bytes |
| `Crc32.Do8` | crc32.c:26 | the same for eight bytes |
| `Crc32.CrcConcat` | crc32.c:43-53 | feeding the result for A into B gives the checksum of A followed by B |
| `ShiftRegister.StepXor` | crctab.c:119 | the register step is linear over xor |
| `ShiftRegister.StepsKernel` | crctab.c:119 | only zero is sent to zero, as the step is invertible |
| `ShiftRegister.RunAsSteps` | crctab.c:20-26 | up to 32 bits fed one at a time amount to one word xored in, then shifted |
| `ShiftRegister.ByteStep` | crc32.c:22 | a byte fed bit by bit equals the shifted register xored with the table entry of its low byte |
| `ShiftRegister.RunAppend` | crc32.c:33-35 | the register after two pieces is the register after their concatenation |
| `CrcPolynomial.PatternBits` | crctab.c:98-106 | 0xedb88320 holds exactly the listed terms of the polynomial, reflected |
| `CrcPolynomial.StepPoly` | crctab.c:20-26 | one step multiplies the register's polynomial by x modulo P |
| `CrcPolynomial.RegisterDivides` | crctab.c:9-31 | after any bits from any register, the dividend is a multiple of P plus the register |
| `CrcPolynomial.CrcIsRemainder` | crctab.c:9-31 | crc32(0, m) is the complement of the remainder of m(x)x^32 + (x^31+...+1)x^(8n) by the degree 32 polynomial |
| `CrcPolynomial.TableEntryIsRemainder` | crctab.c:14-18 | table entry b is the remainder of b(x)x^32 |
| `Polynomials.RemainderUnique` | crctab.c:14-18 | there is only one remainder of that degree, so the two lemmas above determine the code's result |
| `CrcBurst.RunInjective` | crc32.c:22 | the same message takes different registers to different registers |
| `CrcBurst.WindowInjective` | crc32.c:22 | from one register, different strings of at most 32 bits give different registers |
| `CrcBurst.BurstDetected` | crc32.c:43-53 | messages of equal length that differ only inside 32 consecutive bits have different checksums |
| `ExceptionRuntime.ThreadState.EnterTry` | Jvmexcpt.h:39-46 | a frame without an exception is pushed on the thread's linked stack |
| `ExceptionRuntime.ThreadState.EndTry` | Jvmexcpt.h:65-69 | the stack becomes what it was below this frame, whatever is on top |
| `ExceptionRuntime.ThreadState.ThrowException` | Jvmexcpt.c:114-145 | EXC_NOEXCEPTION does nothing; else the top frame gets the exception and its setjmp is jumped to, or without a frame the default handler is called |
| `ExceptionRuntime.ThreadState.ThrowUnhandledException` | Jvmexcpt.c:147-178 | the frame below gets the exception, becomes the top and is jumped to; without one the default handler is called |
| `ExceptionRuntime.ThreadState.CatchException` | Jvmexcpt.c:180-197 | true exactly if the exception last sent to the top frame is the one given |
| `ExceptionRuntime.ThreadState.CatchTwoExceptions` | Jvmexcpt.h:53-54 | true exactly if it is one of the two |
| `ExceptionRuntime.ThreadState.CatchThreeExceptions` | Jvmexcpt.h:56-59 | true exactly if it is one of the three |
| `ExceptionRuntime.ThreadState.CatchAllExceptions` | Jvmexcpt.c:199-219 | true exactly if that exception is one from 0 to 256 |
| `ExceptionRuntime.ThreadState.GetExceptionType` | Jvmexcpt.c:222-236 | the exception in the top frame |
| `TryLanguage.RaiseFacts` | Jvmexcpt.c:122-138 | only real exceptions leave a statement, and only towards a JVM_TRY in progress |
| `TryLanguage.EnoughFuel` | Jvmexcpt.h:39-69 | an outcome does not depend on how many repetitions were allowed beyond those needed, so each program has one |
| `CatchClauses.TypedClause` | Jvmexcpt.h:50-59 | a clause for one, two or three types is taken exactly by an exception equal to one of them; others go to the next clause |
| `CatchClauses.CatchAllClause` | Jvmexcpt.h:62-63 | the catch-all clause is taken exactly by exceptions from 0 to 256 |
| `CatchClauses.CaughtHere` | Jvmexcpt.h:50-69 | the handler of a listed type runs with the exception, its end ends the JVM_TRY, and what it throws goes to the same clauses |
| `CatchClauses.PassedOn` | Jvmexcpt.h:50-69 | a clause that lists other types changes nothing: the clauses behind it decide |
| `CatchClauses.PastTheLast` | Jvmexcpt.c:147-178 | behind the last clause the exception goes outward, at the outermost level to the default handler |
| `CatchClauses.Uncaught` | Jvmexcpt.c:114-145 | a throw outside every JVM_TRY calls the default handler and goes on; throwing EXC_NOEXCEPTION does nothing |
| `CatchClauses.CountingLoop` | Jvmexcpt.h:38-69 | a counting loop in the language runs its body exactly as often as it should |
| `FrameMachineCorrect.Sim` | Jvmexcpt.h:39-69 | compiled code placed anywhere, in any calls and on any frame stack, goes where its meaning says: to its end with only stale frames left above, to a return, to the setjmp of the frame around it, or to a fault |
| `FrameMachineCorrect.SimTry` | Jvmexcpt.h:39-69 | the same for one JVM_TRY, from the pushed frame to JVM_END_TRY |
| `FrameMachineCorrect.SimDispatch` | Jvmexcpt.h:50-67 | after a jump to a frame, the first accepting clause runs with the frame still on top, and what it throws comes back to the same clauses |
| `FrameMachineCorrect.SimUnhandled` | Jvmexcpt.c:147-178 | an exception no clause accepts goes one frame outward, or to the default handler and on behind JVM_END_TRY |
| `FrameMachineCorrect.SimReturn` | Jvmexcpt.h:41-45 | when a call returns, the frames it leaves stay linked but are gone, since they lived in the function's own variables |
| `FrameMachineCorrect.MacrosPreserveMeaning` | Jvmexcpt.h:39-69 | for statements with loops, calls and returns, the expansion of the macros halts exactly when the statement terminates, and then with the same variables, handler calls and number of frames left |
| `TryProperties.EnclosedNeverDefaults` | Jvmexcpt.c:162-176 | inside a JVM_TRY the default handler is never called |
| `TryProperties.DispatchDefaults` | Jvmexcpt.c:160-177 | a JVM_TRY calls the default handler at most once, as its last act, at the outermost level; it does so if and only if no clause accepts the last exception sent to them |
| `TryProperties.StackKept` | Jvmexcpt.h:65-69 | where no function returns from inside a JVM_TRY, every statement leaves the frame stack as it was and uses no stale frame |
| `TryProperties.FramesRestored` | Jvmexcpt.h:65-69 | then the machine stops with an empty frame stack, for all data |
| `TryProperties.ReturnSamples` | jvmloadr.c:1431-1442 | single texts that keep the stack, and that do not |
| `TryProperties.FlowHolds` | Jvmexcpt.h:39-69 | what a statement's text says it does first, whatever the data, it does: pass, leave with so many frames, or raise |
| `TryProperties.ReturnLeavesFrames` | jvmloadr.c:1420-1445 | a function that returns from inside JVM_TRYs leaves exactly as many frames as it was inside of |
| `TryProperties.HandlerReturnLeavesFrame` | jvmloadr.c:4194-4203 | so does a handler that returns, whatever the body did before it raised |
| `TryProperties.ThrowAfterReturn` | jvmloadr.c:1420-1445 | after a call that left frames, the next exception jumps into a function that has returned, whatever the caller's clauses are |
| `TryProperties.EndTryRestores` | Jvmexcpt.h:65-69 | a JVM_TRY that comes to its end leaves nothing on the stack, whatever its body, handlers and the functions they call left |
| `TryProperties.DispatchFollowsChain` | Jvmexcpt.h:50-67 | a dispatch needs exactly as many repetitions as the chain from exception to thrown exception has steps |
| `TryProperties.ChainBound` | Jvmexcpt.h:50-67 | a chain that ends does so within one step more than there are exceptions thrown in the clauses |
| `TryProperties.TryEnds` | Jvmexcpt.h:39-69 | a JVM_TRY whose body raises e halts if and only if the chain of e leaves the clauses within that bound |
| `TryProperties.RethrowLoops` | Jvmexcpt.h:50-51 | for every body and every list of clauses: if the handler of e first throws e, a JVM_TRY whose body raises e never halts |
| `TryProperties.CatchAllRethrowLoops` | jvmloadr.c:1976-1985 | a catch-all clause that throws the current exception again never halts once its body raises |
| `TryProperties.NoSelfCatchEnds` | Jvmexcpt.h:39-69 | code without loops in which no handler throws what its own clauses accept always halts |
| `TryProperties.ChainSamples` | jvmloadr.c:1976-1985 | the chain of two handlers that throw to each other |
| `DescriptorParser.IsJvmBaseType` | Jvmparse.c:308-335 | for every character: found exactly if it is the letter of one of the eight primitive types, then one character is consumed and the width is that type's |
| `DescriptorParser.IsJvmObjectType` | Jvmparse.c:340-373 | finds exactly the names that end within the limit, and where the cursor is left in every case |
| `DescriptorParser.IsJvmArrayType` | Jvmparse.c:378-384 | consumes a bracket and nothing else |
| `DescriptorParser.ParseFieldDescriptor` | Jvmparse.c:201-263 | the result, cursor and record are those of the parsing function, in every branch |
| `DescriptorParser.ParseParameterDescriptor` | Jvmparse.c:122-169 | the vector grows by the parsed fields in order; the count also counts a parameter that failed |
| `DescriptorParser.ParseReturnDescriptor` | Jvmparse.c:173-196 | 'V' means no return value and is not consumed |
| `DescriptorParser.StoreParametersSize` | Jvmparse.c:97-114 | the stored width is the sum of the parameters' widths |
| `DescriptorParser.ParseMethodDescriptor` | Jvmparse.c:24-94 | status, cursor, parameters, return field and width are those of the parsing function |
| `DescriptorGrammar.FieldPrefixFree` | Jvmparse.c:201-263 | no printed field type is a prefix of another |
| `DescriptorGrammar.MethodPrefixFree` | Jvmparse.c:24-94 | no printed method type is a prefix of another, so no text has two readings |
| `DescriptorGrammar.Letters` | Jvmparse.c:314 | the letters of the primitive types are B, C, D, F, I, J, S and Z and no others |
| `DescriptorProof.FieldComplete` | Jvmparse.c:201-263 | parsing a printed field type, into any record, consumes exactly it and records flags, base type, dimensions, width and name |
| `DescriptorProof.FieldSound` | Jvmparse.c:201-263 | a field parsed with names in time was the printed form of a type |
| `DescriptorProof.FieldsComplete` | Jvmparse.c:122-169 | a printed parameter list is parsed to its records, in order |
| `DescriptorProof.FieldsSound` | Jvmparse.c:122-169 | a parameter list parsed with names in time was the printed form of a list of types |
| `DescriptorProof.MethodRoundTrip` | Jvmparse.c:24-94 | parsing any printed method type returns its parameters, return flag and return type, and ends where the text ends |
| `DescriptorProof.RecordFields` | Jvmparse.c:201-268 | the record of a type field by field: flags, base type, width, dimensions, name and its length |
| `DescriptorProof.FieldTexts` | Jvmparse.c:314 | the texts of all primitive types, of a class and of an array |
| `DescriptorProof.MethodText` | Jvmparse.c:24-95 | a method with two primitive parameters, a class parameter and a class result |
| `DescriptorProof.NameReach` | Jvmparse.c:340-373 | a class name is read exactly if its semicolon is among the 510 characters behind the L |
| `DescriptorProof.Refusals` | Jvmparse.c:24-95 | texts that are refused, each with its status |
| `DescriptorProof.MethodSoundness` | Jvmparse.c:24-94 | whenever parsing succeeds, the consumed text (with the 'V' of void) is the printed form of a method type if and only if all names end in time, and then of the result |
| `DescriptorProof.OverlongNameAccepted` | Jvmparse.c:340-373 | a readable text that is accepted as ([I)V although it is the printed form of no type |
| `DescriptorProof.RecordInjective` | Jvmparse.c:201-263 | two types have the same record exactly when they agree but for dimensions modulo 65536 |
| `StackMap.StackFrame.constructor` | Jvmrt.c:4969-5017 | a frame has one slot for the receiver, then the parameters' and the locals' width, all zero, with the stack map of that size |
| `StackMap.StackFrame.SetUpParameters` | Jvmrt.c:6271-6306 | the receiver, if the method has one, goes to slot 0, the given number of argument words behind it, and every other slot is as before |
| `StackMap.EveryWordCopied` | Jvmrt.c:3092-3093 | as many words as there are parameters are all their words if and only if none is a long or a double |
| `StackMap.CreateStackMap` | Jvmrt.c:5042-5090 | a slot is marked if and only if it is the receiver's or the mark of a flagged parameter or table entry lands there, with the 16-bit index wrapping |
| `StackMap.MarkRun` | Jvmrt.c:5070-5071 | marks one run of slots and changes no other |
| `StackMap.MarkLocals` | Jvmrt.c:5079-5087 | the flagged entries of the local variable table are marked one position after the other, nothing else changes |
| `StackMap.MapExact` | Jvmrt.c:5050-5087 | the map has the layout of the code, the receiver and one run of slots after the other, if and only if no flagged field lies at slot 65536 or beyond |
| `StackMap.LongListWraps` | Jvmrt.c:5070-5074 | behind 32768 longs a reference parameter is not marked, but the first long is |
| `StackMap.SlotsDisjoint` | Jvmrt.c:5074 | the runs of different parameters do not overlap and lie inside the frame |
| `StackMap.WidthOfRecords` | Jvmparse.c:97-114 | the stored width of parsed parameters is two for each long and double and one for each other type or array; references are one word wide |
| `StackMap.ObjectFlagMeaning` | Jvmrt.c:5068 | the record says which types are references; the object flag alone does, except exactly for arrays of a base type |
| `ReferenceMap.MapTrueExactly` | Jvmrt.c:5042-5090 | for instance and static methods and every parameter list and table, the marks are exactly the slots of the receiver, the reference parameters and the reference variables if and only if no such parameter and no such variable is left unmarked and no mark, of an entry, a parameter or the receiver, is elsewhere |
| `ReferenceMap.MapTrueWithin` | Jvmrt.c:5042-5090 | the same for both kinds while the table does not wrap: references listed below the first local slot are in marked slots there, and the flagged positions are the indices of all others |
| `ReferenceMap.InstanceMapTrue` | Jvmrt.c:5042-5090 | for an instance method: if and only if every reference parameter has the flag, the references listed below the first local slot are the receiver and parameters, and the flagged positions are the indices of all others |
| `ReferenceMap.StaticMapTrue` | Jvmrt.c:6292-6293 | for a static method, one slot lower: if and only if every reference parameter but the first has a flagged one before it, slot 0 and the slot behind each flagged parameter hold a reference, and the table is right as above |
| `ReferenceMap.StaticNeverTrue` | Jvmrt.c:5061-5062 | without arrays of base types the map of a static method is never true, whatever its parameters and table |
| `ReferenceMap.StaticParamsTrue` | Jvmrt.c:5061-5074 | without a table the map of a static method is true if and only if its parameters begin with flagged references followed by one array of a base type, and hold no other reference |
| `ReferenceMap.StaticIntAndObject` | Jvmrt.c:880-882 | for static `(ILA;)V` slots 0 and 2 are marked, and the reference lives in slot 1 |
| `ReferenceMap.LocalsMarkedRight` | Jvmrt.c:5079-5087 | for methods of both kinds and every table, the marks behind the parameters are the slots of the reference variables that live there if and only if the flagged entries land on exactly these indices and, in a static method, its first local slot is marked exactly if such a variable lives in it |
| `ReferenceMap.ParameterEntryMarkedWrong` | jvmloadr.c:2804-2807 | for both kinds, without arrays of base types in the table, a reference entry that lives below the slot the entries are marked from leaves a mark where no reference lives: there are more positions than variables |
| `ReferenceMap.OrderedTable` | jvmloadr.c:2804-2807 | for both kinds, in a table in the order of the slots without arrays of base types, the marks behind the parameters are right if and only if each reference variable has its entry's position as its index and a static method's first local slot has no mark |
| `ReferenceMap.ThisEntry` | Jvmrt.c:5079-5087 | the table with the one entry `this`: slot 1 is marked, where no variable lives |
| `ReferenceMap.ThisAndBaseArray` | Jvmrt.c:5079-5087 | with an `int[]` variable behind it the map of `this` is right: the array takes no position, and `this` takes the one that is the array's slot |
| `ArgTokens.QuoteRoundTrip` | envargs.c:101-154 | quoting any strings, joining them with spaces and splitting gives them back: all strings on UNIX, those without a double quote on the DOS family |
| `ArgTokens.UnescapeEscape` | envargs.c:113-118 | removing backslashes undoes escaping |
| `ArgLayout.LayoutSplit` | envargs.c:101-154 | in all variants, words without spaces and quoted arguments, in any order and with any spaces between and behind them, are split into exactly these |
| `ArgLayout.Separators` | envargs.c:27-31 | the six characters that separate arguments |
| `ArgLayout.OpenQuote` | envargs.c:106-111 | a quote that is not closed makes the rest one argument |
| `ArgLayout.TwoOptions` | envargs.c:139-142 | `-o -q` is two arguments |
| `ArgLayout.OptionAndQuotes` | envargs.c:102-111 | an option and a quoted argument with a space are two |
| `EnvArgs.CountArgs` | envargs.c:171-206 | the count is the number of arguments in the string |
| `EnvArgs.CutArg` | envargs.c:102-143 | cuts one argument in place: the cell points to its text, and the rest of the buffer is as before |
| `EnvArgs.RemoveEscapes` | envargs.c:113-118 | the string becomes itself without escapes, in place, and nothing behind it changes |
| `EnvArgs.CopyLeft` | envargs.c:115 | moves the rest of a string one place left |
| `EnvArgs.CutArgs` | envargs.c:101-154 | fills one cell for each argument, in order, each pointing to the argument's text in the final buffer |
| `EnvArgs.LookUp` | envargs.c:56-65 | the usual variable counts unless it is missing or blank; then the alternate |
| `EnvArgs.ChosenIs` | envargs.c:56-65 | the usual variable counts from its first character that is no space; if it is missing or blank the alternate in the same way; else neither |
| `EnvArgs.CopyOldArgs` | envargs.c:156-162 | the old arguments from 1 on, then the closing null, fill the rest of the vector |
| `EnvArgs.EnvArgs` | envargs.c:40-167 | the new vector has exactly argc + old argc + 1 cells: program name, environment arguments in order, old arguments, null; without a variable nothing changes |
| `EnvArgs.QuotedEnvironment` | envargs.c:40-167 | a variable can hold quoted arguments if and only if these hold no terminating zero, and then, whatever the alternate variable is, it yields exactly them |
| `EnvArgs.EnvironmentLayout` | envargs.c:40-167 | a variable with spaces, words and quoted arguments yields exactly these arguments |
| `TreeModel.InsertOrdered` | bintree.c:141-160 | adding keeps left < node <= right |
| `TreeModel.BuildSorts` | bintree.c:119-127 | after any adds the in-order listing is a stable sort of the added pairs, and the tree is ordered |
| `TreeModel.StableSortUnique` | bintree.c:119-127 | there is only one stable sort, so the listing is determined |
| `TreeModel.SearchEarliest` | bintree.c:163-181 | after any adds a search finds the value of the earliest add with that key, or nothing |
| `TreeModel.TraversalsAgree` | bintree.c:109-137 | the three traversals list the same pairs |
| `TreeModel.RootPlace` | bintree.c:100-137 | the root comes first in pre-order, last in post-order, and between smaller and other keys in order; smaller keys come before others in all three |
| `TreeModel.TraversalSample` | bintree.c:100-137 | three keys in all three orders |
| `BinTree.AddNode` | bintree.c:141-160 | the linked tree becomes the tree with the pair inserted |
| `BinTree.SearchNode` | bintree.c:163-181 | the node found is the one the search function finds, or none |
| `BinTree.Traverse` | bintree.c:100-137 | the keys are visited in pre-, in- or post-order; the result tells whether there was a node |
| `BinTree.SearchTree.Add` | bintree.c:57-64 | the pair joins the adds the tree stands for |
| `BinTree.SearchTree.Find` | bintree.c:67-73 | the value of the earliest add with the key, else the tree's invalid value |
| `BinTree.SearchTree.VisitInOrder` | bintree.c:82-86 | the keys come sorted, with all their duplicates |
| `TableModel.AccumulatorBelow` | Hashtabl.c:288-297 | the accumulator stays below 2^28 for every string |
| `TableModel.MixFolds` | Hashtabl.c:288-297 | one turn adds the character to sixteen times the value and folds what stands above 28 bits into the bits from the fourth on |
| `TableModel.HashSample` | Hashtabl.c:280-299 | the hash and bucket of one string that is long enough for the folding |
| `TableModel.SameClassEquivalence` | Hashtabl.c:224 | "same bucket and equal ignoring case" is an equivalence |
| `TableModel.NumberClass` | Hashtabl.c:211 | numbers are the same key exactly if they are equal |
| `TableModel.StringClass` | Hashtabl.c:224 | strings are the same key exactly if they lie in one bucket, have one length, and at each place the same byte or a letter and its other case |
| `TableModel.AddPushes` | Hashtabl.c:149-181 | adding pushes on the stack of the key's class and leaves every other class alone |
| `TableModel.GetPeeks` | Hashtabl.c:184-228 | getting returns the top of the class's stack, or the invalid value |
| `TableModel.RemovePops` | Hashtabl.c:231-275 | removing pops the class's stack and leaves every other class alone |
| `TableModel.RunRefinesStacks` | Hashtabl.c:149-275 | over any run the table is a map from key classes to stacks of values |
| `TableModel.DictionaryOfStacks` | Hashtabl.c:149-275 | over any run a dictionary is a map from numbers to stacks, by plain equality |
| `TableModel.DictionarySample` | Hashtabl.c:149-275 | two numbers with different values, and one with two |
| `TableModel.RundownOnce` | Hashtabl.c:247-274 | over any run each added value is either still in the table or was run down, once |
| `HashTable.Hash` | Hashtabl.c:280-299 | the loop computes the hash of the whole string, below the number of buckets |
| `HashTable.PushFront` | Hashtabl.c:173-179 | the node becomes the head of a well-formed doubly linked chain |
| `HashTable.Unlink` | Hashtabl.c:253-266 | the chain without that node is a well-formed doubly linked chain, in the same order |
| `HashTable.Table.constructor` | Hashtabl.c:87-115 | a new table is empty |
| `HashTable.Table.Add` | Hashtabl.c:149-181 | the linked table stands for the run with this add; a null string is refused |
| `HashTable.FindIn` | Hashtabl.c:204-228 | the first node of a chain with the key, or none; no freed node is read |
| `HashTable.Table.FindNode` | Hashtabl.c:204-228 | the first node of the bucket with the key, or none |
| `HashTable.Table.TakeOut` | Hashtabl.c:253-271 | the node found leaves its chain, its value is run down, and its memory is given back once |
| `HashTable.Table.RunDownChain` | Hashtabl.c:129-142 | every node of the chain is run down and then freed once, in order, and none is read after that |
| `HashTable.Table.Get` | Hashtabl.c:184-228 | the latest value of the key's class that was not removed, or the invalid value; for a number, of that number |
| `HashTable.Table.Remove` | Hashtabl.c:231-275 | the linked table stands for the run with this removal; 1 exactly if there was a value, else 0 or the invalid value |
| `HashTable.Table.Destroy` | Hashtabl.c:118-147 | over the table's life every node ever added was freed exactly once, none was read after that, and the rundown function received exactly the added values |
| `ClassCycles.LoadEnds` | ClassInfo.cpp:491-562 | loading ends if and only if no class that is met comes above itself, and then after no more levels than there are classes |
| `ClassCycles.RankIsEnough` | ClassInfo.cpp:491-562 | an acyclic relation has no class above itself, and the highest rank is depth enough |
| `ClassHierarchy.HierarchyShown` | ClassInfo.cpp:512-556 | wherever loading ends, the decoded tree is the whole hierarchy, if and only if nothing with parents follows a class that cannot be loaded and interfaces come with a superclass |
| `ClassHierarchy.TreeIs` | ClassInfo.cpp:512-542 | what the whole hierarchy is: at every class one tree for the superclass and then one for each interface, in order |
| `ClassHierarchy.LoadSample` | ClassInfo.cpp:512-556 | a class with a superclass and two interfaces, and their superclass, as loaded |
| `ClassHierarchy.ForestSample` | DClassView.cpp:186-223 | and as shown |
| `ClassHierarchy.AllResolved` | ClassInfo.cpp:491-509 | if all parents of all classes are there, everything can be loaded |
| `ClassHierarchy.MissingSuperclass` | ClassInfo.cpp:551-556 | a superclass that cannot be loaded hides what is above the interface behind it |
| `ClassHierarchy.ResolvableHierarchyShown` | ClassInfo.cpp:512-556 | when every class that is met can be loaded the decoded tree is the whole hierarchy |
| `ClassHierarchy.OneHierarchy` | ClassInfo.cpp:512-556 | there is only one tree that is the whole hierarchy over given classes |
| `ClassRegistry.ClassInfo.constructor` | ClassInfo.cpp:36-57 | a node starts without links and with one reference |
| `ClassRegistry.Registry.constructor` | ClassInfo.cpp:623-627 | the list starts with ten empty entries |
| `ClassRegistry.Registry.New` | ClassInfo.cpp:36-57 | a new node is held by its creator |
| `ClassRegistry.ClassInfo.FindClassPath` | ClassInfo.cpp:579-618 | a node gets the path of its class file, or its name with the archive's, and keeps a path it has |
| `ClassRegistry.Registry.AddToList` | ClassInfo.cpp:664-668 | one more entry takes over a reference, also of a node that is listed already; the counts stay right |
| `ClassRegistry.Registry.IncreaseRefCount` | ClassInfo.cpp:697-701 | one more reference for the caller; the counts stay right |
| `ClassRegistry.Registry.SetChild` | ClassInfo.cpp:567-568 | the child link takes over a reference, or becomes null; what it led to before keeps a reference that nobody gives up; the counts stay right |
| `ClassRegistry.Registry.SetSibling` | ClassInfo.cpp:572-573 | the sibling link likewise |
| `ClassRegistry.Registry.DecreaseRefCount` | ClassInfo.cpp:689-695 | one reference of the caller's is given up and nobody else's; all counts stay right through the whole cascade of deletes |
| `ClassRegistry.Registry.Destroy` | ClassInfo.cpp:641-659 | the deleted node's links are released, every other count stays right, and it is deleted once |
| `ClassRegistry.Registry.FreeList` | ClassInfo.cpp:673-687 | every entry is alive when it is reached; the list ends empty and no outside reference is lost |
| `ClassRegistry.Registry.DeleteRoot` | jdependsDoc.cpp:60-63 | deleting a root whose count is one keeps all counts right |
| `ClassRegistry.Registry.CountIsReferences` | ClassInfo.cpp:641-701 | a live node's count is its list entries plus incoming child and sibling links plus outside holders; nothing refers to a deleted node |
| `ClassRegistry.Registry.SoleReference` | jdependsDoc.cpp:62 | the count is one exactly when the holder is the only one to refer to the node |
| `ClassRegistry.Registry.Dangling` | jdependsDoc.cpp:62 | the counts are wrong as soon as an entry, a link or a holder refers to a deleted node |
| `ClassRegistry.ListedRoot` | jdependsDoc.cpp:62 | a root that is listed as well has a count of two, and deleting it leaves that entry dangling |
| `ClassRegistry.Registry.Anchored` | ClassInfo.cpp:641-695 | from every live node the links lead back to one that is held or listed |
| `ClassRegistry.Registry.AllGone` | ClassInfo.cpp:641-695 | once nothing is held or listed, every node ever created was deleted exactly once |
| `ClassLoader.AddSuperclass` | ClassInfo.cpp:513-522 | the superclass node is created, listed and linked as the child |
| `ClassLoader.AddInterface` | ClassInfo.cpp:528-539 | an interface node is created, listed and linked behind the one before it, if any |
| `ClassLoader.LinkParents` | ClassInfo.cpp:512-542 | with a superclass the child link leads to it, and its siblings are the interfaces in their order; without one to nothing |
| `ClassLoader.LoadClass` | ClassInfo.cpp:491-562 | whenever no class that is met comes above itself it terminates, succeeds exactly when the class can be loaded, and the links form the encoding of the relation with no node in two places, each loaded at most once |
| `ClassLoader.LoadFound` | ClassInfo.cpp:509-559 | the success branch: the child's tree, then the sibling's |
| `ClassLoader.LoadList` | ClassInfo.cpp:551-556 | the guarded calls on child and sibling |
| `ClassLoader.EachOnce` | ClassInfo.cpp:551-556 | when every class can be loaded each node is loaded exactly once |
| `ClassLoader.LoadedAllIn` | ClassInfo.cpp:512-556 | when every class that is met can be loaded the encoding holds only such classes |
| `ClassDocument.Open` | jdependsDoc.cpp:155-188 | the document alone holds the root, everything above it is listed and loaded |
| `ClassDocument.Close` | jdependsDoc.cpp:60-63 | with any documents open, closing one deletes its root, and the others still hold theirs alone |
| `ClassDocument.Clear` | ClassInfo.cpp:673-687 | the list can be cleared with any documents open |
| `ClassDocument.Session` | jdependsDoc.cpp:60-188 | for any sequence of opens, closes and clearings of the list: the roots held are those of the open documents, no node is deleted twice, and once every document was closed and the list was cleared after the last open, every node ever created was deleted exactly once |
| `ClassDocument.OpenAfterIs` | jdependsDoc.cpp:60-188 | which documents are open after one more event |
| `ClassDocument.ExitInEitherOrder` | jdependsDoc.cpp:60-63 | after any events, closing every document and clearing the list, in either order, leads to the state in which everything was deleted |
| `ClassTreeView.TreeCtrl.InsertItem` | jdepends.cpp:284-301 | appends an item last, or nothing for an empty text |
| `ClassTreeView.InsertClassHierarchy` | DClassView.cpp:186-223 | adds, behind the items there were, the items of the linked tree, with the class paths or else the names: a node's children below its own item, its siblings below its parent's |
| `ClassTreeView.ListingShown` | DClassView.cpp:186-223 | the added items, read as a tree, are the forest the child and sibling links stand for, whatever stands before and behind them |
| `ClassTreeView.ShownIs` | jdepends.cpp:284-301 | what a reader sees below an item: one entry for each item that has it as parent, in order |
| `ClassTreeView.CaptionIs` | DClassView.cpp:194-203 | what is shown for a class in an archive, in a file, and not located |
| `ClassTreeView.TextsOf` | DClassView.cpp:194-203 | the shown texts of loaded nodes are the class paths of their names, or the names |
| `ClassTreeView.TextedTitled` | jdepends.cpp:284-301 | a hierarchy in which everything has a text gives a text to every class that is loaded, so a missing item is always missed |
| `ClassTreeView.ShowHierarchy` | DClassView.cpp:133-155 | opening and displaying any class that is not met above itself shows its whole hierarchy if and only if nothing is cut off and everything that is loaded has a text; below the class then stand its superclass and its interfaces, in order, with the texts of where the class files are |
| `JvmArrays.Heap.Create` | Jvmrt.c:5662-5776 | a new array has the shape its lengths ask for in blocks that were free, and no other block changes |
| `JvmArrays.ArrayIs` | Jvmrt.c:5700-5772 | an array read from its object: type, dimensions, length and bound; the size and content of its data; different subarrays of one dimension less |
| `JvmArrays.ElementTypes` | Jvmrt.c:5718-5748 | the eight element types the allocating switch supports |
| `JvmArrays.Heap.CreateSubarrays` | Jvmrt.c:5764-5770 | the cells behind the header lead to separate subarrays of one dimension less |
| `JvmArrays.Heap.Destroy` | Jvmrt.c:5779-5819 | exactly the array's blocks are freed, each while it is allocated |
| `JvmArrays.Heap.DestroySubarrays` | Jvmrt.c:5809-5811 | exactly the subarrays' blocks are freed |
| `JvmArrays.CreateAndDestroy` | Jvmrt.c:5662-5819 | creating and destroying leaves the heap as it was, for any number of dimensions and any lengths |
| `JvmArrays.CountBlocks` | Jvmrt.c:5700-5772 | an array takes two blocks for each row and three for each grid around its subarrays |
| `JvmArrays.ShapeKept` | Jvmrt.c:5662-5776 | a heap that agrees on an array's blocks holds the same array |

## Left out

CRC-32

- The literal table values but those for single bits (the generator defines the table), the zlib, assembler and
  multi-byte variants,
  and `ulg` wider than 32 bits.

Exceptions

- Values of local variables that `longjmp` leaves indeterminate; recursion; the exception texts; the Java-level
  unwinding of `JvmThrowRealJavaException`. What happens after a jump into a function that has returned is not
  defined by the language, and the machine stops there.
- `TryProperties.ReturnLeavesFrames`: counts the frames for code whose first act is known from its text; whether
  other code reaches a return depends on its data.
- `TryProperties.NoSelfCatchEnds`: one direction only, for all code; `TryProperties.TryEnds` gives both where each
  handler's first act is known from its text.

Descriptors and frames

- Error codes and the clean-up after a failure, which reads past the vector; parameter cells are held by
  value, since each is an unshared copy; counts are unbounded.
- `DescriptorParser.ParseMethodDescriptor`: requires a zeroed record, as the code relies on it, and a text
  that the name scan does not run out of.
- `StackMap.CreateStackMap`: requires fewer than 65536 parameters, as its 16-bit counter never reaches a larger
  count, and code information, which the function dereferences unguarded.
- Native methods, the growth of the frame array, and the operand stack.

Arguments

- OEM conversion, a failing `malloc`, and other locales than C for `isspace`. The overlapping `strcpy` is
  taken to move left. `EnvArgs.EnvArgs` requires at least a program name, as the code does.

Containers

- `delete_node`, whose parent bookkeeping fails below the first level, `delete_tree`, and keys wider or
  narrower than the model's unbounded ones.
- `HashTable.Table.Add`: does not show the node that the code has allocated before it refuses a null string, and
  then loses (`Hashtabl.c:161-172`).
- The copies of the keys, made by `strdup` in add (`Hashtabl.c:171`) and freed by the table.
- A failing allocation, null strings for get and remove, the debug dump. Plain `char` is taken as signed.

Class hierarchy

- Locating class files (a function gives where each is), flags, icons and the expansion of items.
- `ClassLoader.LoadClass`: requires a depth that suffices, which there is unless a class is met above itself
  (`ClassCycles.LoadEnds`), and a node that was not loaded before, as in the only call from outside.
- `ClassLoader.LoadFound`: requires that a node is loaded for the first time, likewise.
- `ClassRegistry.Registry.SetChild`: requires a child created after the node, as the only calls give
  (`ClassInfo.cpp:512-522`); an older one could close a cycle, whose counts never reach zero.
- `ClassRegistry.Registry.SetSibling`: requires a sibling created after the node, likewise.
- `ClassRegistry.Registry.DeleteRoot`: requires a count of one; with more references the deletion leaves some
  dangling (`ClassRegistry.Registry.SoleReference`).
- Interlocked counting by several threads.

Arrays

- A failing allocation, lengths of 2^31 and more, element types the allocating switch does not support, and
  element values.

Not modelled at all

- The object monitor (its entry set is never filled), the bytecode handlers and call sequence (many are
  stubs), class loading and linking, the user interface, graph drawing, operating-system wrappers, native
  calls, memory benchmarks, string springs and error lists, and the Info-ZIP command line.
