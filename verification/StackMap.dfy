/** The frame layout that Jvmrt.c computes from a parsed descriptor: how many local variable slots a
    method gets, and which of them its stack map marks as references. */
module StackMap {
  import opened DescriptorGrammar
  import opened DescriptorSpec
  import opened DescriptorParser
  import opened Wrappers

  /** An entry of the local variable table: the slot the bytecodes address the variable by, and its type. */
  datatype LocalVar = LocalVar(index: nat, field: FieldVal)

  function Fields(locals: seq<LocalVar>): (fields: seq<FieldVal>)
    ensures |fields| == |locals| && forall k :: 0 <= k < |locals| ==> fields[k] == locals[k].field
  {
    if locals == [] then [] else [locals[0].field] + Fields(locals[1..])
  }

  /** The slot where field k starts; slot 0 is the receiver. */
  function Slot(fields: seq<FieldVal>, k: nat): nat
    requires k <= |fields|
  {
    1 + SumWidths(fields[..k])
  }

  /** The first slot behind the parameters. */
  function FirstLocal(params: seq<FieldVal>): nat {
    1 + SumWidths(params)
  }

  lemma {:induction false} SumWidthsSnoc(fields: seq<FieldVal>, k: nat)
    requires k < |fields|
    ensures SumWidths(fields[..k + 1]) == SumWidths(fields[..k]) + fields[k].width
    decreases k
  {
    if k > 0 {
      assert fields[..k + 1][1..] == fields[1..][..k];
      assert fields[..k][1..] == fields[1..][..k - 1];
      SumWidthsSnoc(fields[1..], k - 1);
    }
  }

  /** Every parameter gets its own run of slots: runs follow each other without overlap inside the frame. */
  lemma {:induction false} SlotsDisjoint(fields: seq<FieldVal>, j: nat, k: nat)
    requires j < k <= |fields|
    ensures Slot(fields, j) + fields[j].width <= Slot(fields, k) <= 1 + SumWidths(fields)
    decreases |fields| - j
  {
    SumWidthsSnoc(fields, j);
    if j + 1 < |fields| {
      SlotsDisjoint(fields, j + 1, if k == j + 1 then k + 1 else k);
    } else {
      assert fields[..j + 1] == fields;
    }
  }

  lemma {:induction false} CountWithinWidth(fields: seq<FieldVal>)
    requires forall f :: f in fields ==> f.width >= 1
    ensures |fields| <= SumWidths(fields)
  {
    if fields != [] {
      CountWithinWidth(fields[1..]);
    }
  }

  // ---------- where the marks land ----------

  predicate Flagged(field: FieldVal) {
    OBJECT in field.fieldType
  }

  /** The marks that parameter k sets. The index is a 16-bit word. */
  predicate ParamHits(params: seq<FieldVal>, k: nat, s: nat)
    requires k < |params|
  {
    Flagged(params[k]) && Slot(params, k) % WORD <= s < Slot(params, k) % WORD + params[k].width
  }

  predicate LocalHits(base: nat, locals: seq<LocalVar>, k: nat, s: nat)
    requires k < |locals|
  {
    Flagged(locals[k].field) && s == (base + k) % WORD
  }

  ghost predicate ParamsHit(params: seq<FieldVal>, n: nat, s: nat)
    requires n <= |params|
  {
    exists k: nat :: k < n && ParamHits(params, k, s)
  }

  ghost predicate LocalsHit(base: nat, locals: seq<LocalVar>, n: nat, s: nat)
    requires n <= |locals|
  {
    exists k: nat :: k < n && LocalHits(base, locals, k, s)
  }

  /** Slot s is marked: it is the receiver's, or a mark of a parameter or local variable lands there. */
  ghost predicate Marked(params: seq<FieldVal>, locals: seq<LocalVar>, s: nat) {
    s == 0 || ParamsHit(params, |params|, s) || LocalsHit(FirstLocal(params), locals, |locals|, s)
  }

  /** The inner loop of JvmCreateStackMap. */
  method MarkRun(marks: array<bool>, index: nat, width: nat)
    requires index + width <= marks.Length
    modifies marks
    ensures forall s :: 0 <= s < marks.Length ==> marks[s] == (index <= s < index + width || old(marks[s]))
  {
    var t := 0;
    while t < width
      invariant 0 <= t <= width
      invariant forall s :: 0 <= s < marks.Length ==> marks[s] == (index <= s < index + t || old(marks[s]))
    {
      marks[index + t] := true;
      t := t + 1;
    }
  }

  /** JvmCreateStackMap. Its counters are 16-bit words as well, so longer lists are never counted to their end. */
  method CreateStackMap(params: seq<FieldVal>, locals: seq<LocalVar>, count: nat) returns (marks: array<bool>)
    requires |params| < WORD && |locals| < WORD && FirstLocal(params) + |locals| <= count
    ensures fresh(marks) && marks.Length == count
    ensures forall s :: 0 <= s < count ==> (marks[s] <==> Marked(params, locals, s))
  {
    marks := new bool[count](_ => false);
    var index := 0;
    marks[index] := true;
    index := index + 1;
    var n := 0;
    FirstSlot(params);
    hide SumWidths, Slot, ParamHits, LocalsHit, LocalHits;
    while n < |params|
      invariant 0 <= n <= |params| && index == Slot(params, n) % WORD
      invariant forall s :: 0 <= s < count ==> (marks[s] <==> s == 0 || ParamsHit(params, n, s))
    {
      var field := params[n];
      NextSlot(params, n);
      label Before:
      if OBJECT in field.fieldType {
        MarkRun(marks, index, field.width);
      }
      HitsOf(params, n);
      assert forall s: nat :: s < count ==> (marks[s] <==> old@Before(marks[s]) || ParamHits(params, n, s));
      forall s: nat | s < count ensures marks[s] <==> s == 0 || ParamsHit(params, n + 1, s) {
        OneMoreParam(params, n, s);
      }
      index := (index + field.width) % WORD;
      n := n + 1;
    }
    MarkLocals(marks, index, FirstLocal(params), locals);
  }

  lemma OneMoreParam(params: seq<FieldVal>, n: nat, s: nat)
    requires n < |params|
    ensures ParamsHit(params, n + 1, s) <==> ParamsHit(params, n, s) || ParamHits(params, n, s)
  {
    hide ParamHits;
  }

  lemma HitsOf(params: seq<FieldVal>, n: nat)
    requires n < |params|
    ensures forall s: nat :: ParamHits(params, n, s) <==>
      OBJECT in params[n].fieldType && Slot(params, n) % WORD <= s < Slot(params, n) % WORD + params[n].width
  {
  }

  lemma FirstSlot(params: seq<FieldVal>)
    ensures Slot(params, 0) == 1 && Slot(params, |params|) == FirstLocal(params)
  {
    assert params[..0] == [] && params[..|params|] == params;
  }

  lemma NextSlot(params: seq<FieldVal>, n: nat)
    requires n < |params|
    ensures 1 <= Slot(params, n) && Slot(params, n + 1) == Slot(params, n) + params[n].width <= FirstLocal(params)
    ensures (Slot(params, n) % WORD + params[n].width) % WORD == Slot(params, n + 1) % WORD
    ensures Slot(params, n) % WORD + params[n].width <= FirstLocal(params)
  {
    SumWidthsSnoc(params, n);
    SlotsDisjoint(params, n, n + 1);
  }

  /** The last loop of JvmCreateStackMap: one slot for each entry of the local variable table. */
  method MarkLocals(marks: array<bool>, start: nat, base: nat, locals: seq<LocalVar>)
    requires base + |locals| <= marks.Length && start == base % WORD
    modifies marks
    ensures forall s :: 0 <= s < marks.Length ==> (marks[s] <==> old(marks[s]) || LocalsHit(base, locals, |locals|, s))
  {
    var index, n := start, 0;
    while n < |locals|
      invariant 0 <= n <= |locals| && index == (base + n) % WORD
      invariant forall s :: 0 <= s < marks.Length ==> (marks[s] <==> old(marks[s]) || LocalsHit(base, locals, n, s))
    {
      forall s: nat ensures LocalsHit(base, locals, n + 1, s) <==> LocalsHit(base, locals, n, s) || LocalHits(base, locals, n, s) {
        OneMoreLocal(base, locals, n, s);
      }
      if OBJECT in locals[n].field.fieldType {
        marks[index] := true;
      }
      index := (index + 1) % WORD;
      n := n + 1;
    }
  }

  lemma OneMoreLocal(base: nat, locals: seq<LocalVar>, n: nat, s: nat)
    requires n < |locals|
    ensures LocalsHit(base, locals, n + 1, s) <==> LocalsHit(base, locals, n, s) || LocalHits(base, locals, n, s)
  {
    hide LocalHits;
  }

  /** The locals of a _JVM_Stack_Frame. */
  class StackFrame {
    var locals: array<int>
    var stackMap: array<bool>
    var topElement: nat
    var pc: nat

    /** JvmRtSetUpStackFrame for a method that is not native and has code. */
    constructor (params: seq<FieldVal>, localVars: seq<LocalVar>)
      requires |params| < WORD && |localVars| < WORD && forall f :: f in Fields(localVars) ==> f.width >= 1
      ensures fresh(locals) && fresh(stackMap)
      ensures locals.Length == stackMap.Length == FirstLocal(params) + SumWidths(Fields(localVars))
      ensures forall i :: 0 <= i < locals.Length ==> locals[i] == 0
      ensures forall s :: 0 <= s < stackMap.Length ==> (stackMap[s] <==> Marked(params, localVars, s))
      ensures topElement == 0 && pc == 0
    {
      CountWithinWidth(Fields(localVars));
      var size := 1 + SumWidths(params) + SumWidths(Fields(localVars));
      locals := new int[size](_ => 0);
      topElement, pc := 0, 0;
      var marks := CreateStackMap(params, localVars, size);
      stackMap := marks;
    }

    /** JvmRtSetUpParameters for a method that is not native: the receiver, if the method has one, and behind it
        this many words of arguments, if there are any. */
    method SetUpParameters(kind: Kind, receiver: int, args: Option<seq<int>>, count: nat)
      requires kind.Instance? ==> locals.Length >= 1
      requires args.Some? ==> count <= |args.value| && FirstArgument(kind) + count <= locals.Length
      modifies locals
      ensures forall i :: 0 <= i < locals.Length ==>
        locals[i] == if kind.Instance? && i == 0 then receiver
                     else if args.Some? && FirstArgument(kind) <= i < FirstArgument(kind) + count
                       then args.value[i - FirstArgument(kind)]
                     else old(locals[i])
    {
      var first := 0;
      if kind.Instance? {
        first := 1;
        locals[0] := receiver;
      }
      if args.Some? {
        for i := 0 to count
          invariant forall j :: 0 <= j < locals.Length && !(first <= j < first + i) ==>
            locals[j] == if kind.Instance? && j == 0 then receiver else old(locals[j])
          invariant forall j :: 0 <= j < i ==> locals[first + j] == args.value[j]
        {
          locals[first + i] := args.value[i];
        }
      }
    }
  }

  /** A static method has no receiver, and its arguments begin in slot 0. */
  datatype Kind = Instance | Static

  function FirstArgument(kind: Kind): nat {
    if kind.Instance? then 1 else 0
  }

  predicate Wide(params: seq<FieldVal>) {
    forall k :: 0 <= k < |params| ==> params[k].width >= 1
  }

  /** The callers hand over the number of parameters where the number of words is asked for: every word of every
      argument is copied exactly when none is a long or a double. */
  lemma {:induction false} EveryWordCopied(params: seq<FieldVal>)
    requires Wide(params)
    ensures SumWidths(params) <= |params| <==> forall k :: 0 <= k < |params| ==> params[k].width == 1
  {
    if params != [] {
      EveryWordCopied(params[1..]);
      CountWithinWidth(params[1..]);
      assert params == [params[0]] + params[1..];
    }
  }

  // ---------- when the map has the layout the code goes by ----------

  /** The layout: the receiver, every slot of a parameter with the object flag, and entry k of the local
      variable table in the k-th slot behind the parameters. */
  ghost predicate MapsFrame(marks: seq<bool>, params: seq<FieldVal>, locals: seq<LocalVar>) {
    var base := FirstLocal(params);
    && base + |locals| <= |marks|
    && marks[0]
    && (forall k, s :: 0 <= k < |params| && Slot(params, k) <= s < Slot(params, k) + params[k].width && s < |marks|
          ==> (marks[s] <==> Flagged(params[k])))
    && (forall k :: 0 <= k < |locals| ==> (marks[base + k] <==> Flagged(locals[k].field)))
    && (forall s :: base + |locals| <= s < |marks| ==> !marks[s])
  }

  /** Everything that is marked starts below the range of the 16-bit index. */
  ghost predicate WithinIndex(params: seq<FieldVal>, locals: seq<LocalVar>) {
    && (forall k: nat :: k < |params| && Flagged(params[k]) ==> Slot(params, k) < WORD)
    && (forall k: nat :: k < |locals| && Flagged(locals[k].field) ==> FirstLocal(params) + k < WORD)
  }

  ghost predicate MarksOf(marks: seq<bool>, params: seq<FieldVal>, locals: seq<LocalVar>) {
    && FirstLocal(params) + |locals| <= |marks|
    && forall s :: 0 <= s < |marks| ==> (marks[s] <==> Marked(params, locals, s))
  }

  /** The map has that layout exactly when nothing to be marked lies at slot 65536 or beyond. An object type
      is one word wide. */
  lemma MapExact(marks: seq<bool>, params: seq<FieldVal>, locals: seq<LocalVar>)
    requires MarksOf(marks, params, locals) && forall k :: 0 <= k < |params| && Flagged(params[k]) ==> params[k].width == 1
    ensures MapsFrame(marks, params, locals) <==> WithinIndex(params, locals)
  {
    if WithinIndex(params, locals) {
      MapRight(marks, params, locals);
    }
    if MapsFrame(marks, params, locals) {
      forall k: nat | k < |params| && Flagged(params[k]) ensures Slot(params, k) < WORD {
        SlotsDisjoint(params, k, k + 1);
        SlotsDisjoint(params, k, |params|);
        assert marks[Slot(params, k)];
        MarkedBelow(params, locals, Slot(params, k));
      }
      forall k: nat | k < |locals| && Flagged(locals[k].field) ensures FirstLocal(params) + k < WORD {
        assert marks[FirstLocal(params) + k];
        MarkedBelow(params, locals, FirstLocal(params) + k);
      }
    }
  }

  lemma MarkedBelow(params: seq<FieldVal>, locals: seq<LocalVar>, s: nat)
    requires Marked(params, locals, s) && forall k :: 0 <= k < |params| && Flagged(params[k]) ==> params[k].width == 1
    ensures s < WORD
  {
  }

  /** No mark lands in another field's slots. */
  lemma MapRight(marks: seq<bool>, params: seq<FieldVal>, locals: seq<LocalVar>)
    requires MarksOf(marks, params, locals) && WithinIndex(params, locals)
    ensures MapsFrame(marks, params, locals)
  {
    var base := FirstLocal(params);
    forall k: nat, s: nat | k < |params| && Slot(params, k) <= s < Slot(params, k) + params[k].width && s < |marks|
      ensures Marked(params, locals, s) <==> Flagged(params[k])
    {
      ParamMark(params, locals, k, s);
    }
    forall s: nat | base <= s < |marks|
      ensures Marked(params, locals, s) <==> s < base + |locals| && Flagged(locals[s - base].field)
    {
      LocalMark(params, locals, s);
    }
  }

  lemma ParamMark(params: seq<FieldVal>, locals: seq<LocalVar>, k: nat, s: nat)
    requires WithinIndex(params, locals)
    requires k < |params| && Slot(params, k) <= s < Slot(params, k) + params[k].width
    ensures Marked(params, locals, s) <==> Flagged(params[k])
  {
    SlotsDisjoint(params, k, |params|);
    forall j: nat | j < |params| && ParamHits(params, j, s) ensures j == k {
      if j < k { SlotsDisjoint(params, j, k); }
      if k < j { SlotsDisjoint(params, k, j); }
    }
    if Flagged(params[k]) {
      assert ParamHits(params, k, s);
    }
    FirstSlot(params);
  }

  lemma LocalMark(params: seq<FieldVal>, locals: seq<LocalVar>, s: nat)
    requires WithinIndex(params, locals) && FirstLocal(params) <= s
    ensures var base := FirstLocal(params);
      Marked(params, locals, s) <==> s < base + |locals| && Flagged(locals[s - base].field)
  {
    var base := FirstLocal(params);
    forall j: nat | j < |params| && ParamHits(params, j, s) ensures false {
      SlotsDisjoint(params, j, |params|);
      FirstSlot(params);
    }
    if s < base + |locals| && Flagged(locals[s - base].field) {
      assert LocalHits(base, locals, s - base, s);
    }
  }

  /** Too many parameters: the reference behind 32768 longs is not marked, but the first long is. */
  lemma LongListWraps(longs: seq<FieldType>)
    requires |longs| == 0x8000 && forall k :: 0 <= k < |longs| ==> longs[k] == FieldType(0, Base(Long))
    ensures var types := longs + [FieldType(0, Object("A"))]; var params := Records(types);
      && ValidFields(types)
      && Slot(params, 0x8000) == WORD + 1 && Flagged(params[0x8000])
      && Marked(params, [], 1) && !Flagged(params[0]) && !Marked(params, [], WORD + 1)
  {
    var types := longs + [FieldType(0, Object("A"))];
    AllValid(types);
    hide Records, ValidFields;
    var params := Records(types);
    RecordsAt(types);
    WideSum(params[..0x8000]);
    assert ParamHits(params, 0x8000, 1);
    assert forall k: nat :: k < 0x8000 ==> params[k] == Record(FieldType(0, Base(Long))) && !Flagged(params[k]);
    if Marked(params, [], WORD + 1) {
      MarkedBelow(params, [], WORD + 1);
    }
  }

  lemma {:induction false} AllValid(types: seq<FieldType>)
    requires forall k :: 0 <= k < |types| ==> ValidField(types[k])
    ensures ValidFields(types)
  {
    if types != [] {
      AllValid(types[1..]);
    }
  }

  lemma {:induction false} RecordsAt(types: seq<FieldType>)
    ensures forall k :: 0 <= k < |types| ==> Records(types)[k] == Record(types[k])
  {
    if types != [] {
      RecordsAt(types[1..]);
    }
  }

  lemma {:induction false} WideSum(fields: seq<FieldVal>)
    requires forall k :: 0 <= k < |fields| ==> fields[k].width == 2
    ensures SumWidths(fields) == 2 * |fields|
  {
    if fields != [] {
      WideSum(fields[1..]);
    }
  }

  // ---------- what the layout means for parsed types ----------

  function TypeWidth(t: FieldType): nat {
    if t.dims == 0 && (t.leaf == Base(Long) || t.leaf == Base(Double)) then 2 else 1
  }

  function TypesWidth(ts: seq<FieldType>): nat {
    if ts == [] then 0 else TypeWidth(ts[0]) + TypesWidth(ts[1..])
  }

  /** The stored width of a parsed parameter list: two words for each long or double, one for everything
      else; references are one word wide. */
  lemma {:induction false} WidthOfRecords(ts: seq<FieldType>)
    ensures SumWidths(Records(ts)) == TypesWidth(ts)
    ensures Wide(Records(ts)) && OneWordReferences(Records(ts))
  {
    if ts != [] {
      WidthOfRecords(ts[1..]);
    }
  }

  predicate IsReference(t: FieldType) {
    t.dims > 0 || t.leaf.Object?
  }

  /** A reference, as its record says: an object type, or an array of anything. */
  predicate Reference(field: FieldVal) {
    OBJECT in field.fieldType || ARRAY in field.fieldType
  }

  ghost predicate OneWordReferences(params: seq<FieldVal>) {
    forall k :: 0 <= k < |params| && (Reference(params[k]) || Flagged(params[k])) ==> params[k].width == 1
  }

  /** The object flag marks a parameter as a reference correctly unless it is an array of a base type,
      which is a reference that the stack map leaves out. */
  lemma ObjectFlagMeaning(t: FieldType)
    ensures Reference(Record(t)) <==> IsReference(t)
    ensures (Flagged(Record(t)) <==> IsReference(t)) <==> !(t.dims > 0 && t.leaf.Base?)
  {
  }
}
