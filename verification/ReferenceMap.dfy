/** When the stack map tells exactly where references live, for instance and for static methods. */
module ReferenceMap {
  import opened DescriptorGrammar
  import opened DescriptorSpec
  import opened DescriptorParser
  import opened StackMap

  /** The slot where parameter k lives, as JvmRtSetUpParameters places it. */
  function Home(kind: Kind, params: seq<FieldVal>, k: nat): (home: nat)
    requires k <= |params|
    ensures home == FirstArgument(kind) + SumWidths(params[..k])
  {
    if kind.Instance? then Slot(params, k) else Slot(params, k) - 1
  }

  ghost predicate InParam(kind: Kind, params: seq<FieldVal>, k: nat, s: nat)
    requires k < |params|
  {
    Home(kind, params, k) <= s < Home(kind, params, k) + params[k].width
  }

  /** The receiver, if there is one, and the reference parameters live in these slots. */
  ghost predicate CallerHolds(kind: Kind, params: seq<FieldVal>, s: nat) {
    || (kind.Instance? && s == 0)
    || exists k: nat :: k < |params| && Reference(params[k]) && InParam(kind, params, k, s)
  }

  /** A reference variable of the table lives in this slot. */
  ghost predicate TableHolds(locals: seq<LocalVar>, s: nat) {
    exists k: nat :: k < |locals| && Reference(locals[k].field) && locals[k].index == s
  }

  ghost predicate Holds(kind: Kind, params: seq<FieldVal>, locals: seq<LocalVar>, s: nat) {
    CallerHolds(kind, params, s) || TableHolds(locals, s)
  }

  /** The marks are exactly where references live, as the bytecodes address them. */
  ghost predicate MapTrue(marks: seq<bool>, kind: Kind, params: seq<FieldVal>, locals: seq<LocalVar>) {
    forall s: nat :: s < |marks| && marks[s] <==> Holds(kind, params, locals, s)
  }

  /** A table entry is marked in this slot. */
  ghost predicate Lands(params: seq<FieldVal>, locals: seq<LocalVar>, s: nat) {
    LocalsHit(FirstLocal(params), locals, |locals|, s)
  }

  /** The mark for a receiver, or that of a parameter with the flag which the index reaches, is in this slot. */
  ghost predicate FrontMarked(params: seq<FieldVal>, s: nat) {
    s == 0 || exists k: nat :: k < |params| && Flagged(params[k]) && s == Slot(params, k) && s < WORD
  }

  ghost predicate ParamsMarked(kind: Kind, params: seq<FieldVal>, locals: seq<LocalVar>) {
    forall k: nat :: k < |params| && Reference(params[k]) ==>
      FrontMarked(params, Home(kind, params, k)) || Lands(params, locals, Home(kind, params, k))
  }

  ghost predicate VariablesMarked(params: seq<FieldVal>, locals: seq<LocalVar>) {
    forall k: nat :: k < |locals| && Reference(locals[k].field) ==>
      FrontMarked(params, locals[k].index) || Lands(params, locals, locals[k].index)
  }

  /** Entries are marked where references live. */
  ghost predicate LandingsHeld(kind: Kind, params: seq<FieldVal>, locals: seq<LocalVar>) {
    forall k: nat :: k < |locals| && Flagged(locals[k].field) ==>
      Holds(kind, params, locals, (FirstLocal(params) + k) % WORD)
  }

  /** The marks for a receiver and for parameters are where references live. */
  ghost predicate FrontHeld(kind: Kind, params: seq<FieldVal>, locals: seq<LocalVar>) {
    && Holds(kind, params, locals, 0)
    && forall k: nat :: k < |params| && Flagged(params[k]) && Slot(params, k) < WORD ==>
         Holds(kind, params, locals, Slot(params, k))
  }

  /** For methods of both kinds and every parameter list and table: the map is true exactly when no reference
      parameter and no reference variable is left out, and neither an entry nor a parameter, nor the receiver's
      slot, is marked where no reference lives. */
  lemma MapTrueExactly(marks: seq<bool>, kind: Kind, params: seq<FieldVal>, locals: seq<LocalVar>)
    requires MarksOf(marks, params, locals) && OneWordReferences(params)
    ensures MapTrue(marks, kind, params, locals) <==>
            && ParamsMarked(kind, params, locals) && VariablesMarked(params, locals)
            && FrontHeld(kind, params, locals) && LandingsHeld(kind, params, locals)
  {
    hide *;
    if MapTrue(marks, kind, params, locals) {
      TrueReaches(marks, kind, params, locals);
      MarkedWithin(params, locals);
      TrueThen(marks, kind, params, locals);
    }
    if ParamsMarked(kind, params, locals) && VariablesMarked(params, locals) && FrontHeld(kind, params, locals)
      && LandingsHeld(kind, params, locals)
    {
      MarkedReaches(kind, params, locals);
      MarkedWithin(params, locals);
      ThenTrue(marks, kind, params, locals);
    }
  }

  /** The index reaches the slot of every parameter with the flag, or comes back to slot 0 just there. */
  ghost predicate Reaches(params: seq<FieldVal>) {
    forall k: nat :: k < |params| && Flagged(params[k]) ==> Slot(params, k) <= WORD
  }

  lemma TrueReaches(marks: seq<bool>, kind: Kind, params: seq<FieldVal>, locals: seq<LocalVar>)
    requires MarksOf(marks, params, locals) && OneWordReferences(params) && MapTrue(marks, kind, params, locals)
    ensures Reaches(params)
  {
    hide Slot, FirstLocal, Marked, Flagged, Reference, CallerHolds;
    ReferencesInside(kind, params);
    forall k: nat | k < |params| && Flagged(params[k]) ensures Slot(params, k) <= WORD {
      assert Holds(kind, params, locals, Home(kind, params, k));
      ReachedByMarks(params, locals, Home(kind, params, k));
    }
  }

  lemma MarkedReaches(kind: Kind, params: seq<FieldVal>, locals: seq<LocalVar>)
    requires OneWordReferences(params) && ParamsMarked(kind, params, locals)
    ensures Reaches(params)
  {
    hide Slot, FirstLocal, Flagged, Reference, CallerHolds, Lands;
    ReferencesInside(kind, params);
    LandingsInside(params, locals, FirstLocal(params) + |locals|);
  }

  lemma TrueThen(marks: seq<bool>, kind: Kind, params: seq<FieldVal>, locals: seq<LocalVar>)
    requires MarksOf(marks, params, locals) && OneWordReferences(params) && MapTrue(marks, kind, params, locals)
    requires forall s: nat :: Marked(params, locals, s) <==> FrontMarked(params, s) || Lands(params, locals, s)
    ensures ParamsMarked(kind, params, locals) && VariablesMarked(params, locals)
    ensures FrontHeld(kind, params, locals) && LandingsHeld(kind, params, locals)
  {
    hide Slot, FirstLocal, SumWidths, Flagged, Reference, CallerHolds, TableHolds, Lands, Marked, FrontMarked, Home;
    ReferencesInside(kind, params);
    LandingsInside(params, locals, |marks|);
    forall k: nat | k < |params| && Reference(params[k])
      ensures FrontMarked(params, Home(kind, params, k)) || Lands(params, locals, Home(kind, params, k))
    {
      assert Holds(kind, params, locals, Home(kind, params, k));
    }
    forall k: nat | k < |locals| && Reference(locals[k].field)
      ensures FrontMarked(params, locals[k].index) || Lands(params, locals, locals[k].index)
    {
      TableEntryHolds(locals, k);
      assert Holds(kind, params, locals, locals[k].index);
    }
    FrontMarks(params);
    hide Holds, MapTrue;
    forall s: nat | FrontMarked(params, s) || Lands(params, locals, s) ensures Holds(kind, params, locals, s) {
      MarkHolds(marks, kind, params, locals, s);
    }
  }

  lemma MarkHolds(marks: seq<bool>, kind: Kind, params: seq<FieldVal>, locals: seq<LocalVar>, s: nat)
    requires MarksOf(marks, params, locals) && MapTrue(marks, kind, params, locals) && Marked(params, locals, s)
    requires s < |marks|
    ensures Holds(kind, params, locals, s)
  {
    hide Marked, Holds, FirstLocal;
  }

  lemma FrontMarks(params: seq<FieldVal>)
    ensures FrontMarked(params, 0)
    ensures forall k: nat :: k < |params| && Flagged(params[k]) && Slot(params, k) < WORD ==> FrontMarked(params, Slot(params, k))
    ensures OneWordReferences(params) ==> forall s: nat :: FrontMarked(params, s) ==> s < FirstLocal(params)
  {
    if OneWordReferences(params) {
      FrontInFront(params);
    }
    hide Slot, FirstLocal, Flagged;
  }

  lemma ThenTrue(marks: seq<bool>, kind: Kind, params: seq<FieldVal>, locals: seq<LocalVar>)
    requires MarksOf(marks, params, locals) && OneWordReferences(params)
    requires forall s: nat :: Marked(params, locals, s) <==> FrontMarked(params, s) || Lands(params, locals, s)
    requires ParamsMarked(kind, params, locals) && VariablesMarked(params, locals)
    requires FrontHeld(kind, params, locals) && LandingsHeld(kind, params, locals)
    ensures MapTrue(marks, kind, params, locals)
  {
    hide Slot, FirstLocal, SumWidths, Flagged, Reference, CallerHolds, Lands, Marked, Home;
    ReferencesInside(kind, params);
    LandingsInside(params, locals, |marks|);
    forall s: nat ensures s < |marks| && marks[s] <==> Holds(kind, params, locals, s) {
      if Lands(params, locals, s) {
        var k: nat :| k < |locals| && Flagged(locals[k].field) && s == (FirstLocal(params) + k) % WORD;
      }
    }
  }

  lemma TableEntryHolds(locals: seq<LocalVar>, k: nat)
    requires k < |locals| && Reference(locals[k].field)
    ensures TableHolds(locals, locals[k].index)
  {
  }

  /** References fill one slot each, inside the frame. */
  lemma ReferencesInside(kind: Kind, params: seq<FieldVal>)
    requires OneWordReferences(params)
    ensures (kind.Instance? ==> CallerHolds(kind, params, 0)) && 1 <= FirstLocal(params)
    ensures forall k: nat :: k < |params| ==>
      1 <= Slot(params, k) <= FirstLocal(params) && Home(kind, params, k) <= Slot(params, k) <= Home(kind, params, k) + 1
    ensures forall k: nat :: k < |params| && Reference(params[k]) ==>
      Slot(params, k) < FirstLocal(params) && CallerHolds(kind, params, Home(kind, params, k))
    ensures forall k: nat :: k < |params| && Flagged(params[k]) ==>
      Reference(params[k]) && Slot(params, k) < FirstLocal(params)
    ensures forall s: nat :: CallerHolds(kind, params, s) ==>
      (kind.Instance? && s == 0) || exists k: nat :: k < |params| && Reference(params[k]) && s == Home(kind, params, k)
  {
    forall k: nat | k < |params|
      ensures 1 <= Slot(params, k) <= FirstLocal(params)
      ensures Reference(params[k]) ==> Slot(params, k) < FirstLocal(params) && CallerHolds(kind, params, Home(kind, params, k))
    {
      NextSlot(params, k);
      assert Reference(params[k]) ==> InParam(kind, params, k, Home(kind, params, k));
    }
    hide SumWidths, Slot, FirstLocal;
  }

  /** Entries are marked below the range of the index, and inside the frame. */
  lemma LandingsInside(params: seq<FieldVal>, locals: seq<LocalVar>, size: nat)
    requires FirstLocal(params) + |locals| <= size
    ensures forall s: nat :: Lands(params, locals, s) ==> s < WORD && s < size
    ensures forall k: nat :: k < |locals| && Flagged(locals[k].field) ==>
      Lands(params, locals, (FirstLocal(params) + k) % WORD)
    ensures forall s: nat :: Lands(params, locals, s) ==>
      exists k: nat :: k < |locals| && Flagged(locals[k].field) && s == (FirstLocal(params) + k) % WORD
  {
    forall k: nat | k < |locals| && Flagged(locals[k].field)
      ensures Lands(params, locals, (FirstLocal(params) + k) % WORD)
    {
      assert LocalHits(FirstLocal(params), locals, k, (FirstLocal(params) + k) % WORD);
    }
  }

  lemma ReachedByMarks(params: seq<FieldVal>, locals: seq<LocalVar>, s: nat)
    requires Marked(params, locals, s) && OneWordReferences(params)
    ensures s < WORD
  {
  }

  /** When the index reaches the parameters that have the flag, these are marked in their own slots. */
  lemma MarkedWithin(params: seq<FieldVal>, locals: seq<LocalVar>)
    requires OneWordReferences(params) && Reaches(params)
    ensures forall s: nat :: Marked(params, locals, s) <==> FrontMarked(params, s) || Lands(params, locals, s)
  {
    hide Slot, LocalsHit, Flagged, Reference, FirstLocal;
    forall k: nat | k < |params| && Flagged(params[k])
      ensures ParamHits(params, k, if Slot(params, k) < WORD then Slot(params, k) else 0)
    {
    }
  }

  // ---------- the marks behind the parameters ----------

  /** The first slot behind the parameters of a method of this kind. */
  function FirstVariable(kind: Kind, params: seq<FieldVal>): (first: nat)
    ensures first == FirstArgument(kind) + SumWidths(params)
  {
    if kind.Instance? then FirstLocal(params) else FirstLocal(params) - 1
  }

  /** Behind the parameters the marks are exactly the slots of the table's reference variables. */
  ghost predicate TrueBehind(marks: seq<bool>, kind: Kind, params: seq<FieldVal>, locals: seq<LocalVar>) {
    forall s: nat :: FirstVariable(kind, params) <= s ==> (s < |marks| && marks[s] <==> TableHolds(locals, s))
  }

  /** The slots behind the parameters in which reference variables live. */
  function ReferenceSlots(base: nat, locals: seq<LocalVar>): set<nat> {
    set k | 0 <= k < |locals| && Reference(locals[k].field) && locals[k].index >= base :: locals[k].index
  }

  /** The slots behind the parameters where entries are marked. */
  function LandingSlots(base: nat, locals: seq<LocalVar>): set<nat> {
    set k | 0 <= k < |locals| && Flagged(locals[k].field) && (base + k) % WORD >= base :: (base + k) % WORD
  }

  /** Where they are marked while the index does not wrap. */
  function FlaggedPositions(base: nat, locals: seq<LocalVar>): set<nat> {
    set k | 0 <= k < |locals| && Flagged(locals[k].field) :: base + k
  }

  ghost predicate TableWithinIndex(params: seq<FieldVal>, locals: seq<LocalVar>) {
    forall k: nat :: k < |locals| && Flagged(locals[k].field) ==> FirstLocal(params) + k < WORD
  }

  /** For every table: the marks behind the parameters are right exactly when the positions of the flagged
      entries are the indices of the reference variables that live there; in a static method, which has one
      slot more behind its parameters, that one must be right as well. */
  lemma LocalsMarkedRight(marks: seq<bool>, kind: Kind, params: seq<FieldVal>, locals: seq<LocalVar>)
    requires MarksOf(marks, params, locals)
    ensures TrueBehind(marks, kind, params, locals) <==>
            && LandingSlots(FirstLocal(params), locals) == ReferenceSlots(FirstLocal(params), locals)
            && (kind.Static? ==>
                  (Marked(params, locals, FirstLocal(params) - 1) <==> TableHolds(locals, FirstLocal(params) - 1)))
    ensures TableWithinIndex(params, locals) ==>
      LandingSlots(FirstLocal(params), locals) == FlaggedPositions(FirstLocal(params), locals)
  {
    var base := FirstLocal(params);
    MarksBehind(marks, params, locals);
    if TableWithinIndex(params, locals) {
      Unwrapped(params, locals);
    }
    hide LandingSlots, ReferenceSlots, TableHolds, Marked, FirstLocal, Flagged, Reference;
    HoldsBehind(base, locals);
    SameBehind(base, LandingSlots(base, locals), ReferenceSlots(base, locals));
  }

  /** No parameter is marked behind the parameters. */
  lemma MarksBehind(marks: seq<bool>, params: seq<FieldVal>, locals: seq<LocalVar>)
    requires MarksOf(marks, params, locals)
    ensures forall s: nat :: FirstLocal(params) <= s ==>
      (s < |marks| && marks[s] <==> s in LandingSlots(FirstLocal(params), locals))
  {
    var base := FirstLocal(params);
    forall s: nat | base <= s ensures s < |marks| && marks[s] <==> s in LandingSlots(base, locals) {
      forall j: nat | j < |params| && ParamHits(params, j, s) ensures false {
        NextSlot(params, j);
      }
      LandsIn(base, locals, s);
    }
  }

  lemma Unwrapped(params: seq<FieldVal>, locals: seq<LocalVar>)
    requires TableWithinIndex(params, locals)
    ensures LandingSlots(FirstLocal(params), locals) == FlaggedPositions(FirstLocal(params), locals)
  {
    hide FirstLocal, Flagged;
  }

  lemma HoldsBehind(base: nat, locals: seq<LocalVar>)
    ensures forall s: nat :: base <= s ==> (TableHolds(locals, s) <==> s in ReferenceSlots(base, locals))
    ensures forall s :: s in ReferenceSlots(base, locals) || s in LandingSlots(base, locals) ==> base <= s
  {
    hide Flagged, Reference;
  }

  lemma SameBehind(base: nat, a: set<nat>, b: set<nat>)
    requires forall s :: s in a || s in b ==> base <= s
    ensures a == b <==> forall s: nat :: base <= s ==> (s in a <==> s in b)
  {
  }

  lemma LandsIn(base: nat, locals: seq<LocalVar>, s: nat)
    requires base <= s
    ensures LocalsHit(base, locals, |locals|, s) <==> s in LandingSlots(base, locals)
    ensures s in LandingSlots(base, locals) ==> s < base + |locals|
  {
    if LocalsHit(base, locals, |locals|, s) {
      var k: nat :| k < |locals| && LocalHits(base, locals, k, s);
      assert (base + k) % WORD == s;
    }
    if s in LandingSlots(base, locals) {
      var k :| 0 <= k < |locals| && Flagged(locals[k].field) && (base + k) % WORD >= base && (base + k) % WORD == s;
      assert LocalHits(base, locals, k, s);
    }
  }

  /** While the index does not wrap in the table: the map is true exactly when every reference parameter is
      marked, no mark in front is wrong, the references listed below the first local slot are among these marks,
      and the others have their positions as indices. */
  lemma MapTrueWithin(marks: seq<bool>, kind: Kind, params: seq<FieldVal>, locals: seq<LocalVar>)
    requires MarksOf(marks, params, locals) && OneWordReferences(params) && TableWithinIndex(params, locals)
    ensures MapTrue(marks, kind, params, locals) <==>
            && (forall k: nat :: k < |params| && Reference(params[k]) ==> FrontMarked(params, Home(kind, params, k)))
            && FrontHeld(kind, params, locals)
            && LowVariablesMarked(params, locals)
            && FlaggedPositions(FirstLocal(params), locals) == ReferenceSlots(FirstLocal(params), locals)
  {
    hide *;
    MapTrueExactly(marks, kind, params, locals);
    ParamsWithin(kind, params, locals);
    VariablesListed(params, locals);
    LandingsListed(kind, params, locals);
  }

  ghost predicate LowVariablesMarked(params: seq<FieldVal>, locals: seq<LocalVar>) {
    forall k: nat :: k < |locals| && Reference(locals[k].field) && locals[k].index < FirstLocal(params)
      ==> FrontMarked(params, locals[k].index)
  }

  /** No entry is marked among the parameters. */
  lemma ParamsWithin(kind: Kind, params: seq<FieldVal>, locals: seq<LocalVar>)
    requires OneWordReferences(params) && TableWithinIndex(params, locals)
    ensures ParamsMarked(kind, params, locals) <==>
      forall k: nat :: k < |params| && Reference(params[k]) ==> FrontMarked(params, Home(kind, params, k))
  {
    hide Slot, FirstLocal, Flagged, Reference, CallerHolds, Lands, FlaggedPositions, TableWithinIndex, FrontMarked, Home;
    ReferencesInside(kind, params);
    LandingsBehind(params, locals);
  }

  lemma VariablesListed(params: seq<FieldVal>, locals: seq<LocalVar>)
    requires OneWordReferences(params) && TableWithinIndex(params, locals)
    ensures VariablesMarked(params, locals) <==>
            && LowVariablesMarked(params, locals)
            && ReferenceSlots(FirstLocal(params), locals) <= FlaggedPositions(FirstLocal(params), locals)
  {
    LandingsBehind(params, locals);
    FrontInFront(params);
    hide FirstLocal, Reference, FrontMarked, Lands, FlaggedPositions, TableWithinIndex;
  }

  lemma LandingsListed(kind: Kind, params: seq<FieldVal>, locals: seq<LocalVar>)
    requires TableWithinIndex(params, locals)
    ensures LandingsHeld(kind, params, locals)
            <==> FlaggedPositions(FirstLocal(params), locals) <= ReferenceSlots(FirstLocal(params), locals)
  {
    CallerInFront(kind, params);
    HoldsBehind(FirstLocal(params), locals);
    hide FirstLocal, Flagged, CallerHolds, TableHolds, ReferenceSlots;
  }

  lemma FrontInFront(params: seq<FieldVal>)
    requires OneWordReferences(params)
    ensures forall s: nat :: FrontMarked(params, s) ==> s < FirstLocal(params)
  {
    forall k: nat | k < |params| && Flagged(params[k]) ensures Slot(params, k) < FirstLocal(params) {
      NextSlot(params, k);
    }
  }

  lemma CallerInFront(kind: Kind, params: seq<FieldVal>)
    ensures forall s: nat :: CallerHolds(kind, params, s) ==> s < FirstLocal(params)
  {
    forall k: nat, s: nat | k < |params| && InParam(kind, params, k, s) ensures s < FirstLocal(params) {
      NextSlot(params, k);
    }
  }

  lemma LandingsBehind(params: seq<FieldVal>, locals: seq<LocalVar>)
    requires TableWithinIndex(params, locals)
    ensures forall s: nat :: Lands(params, locals, s) <==> s in FlaggedPositions(FirstLocal(params), locals)
    ensures forall s: nat :: Lands(params, locals, s) ==> FirstLocal(params) <= s
  {
    forall k: nat | k < |locals| && Flagged(locals[k].field) ensures Lands(params, locals, FirstLocal(params) + k) {
      assert LocalHits(FirstLocal(params), locals, k, FirstLocal(params) + k);
    }
  }

  /** Every reference variable of the table has the flag: none is an array of a base type. */
  ghost predicate NoBaseArrays(locals: seq<LocalVar>) {
    forall k :: 0 <= k < |locals| && Reference(locals[k].field) ==> Flagged(locals[k].field)
  }

  /** Each flagged entry takes a position of its own, so one that lives among the parameters, or in a static
      method directly behind them, leaves a mark for which there is no variable. */
  lemma ParameterEntryMarkedWrong(marks: seq<bool>, kind: Kind, params: seq<FieldVal>, locals: seq<LocalVar>, j: nat)
    requires MarksOf(marks, params, locals) && TableWithinIndex(params, locals) && NoBaseArrays(locals)
    requires j < |locals| && Flagged(locals[j].field) && locals[j].index < FirstLocal(params)
    ensures !TrueBehind(marks, kind, params, locals) && !MapTrue(marks, kind, params, locals)
  {
    hide *;
    LocalsMarkedRight(marks, kind, params, locals);
    LocalsMarkedRight(marks, Instance, params, locals);
    MorePositions(FirstLocal(params), locals, j);
    assert !TrueBehind(marks, Instance, params, locals);
    if MapTrue(marks, kind, params, locals) {
      TrueIsTrueBehind(marks, kind, params, locals);
    }
  }

  lemma TrueIsTrueBehind(marks: seq<bool>, kind: Kind, params: seq<FieldVal>, locals: seq<LocalVar>)
    requires MapTrue(marks, kind, params, locals)
    ensures TrueBehind(marks, Instance, params, locals)
  {
    CallerInFront(kind, params);
    hide FirstLocal, CallerHolds, TableHolds;
  }

  /** There are no more slots of reference variables behind the parameters than flagged positions, and fewer
      if a flagged entry lives elsewhere. */
  lemma {:induction false} MorePositions(base: nat, locals: seq<LocalVar>, j: nat)
    requires NoBaseArrays(locals)
    ensures |ReferenceSlots(base, locals)| <= |FlaggedPositions(base, locals)|
    ensures j < |locals| && Flagged(locals[j].field) && locals[j].index < base ==>
      |ReferenceSlots(base, locals)| < |FlaggedPositions(base, locals)|
    decreases |locals|
  {
    if locals != [] {
      var n := |locals| - 1;
      var rest, last := locals[..n], locals[n];
      hide *;
      FewerEntries(locals);
      MorePositions(base, rest, j);
      LastSlot(base, locals);
      LastPosition(base, locals);
      assert j < n ==> rest[j] == locals[j];
    }
  }

  lemma FewerEntries(locals: seq<LocalVar>)
    requires locals != [] && NoBaseArrays(locals)
    ensures var n := |locals| - 1; NoBaseArrays(locals[..n]) && (Reference(locals[n].field) <==> Flagged(locals[n].field))
  {
  }

  lemma LastSlot(base: nat, locals: seq<LocalVar>)
    requires locals != []
    ensures var n := |locals| - 1;
      |ReferenceSlots(base, locals)| <= |ReferenceSlots(base, locals[..n])|
        + if Reference(locals[n].field) && locals[n].index >= base then 1 else 0
  {
    hide Reference;
    var n := |locals| - 1;
    assert forall k :: 0 <= k < n ==> locals[..n][k] == locals[k];
    var before := ReferenceSlots(base, locals[..n]);
    if Reference(locals[n].field) && locals[n].index >= base {
      assert ReferenceSlots(base, locals) == before + {locals[n].index};
      assert locals[n].index in before ==> before + {locals[n].index} == before;
    } else {
      assert ReferenceSlots(base, locals) == before;
    }
  }

  lemma LastPosition(base: nat, locals: seq<LocalVar>)
    requires locals != []
    ensures var n := |locals| - 1;
      |FlaggedPositions(base, locals)| == |FlaggedPositions(base, locals[..n])| + if Flagged(locals[n].field) then 1 else 0
  {
    hide Flagged;
    var n := |locals| - 1;
    assert forall k :: 0 <= k < n ==> locals[..n][k] == locals[k];
    var before := FlaggedPositions(base, locals[..n]);
    if Flagged(locals[n].field) {
      assert FlaggedPositions(base, locals) == before + {base + n};
      assert base + n !in before;
    } else {
      assert FlaggedPositions(base, locals) == before;
    }
  }

  /** Entries in the order of their slots, each variable with its own. */
  ghost predicate InSlotOrder(locals: seq<LocalVar>) {
    forall j, k :: 0 <= j < k < |locals| ==> locals[j].index < locals[k].index
  }

  /** In a table in the order of the slots, every reference variable must live at its entry's own position; in a
      static method that leaves the first slot behind the parameters without a mark. */
  lemma OrderedTable(marks: seq<bool>, kind: Kind, params: seq<FieldVal>, locals: seq<LocalVar>)
    requires MarksOf(marks, params, locals) && TableWithinIndex(params, locals) && NoBaseArrays(locals)
    requires InSlotOrder(locals)
    ensures TrueBehind(marks, kind, params, locals) <==>
            && (forall k :: 0 <= k < |locals| && Flagged(locals[k].field) ==> locals[k].index == FirstLocal(params) + k)
            && (kind.Static? ==> !Marked(params, locals, FirstLocal(params) - 1))
  {
    assert FirstLocal(params) >= 1;
    hide *;
    LocalsMarkedRight(marks, kind, params, locals);
    OrderedPositions(FirstLocal(params), locals);
    EntriesBehind(FirstLocal(params), locals);
  }

  /** Entries that live at their positions live behind the parameters. */
  lemma EntriesBehind(base: nat, locals: seq<LocalVar>)
    requires NoBaseArrays(locals) && base >= 1
    ensures (forall k :: 0 <= k < |locals| && Flagged(locals[k].field) ==> locals[k].index == base + k)
            ==> !TableHolds(locals, base - 1)
  {
    hide Flagged, Reference;
  }

  /** Two rows in order that are equal as sets are equal. */
  lemma OrderedPositions(base: nat, locals: seq<LocalVar>)
    requires NoBaseArrays(locals) && InSlotOrder(locals)
    ensures FlaggedPositions(base, locals) == ReferenceSlots(base, locals) <==>
            forall k :: 0 <= k < |locals| && Flagged(locals[k].field) ==> locals[k].index == base + k
  {
    if FlaggedPositions(base, locals) == ReferenceSlots(base, locals) {
      for k := 0 to |locals|
        invariant forall m :: 0 <= m < k && Flagged(locals[m].field) ==> locals[m].index == base + m
      {
        if Flagged(locals[k].field) {
          InPlace(base, locals, k);
        }
      }
    }
  }

  lemma InPlace(base: nat, locals: seq<LocalVar>, k: nat)
    requires NoBaseArrays(locals) && InSlotOrder(locals) && k < |locals| && Flagged(locals[k].field)
    requires FlaggedPositions(base, locals) == ReferenceSlots(base, locals)
    requires forall m :: 0 <= m < k && Flagged(locals[m].field) ==> locals[m].index == base + m
    ensures locals[k].index == base + k
  {
    MorePositions(base, locals, k);
    FlagIsReference(locals[k].field);
    hide Flagged, Reference;
    assert locals[k].index in ReferenceSlots(base, locals);
    var m :| 0 <= m < |locals| && Flagged(locals[m].field) && base + m == locals[k].index;
    assert base + k in FlaggedPositions(base, locals);
    var n :| 0 <= n < |locals| && Reference(locals[n].field) && locals[n].index == base + k;
  }

  lemma FlagIsReference(field: FieldVal)
    ensures Flagged(field) ==> Reference(field)
  {
  }

  // ---------- instance methods ----------

  /** Marks for parameters of an instance method are always right. */
  lemma InstanceFront(params: seq<FieldVal>, locals: seq<LocalVar>)
    requires OneWordReferences(params)
    ensures FrontHeld(Instance, params, locals)
    ensures forall k: nat :: k < |params| && Reference(params[k]) ==>
      (FrontMarked(params, Slot(params, k)) <==> Flagged(params[k]) && Slot(params, k) < WORD)
  {
    hide Slot, FirstLocal, Flagged, Reference;
    ReferencesInside(Instance, params);
    forall k: nat | k < |params| && Reference(params[k])
      ensures FrontMarked(params, Slot(params, k)) <==> Flagged(params[k]) && Slot(params, k) < WORD
    {
      OwnMark(params, k);
    }
  }

  lemma OwnMark(params: seq<FieldVal>, k: nat)
    requires OneWordReferences(params) && k < |params| && Reference(params[k])
    ensures FrontMarked(params, Slot(params, k)) <==> Flagged(params[k]) && Slot(params, k) < WORD
  {
    NextSlot(params, k);
    hide SumWidths, Slot, FirstLocal, Flagged, Reference;
    if j: nat :| j < |params| && Flagged(params[j]) && Slot(params, k) == Slot(params, j) {
      if j < k { SlotsDisjoint(params, j, k); }
      if k < j { SlotsDisjoint(params, k, j); }
    }
  }

  /** For an instance method the map is true exactly when every reference parameter has the flag and is reached
      by the index, the references listed below the first local slot are the receiver and reference parameters,
      and the others have their positions as indices. */
  lemma InstanceMapTrue(marks: seq<bool>, params: seq<FieldVal>, locals: seq<LocalVar>)
    requires MarksOf(marks, params, locals) && OneWordReferences(params) && TableWithinIndex(params, locals)
    ensures MapTrue(marks, Instance, params, locals) <==>
            && (forall k: nat :: k < |params| && Reference(params[k]) ==> Flagged(params[k]) && Slot(params, k) < WORD)
            && (forall k: nat :: k < |locals| && Reference(locals[k].field) && locals[k].index < FirstLocal(params)
                  ==> CallerHolds(Instance, params, locals[k].index))
            && FlaggedPositions(FirstLocal(params), locals) == ReferenceSlots(FirstLocal(params), locals)
  {
    hide Slot, FirstLocal, Flagged, Reference, CallerHolds, FrontMarked, FrontHeld, FlaggedPositions, ReferenceSlots;
    hide Marked, TableWithinIndex;
    MapTrueWithin(marks, Instance, params, locals);
    InstanceFront(params, locals);
    if forall k: nat :: k < |params| && Reference(params[k]) ==> Flagged(params[k]) && Slot(params, k) < WORD {
      FrontIsCaller(params);
    }
  }

  lemma FrontIsCaller(params: seq<FieldVal>)
    requires OneWordReferences(params)
    requires forall k: nat :: k < |params| && Reference(params[k]) ==> Flagged(params[k]) && Slot(params, k) < WORD
    ensures forall s: nat :: FrontMarked(params, s) <==> CallerHolds(Instance, params, s)
  {
    hide Slot, FirstLocal, Flagged, Reference;
    ReferencesInside(Instance, params);
  }

  // ---------- static methods ----------

  /** Slots rise by at least one from each parameter to the next. */
  lemma SlotsRise(params: seq<FieldVal>)
    requires Wide(params)
    ensures Slot(params, 0) == 1
    ensures forall j: nat, k: nat :: j < k < |params| ==> Slot(params, j) + params[j].width <= Slot(params, k)
    ensures forall k: nat :: k + 1 < |params| ==> Slot(params, k + 1) == Slot(params, k) + params[k].width
  {
    hide SumWidths, Slot;
    FirstSlot(params);
    forall j: nat, k: nat | j < k < |params| ensures Slot(params, j) + params[j].width <= Slot(params, k) {
      SlotsDisjoint(params, j, k);
    }
    forall k: nat | k + 1 < |params| ensures Slot(params, k + 1) == Slot(params, k) + params[k].width {
      NextSlot(params, k);
    }
  }

  /** In a static method a reference parameter is marked by the parameter before it, and the first by the mark
      for a receiver. */
  lemma MarkedByNeighbour(params: seq<FieldVal>, k: nat)
    requires OneWordReferences(params) && Wide(params) && k < |params| && Reference(params[k])
    ensures FrontMarked(params, Home(Static, params, k))
            <==> k == 0 || (Flagged(params[k - 1]) && Slot(params, k - 1) < WORD)
  {
    SlotsRise(params);
    hide Slot, Reference, Flagged;
    var s := Home(Static, params, k);
    if k > 0 {
      assert Slot(params, k) == Slot(params, k - 1) + params[k - 1].width;
      if j: nat :| j < |params| && Flagged(params[j]) && s == Slot(params, j) && s < WORD {
        assert j == k - 1;
      }
    }
  }

  lemma HeldByNeighbour(params: seq<FieldVal>, k: nat)
    requires OneWordReferences(params) && Wide(params) && k < |params| && Flagged(params[k])
    ensures CallerHolds(Static, params, Slot(params, k)) <==> k + 1 < |params| && Reference(params[k + 1])
  {
    SlotsRise(params);
    hide Slot, Reference, Flagged;
    if k + 1 < |params| && Reference(params[k + 1]) {
      assert InParam(Static, params, k + 1, Slot(params, k));
    }
    if j: nat :| j < |params| && Reference(params[j]) && InParam(Static, params, j, Slot(params, k)) {
      assert j == k + 1;
    }
  }

  lemma FirstIs(params: seq<FieldVal>, locals: seq<LocalVar>)
    requires OneWordReferences(params) && Wide(params)
    ensures Holds(Static, params, locals, 0) <==> (params != [] && Reference(params[0])) || TableHolds(locals, 0)
  {
    FirstHeld(params);
    hide CallerHolds, TableHolds, Reference;
  }

  lemma FirstHeld(params: seq<FieldVal>)
    requires OneWordReferences(params) && Wide(params)
    ensures CallerHolds(Static, params, 0) <==> params != [] && Reference(params[0])
  {
    SlotsRise(params);
    hide Slot, Reference, Flagged;
    if params != [] && Reference(params[0]) {
      assert InParam(Static, params, 0, 0);
    }
  }

  /** Every reference parameter but the first has a flagged one before it, whose mark it gets. */
  ghost predicate MarkedBefore(params: seq<FieldVal>) {
    forall k: nat :: 0 < k < |params| && Reference(params[k]) ==> Flagged(params[k - 1]) && Slot(params, k - 1) < WORD
  }

  /** The mark for a receiver and that of each flagged parameter find a reference: the first, or the next. */
  ghost predicate HeldNext(params: seq<FieldVal>, locals: seq<LocalVar>) {
    && ((params != [] && Reference(params[0])) || TableHolds(locals, 0))
    && forall k: nat :: k < |params| && Flagged(params[k]) && Slot(params, k) < WORD ==>
         ReferenceNext(params, k) || TableHolds(locals, Slot(params, k))
  }

  predicate ReferenceNext(params: seq<FieldVal>, k: nat) {
    k + 1 < |params| && Reference(params[k + 1])
  }

  /** For a static method the map is true exactly when parameters are marked and marks are held by neighbours,
      the references listed below the first local slot are among these marks, and the others have their
      positions as indices. */
  lemma StaticMapTrue(marks: seq<bool>, params: seq<FieldVal>, locals: seq<LocalVar>)
    requires MarksOf(marks, params, locals) && OneWordReferences(params) && Wide(params)
    requires TableWithinIndex(params, locals)
    ensures MapTrue(marks, Static, params, locals) <==>
            && MarkedBefore(params) && HeldNext(params, locals) && LowVariablesMarked(params, locals)
            && FlaggedPositions(FirstLocal(params), locals) == ReferenceSlots(FirstLocal(params), locals)
  {
    hide *;
    MapTrueWithin(marks, Static, params, locals);
    MarkedByNeighbours(params);
    HeldByNeighbours(params, locals);
  }

  lemma MarkedByNeighbours(params: seq<FieldVal>)
    requires OneWordReferences(params) && Wide(params)
    ensures MarkedBefore(params) <==>
            forall k: nat :: k < |params| && Reference(params[k]) ==> FrontMarked(params, Home(Static, params, k))
  {
    hide Slot, Flagged, Reference, FrontMarked, Home;
    forall k: nat | k < |params| && Reference(params[k])
      ensures FrontMarked(params, Home(Static, params, k))
              <==> k == 0 || (Flagged(params[k - 1]) && Slot(params, k - 1) < WORD)
    {
      MarkedByNeighbour(params, k);
    }
    if MarkedBefore(params) {
      forall k: nat | k < |params| && Reference(params[k]) ensures FrontMarked(params, Home(Static, params, k)) {
        if k > 0 {
          assert Flagged(params[k - 1]) && Slot(params, k - 1) < WORD;
        }
        MarkedByNeighbour(params, k);
      }
    }
    if forall k: nat :: k < |params| && Reference(params[k]) ==> FrontMarked(params, Home(Static, params, k)) {
      forall k: nat | 0 < k < |params| && Reference(params[k])
        ensures Flagged(params[k - 1]) && Slot(params, k - 1) < WORD
      {
        assert FrontMarked(params, Home(Static, params, k));
      }
    }
  }

  lemma HeldByNeighbours(params: seq<FieldVal>, locals: seq<LocalVar>)
    requires OneWordReferences(params) && Wide(params)
    ensures HeldNext(params, locals) <==> FrontHeld(Static, params, locals)
  {
    hide Slot, Flagged, Reference, CallerHolds, TableHolds;
    FirstHeld(params);
    forall k: nat | k < |params| && Flagged(params[k])
      ensures Holds(Static, params, locals, Slot(params, k))
              <==> ReferenceNext(params, k) || TableHolds(locals, Slot(params, k))
    {
      HeldByNeighbour(params, k);
    }
    hide Holds;
    if HeldNext(params, locals) {
      forall k: nat | k < |params| && Flagged(params[k]) && Slot(params, k) < WORD
        ensures Holds(Static, params, locals, Slot(params, k))
      {
        assert ReferenceNext(params, k) || TableHolds(locals, Slot(params, k));
      }
      assert FrontHeld(Static, params, locals) by { FirstIs(params, locals); }
    }
    if FrontHeld(Static, params, locals) {
      forall k: nat | k < |params| && Flagged(params[k]) && Slot(params, k) < WORD
        ensures ReferenceNext(params, k) || TableHolds(locals, Slot(params, k))
      {
        assert Holds(Static, params, locals, Slot(params, k));
      }
      FirstIs(params, locals);
    }
  }

  lemma {:induction false} NarrowSlot(params: seq<FieldVal>, k: nat)
    requires k < |params| && forall j :: 0 <= j < k ==> params[j].width == 1
    ensures Slot(params, k) == k + 1
  {
    FirstSlot(params);
    if k > 0 {
      NarrowSlot(params, k - 1);
      hide SumWidths, Slot;
      NextSlot(params, k - 1);
    }
  }

  /** Without arrays of base types the map of a static method is never true: the mark for a receiver asks for a
      reference in slot 0, the mark of that one for another in slot 1, and so on behind the last parameter. */
  lemma StaticNeverTrue(marks: seq<bool>, params: seq<FieldVal>, locals: seq<LocalVar>)
    requires MarksOf(marks, params, locals) && OneWordReferences(params) && Wide(params) && |params| < WORD
    requires TableWithinIndex(params, locals) && NoBaseArrays(locals)
    requires forall k :: 0 <= k < |params| && Reference(params[k]) ==> Flagged(params[k])
    ensures !MapTrue(marks, Static, params, locals)
  {
    if MapTrue(marks, Static, params, locals) {
      hide *;
      StaticMapTrue(marks, params, locals);
      NothingListedInFront(marks, params, locals);
      WithoutTable(params, locals);
      var n := LastInRow(params);
      EndsUnflagged(params, n);
    }
  }

  lemma WithoutTable(params: seq<FieldVal>, locals: seq<LocalVar>)
    requires OneWordReferences(params) && HeldNext(params, locals)
    requires forall s: nat :: s < FirstLocal(params) ==> !TableHolds(locals, s)
    ensures HeldNext(params, [])
  {
    hide Slot, FirstLocal, Flagged, Reference, TableHolds;
    ReferencesInside(Static, params);
  }

  lemma EndsUnflagged(params: seq<FieldVal>, n: nat)
    requires EndsInBaseArray(params, n)
    ensures n < |params| && Reference(params[n]) && !Flagged(params[n])
  {
  }

  lemma NothingListedInFront(marks: seq<bool>, params: seq<FieldVal>, locals: seq<LocalVar>)
    requires MarksOf(marks, params, locals) && TableWithinIndex(params, locals) && NoBaseArrays(locals)
    requires MapTrue(marks, Static, params, locals)
    ensures forall s: nat :: s < FirstLocal(params) ==> !TableHolds(locals, s)
  {
    hide FirstLocal, Flagged, Reference, MapTrue;
    forall s: nat | s < FirstLocal(params) ensures !TableHolds(locals, s) {
      if j: nat :| j < |locals| && Reference(locals[j].field) && locals[j].index == s {
        ParameterEntryMarkedWrong(marks, Static, params, locals, j);
      }
    }
  }

  /** The parameters begin with references that have the flag, n of them, then comes one array of a base type,
      and no other reference behind it. */
  ghost predicate EndsInBaseArray(params: seq<FieldVal>, n: nat) {
    && n < |params|
    && forall k :: 0 <= k < |params| ==> (Reference(params[k]) <==> k <= n) && (Flagged(params[k]) <==> k < n)
  }

  /** Without a table, the map of a static method is true exactly for such parameters. */
  lemma StaticParamsTrue(marks: seq<bool>, params: seq<FieldVal>)
    requires MarksOf(marks, params, []) && OneWordReferences(params) && Wide(params) && |params| < WORD
    ensures MapTrue(marks, Static, params, []) <==> exists n: nat :: EndsInBaseArray(params, n)
  {
    EmptyTable(params);
    hide *;
    StaticMapTrue(marks, params, []);
    if MarkedBefore(params) && HeldNext(params, []) {
      var n := LastInRow(params);
    }
    if n: nat :| EndsInBaseArray(params, n) {
      RowHolds(params, n);
    }
  }

  lemma EmptyTable(params: seq<FieldVal>)
    ensures TableWithinIndex(params, []) && LowVariablesMarked(params, [])
    ensures FlaggedPositions(FirstLocal(params), []) == ReferenceSlots(FirstLocal(params), [])
  {
  }

  lemma RowHolds(params: seq<FieldVal>, n: nat)
    requires OneWordReferences(params) && |params| < WORD && EndsInBaseArray(params, n)
    ensures MarkedBefore(params) && HeldNext(params, [])
  {
    hide Slot, Flagged, Reference, TableHolds;
    forall k: nat | k < n ensures Slot(params, k) == k + 1 {
      NarrowSlot(params, k);
    }
  }

  /** The last of the references, when these form a row that a flagged one never ends. */
  lemma LastInRow(params: seq<FieldVal>) returns (n: nat)
    requires OneWordReferences(params) && |params| < WORD && MarkedBefore(params) && HeldNext(params, [])
    ensures EndsInBaseArray(params, n)
  {
    RowFacts(params);
    hide Slot, Flagged, Reference, TableHolds, MarkedBefore, HeldNext;
    n := RowEnd(params);
    LastUnflagged(params, n);
    hide OneWordReferences;
    NoneBehind(params, n);
    forall k | 0 <= k < n ensures Flagged(params[k]) {
      assert Reference(params[k + 1]);
    }
  }

  lemma RowEnd(params: seq<FieldVal>) returns (n: nat)
    requires params != [] && Reference(params[0])
    ensures n < |params| && forall k :: 0 <= k <= n ==> Reference(params[k])
    ensures n + 1 < |params| ==> !Reference(params[n + 1])
  {
    hide Reference;
    n := 0;
    while n + 1 < |params| && Reference(params[n + 1])
      invariant n < |params| && forall k :: 0 <= k <= n ==> Reference(params[k])
      decreases |params| - n
    {
      n := n + 1;
    }
  }

  lemma NoneBehind(params: seq<FieldVal>, n: nat)
    requires n < |params| && !Flagged(params[n])
    requires forall k: nat {:trigger Flagged(params[k])} :: k + 1 < |params| && Reference(params[k + 1]) ==> Flagged(params[k])
    requires forall k: nat :: k < |params| && Flagged(params[k]) ==> Reference(params[k])
    ensures forall k :: n < k < |params| ==> !Reference(params[k])
  {
    hide Flagged, Reference;
    for k := n + 1 to |params|
      invariant forall j :: n < j < k ==> !Reference(params[j])
    {
      assert !Flagged(params[k - 1]);
    }
  }

  lemma LastUnflagged(params: seq<FieldVal>, n: nat)
    requires OneWordReferences(params) && n < |params| < WORD
    requires forall k :: 0 <= k <= n ==> Reference(params[k])
    requires Flagged(params[n]) && Slot(params, n) < WORD ==> n + 1 < |params| && Reference(params[n + 1])
    ensures Flagged(params[n]) ==> n + 1 < |params| && Reference(params[n + 1])
  {
    hide Slot, Flagged, Reference;
    NarrowSlot(params, n);
  }

  lemma RowFacts(params: seq<FieldVal>)
    requires MarkedBefore(params) && HeldNext(params, [])
    ensures params != [] && Reference(params[0])
    ensures forall k: nat :: k < |params| && Flagged(params[k]) ==> Reference(params[k])
    ensures forall k: nat {:trigger Flagged(params[k])} :: k + 1 < |params| && Reference(params[k + 1]) ==> Flagged(params[k])
    ensures forall k: nat :: k < |params| && Flagged(params[k]) && Slot(params, k) < WORD ==>
      k + 1 < |params| && Reference(params[k + 1])
  {
    assert forall s :: !TableHolds([], s);
    forall k: nat | k < |params| ensures Flagged(params[k]) ==> Reference(params[k]) {
    }
    hide Slot, Flagged, Reference, TableHolds;
    forall k: nat | k + 1 < |params| && Reference(params[k + 1]) ensures Flagged(params[k]) {
      assert Flagged(params[k + 1 - 1]);
    }
    forall k: nat | k < |params| && Flagged(params[k]) && Slot(params, k) < WORD
      ensures k + 1 < |params| && Reference(params[k + 1])
    {
      assert !TableHolds([], Slot(params, k));
    }
  }

  // ---------- single methods ----------

  function ThisVar(name: string): LocalVar {
    LocalVar(0, Record(FieldType(0, Object(name))))
  }

  /** A table of one entry, this: slot 1 is marked although no variable lives there. */
  lemma ThisEntry(marks: seq<bool>, name: string)
    requires MarksOf(marks, [], [ThisVar(name)])
    ensures marks[1] && !TableHolds([ThisVar(name)], 1) && !MapTrue(marks, Instance, [], [ThisVar(name)])
  {
    assert LocalHits(1, [ThisVar(name)], 0, 1);
    assert Marked([], [ThisVar(name)], 1);
  }

  /** With an array of a base type behind it, the same entry leaves the right marks: the position that this takes
      is the array's slot, and the array takes none. */
  lemma ThisAndBaseArray(marks: seq<bool>, name: string)
    requires MarksOf(marks, [], [ThisVar(name), LocalVar(1, Record(FieldType(1, Base(Int))))])
    ensures MapTrue(marks, Instance, [], [ThisVar(name), LocalVar(1, Record(FieldType(1, Base(Int))))])
  {
    var ints := Record(FieldType(1, Base(Int)));
    var locals := [ThisVar(name), LocalVar(1, ints)];
    assert Reference(ints) && !Flagged(ints);
    assert Flagged(locals[0].field);
    InstanceMapTrue(marks, [], locals);
    assert FlaggedPositions(1, locals) == {1} by { assert locals[0] == ThisVar(name); }
    assert ReferenceSlots(1, locals) == {1} by { assert locals[1].index == 1; }
  }

  /** The static method (ILA;)V without a table: the reference lives in slot 1, the marks are in 0 and 2. */
  lemma StaticIntAndObject(marks: seq<bool>, name: string)
    requires MarksOf(marks, Records([FieldType(0, Base(Int)), FieldType(0, Object(name))]), [])
    ensures var params := Records([FieldType(0, Base(Int)), FieldType(0, Object(name))]);
      && |marks| >= 3 && marks[0] && !marks[1] && marks[2]
      && (forall s: nat :: CallerHolds(Static, params, s) <==> s == 1)
      && !MapTrue(marks, Static, params, [])
  {
    var number, reference := Record(FieldType(0, Base(Int))), Record(FieldType(0, Object(name)));
    var params := [number, reference];
    assert Records([FieldType(0, Base(Int)), FieldType(0, Object(name))]) == params;
    assert !Reference(number) && Flagged(reference) && number.width == reference.width == 1;
    NarrowSlot(params, 0);
    NarrowSlot(params, 1);
    SlotsDisjoint(params, 1, 2);
    FirstSlot(params);
    assert ParamHits(params, 1, 2);
    assert InParam(Static, params, 1, 1);
    assert Marked(params, [], 0) && Marked(params, [], 2) && !Marked(params, [], 1);
    assert CallerHolds(Static, params, 1);
  }
}
