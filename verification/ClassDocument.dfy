/** Documents and their root nodes, from opening to exit (jdependsDoc.cpp, CClassInfo::Exit). */
module ClassDocument {
  import opened Wrappers
  import opened Sequences
  import opened ClassRegistry
  import opened ClassHierarchy
  import opened ClassCycles
  import opened ClassLoader

  /** LoadClassFromJar: a root held by the document alone, and everything above it loaded. */
  method Open(reg: Registry, db: ClassDb, locate: Places, name: string, path: Option<string>)
    returns (ok: bool, root: ClassInfo, ghost shape: Shape)
    requires reg.Valid() && !Cycle(db, [name])
    modifies reg`list, reg`nodes, reg`clock
    ensures reg.Valid() && old(reg.nodes) <= reg.nodes
    ensures fresh(root) && root in reg.nodes && root.name == name && root.path == path && root.holds == 1
    ensures root.Live() && root.fathers == {} && root.elders == {} && root.slots == {}
    ensures forall m :: m in reg.nodes && m !in old(reg.nodes) ==>
      fresh(m) && m.deletes == 0 && (m != root ==> m.holds == 0 && m.slots != {} && Placed(m, locate))
    ensures ok <==> name in db
    ensures At(root, shape) && Proper(shape) && LoadedOnce(shape, db)
    ensures LoadWithin(db, [name], |db|) == Some(Encoded(shape))
    ensures forall m :: m in Nodes(shape) ==> m in reg.nodes && m !in old(reg.nodes)
  {
    hide Registry.Valid, At, LoadedOnce, Encoded, Proper, LoadWithin, Cycle, Nodes, Placed;
    root := reg.New(name, path);
    assert Names([root]) == [name];
    LoadEnds(db, [name]);
    ok, shape := LoadClass(reg, db, locate, root, [root], |db|);
  }

  /** The open documents hold their roots, each alone; nobody else outside holds a node. */
  ghost predicate OnlyRootsHeld(reg: Registry, roots: seq<ClassInfo>)
    reads reg, reg.nodes
  {
    && reg.Valid() && reg.dropped == 0
    && (forall i, j :: 0 <= i < j < |roots| ==> roots[i] != roots[j])
    && (forall i :: 0 <= i < |roots| ==> roots[i] in reg.nodes && Root(roots[i]))
    && (forall n :: n in reg.nodes && n !in roots ==> n.holds == 0)
  }

  ghost predicate Root(n: ClassInfo)
    reads n`holds, n`fathers, n`elders, n`slots
  {
    n.holds == 1 && n.fathers == {} && n.elders == {} && n.slots == {}
  }

  lemma RootCount(reg: Registry, n: ClassInfo)
    requires reg.Valid() && n in reg.nodes && Root(n)
    ensures n.Live() && n.refCount == 1
  {
    hide Registry.Valid;
    reg.Alive(n);
  }

  twostate lemma RootsKept(reg: Registry, new roots: seq<ClassInfo>)
    requires old(reg.Valid()) && reg.Valid() && reg.nodes == old(reg.nodes)
    requires forall m {:trigger m.deletes} :: m in reg.nodes ==> old(m.deletes) <= m.deletes
    requires forall m {:trigger m.child} :: m in reg.nodes ==> m.child == old(m.child)
    requires forall m {:trigger m.sibling} :: m in reg.nodes ==> m.sibling == old(m.sibling)
    requires forall i :: 0 <= i < |roots| ==>
      roots[i] in reg.nodes && roots[i].holds == 1 && roots[i].slots == {}
      && old(roots[i].fathers) == {} && old(roots[i].elders) == {}
    ensures forall i :: 0 <= i < |roots| ==> Root(roots[i])
  {
    hide Registry.Valid;
    forall i | 0 <= i < |roots| ensures Root(roots[i]) {
      reg.LinksKept(roots[i]);
    }
  }

  /** A document is closed: it deletes its root. */
  method Close(reg: Registry, roots: seq<ClassInfo>, which: nat) returns (rest: seq<ClassInfo>)
    requires which < |roots| && OnlyRootsHeld(reg, roots)
    modifies reg.nodes`refCount, reg.nodes`fathers, reg.nodes`elders, reg.nodes`holds, reg.nodes`deletes
    ensures OnlyRootsHeld(reg, rest) && rest == Without(roots, which) && roots[which].deletes == 1
    ensures forall m :: m in reg.nodes ==> old(m.deletes) <= m.deletes
  {
    hide Registry.Valid;
    RootCount(reg, roots[which]);
    reg.DeleteRoot(roots[which]);
    rest := Without(roots, which);
    RestOf(roots, which);
    RootsKept(reg, rest);
  }

  lemma RestOf(roots: seq<ClassInfo>, which: nat)
    requires which < |roots| && forall i, j :: 0 <= i < j < |roots| ==> roots[i] != roots[j]
    ensures var rest := Without(roots, which);
      && (forall i, j :: 0 <= i < j < |rest| ==> rest[i] != rest[j])
      && (forall i :: 0 <= i < |rest| ==> rest[i] in roots && rest[i] != roots[which])
      && (forall n :: n in roots && n != roots[which] ==> n in rest)
  {
    var rest := Without(roots, which);
    forall n | n in roots && n != roots[which] ensures n in rest {
      var j :| 0 <= j < |roots| && roots[j] == n;
      assert rest[if j < which then j else j - 1] == n;
    }
  }

  /** The list is cleared, with documents open or not. */
  method Clear(reg: Registry, ghost roots: seq<ClassInfo>)
    requires OnlyRootsHeld(reg, roots)
    modifies reg`list, reg`dropped
    modifies reg.nodes`slots, reg.nodes`refCount, reg.nodes`fathers, reg.nodes`elders, reg.nodes`holds, reg.nodes`deletes
    ensures OnlyRootsHeld(reg, roots) && reg.list == []
    ensures forall m :: m in reg.nodes ==> old(m.deletes) <= m.deletes
  {
    hide Registry.Valid;
    reg.FreeList();
    RootsKept(reg, roots);
  }

  datatype Event = OpenDocument(name: string, path: Option<string>) | CloseDocument(which: nat) | ClearList

  /** The names of the documents that are open after these events; a close of no document does nothing. */
  function OpenAfter(events: seq<Event>): seq<string>
    decreases |events|
  {
    if events == [] then []
    else
      var before := OpenAfter(events[..|events| - 1]);
      match events[|events| - 1]
      case OpenDocument(name, _) => before + [name]
      case CloseDocument(which) => if which < |before| then Without(before, which) else before
      case ClearList => before
  }

  /** An opened document comes last, a closed one leaves its place to those behind it, and nothing else changes. */
  lemma OpenAfterIs(events: seq<Event>, event: Event)
    ensures var before, after := OpenAfter(events), OpenAfter(events + [event]);
      && (event.OpenDocument? ==> |after| == |before| + 1 && after[..|before|] == before && after[|before|] == event.name)
      && (event.CloseDocument? && event.which < |before| ==>
            && |after| == |before| - 1
            && forall k :: 0 <= k < |after| ==> after[k] == before[if k < event.which then k else k + 1])
      && (event.ClearList? || (event.CloseDocument? && event.which >= |before|) ==> after == before)
    ensures OpenAfter([]) == []
  {
    assert (events + [event])[..|events|] == events;
  }

  /** The list was cleared after the last class was opened. */
  predicate Cleared(events: seq<Event>)
    decreases |events|
  {
    && events != []
    && match events[|events| - 1]
       case OpenDocument(_, _) => false
       case CloseDocument(_) => Cleared(events[..|events| - 1])
       case ClearList => true
  }

  /** Loading returns for every class that is opened. */
  ghost predicate Openable(db: ClassDb, events: seq<Event>) {
    forall i :: 0 <= i < |events| && events[i].OpenDocument? ==> !Cycle(db, [events[i].name])
  }

  /** Any run of the program: documents are opened and closed in any order, and the list is cleared at any
      time. Nothing is deleted twice, and once no document is open and the list was cleared, every node that
      was ever created has been deleted exactly once. */
  method Session(db: ClassDb, locate: Places, events: seq<Event>) returns (reg: Registry, roots: seq<ClassInfo>)
    requires Openable(db, events)
    ensures fresh(reg) && OnlyRootsHeld(reg, roots) && Names(roots) == OpenAfter(events)
    ensures Cleared(events) ==> reg.list == []
    ensures forall n :: n in reg.nodes ==> fresh(n) && n.deletes <= 1
    ensures OpenAfter(events) == [] && Cleared(events) ==> forall n :: n in reg.nodes ==> n.deletes == 1
  {
    hide Registry.Valid, Cycle, OpenAfter, OnlyRootsHeld, Cleared;
    reg := new Registry();
    roots := [];
    NothingHeld(reg);
    EventsSoFar(events, 0);
    for i := 0 to |events|
      invariant OnlyRootsHeld(reg, roots) && Names(roots) == OpenAfter(events[..i])
      invariant Cleared(events[..i]) ==> reg.list == []
      invariant forall n :: n in reg.nodes ==> fresh(n)
      invariant fresh(reg)
    {
      EventsSoFar(events, i);
      roots := Happens(reg, db, locate, roots, events[i]);
    }
    assert events[..|events|] == events;
    AllDeleted(reg, roots);
  }

  function CloseEach(count: nat): seq<Event> {
    if count == 0 then [] else CloseEach(count - 1) + [CloseDocument(0)]
  }

  lemma {:induction false} AfterCloses(events: seq<Event>, count: nat)
    requires count <= |OpenAfter(events)|
    ensures |OpenAfter(events + CloseEach(count))| == |OpenAfter(events)| - count
    ensures Cleared(events + CloseEach(count)) <==> Cleared(events)
  {
    if count > 0 {
      AfterCloses(events, count - 1);
      var before, after := events + CloseEach(count - 1), events + CloseEach(count);
      assert after[..|after| - 1] == before;
    } else {
      assert events + [] == events;
    }
  }

  /** At exit the documents may be closed first and the list cleared then, or the other way round: after any
      events no document is open then, and the list is cleared. */
  lemma ExitInEitherOrder(events: seq<Event>)
    ensures var closes := CloseEach(|OpenAfter(events)|);
      && OpenAfter(events + closes + [ClearList]) == [] && Cleared(events + closes + [ClearList])
      && OpenAfter(events + [ClearList] + closes) == [] && Cleared(events + [ClearList] + closes)
  {
    var count := |OpenAfter(events)|;
    var closed, cleared := events + CloseEach(count), events + [ClearList];
    assert (closed + [ClearList])[..|closed|] == closed;
    assert cleared[..|events|] == events;
    AfterCloses(events, count);
    AfterCloses(cleared, count);
  }

  lemma NothingHeld(reg: Registry)
    requires reg.Valid() && reg.dropped == 0 && reg.nodes == {}
    ensures OnlyRootsHeld(reg, [])
  {
  }

  lemma EventsSoFar(events: seq<Event>, i: nat)
    requires i <= |events|
    ensures OpenAfter(events[..0]) == [] && !Cleared(events[..0])
    ensures i < |events| ==>
      var before := OpenAfter(events[..i]);
      OpenAfter(events[..i + 1]) ==
        match events[i]
        case OpenDocument(name, _) => before + [name]
        case CloseDocument(which) => if which < |before| then Without(before, which) else before
        case ClearList => before
    ensures i < |events| ==>
      (Cleared(events[..i + 1]) <==> events[i].ClearList? || (events[i].CloseDocument? && Cleared(events[..i])))
  {
    if i < |events| {
      assert events[..i + 1][..i] == events[..i];
    }
  }

  method OpenAnother(reg: Registry, db: ClassDb, locate: Places, ghost roots: seq<ClassInfo>, name: string,
                     path: Option<string>)
    returns (root: ClassInfo)
    requires OnlyRootsHeld(reg, roots) && !Cycle(db, [name])
    modifies reg`list, reg`nodes, reg`clock
    ensures OnlyRootsHeld(reg, roots + [root]) && old(reg.nodes) <= reg.nodes
    ensures forall n :: n in reg.nodes && n !in old(reg.nodes) ==> fresh(n)
    ensures Names(roots + [root]) == Names(roots) + [name]
  {
    hide Registry.Valid, Cycle, Names, At, Proper, LoadedOnce, Encoded, LoadWithin, Nodes, Placed;
    var _, r, shape := Open(reg, db, locate, name, path);
    root := r;
    NamesSnoc(roots, root);
    forall n | n in reg.nodes && n !in roots + [root] ensures n.holds == 0 {
      assert n !in roots && n != root;
    }
  }

  lemma NamesSnoc(roots: seq<ClassInfo>, root: ClassInfo)
    ensures Names(roots + [root]) == Names(roots) + [root.name]
  {
  }

  lemma NamesWithout(roots: seq<ClassInfo>, which: nat)
    requires which < |roots|
    ensures Names(Without(roots, which)) == Without(Names(roots), which)
  {
    hide Names;
    var rest, names := Without(roots, which), Without(Names(roots), which);
    hide Without;
    forall i | 0 <= i < |rest| ensures Names(rest)[i] == names[i] {
      WithoutAt(roots, which, i);
      WithoutAt(Names(roots), which, i);
    }
  }

  method Happens(reg: Registry, db: ClassDb, locate: Places, roots: seq<ClassInfo>, event: Event)
    returns (roots': seq<ClassInfo>)
    requires OnlyRootsHeld(reg, roots) && (event.OpenDocument? ==> !Cycle(db, [event.name]))
    modifies reg, reg.nodes
    ensures OnlyRootsHeld(reg, roots') && old(reg.nodes) <= reg.nodes
    ensures forall n :: n in reg.nodes && n !in old(reg.nodes) ==> fresh(n)
    ensures Names(roots') == match event
      case OpenDocument(name, _) => Names(roots) + [name]
      case CloseDocument(which) => if which < |roots| then Without(Names(roots), which) else Names(roots)
      case ClearList => Names(roots)
    ensures event.ClearList? ==> reg.list == []
    ensures event.CloseDocument? ==> reg.list == old(reg.list)
  {
    hide Registry.Valid, Cycle, OnlyRootsHeld;
    roots' := roots;
    match event
    case OpenDocument(name, path) =>
      var root := OpenAnother(reg, db, locate, roots, name, path);
      roots' := roots + [root];
    case CloseDocument(which) =>
      if which < |roots| {
        NamesWithout(roots, which);
        roots' := Close(reg, roots, which);
      }
    case ClearList =>
      Clear(reg, roots);
  }

  lemma AllDeleted(reg: Registry, roots: seq<ClassInfo>)
    requires OnlyRootsHeld(reg, roots)
    ensures forall n :: n in reg.nodes ==> n.deletes <= 1
    ensures roots == [] && reg.list == [] ==> forall n :: n in reg.nodes ==> n.deletes == 1
  {
    if roots == [] && reg.list == [] {
      hide Registry.ChildrenTo, Registry.SiblingsTo, Registry.FathersFrom, Registry.EldersFrom, Registry.ListFrom;
      reg.NoneListed();
      reg.AllGone();
    }
  }
}
