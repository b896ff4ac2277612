/** CClassInfo::LoadClass: the child and sibling links it builds in the heap are the encoding of the
    supertype relation, and each node is loaded at most once. */
module ClassLoader {
  import opened ClassRegistry
  import opened ClassHierarchy
  import opened Wrappers

  /** Where the class files are. */
  type Places = string -> Location

  ghost predicate Placed(n: ClassInfo, locate: Places)
    reads n`path
  {
    n.path == PathFor(n.name, locate(n.name))
  }

  /** A tree of nodes: which nodes the links form, with no node in two places. */
  datatype Shape = Leaf | Branch(node: ClassInfo, child: Shape, sibling: Shape)

  ghost function Nodes(s: Shape): set<ClassInfo> {
    match s
    case Leaf => {}
    case Branch(node, child, sibling) => {node} + Nodes(child) + Nodes(sibling)
  }

  ghost predicate Proper(s: Shape) {
    match s
    case Leaf => true
    case Branch(node, child, sibling) =>
      && node !in Nodes(child) && node !in Nodes(sibling) && Nodes(child) !! Nodes(sibling)
      && Proper(child) && Proper(sibling)
  }

  /** The names in the tree. */
  ghost function Encoded(s: Shape): Binary {
    match s
    case Leaf => Nil
    case Branch(node, child, sibling) => Node(node.name, Encoded(child), Encoded(sibling))
  }

  /** The links in the heap form this tree. */
  ghost predicate At(n: ClassInfo?, s: Shape)
    reads Nodes(s)`child, Nodes(s)`sibling
  {
    match s
    case Leaf => n == null
    case Branch(node, child, sibling) => n == node && At(node.child, child) && At(node.sibling, sibling)
  }

  ghost predicate NeverLoaded(s: Shape)
    reads Nodes(s)`loads
  {
    match s
    case Leaf => true
    case Branch(node, child, sibling) => node.loads == 0 && NeverLoaded(child) && NeverLoaded(sibling)
  }

  /** Each node was loaded once, but for those behind a sibling that could not be loaded. */
  ghost predicate LoadedOnce(s: Shape, db: ClassDb)
    reads Nodes(s)`loads
  {
    match s
    case Leaf => true
    case Branch(node, child, sibling) =>
      && node.loads == 1
      && (if node.name in db then LoadedOnce(child, db) && LoadedOnce(sibling, db)
          else NeverLoaded(child) && NeverLoaded(sibling))
  }

  /** A list of siblings, none with a child or loaded yet. */
  ghost predicate SiblingList(n: ClassInfo?, chain: seq<ClassInfo>)
    reads chain`child, chain`sibling, chain`loads
  {
    && n == (if chain == [] then null else chain[0])
    && (forall i :: 0 <= i < |chain| ==> chain[i].child == null && chain[i].loads == 0)
    && (forall i :: 0 <= i < |chain| - 1 ==> chain[i].sibling == chain[i + 1])
    && (chain != [] ==> chain[|chain| - 1].sibling == null)
    && (forall i, j :: 0 <= i < j < |chain| ==> chain[i] != chain[j])
  }

  ghost function ChainShape(chain: seq<ClassInfo>): Shape {
    if chain == [] then Leaf else Branch(chain[0], Leaf, ChainShape(chain[1..]))
  }

  ghost function Names(chain: seq<ClassInfo>): (names: seq<string>)
    ensures |names| == |chain| && forall i :: 0 <= i < |chain| ==> names[i] == chain[i].name
  {
    if chain == [] then [] else [chain[0].name] + Names(chain[1..])
  }

  lemma {:induction false} ChainShapeOf(n: ClassInfo?, chain: seq<ClassInfo>)
    requires SiblingList(n, chain)
    ensures At(n, ChainShape(chain)) && NeverLoaded(ChainShape(chain)) && Proper(ChainShape(chain))
    ensures Encoded(ChainShape(chain)) == Unloaded(Names(chain))
    ensures Nodes(ChainShape(chain)) == set m | m in chain
  {
    if chain != [] {
      TailList(chain[0], chain);
      ChainShapeOf(chain[0].sibling, chain[1..]);
      assert chain == [chain[0]] + chain[1..];
    }
  }

  lemma TailList(n: ClassInfo, chain: seq<ClassInfo>)
    requires SiblingList(n, chain)
    ensures chain != [] && n == chain[0] && n.child == null && n.loads == 0 && n !in chain[1..]
    ensures SiblingList(n.sibling, chain[1..])
    ensures Names(chain)[1..] == Names(chain[1..]) && Names(chain)[0] == chain[0].name
  {
  }

  function First(chain: seq<ClassInfo>): ClassInfo? {
    if chain == [] then null else chain[0]
  }

  function Last(chain: seq<ClassInfo>): ClassInfo? {
    if chain == [] then null else chain[|chain| - 1]
  }

  /** A node for an interface, linked behind the one before it if there is one. */
  method AddInterface(reg: Registry, first: ClassInfo?, name: string, locate: Places, ghost made: seq<ClassInfo>) returns (next: ClassInfo)
    requires reg.Valid() && first == Last(made) && SiblingList(First(made), made)
    requires forall i :: 0 <= i < |made| ==> made[i] in reg.nodes && made[i].deletes == 0
    modifies reg`list, reg`nodes, reg`clock, (if first == null then {} else {first})`sibling
    ensures reg.Valid() && fresh(next) && reg.nodes == old(reg.nodes) + {next}
    ensures next.name == name && next.deletes == 0 && next.holds == 0 && next.slots != {} && Placed(next, locate)
    ensures SiblingList(First(made + [next]), made + [next])
  {
    hide Registry.Valid, SiblingList;
    next := NewParent(reg, name, locate);
    LastIn(made);
    if first != null {
      reg.IncreaseRefCount(next);
      reg.SetSibling(first, next);
    }
    Extended(made, next);
  }

  /** A parent as it is created: listed, and its class file looked for. */
  method NewParent(reg: Registry, name: string, locate: Places) returns (n: ClassInfo)
    requires reg.Valid()
    modifies reg`list, reg`nodes, reg`clock
    ensures reg.Valid() && fresh(n) && reg.nodes == old(reg.nodes) + {n}
    ensures n.name == name && n.child == null && n.sibling == null && Placed(n, locate)
    ensures n.Live() && n.holds == 0 && n.slots != {} && n.fathers == {} && n.elders == {} && n.loads == 0
    ensures forall m :: m in old(reg.nodes) ==> m.stamp < n.stamp
  {
    hide Registry.Valid;
    n := reg.New(name, None);
    reg.AddToList(n);
    n.FindClassPath(locate(name));
  }

  lemma LastIn(chain: seq<ClassInfo>)
    requires SiblingList(First(chain), chain)
    ensures Last(chain) != null ==> Last(chain).sibling == null
    ensures forall i :: 0 <= i < |chain| - 1 ==> chain[i] != Last(chain)
  {
  }

  twostate lemma Extended(new made: seq<ClassInfo>, new next: ClassInfo)
    requires forall i :: 0 <= i < |made| ==> old(allocated(made[i]))
    requires old(SiblingList(First(made), made)) && next !in made
    requires next.child == null && next.sibling == null && next.loads == 0
    requires made != [] ==> made[|made| - 1].sibling == next
    requires forall i :: 0 <= i < |made| ==> made[i].child == old(made[i].child) && made[i].loads == old(made[i].loads)
    requires forall i :: 0 <= i < |made| - 1 ==> made[i].sibling == old(made[i].sibling)
    ensures SiblingList(First(made + [next]), made + [next])
  {
  }

  /** A node for the superclass, linked as the child. */
  method AddSuperclass(reg: Registry, n: ClassInfo, name: string, locate: Places) returns (child: ClassInfo)
    requires reg.Valid() && n in reg.nodes && n.Live() && n.child == null
    modifies reg`list, reg`nodes, reg`clock, n`child
    ensures reg.Valid() && fresh(child) && reg.nodes == old(reg.nodes) + {child}
    ensures child.name == name && child.child == null && child.sibling == null
    ensures child.Live() && child.holds == 0 && child.slots != {} && child.loads == 0
    ensures Placed(child, locate)
    ensures n.child == child
  {
    hide Registry.Valid;
    child := NewParent(reg, name, locate);
    reg.IncreaseRefCount(child);
    reg.SetChild(n, child);
  }

  /** The nodes that came into being: all alive, listed, and held by nobody outside. */
  twostate predicate Brought(reg: Registry, locate: Places)
    reads reg, reg.nodes
  {
    && old(reg.nodes) <= reg.nodes
    && forall m :: m in reg.nodes && m !in old(reg.nodes) ==>
         fresh(m) && m.deletes == 0 && m.holds == 0 && m.slots != {} && Placed(m, locate)
  }

  /** The links of a class that was found: its superclass becomes the child, the interfaces follow as
      siblings. Without a superclass the interfaces are created, but nothing leads to the first of them. */
  method LinkParents(reg: Registry, n: ClassInfo, def: ClassDef, locate: Places) returns (ghost kids: seq<ClassInfo>)
    requires reg.Valid() && n in reg.nodes && n.Live() && n.child == null
    modifies reg`list, reg`nodes, reg`clock, n`child
    ensures reg.Valid() && Brought(reg, locate)
    ensures SiblingList(n.child, kids) && Names(kids) == LinkedParents(def)
    ensures def.superclass.Some? ==>
      && |kids| == 1 + |def.interfaces| && n.child == kids[0] && kids[0].name == def.superclass.value
      && (forall k :: 0 <= k < |def.interfaces| ==> kids[1 + k].name == def.interfaces[k])
      && (forall j, k :: 0 <= j && k == j + 1 && k < |kids| ==> kids[j].sibling == kids[k])
      && kids[|kids| - 1].sibling == null
    ensures def.superclass.None? ==> n.child == null && kids == []
    ensures forall i :: 0 <= i < |kids| ==> kids[i] in reg.nodes && kids[i] !in old(reg.nodes)
  {
    hide Registry.Valid, SiblingList, Placed, Names, Parents, LinkedParents;
    var first: ClassInfo? := null;
    if def.superclass.Some? {
      first := AddSuperclass(reg, n, def.superclass.value, locate);
    }
    ghost var made := if first == null then [] else [first];
    ghost var off := |made|;
    Start(made);
    for i := 0 to |def.interfaces|
      invariant reg.Valid() && Brought(reg, locate)
      invariant first == Last(made) && SiblingList(First(made), made)
      invariant if def.superclass.Some? then made != [] && n.child == made[0] else n.child == null
      invariant |made| == off + i
      invariant def.superclass.Some? ==> made[0].name == def.superclass.value
      invariant forall k :: 0 <= k < i ==> made[off + k].name == def.interfaces[k]
      invariant forall j :: 0 <= j < |made| ==> made[j] in reg.nodes && made[j] !in old(reg.nodes)
    {
      var next := AddInterface(reg, first, def.interfaces[i], locate, made);
      made := made + [next];
      first := next;
    }
    kids := if def.superclass.Some? then made else [];
    Start([]);
    if def.superclass.Some? {
      assert off == 1 && forall k :: 0 <= k < |def.interfaces| ==> kids[1 + k].name == def.interfaces[k];
    }
    NamesInOrder(def, kids);
    SiblingsInOrder(n.child, kids);
  }

  lemma NamesInOrder(def: ClassDef, kids: seq<ClassInfo>)
    requires def.superclass.None? ==> kids == []
    requires def.superclass.Some? ==>
      && |kids| == 1 + |def.interfaces| && kids[0].name == def.superclass.value
      && forall k :: 0 <= k < |def.interfaces| ==> kids[1 + k].name == def.interfaces[k]
    ensures Names(kids) == LinkedParents(def)
  {
    ParentsInOrder(def);
    var names, parents := Names(kids), LinkedParents(def);
    hide Names, Parents, LinkedParents;
    forall i | 0 <= i < |names| ensures names[i] == parents[i] {
      if i > 0 {
        assert kids[1 + (i - 1)].name == def.interfaces[i - 1];
      }
    }
  }

  lemma SiblingsInOrder(first: ClassInfo?, kids: seq<ClassInfo>)
    requires SiblingList(first, kids)
    ensures first == if kids == [] then null else kids[0]
    ensures forall j, k :: 0 <= j && k == j + 1 && k < |kids| ==> kids[j].sibling == kids[k]
    ensures kids != [] ==> kids[|kids| - 1].sibling == null
  {
  }

  lemma Start(made: seq<ClassInfo>)
    requires |made| <= 1
    requires made != [] ==> made[0].child == null && made[0].sibling == null && made[0].loads == 0
    ensures SiblingList(First(made), made)
  {
  }

  /** LoadClass on the first of a list of siblings. It goes up no more than depth times, which is enough for
      some depth exactly when it meets no class above itself. */
  method LoadClass(reg: Registry, db: ClassDb, locate: Places, n: ClassInfo, ghost chain: seq<ClassInfo>, ghost depth: nat)
    returns (ok: bool, ghost shape: Shape)
    requires reg.Valid() && SiblingList(n, chain)
    requires forall i :: 0 <= i < |chain| ==> chain[i] in reg.nodes && chain[i].deletes == 0
    requires LoadWithin(db, Names(chain), depth).Some?
    modifies reg`list, reg`nodes, reg`clock, chain`child, chain`loads
    ensures reg.Valid() && Brought(reg, locate)
    ensures ok <==> n.name in db
    ensures At(n, shape) && Proper(shape) && LoadedOnce(shape, db)
    ensures LoadWithin(db, Names(chain), depth) == Some(Encoded(shape))
    ensures forall m :: m in Nodes(shape) ==> m in chain || (m in reg.nodes && m !in old(reg.nodes))
    decreases depth, |chain|, 0
  {
    hide Registry.Valid, At, LoadedOnce, NeverLoaded, Encoded, Proper, LoadWithin, Names, ChainShape, Nodes, SiblingList;
    TailList(n, chain);
    assert chain == [n] + chain[1..];
    n.loads := n.loads + 1;
    if n.name !in db {
      ok, shape := false, Branch(n, Leaf, ChainShape(chain[1..]));
      NotFound(db, n, chain, depth);
      return;
    }
    ok := true;
    shape := LoadFound(reg, db, locate, n, chain[1..], depth);
  }

  /** LoadClass when the class was found: it links and loads the parents, then turns to the sibling. */
  method LoadFound(reg: Registry, db: ClassDb, locate: Places, n: ClassInfo, ghost rest: seq<ClassInfo>, ghost depth: nat)
    returns (ghost shape: Shape)
    requires reg.Valid() && n !in rest && SiblingList(n.sibling, rest)
    requires n in reg.nodes && n.deletes == 0 && n.loads == 1 && n.child == null && n.name in db
    requires forall i :: 0 <= i < |rest| ==> rest[i] in reg.nodes && rest[i].deletes == 0
    requires LoadWithin(db, Names([n] + rest), depth).Some?
    modifies reg`list, reg`nodes, reg`clock, n`child, rest`child, rest`loads
    ensures reg.Valid() && Brought(reg, locate)
    ensures At(n, shape) && Proper(shape) && LoadedOnce(shape, db)
    ensures LoadWithin(db, Names([n] + rest), depth) == Some(Encoded(shape))
    ensures forall m :: m in Nodes(shape) ==> m in [n] + rest || (m in reg.nodes && m !in old(reg.nodes))
    decreases depth, |rest|, 2
  {
    hide Registry.Valid, At, LoadedOnce, NeverLoaded, Encoded, Proper, LoadWithin, Names, Nodes, SiblingList;
    PartsWithin(db, n, rest, depth);
    ghost var childShape := LoadParents(reg, db, locate, n, depth - 1);
    ghost var middle := reg.nodes;
    ChildApart(rest, childShape, old(reg.nodes));
    ghost var siblingShape := LoadList(reg, db, locate, n.sibling, rest, depth);
    shape := Branch(n, childShape, siblingShape);
    Assembled(db, n, rest, depth, childShape, siblingShape);
    Apart(n, rest, childShape, siblingShape, old(reg.nodes), middle, reg.nodes);
    Rooted(n, childShape, siblingShape, db);
  }

  /** What LoadClass needs of the links. */
  method LinkLoadable(reg: Registry, n: ClassInfo, def: ClassDef, locate: Places) returns (ghost kids: seq<ClassInfo>)
    requires reg.Valid() && n in reg.nodes && n.deletes == 0 && n.child == null
    modifies reg`list, reg`nodes, reg`clock, n`child
    ensures reg.Valid() && Brought(reg, locate)
    ensures SiblingList(n.child, kids) && Names(kids) == LinkedParents(def)
    ensures forall i :: 0 <= i < |kids| ==> kids[i] in reg.nodes && kids[i] !in old(reg.nodes)
  {
    hide Registry.Valid, SiblingList, Names, Placed;
    kids := LinkParents(reg, n, def, locate);
  }

  /** The successful part of LoadClass: linking the parents, then loading the first of them. */
  method LoadParents(reg: Registry, db: ClassDb, locate: Places, n: ClassInfo, ghost depth: nat) returns (ghost shape: Shape)
    requires reg.Valid() && n in reg.nodes && n.deletes == 0 && n.child == null
    requires n.name in db && LoadWithin(db, LinkedParents(db[n.name]), depth).Some?
    modifies reg`list, reg`nodes, reg`clock, n`child
    ensures reg.Valid() && Brought(reg, locate)
    ensures At(n.child, shape) && Proper(shape) && LoadedOnce(shape, db)
    ensures LoadWithin(db, LinkedParents(db[n.name]), depth) == Some(Encoded(shape))
    ensures forall m :: m in Nodes(shape) ==> m in reg.nodes && m !in old(reg.nodes)
    decreases depth
  {
    hide Registry.Valid, At, LoadedOnce, Encoded, Proper, LoadWithin, Names, SiblingList;
    ghost var kids := LinkLoadable(reg, n, db[n.name], locate);
    shape := LoadList(reg, db, locate, n.child, kids, depth);
  }

  /** The guarded calls of LoadClass on the child and on the sibling. */
  method LoadList(reg: Registry, db: ClassDb, locate: Places, n: ClassInfo?, ghost chain: seq<ClassInfo>, ghost depth: nat)
    returns (ghost shape: Shape)
    requires reg.Valid() && SiblingList(n, chain)
    requires forall i :: 0 <= i < |chain| ==> chain[i] in reg.nodes && chain[i].deletes == 0
    requires LoadWithin(db, Names(chain), depth).Some?
    modifies reg`list, reg`nodes, reg`clock, chain`child, chain`loads
    ensures reg.Valid() && Brought(reg, locate)
    ensures At(n, shape) && Proper(shape) && LoadedOnce(shape, db)
    ensures LoadWithin(db, Names(chain), depth) == Some(Encoded(shape))
    ensures forall m :: m in Nodes(shape) ==> m in chain || (m in reg.nodes && m !in old(reg.nodes))
    decreases depth, |chain|, 1
  {
    hide Registry.Valid;
    shape := Leaf;
    if n != null {
      var _, s := LoadClass(reg, db, locate, n, chain, depth);
      shape := s;
    }
  }

  lemma PartsWithin(db: ClassDb, n: ClassInfo, rest: seq<ClassInfo>, depth: nat)
    requires LoadWithin(db, Names([n] + rest), depth).Some? && n.name in db
    ensures depth > 0 && LoadWithin(db, LinkedParents(db[n.name]), depth - 1).Some?
    ensures LoadWithin(db, Names(rest), depth).Some?
  {
    assert ([n] + rest)[1..] == rest;
    assert Names([n] + rest)[1..] == Names(rest);
  }

  /** A class that cannot be found ends the list as it is. */
  lemma NotFound(db: ClassDb, n: ClassInfo, chain: seq<ClassInfo>, depth: nat)
    requires chain != [] && n == chain[0] && n.name !in db && n.loads == 1 && n.child == null
    requires n !in chain[1..] && SiblingList(n.sibling, chain[1..])
    ensures At(n, Branch(n, Leaf, ChainShape(chain[1..]))) && Proper(Branch(n, Leaf, ChainShape(chain[1..])))
    ensures LoadedOnce(Branch(n, Leaf, ChainShape(chain[1..])), db)
    ensures LoadWithin(db, Names(chain), depth) == Some(Encoded(Branch(n, Leaf, ChainShape(chain[1..]))))
    ensures forall m :: m in Nodes(Branch(n, Leaf, ChainShape(chain[1..]))) ==> m in chain
  {
    hide SiblingList, LoadWithin, ChainShape, Unloaded, Names;
    ChainShapeOf(n.sibling, chain[1..]);
    NotLoaded(db, n, chain, depth);
    assert chain == [n] + chain[1..];
  }

  lemma NotLoaded(db: ClassDb, n: ClassInfo, chain: seq<ClassInfo>, depth: nat)
    requires chain != [] && n == chain[0] && n.name !in db
    ensures LoadWithin(db, Names(chain), depth) == Some(Node(n.name, Nil, Unloaded(Names(chain[1..]))))
  {
    assert Names(chain)[1..] == Names(chain[1..]);
  }

  lemma Assembled(db: ClassDb, n: ClassInfo, rest: seq<ClassInfo>, depth: nat, child: Shape, sibling: Shape)
    requires n.name in db && depth > 0
    requires LoadWithin(db, LinkedParents(db[n.name]), depth - 1) == Some(Encoded(child))
    requires LoadWithin(db, Names(rest), depth) == Some(Encoded(sibling))
    ensures LoadWithin(db, Names([n] + rest), depth) == Some(Encoded(Branch(n, child, sibling)))
  {
    assert ([n] + rest)[1..] == rest;
    assert Names([n] + rest)[1..] == Names(rest);
  }

  lemma Rooted(n: ClassInfo, child: Shape, sibling: Shape, db: ClassDb)
    requires At(n.child, child) && At(n.sibling, sibling)
    requires Proper(child) && Proper(sibling) && Nodes(child) !! Nodes(sibling)
    requires n !in Nodes(child) && n !in Nodes(sibling)
    requires n.loads == 1 && n.name in db && LoadedOnce(child, db) && LoadedOnce(sibling, db)
    ensures At(n, Branch(n, child, sibling)) && Proper(Branch(n, child, sibling))
    ensures LoadedOnce(Branch(n, child, sibling), db)
  {
  }

  lemma ChildApart(rest: seq<ClassInfo>, child: Shape, before: set<ClassInfo>)
    requires forall i :: 0 <= i < |rest| ==> rest[i] in before
    requires forall m :: m in Nodes(child) ==> m !in before
    ensures forall m :: m in rest ==> m !in Nodes(child)
  {
  }

  lemma Apart(n: ClassInfo, rest: seq<ClassInfo>, child: Shape, sibling: Shape,
              before: set<ClassInfo>, middle: set<ClassInfo>, after: set<ClassInfo>)
    requires before <= middle <= after && n in before && n !in rest
    requires forall i :: 0 <= i < |rest| ==> rest[i] in before
    requires forall m :: m in Nodes(child) ==> m in middle && m !in before
    requires forall m :: m in Nodes(sibling) ==> m in rest || (m in after && m !in middle)
    ensures n !in Nodes(child) && n !in Nodes(sibling) && Nodes(child) !! Nodes(sibling)
    ensures forall m :: m in Nodes(Branch(n, child, sibling)) ==> m in [n] + rest || (m in after && m !in before)
  {
  }

  /** Every name in the tree can be loaded. */
  ghost predicate AllIn(b: Binary, db: ClassDb) {
    b.Node? ==> b.name in db && AllIn(b.child, db) && AllIn(b.sibling, db)
  }

  lemma {:induction false} LoadedAllIn(db: ClassDb, names: seq<string>, depth: nat)
    requires LoadWithin(db, names, depth).Some? && Resolvable(db, names)
    ensures AllIn(LoadWithin(db, names, depth).value, db)
    decreases depth, |names|
  {
    if names != [] {
      ResolvableParts(db, names);
      assert names[0] in db;
      hide Resolvable, Resolved, LinkedParents, Parents;
      LoadedAllIn(db, LinkedParents(db[names[0]]), depth - 1);
      LoadedAllIn(db, names[1..], depth);
    }
  }

  /** When every class can be loaded, each node is loaded exactly once. */
  lemma {:induction false} EachOnce(shape: Shape, db: ClassDb)
    requires LoadedOnce(shape, db) && AllIn(Encoded(shape), db)
    ensures forall m :: m in Nodes(shape) ==> m.loads == 1
  {
    if shape.Branch? {
      EachOnce(shape.child, db);
      EachOnce(shape.sibling, db);
    }
  }
}
