/** The supertype relation, the child/sibling encoding that LoadClass builds from it, and the tree that
    InsertClassHierarchy reads back. */
module ClassHierarchy {
  import opened Wrappers

  datatype ClassDef = ClassDef(superclass: Option<string>, interfaces: seq<string>)

  /** The classes that can be loaded. */
  type ClassDb = map<string, ClassDef>

  /** What the hierarchy should show below a class: its superclass, then its interfaces in order. */
  function Parents(def: ClassDef): seq<string> {
    (if def.superclass.Some? then [def.superclass.value] else []) + def.interfaces
  }

  /** What LoadClass links below a class: without a superclass the interfaces hang on nothing. */
  function LinkedParents(def: ClassDef): seq<string> {
    if def.superclass.Some? then Parents(def) else []
  }

  /** The superclass comes first, then the interfaces as they are numbered; without a superclass nothing is
      linked. */
  lemma ParentsInOrder(def: ClassDef)
    ensures def.superclass.Some? ==>
      && |Parents(def)| == 1 + |def.interfaces| && Parents(def)[0] == def.superclass.value
      && forall k :: 0 <= k < |def.interfaces| ==> Parents(def)[1 + k] == def.interfaces[k]
    ensures def.superclass.None? ==>
      |Parents(def)| == |def.interfaces| && forall k :: 0 <= k < |def.interfaces| ==> Parents(def)[k] == def.interfaces[k]
    ensures def.superclass.Some? ==> LinkedParents(def) == Parents(def)
    ensures def.superclass.None? ==> LinkedParents(def) == []
  {
  }

  /** The text shown for a class. */
  type Caption = string -> string

  /** Nodes with a first child and a next sibling. */
  datatype Binary = Nil | Node(name: string, child: Binary, sibling: Binary)

  /** Nodes with all their children in order. */
  datatype Rose = Rose(text: string, kids: seq<Rose>)

  /** A sibling list before any of its members is loaded. */
  function Unloaded(names: seq<string>): Binary {
    if names == [] then Nil else Node(names[0], Nil, Unloaded(names[1..]))
  }

  /** LoadClass on a sibling list, allowed to go up this many times; None if that is not enough. A member
      that cannot be loaded ends the loading of the list. */
  function LoadWithin(db: ClassDb, names: seq<string>, depth: nat): Option<Binary>
    decreases depth, |names|
  {
    if names == [] then Some(Nil)
    else if names[0] !in db then Some(Unloaded(names))
    else if depth == 0 then None
    else
      var child := LoadWithin(db, LinkedParents(db[names[0]]), depth - 1);
      var sibling := LoadWithin(db, names[1..], depth);
      if child.None? || sibling.None? then None else Some(Node(names[0], child.value, sibling.value))
  }

  /** The members of a sibling list that are loaded: those before the first that cannot be. */
  function Loadable(db: ClassDb, names: seq<string>): (loadable: seq<string>)
    ensures forall i :: 0 <= i < |loadable| ==> loadable[i] in db
  {
    if names == [] || names[0] !in db then [] else [names[0]] + Loadable(db, names[1..])
  }

  /** Classes of which each is loaded because of the one before it, the first from this list. */
  predicate Path(db: ClassDb, names: seq<string>, p: seq<string>)
    decreases |p|
  {
    p != [] ==> p[0] in Loadable(db, names) && Path(db, LinkedParents(db[p[0]]), p[1..])
  }

  /** InsertClassHierarchy: children and siblings become one level of the tree. */
  function Forest(b: Binary, caption: Caption): seq<Rose> {
    match b
    case Nil => []
    case Node(name, child, sibling) => [Rose(caption(name), Forest(child, caption))] + Forest(sibling, caption)
  }

  /** What the hierarchy should show below a name: nothing for a class that is not there. */
  function ParentsOf(db: ClassDb, name: string): seq<string> {
    if name in db then Parents(db[name]) else []
  }

  /** The forest is the whole hierarchy over these names. */
  predicate IsHierarchy(db: ClassDb, names: seq<string>, caption: Caption, forest: seq<Rose>)
    decreases forest, 0
  {
    |forest| == |names| && forall i :: 0 <= i < |forest| ==> IsTree(db, names[i], caption, forest[i])
  }

  predicate IsTree(db: ClassDb, name: string, caption: Caption, tree: Rose)
    decreases tree, 1
  {
    tree.text == caption(name) && IsHierarchy(db, ParentsOf(db, name), caption, tree.kids)
  }

  /** A tree stands for a class exactly when it has the class's text, and below it one tree for the superclass and
      then one for each interface in order; below a class that is not there nothing. */
  lemma TreeIs(db: ClassDb, name: string, caption: Caption, tree: Rose)
    ensures name !in db ==> (IsTree(db, name, caption, tree) <==> tree == Rose(caption(name), []))
    ensures name in db && db[name].superclass.Some? ==> var def := db[name];
      (IsTree(db, name, caption, tree) <==>
        && tree.text == caption(name) && |tree.kids| == 1 + |def.interfaces|
        && IsTree(db, def.superclass.value, caption, tree.kids[0])
        && forall k :: 0 <= k < |def.interfaces| ==> IsTree(db, def.interfaces[k], caption, tree.kids[1 + k]))
    ensures name in db && db[name].superclass.None? ==> var def := db[name];
      (IsTree(db, name, caption, tree) <==>
        && tree.text == caption(name) && |tree.kids| == |def.interfaces|
        && forall k :: 0 <= k < |def.interfaces| ==> IsTree(db, def.interfaces[k], caption, tree.kids[k]))
  {
    hide IsTree, IsHierarchy, Parents;
    TreeUnfolded(db, name, caption, tree);
    HierarchyAt(db, ParentsOf(db, name), caption, tree.kids);
    if name in db {
      ParentsInOrder(db[name]);
      if |tree.kids| == |Parents(db[name])| {
        InOrderOf(db, db[name], Parents(db[name]), caption, tree.kids);
      }
    }
  }

  lemma TreeUnfolded(db: ClassDb, name: string, caption: Caption, tree: Rose)
    ensures IsTree(db, name, caption, tree)
            <==> tree.text == caption(name) && IsHierarchy(db, ParentsOf(db, name), caption, tree.kids)
  {
    hide IsHierarchy, Parents;
  }

  lemma HierarchyAt(db: ClassDb, names: seq<string>, caption: Caption, kids: seq<Rose>)
    ensures IsHierarchy(db, names, caption, kids)
            <==> |kids| == |names| && forall i :: 0 <= i < |kids| ==> IsTree(db, names[i], caption, kids[i])
  {
    hide IsTree;
  }

  lemma InOrderOf(db: ClassDb, def: ClassDef, names: seq<string>, caption: Caption, kids: seq<Rose>)
    requires |kids| == |names|
    requires var first := if def.superclass.Some? then 1 else 0;
      && |names| == first + |def.interfaces| && (first == 1 ==> names[0] == def.superclass.value)
      && forall k :: 0 <= k < |def.interfaces| ==> names[first + k] == def.interfaces[k]
    ensures var first := if def.superclass.Some? then 1 else 0;
      (forall i :: 0 <= i < |kids| ==> IsTree(db, names[i], caption, kids[i])) <==>
        && (first == 1 ==> IsTree(db, def.superclass.value, caption, kids[0]))
        && forall k :: 0 <= k < |def.interfaces| ==> IsTree(db, def.interfaces[k], caption, kids[first + k])
  {
    hide IsTree;
    var first := if def.superclass.Some? then 1 else 0;
    if && (first == 1 ==> IsTree(db, def.superclass.value, caption, kids[0]))
       && forall k :: 0 <= k < |def.interfaces| ==> IsTree(db, def.interfaces[k], caption, kids[first + k])
    {
      forall i | 0 <= i < |kids| ensures IsTree(db, names[i], caption, kids[i]) {
        if i >= first {
          assert IsTree(db, def.interfaces[i - first], caption, kids[first + (i - first)]);
        }
      }
    }
    if forall i :: 0 <= i < |kids| ==> IsTree(db, names[i], caption, kids[i]) {
      forall k | 0 <= k < |def.interfaces| ensures IsTree(db, def.interfaces[k], caption, kids[first + k]) {
        assert IsTree(db, names[first + k], caption, kids[first + k]);
      }
    }
  }

  /** The texts below a class, in order. */
  lemma KidTexts(db: ClassDb, name: string, caption: Caption, kids: seq<Rose>)
    requires name in db && IsHierarchy(db, ParentsOf(db, name), caption, kids)
    ensures db[name].superclass.Some? ==>
      && |kids| == 1 + |db[name].interfaces| && kids[0].text == caption(db[name].superclass.value)
      && forall k :: 0 <= k < |db[name].interfaces| ==> kids[1 + k].text == caption(db[name].interfaces[k])
    ensures db[name].superclass.None? ==>
      && |kids| == |db[name].interfaces|
      && forall k :: 0 <= k < |db[name].interfaces| ==> kids[k].text == caption(db[name].interfaces[k])
  {
    var names := Parents(db[name]);
    ParentsInOrder(db[name]);
    forall i | 0 <= i < |kids| ensures kids[i].text == caption(names[i]) {
      assert IsTree(db, names[i], caption, kids[i]);
    }
    hide IsHierarchy, Parents;
  }

  /** There is at most one such forest. */
  lemma {:induction false} OneHierarchy(db: ClassDb, names: seq<string>, caption: Caption, f: seq<Rose>, g: seq<Rose>)
    requires IsHierarchy(db, names, caption, f) && IsHierarchy(db, names, caption, g)
    ensures f == g
    decreases f
  {
    forall i | 0 <= i < |f| ensures f[i] == g[i] {
      assert IsTree(db, names[i], caption, f[i]) && IsTree(db, names[i], caption, g[i]);
      OneHierarchy(db, ParentsOf(db, names[i]), caption, f[i].kids, g[i].kids);
    }
  }

  lemma HierarchyCons(db: ClassDb, names: seq<string>, caption: Caption, tree: Rose, rest: seq<Rose>)
    requires names != []
    ensures IsHierarchy(db, names, caption, [tree] + rest)
            <==> IsTree(db, names[0], caption, tree) && IsHierarchy(db, names[1..], caption, rest)
  {
    hide IsTree;
    var forest := [tree] + rest;
    if IsHierarchy(db, names, caption, forest) {
      assert IsTree(db, names[0], caption, forest[0]);
      forall i | 0 <= i < |rest| ensures IsTree(db, names[1..][i], caption, rest[i]) {
        assert IsTree(db, names[i + 1], caption, forest[i + 1]);
      }
    }
  }

  /** Classes without parents, or not loadable: nothing would hang below them. */
  predicate AllBare(db: ClassDb, names: seq<string>) {
    forall i :: 0 <= i < |names| && names[i] in db ==> Parents(db[names[i]]) == []
  }

  /** No class with parents comes behind one that cannot be loaded, and interfaces come with a superclass. */
  predicate NothingCutOff(db: ClassDb, names: seq<string>, depth: nat)
    requires LoadWithin(db, names, depth).Some?
    decreases depth, |names|
  {
    if names == [] then true
    else if names[0] !in db then AllBare(db, names[1..])
    else
      && (db[names[0]].superclass.Some? || db[names[0]].interfaces == [])
      && NothingCutOff(db, LinkedParents(db[names[0]]), depth - 1)
      && NothingCutOff(db, names[1..], depth)
  }

  lemma {:induction false} UnloadedShown(db: ClassDb, names: seq<string>, caption: Caption)
    ensures IsHierarchy(db, names, caption, Forest(Unloaded(names), caption)) <==> AllBare(db, names)
    decreases |names|
  {
    if names != [] {
      UnloadedShown(db, names[1..], caption);
      HierarchyCons(db, names, caption, Rose(caption(names[0]), []), Forest(Unloaded(names[1..]), caption));
      assert names[0] in db ==> (Parents(db[names[0]]) == [] <==> |Parents(db[names[0]])| == 0);
      hide AllBare;
      BareCons(db, names);
    }
  }

  lemma BareCons(db: ClassDb, names: seq<string>)
    requires names != []
    ensures AllBare(db, names) <==>
            (names[0] in db ==> Parents(db[names[0]]) == []) && AllBare(db, names[1..])
  {
    if AllBare(db, names) {
      forall i | 0 <= i < |names[1..]| && names[1..][i] in db ensures Parents(db[names[1..][i]]) == [] {
        assert names[1..][i] == names[i + 1];
      }
    }
    if (names[0] in db ==> Parents(db[names[0]]) == []) && AllBare(db, names[1..]) {
      forall i | 0 <= i < |names| && names[i] in db ensures Parents(db[names[i]]) == [] {
        if i > 0 {
          assert names[i] == names[1..][i - 1];
        }
      }
    }
  }

  /** The displayed tree is the whole hierarchy, every class with exactly its superclass and interfaces
      below it, exactly when nothing is cut off. */
  lemma {:induction false} HierarchyShown(db: ClassDb, names: seq<string>, depth: nat, caption: Caption)
    requires LoadWithin(db, names, depth).Some?
    ensures IsHierarchy(db, names, caption, Forest(LoadWithin(db, names, depth).value, caption))
            <==> NothingCutOff(db, names, depth)
    decreases depth, |names|
  {
    if names != [] {
      hide AllBare, IsHierarchy;
      if names[0] !in db {
        UnloadedShown(db, names, caption);
        BareCons(db, names);
      } else {
        var def := db[names[0]];
        HierarchyShown(db, LinkedParents(def), depth - 1, caption);
        HierarchyShown(db, names[1..], depth, caption);
        var kids := Forest(LoadWithin(db, LinkedParents(def), depth - 1).value, caption);
        HierarchyCons(db, names, caption, Rose(caption(names[0]), kids),
                      Forest(LoadWithin(db, names[1..], depth).value, caption));
        if def.superclass.None? {
          NoKidsShown(db, def.interfaces, caption);
        }
      }
    } else {
      assert IsHierarchy(db, [], caption, []);
    }
  }

  /** A superclass that cannot be loaded cuts off what is above the interface that follows it. */
  lemma MissingSuperclass(name: string, missing: string, face: string, base: string, caption: Caption)
    requires missing != name && missing != face && name != face
    ensures var db := map[name := ClassDef(Some(missing), [face]), face := ClassDef(Some(base), [])];
      var shown := Node(name, Node(missing, Nil, Node(face, Nil, Nil)), Nil);
      LoadWithin(db, [name], 1) == Some(shown) && !IsHierarchy(db, [name], caption, Forest(shown, caption))
  {
    var db := map[name := ClassDef(Some(missing), [face]), face := ClassDef(Some(base), [])];
    var parents := [missing] + [face];
    assert LinkedParents(db[name]) == parents && parents[1..] == [face] && [face][1..] == [] && [name][1..] == [];
    assert LoadWithin(db, parents, 0) == Some(Unloaded(parents));
    assert Parents(db[face]) == [base] && face in parents[1..];
    assert !AllBare(db, parents[1..]) by { assert parents[1..][0] == face; }
    assert !NothingCutOff(db, parents, 0);
    assert Unloaded([face]) == Node(face, Nil, Unloaded([]));
    assert Unloaded(parents) == Node(missing, Nil, Unloaded([face]));
    assert LoadWithin(db, [], 1) == Some(Nil);
    HierarchyShown(db, [name], 1, caption);
  }

  lemma NoKidsShown(db: ClassDb, names: seq<string>, caption: Caption)
    ensures IsHierarchy(db, names, caption, []) <==> names == []
  {
  }

  /** Every class that is met can be loaded, and its interfaces come with a superclass. */
  ghost predicate Resolvable(db: ClassDb, names: seq<string>) {
    && (forall i :: 0 <= i < |names| ==> names[i] in db)
    && (forall p :: Path(db, names, p) && p != [] ==> Resolved(db, p[|p| - 1]))
  }

  predicate Resolved(db: ClassDb, name: string) {
    && name in db
    && (forall i :: 0 <= i < |Parents(db[name])| ==> Parents(db[name])[i] in db)
    && (db[name].superclass.Some? || db[name].interfaces == [])
  }

  /** In particular when this is so for all classes there are. */
  lemma AllResolved(db: ClassDb, names: seq<string>)
    requires forall i :: 0 <= i < |names| ==> names[i] in db
    requires forall name :: name in db ==>
      && (db[name].superclass.Some? ==> db[name].superclass.value in db)
      && (forall k :: 0 <= k < |db[name].interfaces| ==> db[name].interfaces[k] in db)
      && (db[name].superclass.Some? || db[name].interfaces == [])
    ensures Resolvable(db, names)
  {
    forall name | name in db ensures Resolved(db, name) {
      ParentsInOrder(db[name]);
    }
    forall p | Path(db, names, p) && p != [] ensures Resolved(db, p[|p| - 1]) {
      LastIn(db, names, p);
    }
  }

  lemma {:induction false} LastIn(db: ClassDb, names: seq<string>, p: seq<string>)
    requires Path(db, names, p) && p != []
    ensures p[|p| - 1] in db
    decreases |p|
  {
    if |p| > 1 {
      LastIn(db, LinkedParents(db[p[0]]), p[1..]);
    }
  }

  /** A class with a superclass and two interfaces is linked to all of them in order, and they to theirs. */
  lemma LoadSample()
    ensures var def, bottom := ClassDef(Some("O"), []), Node("O", Nil, Nil);
      var db := map["A" := ClassDef(Some("S"), ["I", "J"]), "S" := def, "I" := def, "J" := def, "O" := ClassDef(None, [])];
      LoadWithin(db, ["A"], 3)
        == Some(Node("A", Node("S", bottom, Node("I", bottom, Node("J", bottom, Nil))), Nil))
  {
    var def, bottom := ClassDef(Some("O"), []), Node("O", Nil, Nil);
    var db := map["A" := ClassDef(Some("S"), ["I", "J"]), "S" := def, "I" := def, "J" := def, "O" := ClassDef(None, [])];
    assert LinkedParents(db["A"]) == ["S"] + ["I", "J"] && LinkedParents(def) == ["O"] && LinkedParents(db["O"]) == [];
    hide LinkedParents;
    LoadCons(db, "O", [], 1);
    LoadCons(db, "J", [], 2);
    LoadCons(db, "I", ["J"], 2);
    LoadCons(db, "S", ["I"] + ["J"], 2);
    LoadCons(db, "A", [], 3);
    assert ["I"] + ["J"] == ["I", "J"] && ["O"] + [] == ["O"] && ["J"] + [] == ["J"] && ["A"] + [] == ["A"];
    hide *;
  }

  lemma LoadCons(db: ClassDb, name: string, rest: seq<string>, depth: nat)
    requires name in db && depth > 0
    ensures LoadWithin(db, [], depth) == Some(Nil) == LoadWithin(db, [], depth - 1)
    ensures var child, sibling := LoadWithin(db, LinkedParents(db[name]), depth - 1), LoadWithin(db, rest, depth);
      LoadWithin(db, [name] + rest, depth)
        == if child.None? || sibling.None? then None else Some(Node(name, child.value, sibling.value))
  {
    assert ([name] + rest)[1..] == rest;
    hide LinkedParents;
  }

  /** What is linked in this way is shown in this way. */
  lemma ForestSample(caption: Caption)
    ensures var bottom, top := Node("O", Nil, Nil), [Rose(caption("O"), [])];
      Forest(Node("A", Node("S", bottom, Node("I", bottom, Node("J", bottom, Nil))), Nil), caption)
        == [Rose(caption("A"), [Rose(caption("S"), top), Rose(caption("I"), top), Rose(caption("J"), top)])]
  {
    var bottom, top := Node("O", Nil, Nil), [Rose(caption("O"), [])];
    assert Forest(bottom, caption) == top;
    assert Forest(Node("J", bottom, Nil), caption) == [Rose(caption("J"), top)];
    assert Forest(Node("I", bottom, Node("J", bottom, Nil)), caption) == [Rose(caption("I"), top), Rose(caption("J"), top)];
    var all := [Rose(caption("S"), top), Rose(caption("I"), top), Rose(caption("J"), top)];
    assert Forest(Node("S", bottom, Node("I", bottom, Node("J", bottom, Nil))), caption) == all;
  }

  lemma ResolvableParts(db: ClassDb, names: seq<string>)
    requires names != [] && Resolvable(db, names)
    ensures Resolved(db, names[0])
    ensures Resolvable(db, LinkedParents(db[names[0]])) && Resolvable(db, names[1..])
  {
    hide Resolved;
    assert names[0] in Loadable(db, names);
    assert Path(db, names, [names[0]]);
    assert Resolved(db, names[0]);
    AllParents(db, names[0]);
    forall p | Path(db, LinkedParents(db[names[0]]), p) && p != [] ensures Resolved(db, p[|p| - 1]) {
      var q := [names[0]] + p;
      assert q[1..] == p && Path(db, names, q);
    }
    forall p | Path(db, names[1..], p) && p != [] ensures Resolved(db, p[|p| - 1]) {
      assert Path(db, names, p);
    }
  }

  lemma AllParents(db: ClassDb, name: string)
    requires Resolved(db, name)
    ensures forall i :: 0 <= i < |LinkedParents(db[name])| ==> LinkedParents(db[name])[i] in db
  {
  }

  lemma {:induction false} ResolvableNotCutOff(db: ClassDb, names: seq<string>, depth: nat)
    requires LoadWithin(db, names, depth).Some? && Resolvable(db, names)
    ensures NothingCutOff(db, names, depth)
    decreases depth, |names|
  {
    if names != [] {
      ResolvableParts(db, names);
      assert names[0] in db && (db[names[0]].superclass.Some? || db[names[0]].interfaces == []);
      hide Resolvable, Resolved, LinkedParents, Parents;
      ResolvableNotCutOff(db, LinkedParents(db[names[0]]), depth - 1);
      ResolvableNotCutOff(db, names[1..], depth);
    }
  }

  /** When every class that is met can be loaded, the whole hierarchy is shown. */
  lemma ResolvableHierarchyShown(db: ClassDb, names: seq<string>, depth: nat, caption: Caption)
    requires LoadWithin(db, names, depth).Some? && Resolvable(db, names)
    ensures IsHierarchy(db, names, caption, Forest(LoadWithin(db, names, depth).value, caption))
  {
    hide *;
    ResolvableNotCutOff(db, names, depth);
    HierarchyShown(db, names, depth, caption);
  }
}
