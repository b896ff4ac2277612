/** The nodes of the class hierarchy and their reference counts (ClassInfo.cpp): the static list, the
    child and sibling links, and the holders outside. */
module ClassRegistry {
  import opened Wrappers

  /** Where a class file was located. */
  datatype Location = NotFound | File(path: string) | Archive(jar: string)

  /** The class path FindClassPath leaves on a new node. */
  function PathFor(name: string, where: Location): Option<string> {
    match where
    case NotFound => None
    case File(path) => Some(path)
    case Archive(jar) => Some(name + " (" + jar + ")")
  }

  /** A node. The ghost fields say who refers to it and how often it was deleted. */
  class ClassInfo {
    const name: string
    ghost const stamp: nat            // creation order
    var path: Option<string>
    var child: ClassInfo?
    var sibling: ClassInfo?
    var refCount: int
    var item: nat                     // handle of the tree item to insert it under
    ghost var fathers: set<ClassInfo> // the nodes whose child link leads here
    ghost var elders: set<ClassInfo>  // the nodes whose sibling link leads here
    ghost var slots: set<nat>         // the entries of the list that hold it
    ghost var holds: int              // references from outside
    ghost var deletes: nat            // deletes begun
    ghost var loads: nat              // times LoadClass was called on it

    constructor (name: string, path: Option<string>, ghost stamp: nat)
      ensures this.name == name && this.path == path && this.stamp == stamp
      ensures child == null && sibling == null && refCount == 1
      ensures fathers == {} && elders == {} && slots == {} && holds == 1 && deletes == 0 && loads == 0
    {
      this.name, this.path, this.stamp := name, path, stamp;
      child, sibling, refCount, item := null, null, 1, 0;
      fathers, elders, slots, holds, deletes, loads := {}, {}, {}, 1, 0, 0;
    }

    ghost predicate Live()
      reads this`deletes
    {
      deletes == 0
    }

    ghost function Refs(): int
      reads this`fathers, this`elders, this`slots, this`holds
    {
      |fathers| + |elders| + |slots| + holds
    }

    /** FindClassPath, once the class file was looked for: an archive names itself, a path is set only once. */
    method FindClassPath(where: Location)
      modifies this`path
      ensures old(path).None? ==> path == PathFor(name, where)
      ensures old(path).Some? ==> path == if where.Archive? then PathFor(name, where) else old(path)
      ensures where.Archive? ==> path == Some(name + " (" + where.jar + ")")
      ensures where.File? ==> path == if old(path).Some? then old(path) else Some(where.path)
      ensures where.NotFound? ==> path == old(path)
    {
      match where
      case NotFound =>
      case File(p) =>
        if path.None? {
          path := Some(p);
        }
      case Archive(jar) => path := Some(name + " (" + jar + ")");
    }
  }

  function Nulls(count: nat): (list: seq<ClassInfo?>)
    ensures |list| == count && forall i :: 0 <= i < count ==> list[i] == null
  {
    if count == 0 then [] else [null] + Nulls(count - 1)
  }

  /** The static list of nodes with its operations. */
  class Registry {
    var list: seq<ClassInfo?>
    ghost var dropped: nat             // entries of the list already given up by the final release
    ghost var nodes: set<ClassInfo>    // every node ever created
    ghost var clock: nat

    /** Links of live nodes lead forward to live nodes, which know where they come from. */
    ghost predicate ChildrenTo()
      reads this`nodes, nodes`child, nodes`fathers, nodes`deletes
    {
      forall n {:trigger n.child} :: n in nodes && n.Live() && n.child != null ==>
        n.child in nodes && n.child.Live() && n in n.child.fathers && n.stamp < n.child.stamp
    }

    ghost predicate SiblingsTo()
      reads this`nodes, nodes`sibling, nodes`elders, nodes`deletes
    {
      forall n {:trigger n.sibling} :: n in nodes && n.Live() && n.sibling != null ==>
        n.sibling in nodes && n.sibling.Live() && n in n.sibling.elders && n.stamp < n.sibling.stamp
    }

    ghost predicate FathersFrom()
      reads this`nodes, nodes`child, nodes`fathers, nodes`deletes
    {
      forall n, m {:trigger m in n.fathers} :: n in nodes && m in n.fathers ==>
        m in nodes && m.Live() && m.child == n
    }

    ghost predicate EldersFrom()
      reads this`nodes, nodes`sibling, nodes`elders, nodes`deletes
    {
      forall n, m {:trigger m in n.elders} :: n in nodes && m in n.elders ==>
        m in nodes && m.Live() && m.sibling == n
    }

    /** The entries of the list not yet given up are live nodes, or null. */
    ghost predicate ListTo()
      reads this`nodes, this`list, this`dropped, nodes`slots, nodes`deletes
    {
      && dropped <= |list|
      && forall i :: dropped <= i < |list| && list[i] != null ==>
           list[i] in nodes && list[i].Live() && i in list[i].slots
    }

    ghost predicate ListFrom()
      reads this`nodes, this`list, this`dropped, nodes`slots
    {
      forall n, i {:trigger i in n.slots} :: n in nodes && i in n.slots ==> dropped <= i < |list| && list[i] == n
    }

    /** Nobody refers to a deleted node, and no node is deleted twice. */
    ghost predicate DeadForgotten()
      reads this`nodes, nodes`fathers, nodes`elders, nodes`slots, nodes`holds, nodes`deletes
    {
      forall n :: n in nodes ==>
        && n.deletes <= 1 && n.holds >= 0
        && (!n.Live() ==> n.fathers == {} && n.elders == {} && n.slots == {} && n.holds == 0)
    }

    ghost predicate Stamped()
      reads this`nodes, this`clock
    {
      forall n {:trigger n.stamp} :: n in nodes ==> n.stamp < clock
    }

    /** The count of every live node, but perhaps one, is the number of references to it. */
    ghost predicate CountedBut(x: ClassInfo?)
      reads this`nodes, nodes`refCount, nodes`fathers, nodes`elders, nodes`slots, nodes`holds, nodes`deletes
    {
      forall n {:trigger n.refCount} :: n in nodes && n.Live() && n != x ==>
        n.refCount == n.Refs() && n.refCount > 0
    }

    ghost predicate Sound()
      reads this, nodes`child, nodes`sibling, nodes`fathers, nodes`elders, nodes`slots, nodes`holds, nodes`deletes
    {
      && ChildrenTo() && SiblingsTo() && FathersFrom() && EldersFrom()
      && ListTo() && ListFrom() && DeadForgotten() && Stamped()
    }

    ghost predicate Valid()
      reads this, nodes`child, nodes`sibling, nodes`fathers, nodes`elders, nodes`slots, nodes`holds, nodes`deletes
      reads nodes`refCount
    {
      Sound() && CountedBut(null)
    }

    /** Init: the list starts with ten empty entries. */
    constructor ()
      ensures Valid()
      ensures list == Nulls(10) && dropped == 0 && nodes == {}
    {
      list, dropped := Nulls(10), 0;
      nodes, clock := {}, 0;
    }

    /** A new node, held by its creator. */
    method New(name: string, path: Option<string>) returns (n: ClassInfo)
      requires Valid()
      modifies this`nodes, this`clock
      ensures Valid()
      ensures fresh(n) && n.name == name && n.path == path && n.child == null && n.sibling == null && n.refCount == 1
      ensures n.fathers == {} && n.elders == {} && n.slots == {} && n.holds == 1 && n.Live() && n.loads == 0
      ensures nodes == old(nodes) + {n}
      ensures forall m :: m in old(nodes) ==> m.stamp < n.stamp
    {
      hide ChildrenTo, SiblingsTo, FathersFrom, EldersFrom, ListTo, ListFrom, DeadForgotten, Stamped, CountedBut;
      OldStamps();
      n := new ClassInfo(name, path, clock);
      nodes, clock := nodes + {n}, clock + 1;
      NewChildren(n);
      NewSiblings(n);
      NewInList(n);
      NewCounts(n);
    }

    lemma OldStamps()
      requires Valid()
      ensures forall n {:trigger n.stamp} :: n in nodes ==> n.stamp < clock
    {
    }

    twostate lemma NewChildren(new n: ClassInfo)
      requires n !in old(nodes) && nodes == old(nodes) + {n} && n.child == null && n.fathers == {}
      requires forall m {:trigger m.fathers} :: m in old(nodes) ==> m.fathers == old(m.fathers)
      requires forall m {:trigger m.child} :: m in old(nodes) ==> m.child == old(m.child)
      requires forall m {:trigger m.deletes} :: m in old(nodes) ==> m.deletes == old(m.deletes)
      requires old(ChildrenTo()) && old(FathersFrom())
      ensures ChildrenTo() && FathersFrom()
    {
    }

    twostate lemma NewSiblings(new n: ClassInfo)
      requires n !in old(nodes) && nodes == old(nodes) + {n} && n.sibling == null && n.elders == {}
      requires forall m {:trigger m.elders} :: m in old(nodes) ==> m.elders == old(m.elders)
      requires forall m {:trigger m.sibling} :: m in old(nodes) ==> m.sibling == old(m.sibling)
      requires forall m {:trigger m.deletes} :: m in old(nodes) ==> m.deletes == old(m.deletes)
      requires old(SiblingsTo()) && old(EldersFrom())
      ensures SiblingsTo() && EldersFrom()
    {
    }

    twostate lemma NewInList(new n: ClassInfo)
      requires n !in old(nodes) && nodes == old(nodes) + {n} && n.slots == {}
      requires forall m {:trigger m.slots} :: m in old(nodes) ==> m.slots == old(m.slots)
      requires forall m {:trigger m.deletes} :: m in old(nodes) ==> m.deletes == old(m.deletes)
      requires list == old(list) && dropped == old(dropped) && old(ListTo()) && old(ListFrom())
      ensures ListTo() && ListFrom()
    {
    }

    twostate lemma NewCounts(new n: ClassInfo)
      requires n !in old(nodes) && nodes == old(nodes) + {n}
      requires n.deletes == 0 && n.holds == 1 && n.refCount == n.Refs() == 1 && n.stamp == old(clock) < clock
      requires forall m {:trigger m.fathers} :: m in old(nodes) ==> m.fathers == old(m.fathers)
      requires forall m {:trigger m.elders} :: m in old(nodes) ==> m.elders == old(m.elders)
      requires forall m {:trigger m.slots} :: m in old(nodes) ==> m.slots == old(m.slots)
      requires forall m {:trigger m.holds} :: m in old(nodes) ==> m.holds == old(m.holds)
      requires forall m {:trigger m.refCount} :: m in old(nodes) ==> m.refCount == old(m.refCount)
      requires forall m {:trigger m.deletes} :: m in old(nodes) ==> m.deletes == old(m.deletes)
      requires old(DeadForgotten()) && old(Stamped()) && old(CountedBut(null))
      ensures DeadForgotten() && Stamped() && CountedBut(null)
    {
    }

    /** AddClassInfoToList: the list takes over the creator's reference. */
    method AddToList(n: ClassInfo)
      requires Valid() && n in nodes && n.holds > 0
      modifies this`list, n`slots, n`holds
      ensures Valid()
      ensures list == old(list) + [n] && n.slots == old(n.slots) + {old(|list|)} && n.holds == old(n.holds) - 1
    {
      hide ChildrenTo, SiblingsTo, FathersFrom, EldersFrom, ListTo, ListFrom, DeadForgotten, Stamped, CountedBut;
      Alive(n);
      NewSlot(n);
      list := list + [n];
      n.slots, n.holds := n.slots + {|list| - 1}, n.holds - 1;
      ListExtended(n);
      Recounted(n, null);
    }

    /** A node that is held is alive, and rightly counted. */
    lemma Alive(n: ClassInfo)
      requires Valid() && n in nodes && n.holds > 0
      ensures n.Live() && n.refCount == n.Refs()
    {
      hide ChildrenTo, SiblingsTo, FathersFrom, EldersFrom, ListTo, ListFrom;
    }

    lemma NewSlot(n: ClassInfo)
      requires ListFrom() && n in nodes
      ensures |list| !in n.slots
    {
    }

    twostate lemma ListExtended(n: ClassInfo)
      requires old(ListTo()) && old(ListFrom())
      requires nodes == old(nodes) && dropped == old(dropped) && list == old(list) + [n]
      requires n in nodes && n.Live() && n.slots == old(n.slots) + {|old(list)|}
      requires forall m {:trigger m.slots} :: m in nodes && m != n ==> m.slots == old(m.slots)
      requires forall m {:trigger m.deletes} :: m in nodes ==> m.deletes == old(m.deletes)
      ensures ListTo() && ListFrom()
    {
    }

    /** The references to one node changed, and its count with them. */
    twostate lemma Recounted(new n: ClassInfo, new x: ClassInfo?)
      requires nodes == old(nodes) && old(DeadForgotten()) && old(CountedBut(null))
      requires n in nodes && n.deletes == 0 && n.holds >= 0
      requires n == x || (n.refCount == n.Refs() && n.refCount > 0)
      requires forall m {:trigger m.fathers} :: m in nodes && m != n ==> m.fathers == old(m.fathers)
      requires forall m {:trigger m.elders} :: m in nodes && m != n ==> m.elders == old(m.elders)
      requires forall m {:trigger m.slots} :: m in nodes && m != n ==> m.slots == old(m.slots)
      requires forall m {:trigger m.holds} :: m in nodes && m != n ==> m.holds == old(m.holds)
      requires forall m {:trigger m.refCount} :: m in nodes && m != n ==> m.refCount == old(m.refCount)
      requires forall m {:trigger m.deletes} :: m in nodes ==> m.deletes == old(m.deletes)
      ensures DeadForgotten() && CountedBut(x)
    {
    }

    /** IncreaseRefCount, by whoever may refer to the node. */
    method IncreaseRefCount(n: ClassInfo?)
      requires Valid() && (n != null ==> n in nodes && n.Live())
      modifies (if n == null then {} else {n})`refCount, (if n == null then {} else {n})`holds
      ensures Valid()
      ensures n != null ==> n.refCount == old(n.refCount) + 1 && n.holds == old(n.holds) + 1
    {
      hide ChildrenTo, SiblingsTo, FathersFrom, EldersFrom, ListTo, ListFrom, DeadForgotten, Stamped, CountedBut;
      if n != null {
        LiveCount(n);
        n.refCount, n.holds := n.refCount + 1, n.holds + 1;
        Recounted(n, null);
      }
    }

    lemma LiveCount(n: ClassInfo)
      requires Valid() && n in nodes && n.Live()
      ensures n.refCount == n.Refs() > 0 && n.holds >= 0
    {
      hide ChildrenTo, SiblingsTo, FathersFrom, EldersFrom, ListTo, ListFrom;
    }

    /** SetChild: the link takes over a reference held by the caller. What the link led to before keeps its
        count, so that reference is one that nobody will give up. */
    method SetChild(n: ClassInfo, child: ClassInfo?)
      requires Valid() && n in nodes && n.Live()
      requires child != null ==> child in nodes && child.holds > 0 && n.stamp < child.stamp
      modifies n`child
      modifies (if child == null then {} else {child})`fathers, (if child == null then {} else {child})`holds
      modifies (if n.child == null then {} else {n.child})`fathers, (if n.child == null then {} else {n.child})`holds
      ensures Valid()
      ensures n.child == child
      ensures child != null ==>
        && child.fathers == old(child.fathers) + {n}
        && child.holds == old(child.holds) - (if old(n.child) == child then 0 else 1)
      ensures var was := old(n.child);
        was != null && was != child ==> was.fathers == old(was.fathers) - {n} && was.holds == old(was.holds) + 1
    {
      hide ChildrenTo, SiblingsTo, FathersFrom, EldersFrom, ListTo, ListFrom, DeadForgotten, Stamped, CountedBut;
      if n.child != null {
        ForgetChild(n);
      }
      if child != null {
        LinkChild(n, child);
      }
    }

    method LinkChild(n: ClassInfo, child: ClassInfo)
      requires Valid() && n in nodes && n.Live() && n.child == null
      requires child in nodes && child.holds > 0 && n.stamp < child.stamp
      modifies n`child, child`fathers, child`holds
      ensures Valid()
      ensures n.child == child && child.fathers == old(child.fathers) + {n} && child.holds == old(child.holds) - 1
    {
      hide ChildrenTo, SiblingsTo, FathersFrom, EldersFrom, ListTo, ListFrom, DeadForgotten, Stamped, CountedBut;
      Alive(child);
      NotYetFather(n, child);
      n.child := child;
      child.fathers, child.holds := child.fathers + {n}, child.holds - 1;
      ChildLinked(n, child);
      Recounted(child, null);
    }

    /** A link that is overwritten: its reference stays counted, though nobody has it any more. */
    method ForgetChild(n: ClassInfo)
      requires Valid() && n in nodes && n.Live() && n.child != null
      modifies n`child, n.child`fathers, n.child`holds
      ensures Valid() && n.child == null
      ensures var was := old(n.child);
        was in nodes && was.fathers == old(was.fathers) - {n} && was.holds == old(was.holds) + 1 && was.Live()
    {
      hide ChildrenTo, SiblingsTo, FathersFrom, EldersFrom, ListTo, ListFrom, DeadForgotten, Stamped, CountedBut;
      ghost var was := n.child;
      ChildOf(n);
      LiveCount(was);
      was.fathers, was.holds := was.fathers - {n}, was.holds + 1;
      n.child := null;
      ChildForgotten(n);
      Recounted(was, null);
    }

    twostate lemma ChildForgotten(n: ClassInfo)
      requires nodes == old(nodes) && old(ChildrenTo()) && old(FathersFrom())
      requires n in nodes && n.Live() && n.child == null
      requires forall m {:trigger m.child} :: m in nodes && m != n ==> m.child == old(m.child)
      requires forall m {:trigger m.fathers} :: m in nodes ==>
        m.fathers == if m == old(n.child) then old(m.fathers) - {n} else old(m.fathers)
      requires forall m {:trigger m.deletes} :: m in nodes ==> m.deletes == old(m.deletes)
      ensures ChildrenTo() && FathersFrom()
    {
    }

    lemma NotYetFather(n: ClassInfo, child: ClassInfo)
      requires FathersFrom() && child in nodes && n.child != child
      ensures n !in child.fathers
    {
    }

    lemma ChildOf(n: ClassInfo)
      requires ChildrenTo() && n in nodes && n.Live() && n.child != null
      ensures n.child in nodes && n.child.Live() && n in n.child.fathers
    {
    }

    twostate lemma ChildLinked(n: ClassInfo, new child: ClassInfo)
      requires nodes == old(nodes) && old(ChildrenTo()) && old(FathersFrom())
      requires n in nodes && n.Live() && n.child == child && old(n.child) == null
      requires child in nodes && child.deletes == 0 && child.fathers == old(child.fathers) + {n} && n.stamp < child.stamp
      requires forall m {:trigger m.child} :: m in nodes && m != n ==> m.child == old(m.child)
      requires forall m {:trigger m.fathers} :: m in nodes && m != child ==> m.fathers == old(m.fathers)
      requires forall m {:trigger m.deletes} :: m in nodes ==> m.deletes == old(m.deletes)
      ensures ChildrenTo() && FathersFrom()
    {
    }

    /** SetSibling: the same. */
    method SetSibling(n: ClassInfo, sibling: ClassInfo?)
      requires Valid() && n in nodes && n.Live()
      requires sibling != null ==> sibling in nodes && sibling.holds > 0 && n.stamp < sibling.stamp
      modifies n`sibling
      modifies (if sibling == null then {} else {sibling})`elders, (if sibling == null then {} else {sibling})`holds
      modifies (if n.sibling == null then {} else {n.sibling})`elders, (if n.sibling == null then {} else {n.sibling})`holds
      ensures Valid()
      ensures n.sibling == sibling
      ensures sibling != null ==>
        && sibling.elders == old(sibling.elders) + {n}
        && sibling.holds == old(sibling.holds) - (if old(n.sibling) == sibling then 0 else 1)
      ensures var was := old(n.sibling);
        was != null && was != sibling ==> was.elders == old(was.elders) - {n} && was.holds == old(was.holds) + 1
    {
      hide ChildrenTo, SiblingsTo, FathersFrom, EldersFrom, ListTo, ListFrom, DeadForgotten, Stamped, CountedBut;
      if n.sibling != null {
        ForgetSibling(n);
      }
      if sibling != null {
        LinkSibling(n, sibling);
      }
    }

    method LinkSibling(n: ClassInfo, sibling: ClassInfo)
      requires Valid() && n in nodes && n.Live() && n.sibling == null
      requires sibling in nodes && sibling.holds > 0 && n.stamp < sibling.stamp
      modifies n`sibling, sibling`elders, sibling`holds
      ensures Valid()
      ensures n.sibling == sibling && sibling.elders == old(sibling.elders) + {n} && sibling.holds == old(sibling.holds) - 1
    {
      hide ChildrenTo, SiblingsTo, FathersFrom, EldersFrom, ListTo, ListFrom, DeadForgotten, Stamped, CountedBut;
      Alive(sibling);
      NotYetElder(n, sibling);
      n.sibling := sibling;
      sibling.elders, sibling.holds := sibling.elders + {n}, sibling.holds - 1;
      SiblingLinked(n, sibling);
      Recounted(sibling, null);
    }

    /** A link that is overwritten: its reference stays counted, though nobody has it any more. */
    method ForgetSibling(n: ClassInfo)
      requires Valid() && n in nodes && n.Live() && n.sibling != null
      modifies n`sibling, n.sibling`elders, n.sibling`holds
      ensures Valid() && n.sibling == null
      ensures var was := old(n.sibling);
        was in nodes && was.elders == old(was.elders) - {n} && was.holds == old(was.holds) + 1 && was.Live()
    {
      hide ChildrenTo, SiblingsTo, FathersFrom, EldersFrom, ListTo, ListFrom, DeadForgotten, Stamped, CountedBut;
      ghost var was := n.sibling;
      SiblingOf(n);
      LiveCount(was);
      was.elders, was.holds := was.elders - {n}, was.holds + 1;
      n.sibling := null;
      SiblingForgotten(n);
      Recounted(was, null);
    }

    twostate lemma SiblingForgotten(n: ClassInfo)
      requires nodes == old(nodes) && old(SiblingsTo()) && old(EldersFrom())
      requires n in nodes && n.Live() && n.sibling == null
      requires forall m {:trigger m.sibling} :: m in nodes && m != n ==> m.sibling == old(m.sibling)
      requires forall m {:trigger m.elders} :: m in nodes ==>
        m.elders == if m == old(n.sibling) then old(m.elders) - {n} else old(m.elders)
      requires forall m {:trigger m.deletes} :: m in nodes ==> m.deletes == old(m.deletes)
      ensures SiblingsTo() && EldersFrom()
    {
    }

    lemma NotYetElder(n: ClassInfo, sibling: ClassInfo)
      requires EldersFrom() && sibling in nodes && n.sibling != sibling
      ensures n !in sibling.elders
    {
    }

    lemma SiblingOf(n: ClassInfo)
      requires SiblingsTo() && n in nodes && n.Live() && n.sibling != null
      ensures n.sibling in nodes && n.sibling.Live() && n in n.sibling.elders
    {
    }

    twostate lemma SiblingLinked(n: ClassInfo, new sibling: ClassInfo)
      requires nodes == old(nodes) && old(SiblingsTo()) && old(EldersFrom())
      requires n in nodes && n.Live() && n.sibling == sibling && old(n.sibling) == null
      requires sibling in nodes && sibling.deletes == 0 && sibling.elders == old(sibling.elders) + {n}
      requires n.stamp < sibling.stamp
      requires forall m {:trigger m.sibling} :: m in nodes && m != n ==> m.sibling == old(m.sibling)
      requires forall m {:trigger m.elders} :: m in nodes && m != sibling ==> m.elders == old(m.elders)
      requires forall m {:trigger m.deletes} :: m in nodes ==> m.deletes == old(m.deletes)
      ensures SiblingsTo() && EldersFrom()
    {
    }

    /** DecreaseRefCount gives up one reference of the caller's; the last one deletes the node. */
    method DecreaseRefCount(n: ClassInfo?)
      requires Valid() && (n != null ==> n in nodes && n.holds > 0)
      modifies nodes`refCount, nodes`fathers, nodes`elders, nodes`holds, nodes`deletes
      ensures Valid()
      ensures forall m {:trigger m.holds} :: m in nodes ==> m.holds == old(m.holds) - (if m == n then 1 else 0)
      ensures forall m {:trigger m.deletes} :: m in nodes ==> old(m.deletes) <= m.deletes
      decreases if n == null then 0 else clock - n.stamp, 1
    {
      hide ChildrenTo, SiblingsTo, FathersFrom, EldersFrom, ListTo, ListFrom, DeadForgotten, Stamped, CountedBut;
      if n != null {
        Alive(n);
        n.refCount, n.holds := n.refCount - 1, n.holds - 1;
        Recounted(n, if n.refCount == 0 then n else null);
        if n.refCount == 0 {
          NoneLeft(n);
          Destroy(n);
        }
      }
    }

    /** The destructor, run by delete on a node nobody refers to: its links become references given up
        one after the other. */
    method Destroy(n: ClassInfo)
      requires Sound() && CountedBut(n) && n in nodes && n.Live() && Unreferenced(n)
      modifies nodes`refCount, nodes`fathers, nodes`elders, nodes`holds, nodes`deletes
      ensures Valid() && n.deletes == 1
      ensures forall m {:trigger m.holds} :: m in nodes ==> m.holds == old(m.holds)
      ensures forall m {:trigger m.deletes} :: m in nodes ==> old(m.deletes) <= m.deletes
      decreases clock - n.stamp, 0
    {
      hide ChildrenTo, SiblingsTo, FathersFrom, EldersFrom, ListTo, ListFrom, DeadForgotten, Stamped, CountedBut;
      LinksOf(n);
      Unlink(n);
      DecreaseRefCount(n.child);
      DecreaseRefCount(n.sibling);
      OnceDeleted(n);
    }

    ghost predicate Unreferenced(n: ClassInfo)
      reads n`fathers, n`elders, n`slots, n`holds
    {
      n.fathers == {} && n.elders == {} && n.slots == {} && n.holds == 0
    }

    lemma NoneLeft(n: ClassInfo)
      requires n.Refs() == 0 && n.holds >= 0
      ensures Unreferenced(n)
    {
    }

    lemma LinksOf(n: ClassInfo)
      requires Sound() && n in nodes && n.Live()
      ensures n.stamp < clock
      ensures n.child != null ==>
        n.child in nodes && n.child.deletes == 0 && n in n.child.fathers && n.stamp < n.child.stamp < clock
      ensures n.sibling != null ==>
        n.sibling in nodes && n.sibling.deletes == 0 && n in n.sibling.elders && n.stamp < n.sibling.stamp < clock
      ensures n.child != null ==> n.child.holds >= 0
      ensures n.sibling != null ==> n.sibling.holds >= 0
    {
      hide FathersFrom, EldersFrom, ListTo, ListFrom;
    }

    lemma OnceDeleted(n: ClassInfo)
      requires Valid() && n in nodes && n.deletes >= 1
      ensures n.deletes == 1
    {
      hide ChildrenTo, SiblingsTo, FathersFrom, EldersFrom, ListTo, ListFrom;
    }

    /** How many references the links of n are to m. */
    ghost function LinksTo(n: ClassInfo, m: ClassInfo): nat
      reads n`child, n`sibling
    {
      (if n.child == m then 1 else 0) + (if n.sibling == m then 1 else 0)
    }

    /** From here on the node counts as deleted, and its links as references of the destructor's. */
    ghost method Unlink(n: ClassInfo)
      requires Sound() && CountedBut(n) && n in nodes && n.Live() && Unreferenced(n)
      modifies nodes`fathers, nodes`elders, nodes`holds, n`deletes
      ensures Valid() && n.deletes == 1
      ensures forall m {:trigger m.holds} :: m in nodes ==> m.holds == old(m.holds) + LinksTo(n, m)
    {
      hide ChildrenTo, SiblingsTo, FathersFrom, EldersFrom, ListTo, ListFrom, DeadForgotten, Stamped, CountedBut;
      LinksOf(n);
      n.deletes := 1;
      if n.child != null {
        n.child.fathers, n.child.holds := n.child.fathers - {n}, n.child.holds + 1;
      }
      if n.sibling != null {
        n.sibling.elders, n.sibling.holds := n.sibling.elders - {n}, n.sibling.holds + 1;
      }
      UnlinkedChild(n);
      UnlinkedSibling(n);
      UnlinkedList(n);
      UnlinkedCounts(n);
    }

    twostate lemma UnlinkedChild(n: ClassInfo)
      requires nodes == old(nodes) && old(ChildrenTo()) && old(FathersFrom())
      requires n in nodes && n.deletes == 1 && old(n.fathers) == {}
      requires forall m {:trigger m.fathers} :: m in nodes ==>
        m.fathers == if m == n.child then old(m.fathers) - {n} else old(m.fathers)
      requires forall m {:trigger m.child} :: m in nodes ==> m.child == old(m.child)
      requires forall m {:trigger m.deletes} :: m in nodes && m != n ==> m.deletes == old(m.deletes)
      ensures ChildrenTo() && FathersFrom()
    {
    }

    twostate lemma UnlinkedSibling(n: ClassInfo)
      requires nodes == old(nodes) && old(SiblingsTo()) && old(EldersFrom())
      requires n in nodes && n.deletes == 1 && old(n.elders) == {}
      requires forall m {:trigger m.elders} :: m in nodes ==>
        m.elders == if m == n.sibling then old(m.elders) - {n} else old(m.elders)
      requires forall m {:trigger m.sibling} :: m in nodes ==> m.sibling == old(m.sibling)
      requires forall m {:trigger m.deletes} :: m in nodes && m != n ==> m.deletes == old(m.deletes)
      ensures SiblingsTo() && EldersFrom()
    {
    }

    twostate lemma UnlinkedList(n: ClassInfo)
      requires nodes == old(nodes) && list == old(list) && dropped == old(dropped) && old(ListTo()) && old(ListFrom())
      requires n in nodes && n.slots == {}
      requires forall m {:trigger m.slots} :: m in nodes ==> m.slots == old(m.slots)
      requires forall m {:trigger m.deletes} :: m in nodes && m != n ==> m.deletes == old(m.deletes)
      ensures ListTo() && ListFrom()
    {
    }

    twostate lemma UnlinkedCounts(n: ClassInfo)
      requires nodes == old(nodes) && clock == old(clock) && old(DeadForgotten()) && old(CountedBut(n))
      requires n in nodes && n.deletes == 1 && old(Unreferenced(n)) && n != n.child && n != n.sibling
      requires forall m {:trigger m.fathers} :: m in nodes ==>
        m.fathers == if m == n.child then old(m.fathers) - {n} else old(m.fathers)
      requires forall m {:trigger m.elders} :: m in nodes ==>
        m.elders == if m == n.sibling then old(m.elders) - {n} else old(m.elders)
      requires forall m {:trigger m.holds} :: m in nodes ==> m.holds == old(m.holds) + LinksTo(n, m)
      requires n.child == old(n.child) && n.sibling == old(n.sibling)
      requires n.child != null ==> n.child in nodes && n.child.deletes == 0 && n in old(n.child.fathers)
      requires n.sibling != null ==> n.sibling in nodes && n.sibling.deletes == 0 && n in old(n.sibling.elders)
      requires forall m {:trigger m.slots} :: m in nodes ==> m.slots == old(m.slots)
      requires forall m {:trigger m.refCount} :: m in nodes ==> m.refCount == old(m.refCount)
      requires forall m {:trigger m.deletes} :: m in nodes && m != n ==> m.deletes == old(m.deletes)
      ensures DeadForgotten() && CountedBut(null)
    {
    }

    /** FreeClassInfoFromList: the list gives up its references in order and is emptied. */
    method FreeList()
      requires Valid() && dropped == 0
      modifies this`list, this`dropped
      modifies nodes`slots, nodes`refCount, nodes`fathers, nodes`elders, nodes`holds, nodes`deletes
      ensures Valid() && list == [] && dropped == 0
      ensures forall m {:trigger m.slots} :: m in nodes ==> m.slots == {}
      ensures forall m {:trigger m.holds} :: m in nodes ==> m.holds == old(m.holds)
      ensures forall m {:trigger m.deletes} :: m in nodes ==> old(m.deletes) <= m.deletes
    {
      hide ChildrenTo, SiblingsTo, FathersFrom, EldersFrom, ListTo, ListFrom, DeadForgotten, Stamped, CountedBut;
      for i := 0 to |list|
        invariant Valid() && list == old(list) && dropped == i && nodes == old(nodes)
        invariant forall m {:trigger m.holds} :: m in nodes ==> m.holds == old(m.holds)
        invariant forall m {:trigger m.deletes} :: m in nodes ==> old(m.deletes) <= m.deletes
      {
        var n := list[i];
        Drop();
        DecreaseRefCount(n);
      }
      NoneListed();
      list, dropped := [], 0;
      EmptyList();
    }

    lemma NoneListed()
      requires ListFrom() && forall i :: dropped <= i < |list| ==> list[i] == null
      ensures forall m {:trigger m.slots} :: m in nodes ==> m.slots == {}
    {
      forall m | m in nodes ensures m.slots == {} {
        if i :| i in m.slots {
          assert false;
        }
      }
    }

    lemma EmptyList()
      requires list == [] && dropped == 0
      requires forall m {:trigger m.slots} :: m in nodes ==> m.slots == {}
      ensures ListTo() && ListFrom()
    {
    }

    /** The next entry of the list, which must still be alive, becomes a reference of the caller's. */
    ghost method Drop()
      requires Valid() && dropped < |list|
      modifies this`dropped, nodes`slots, nodes`holds
      ensures Valid() && dropped == old(dropped) + 1
      ensures list[old(dropped)] != null ==>
        list[old(dropped)] in nodes && list[old(dropped)].Live() && list[old(dropped)].holds > 0
      ensures forall m {:trigger m.holds} :: m in nodes ==>
        m.holds == old(m.holds) + (if m == list[old(dropped)] then 1 else 0)
    {
      hide ChildrenTo, SiblingsTo, FathersFrom, EldersFrom, ListTo, ListFrom, DeadForgotten, Stamped, CountedBut;
      var n := list[dropped];
      NextEntry(n);
      dropped := dropped + 1;
      if n != null {
        n.slots, n.holds := n.slots - {dropped - 1}, n.holds + 1;
        Recounted(n, null);
      }
      Shortened();
    }

    lemma NextEntry(n: ClassInfo?)
      requires Valid() && dropped < |list| && n == list[dropped]
      ensures n != null ==> n in nodes && n.Live() && dropped in n.slots && n.holds >= 0
      ensures n != null ==> n.refCount == n.Refs() && n.refCount > 0
    {
      hide ChildrenTo, SiblingsTo, FathersFrom, EldersFrom;
    }

    twostate lemma Shortened()
      requires nodes == old(nodes) && list == old(list) && 0 < dropped == old(dropped) + 1 <= |list|
      requires old(ListTo()) && old(ListFrom())
      requires forall m {:trigger m.slots} :: m in nodes ==>
        m.slots == if m == list[dropped - 1] then old(m.slots) - {dropped - 1} else old(m.slots)
      requires forall m {:trigger m.deletes} :: m in nodes ==> m.deletes == old(m.deletes)
      ensures ListTo() && ListFrom()
    {
    }

    /** The document deletes its root without looking at the count: it must be the only one to refer to it. */
    method DeleteRoot(root: ClassInfo)
      requires Valid() && root in nodes && root.holds > 0 && root.refCount == 1
      modifies nodes`refCount, nodes`fathers, nodes`elders, nodes`holds, nodes`deletes
      ensures Valid() && root.deletes == 1
      ensures forall m {:trigger m.holds} :: m in nodes ==> m.holds == old(m.holds) - (if m == root then 1 else 0)
      ensures forall m {:trigger m.deletes} :: m in nodes ==> old(m.deletes) <= m.deletes
    {
      hide ChildrenTo, SiblingsTo, FathersFrom, EldersFrom, ListTo, ListFrom, DeadForgotten, Stamped, CountedBut;
      Alive(root);
      root.holds := root.holds - 1;
      Recounted(root, root);
      NoneLeft(root);
      Destroy(root);
    }

    /** The references the program holds on a node, one by one. */
    ghost function Fathers(n: ClassInfo): set<ClassInfo>
      reads this`nodes, nodes`child, nodes`deletes
    {
      set m | m in nodes && m.Live() && m.child == n
    }

    ghost function Elders(n: ClassInfo): set<ClassInfo>
      reads this`nodes, nodes`sibling, nodes`deletes
    {
      set m | m in nodes && m.Live() && m.sibling == n
    }

    ghost function Entries(n: ClassInfo): set<nat>
      reads this`list, this`dropped
    {
      set i: nat | dropped <= i < |list| && list[i] == n
    }

    /** The count of a live node is the number of entries of the list, child links and sibling links that
        lead to it, and of its holders outside; nothing leads to a deleted node. */
    lemma CountIsReferences(n: ClassInfo)
      requires Valid() && n in nodes
      ensures |Entries(n)| + |Fathers(n)| + |Elders(n)| + n.holds == if n.Live() then n.refCount else 0
    {
      hide ChildrenTo, SiblingsTo, FathersFrom, EldersFrom, ListTo, ListFrom, CountedBut, DeadForgotten;
      FathersKnown(n);
      EldersKnown(n);
      EntriesKnown(n);
      Counted(n);
    }

    /** The document may delete its root outright exactly when the count is one: otherwise an entry of the
        list, a link or another holder would be left referring to a deleted node. */
    lemma SoleReference(n: ClassInfo)
      requires Valid() && n in nodes && n.holds > 0
      ensures n.refCount == 1 <==> Entries(n) == {} && Fathers(n) == {} && Elders(n) == {} && n.holds == 1
    {
      hide ChildrenTo, SiblingsTo, FathersFrom, EldersFrom, ListTo, ListFrom, DeadForgotten, Stamped, CountedBut;
      Alive(n);
      CountIsReferences(n);
    }

    /** A node that was deleted while an entry or a link leads to it: the program must not go on from there. */
    lemma Dangling(n: ClassInfo)
      requires n in nodes && !n.Live() && (Entries(n) != {} || Fathers(n) != {} || Elders(n) != {} || n.holds > 0)
      ensures !Valid()
    {
      if Valid() {
        hide ChildrenTo, SiblingsTo, FathersFrom, EldersFrom, ListTo, ListFrom, CountedBut, DeadForgotten;
        CountIsReferences(n);
        Counted(n);
      }
    }

    lemma Counted(n: ClassInfo)
      requires DeadForgotten() && CountedBut(null) && n in nodes
      ensures if n.Live() then n.refCount == n.Refs() else n.Refs() == 0
    {
    }

    lemma FathersKnown(n: ClassInfo)
      requires ChildrenTo() && FathersFrom() && n in nodes
      ensures Fathers(n) == n.fathers
    {
    }

    lemma EldersKnown(n: ClassInfo)
      requires SiblingsTo() && EldersFrom() && n in nodes
      ensures Elders(n) == n.elders
    {
    }

    lemma EntriesKnown(n: ClassInfo)
      requires ListTo() && ListFrom() && n in nodes
      ensures Entries(n) == n.slots
    {
    }

    /** Following the links back from a live node leads to one that is held or listed. */
    lemma Anchored(n: ClassInfo) returns (a: ClassInfo)
      requires Valid() && n in nodes && n.Live()
      ensures a in nodes && a.Live() && (a.holds > 0 || a.slots != {})
      decreases n.stamp
    {
      hide ChildrenTo, SiblingsTo, FathersFrom, EldersFrom, ListTo, ListFrom, DeadForgotten, Stamped, CountedBut;
      LiveCount(n);
      OwnersLive(n);
      a := n;
      if n.holds == 0 && n.slots == {} {
        assert n.fathers + n.elders != {};
        var m :| m in n.fathers + n.elders;
        a := Anchored(m);
      }
    }

    lemma OwnersLive(n: ClassInfo)
      requires Valid() && n in nodes && n.Live()
      ensures forall m :: m in n.fathers + n.elders ==> m in nodes && m.Live() && m.stamp < n.stamp
    {
      hide ListTo, ListFrom, DeadForgotten, CountedBut;
    }

    /** Once nothing is held and the list is empty, every node was deleted exactly once. */
    lemma AllGone()
      requires Valid()
      requires forall m {:trigger m.slots} :: m in nodes ==> m.slots == {}
      requires forall m {:trigger m.holds} :: m in nodes ==> m.holds == 0
      ensures forall n :: n in nodes ==> n.deletes == 1
    {
      hide ChildrenTo, SiblingsTo, FathersFrom, EldersFrom, ListTo, ListFrom, Stamped, CountedBut;
      forall n | n in nodes ensures n.deletes == 1 {
        if n.Live() {
          var a := Anchored(n);
          assert false;
        }
      }
    }

    /** Releasing references brings no new links to a node. */
    twostate lemma LinksKept(n: ClassInfo)
      requires old(Valid()) && Valid() && nodes == old(nodes) && n in nodes
      requires forall m {:trigger m.deletes} :: m in nodes ==> old(m.deletes) <= m.deletes
      requires forall m {:trigger m.child} :: m in nodes ==> m.child == old(m.child)
      requires forall m {:trigger m.sibling} :: m in nodes ==> m.sibling == old(m.sibling)
      ensures n.fathers <= old(n.fathers) && n.elders <= old(n.elders)
    {
      hide ListTo, ListFrom, DeadForgotten, Stamped, CountedBut;
    }
  }

  /** A root that is listed as well: its count is two, and deleting it outright would leave an entry of the list
      dangling. */
  method ListedRoot(name: string) returns (reg: Registry, root: ClassInfo)
    ensures fresh(reg) && fresh(root) && reg.Valid() && root in reg.nodes && root.holds == 1 && root.refCount == 2
    ensures 10 in reg.Entries(root)
  {
    reg := new Registry();
    root := reg.New(name, None);
    hide Registry.Valid;
    reg.IncreaseRefCount(root);
    reg.AddToList(root);
  }
}
