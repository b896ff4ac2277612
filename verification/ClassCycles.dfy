/** When LoadClass returns: exactly when no class that it meets is above itself. */
module ClassCycles {
  import opened Wrappers
  import opened Sequences
  import opened ClassHierarchy

  /** A class that is met above itself. */
  ghost predicate Cycle(db: ClassDb, names: seq<string>) {
    exists p, i, j :: Path(db, names, p) && 0 <= i < j < |p| && p[i] == p[j]
  }

  type Rank = string -> nat

  ghost predicate Below(names: seq<string>, rank: Rank, bound: nat) {
    forall i :: 0 <= i < |names| ==> rank(names[i]) < bound
  }

  /** The relation has no cycles: ranks fall from a class to its parents. */
  ghost predicate Acyclic(db: ClassDb, rank: Rank) {
    forall name :: name in db ==> Below(Parents(db[name]), rank, rank(name))
  }

  lemma AcyclicIs(db: ClassDb, rank: Rank)
    ensures Acyclic(db, rank) <==>
            forall name, i :: name in db && 0 <= i < |Parents(db[name])| ==> rank(Parents(db[name])[i]) < rank(name)
  {
    hide Parents;
    if Acyclic(db, rank) {
      forall name, i | name in db && 0 <= i < |Parents(db[name])| ensures rank(Parents(db[name])[i]) < rank(name) {
        assert Below(Parents(db[name]), rank, rank(name));
      }
    }
  }

  /** With a rank for every class, the rank of the bound is depth enough. */
  lemma {:induction false} RankIsEnough(db: ClassDb, rank: Rank, names: seq<string>, bound: nat)
    requires Acyclic(db, rank) && Below(names, rank, bound)
    ensures LoadWithin(db, names, bound).Some? && !Cycle(db, names)
    decreases bound, |names|
  {
    hide Cycle, Acyclic, LinkedParents, Below, Parents;
    if names != [] && names[0] in db {
      ParentsBelow(db, rank, names[0]);
      RestBelow(names, rank, bound);
      RankIsEnough(db, rank, LinkedParents(db[names[0]]), rank(names[0]));
      MoreDepth(db, LinkedParents(db[names[0]]), rank(names[0]), bound - 1);
      RankIsEnough(db, rank, names[1..], bound);
    }
    LoadEnds(db, names);
  }

  lemma ParentsBelow(db: ClassDb, rank: Rank, name: string)
    requires Acyclic(db, rank) && name in db
    ensures Below(LinkedParents(db[name]), rank, rank(name))
  {
    assert Below(Parents(db[name]), rank, rank(name));
  }

  lemma RestBelow(names: seq<string>, rank: Rank, bound: nat)
    requires names != [] && Below(names, rank, bound)
    ensures rank(names[0]) < bound && Below(names[1..], rank, bound)
  {
  }

  lemma {:induction false} MoreDepth(db: ClassDb, names: seq<string>, depth: nat, more: nat)
    requires depth <= more && LoadWithin(db, names, depth).Some?
    ensures LoadWithin(db, names, more) == LoadWithin(db, names, depth)
    decreases depth, |names|
  {
    if names != [] && names[0] in db {
      MoreDepth(db, LinkedParents(db[names[0]]), depth - 1, more - 1);
      MoreDepth(db, names[1..], depth, more);
    }
  }

  /** A depth that is not enough is gone up on some path. */
  lemma {:induction false} PathTooLong(db: ClassDb, names: seq<string>, depth: nat) returns (p: seq<string>)
    requires LoadWithin(db, names, depth).None?
    ensures |p| == depth + 1 && Path(db, names, p)
    decreases depth, |names|
  {
    var name := names[0];
    if depth == 0 {
      p := [name];
    } else if LoadWithin(db, LinkedParents(db[name]), depth - 1).None? {
      var up := PathTooLong(db, LinkedParents(db[name]), depth - 1);
      p := [name] + up;
    } else {
      p := PathTooLong(db, names[1..], depth);
    }
  }

  /** A path longer than the depth is not gone up to its end. */
  lemma {:induction false} DepthTooSmall(db: ClassDb, names: seq<string>, depth: nat, p: seq<string>)
    requires |p| == depth + 1 && Path(db, names, p)
    ensures LoadWithin(db, names, depth).None?
    decreases depth, |names|
  {
    if depth > 0 {
      if p[0] == names[0] {
        DepthTooSmall(db, LinkedParents(db[p[0]]), depth - 1, p[1..]);
      } else {
        DepthTooSmall(db, names[1..], depth, p);
      }
    } else if p[0] != names[0] {
      DepthTooSmall(db, names[1..], depth, p);
    }
  }

  lemma {:induction false} PathParts(db: ClassDb, names: seq<string>, p: seq<string>, i: nat)
    requires Path(db, names, p) && i < |p|
    ensures p[i] in db && Path(db, LinkedParents(db[p[i]]), p[i + 1..])
    ensures Path(db, names, p[..i + 1])
    decreases i
  {
    hide LinkedParents;
    LoadableIn(db, names, p[0]);
    hide Loadable;
    if i > 0 {
      PathParts(db, LinkedParents(db[p[0]]), p[1..], i - 1);
      assert p[1..][i..] == p[i + 1..];
      assert p[..i + 1][1..] == p[1..][..i];
    } else {
      assert p[..1][1..] == [];
    }
  }

  lemma LoadableIn(db: ClassDb, names: seq<string>, name: string)
    ensures name in Loadable(db, names) ==> name in db
  {
  }

  lemma {:induction false} PathJoin(db: ClassDb, names: seq<string>, p: seq<string>, q: seq<string>)
    requires p != [] && Path(db, names, p) && p[|p| - 1] in db && Path(db, LinkedParents(db[p[|p| - 1]]), q)
    ensures Path(db, names, p + q)
    decreases |p|
  {
    hide LinkedParents, Loadable;
    assert (p + q)[1..] == p[1..] + q;
    assert (p + q)[0] == p[0];
    if |p| > 1 {
      assert p[1..][|p| - 2] == p[|p| - 1];
      PathJoin(db, LinkedParents(db[p[0]]), p[1..], q);
    }
  }

  /** Going round a cycle makes paths of every length. */
  lemma {:induction false} Round(db: ClassDb, x: string, loop: seq<string>, length: nat) returns (p: seq<string>)
    requires x in db && loop != [] && Path(db, LinkedParents(db[x]), loop) && loop[|loop| - 1] == x
    ensures |p| == length && Path(db, LinkedParents(db[x]), p)
    decreases length
  {
    if length == 0 {
      p := [];
    } else if length <= |loop| {
      PathParts(db, LinkedParents(db[x]), loop, length - 1);
      p := loop[..length];
    } else {
      var rest := Round(db, x, loop, length - |loop|);
      PathJoin(db, LinkedParents(db[x]), loop, rest);
      p := loop + rest;
    }
  }

  /** The part of a path from one occurrence of a class to the next. */
  lemma LoopOf(db: ClassDb, names: seq<string>, p: seq<string>, i: nat, j: nat) returns (loop: seq<string>)
    requires Path(db, names, p) && i < j < |p| && p[i] == p[j]
    ensures p[i] in db && loop != [] && Path(db, LinkedParents(db[p[i]]), loop) && loop[|loop| - 1] == p[i]
  {
    hide Path, LinkedParents;
    PathParts(db, names, p, i);
    PathParts(db, LinkedParents(db[p[i]]), p[i + 1..], j - i - 1);
    loop := p[i + 1..][..j - i];
  }

  lemma CycleNeverEnds(db: ClassDb, names: seq<string>, depth: nat)
    requires Cycle(db, names)
    ensures LoadWithin(db, names, depth).None?
  {
    hide Path, LinkedParents, LoadWithin;
    var p, i, j :| Path(db, names, p) && 0 <= i < j < |p| && p[i] == p[j];
    var loop := LoopOf(db, names, p, i, j);
    PathParts(db, names, p, i);
    var rest := Round(db, p[i], loop, depth + 1);
    PathJoin(db, names, p[..i + 1], rest);
    var long := p[..i + 1] + rest;
    PathParts(db, names, long, depth);
    DepthTooSmall(db, names, depth, long[..depth + 1]);
  }

  /** LoadClass returns exactly when it meets no class above itself, and then goes up no further than there
      are classes. */
  lemma LoadEnds(db: ClassDb, names: seq<string>)
    ensures (exists depth :: LoadWithin(db, names, depth).Some?) <==> !Cycle(db, names)
    ensures !Cycle(db, names) ==> LoadWithin(db, names, |db|).Some?
  {
    hide LoadWithin;
    if depth: nat :| LoadWithin(db, names, depth).Some? {
      if Cycle(db, names) {
        CycleNeverEnds(db, names, depth);
      }
    }
    if LoadWithin(db, names, |db|).None? {
      var p := PathTooLong(db, names, |db|);
      forall i | 0 <= i < |p| ensures p[i] in db.Keys {
        PathParts(db, names, p, i);
      }
      if forall i, j :: 0 <= i < j < |p| ==> p[i] != p[j] {
        Pigeonhole(p, db.Keys);
        assert false;
      }
      assert Cycle(db, names);
    } else {
      assert exists depth :: LoadWithin(db, names, depth).Some?;
    }
  }
}
