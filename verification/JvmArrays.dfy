/** Java arrays of Jvmrt.c on an explicit heap: which blocks JvmRtCreateNewArray allocates and
    JvmRtDestroyAnArray frees. */
module JvmArrays {
  type Addr = nat

  const NULL: Addr := 0

  /** The element types the switch of JvmRtCreateNewArray supports. */
  const ELEMENT_TYPES: string := "CBSIJFDL"

  const REF: char := 'L'

  datatype Block =
    | ArrayObject(elemType: char, dims: nat, length: nat, upperBound: int, data: Addr)
    | Cells(cells: seq<Addr>)      // an array of references; cell 0 is the object header
    | Elements(size: nat)          // base type elements behind one header element
    | ObjectId

  type Blocks = map<Addr, Block>

  /** The blocks of one array: its object and its data, and for several dimensions also the header block
      in cell 0 and the subarrays in the other cells. */
  datatype Owned =
    | Row(obj: Addr, data: Addr)
    | Grid(obj: Addr, data: Addr, id: Addr, kids: seq<Owned>)

  function Footprint(o: Owned): set<Addr>
    decreases o, 1
  {
    match o
    case Row(obj, data) => {obj, data}
    case Grid(obj, data, id, kids) => {obj, data, id} + KidsFootprint(kids)
  }

  function KidsFootprint(kids: seq<Owned>): set<Addr>
    decreases kids, 0
  {
    if kids == [] then {} else Footprint(kids[0]) + KidsFootprint(kids[1..])
  }

  lemma {:induction false} KidsMembers(kids: seq<Owned>)
    ensures forall i :: 0 <= i < |kids| ==> Footprint(kids[i]) <= KidsFootprint(kids)
    ensures forall a :: a in KidsFootprint(kids) ==> exists i :: 0 <= i < |kids| && a in Footprint(kids[i])
    decreases kids
  {
    hide Footprint;
    if kids != [] {
      KidsMembers(kids[1..]);
      forall i | 0 <= i < |kids| ensures Footprint(kids[i]) <= KidsFootprint(kids) {
        if i > 0 {
          assert kids[i] == kids[1..][i - 1];
        }
      }
      forall a | a in KidsFootprint(kids) ensures exists i :: 0 <= i < |kids| && a in Footprint(kids[i]) {
        if a !in Footprint(kids[0]) {
          var j :| 0 <= j < |kids[1..]| && a in Footprint(kids[1..][j]);
          assert a in Footprint(kids[j + 1]);
        }
      }
    }
  }

  function Roots(kids: seq<Owned>): (roots: seq<Addr>)
    ensures |roots| == |kids| && forall i :: 0 <= i < |kids| ==> roots[i] == kids[i].obj
  {
    seq(|kids|, i requires 0 <= i < |kids| => kids[i].obj)
  }

  /** What calloc and the header writes leave in the data block of a one-dimensional array. */
  function RowData(elemType: char, length: nat): Block {
    if elemType == REF then Cells(seq(1 + length, _ => NULL)) else Elements(1 + length)
  }

  ghost predicate Apart(kids: seq<Owned>) {
    forall i, j :: 0 <= i < j < |kids| ==> Footprint(kids[i]) !! Footprint(kids[j])
  }

  /** The heap holds an array of these dimensions, innermost first in lengths, in the blocks of o. A
      one-dimensional array counts its header element in its length. */
  ghost predicate Shape(h: Blocks, o: Owned, elemType: char, dims: nat, lengths: seq<nat>)
    requires dims <= |lengths|
    decreases o, 1
  {
    match o
    case Row(obj, data) =>
      && dims == 1 && obj != data && {obj, data} <= h.Keys
      && h[obj] == ArrayObject(elemType, 1, 1 + lengths[0], lengths[0] as int - 1, data)
      && h[data] == RowData(elemType, lengths[0])
    case Grid(obj, data, id, kids) =>
      && dims >= 2 && obj != data && obj != id && data != id && {obj, data, id} <= h.Keys
      && h[obj] == ArrayObject(elemType, dims, lengths[dims - 1], lengths[dims - 1] as int - 1, data)
      && h[data] == Cells([id] + Roots(kids))
      && h[id] == ObjectId
      && |kids| == lengths[dims - 1]
      && KidsFootprint(kids) !! {obj, data, id}
      && AllShaped(h, kids, elemType, dims - 1, lengths)
  }

  ghost predicate AllShaped(h: Blocks, kids: seq<Owned>, elemType: char, dims: nat, lengths: seq<nat>)
    requires dims <= |lengths|
    decreases kids, 0
  {
    Apart(kids) && forall i :: 0 <= i < |kids| ==> Shape(h, kids[i], elemType, dims, lengths)
  }

  /** A heap that agrees on an array's blocks holds the same array. */
  lemma {:induction false} ShapeKept(h: Blocks, g: Blocks, o: Owned, elemType: char, dims: nat, lengths: seq<nat>)
    requires dims <= |lengths| && Shape(h, o, elemType, dims, lengths)
    requires forall a :: a in Footprint(o) ==> a in g && a in h && g[a] == h[a]
    ensures Shape(g, o, elemType, dims, lengths)
    decreases o, 1
  {
    match o
    case Row(obj, data) =>
      assert obj in Footprint(o) && data in Footprint(o);
      hide RowData;
    case Grid(obj, data, id, kids) =>
      assert obj in Footprint(o) && data in Footprint(o) && id in Footprint(o);
      assert KidsFootprint(kids) <= Footprint(o);
      hide Footprint; hide KidsFootprint; hide AllShaped; hide Roots;
      AllKept(h, g, kids, elemType, dims - 1, lengths);
  }

  lemma {:induction false} AllKept(h: Blocks, g: Blocks, kids: seq<Owned>, elemType: char, dims: nat, lengths: seq<nat>)
    requires dims <= |lengths| && AllShaped(h, kids, elemType, dims, lengths)
    requires forall a :: a in KidsFootprint(kids) ==> a in g && a in h && g[a] == h[a]
    ensures AllShaped(g, kids, elemType, dims, lengths)
    decreases kids, 0
  {
    KidsMembers(kids);
    hide Footprint; hide KidsFootprint; hide Shape;
    forall i | 0 <= i < |kids| ensures Shape(g, kids[i], elemType, dims, lengths) {
      ShapeKept(h, g, kids[i], elemType, dims, lengths);
    }
  }

  /** The supported element types: char, byte, short, int, long, float, double and references. */
  lemma ElementTypes(c: char)
    ensures c in ELEMENT_TYPES
            <==> c == 'C' || c == 'B' || c == 'S' || c == 'I' || c == 'J' || c == 'F' || c == 'D' || c == 'L'
  {
  }

  /** What an array is, read from its object. A row holds one element more than its length, all of them zero for
      references; a grid holds its header in the first cell and different arrays of one dimension less in the
      others. */
  lemma ArrayIs(h: Blocks, o: Owned, elemType: char, dims: nat, lengths: seq<nat>)
    requires dims <= |lengths| && Shape(h, o, elemType, dims, lengths)
    ensures dims >= 1 && o.obj in h
    ensures h[o.obj].ArrayObject? && h[o.obj].elemType == elemType && h[o.obj].dims == dims && h[o.obj].data in h
    ensures h[o.obj].length == (if dims == 1 then 1 + lengths[0] else lengths[dims - 1])
    ensures h[o.obj].upperBound == lengths[dims - 1] as int - 1
    ensures var data := h[h[o.obj].data];
      && (dims == 1 && elemType != 'L' ==> data == Elements(1 + lengths[0]))
      && (dims == 1 && elemType == 'L' ==>
            data.Cells? && |data.cells| == 1 + lengths[0] && forall k :: 0 <= k < |data.cells| ==> data.cells[k] == 0)
      && (dims > 1 ==> data.Cells? && |data.cells| == 1 + lengths[dims - 1] && data.cells[0] in h && h[data.cells[0]] == ObjectId)
    ensures dims > 1 ==> var cells := h[h[o.obj].data].cells;
      && (forall k :: 1 <= k < |cells| ==> cells[k] in h && h[cells[k]].ArrayObject? && h[cells[k]].dims == dims - 1
                                           && h[cells[k]].elemType == elemType)
      && (forall j, k :: 1 <= j < k < |cells| ==> cells[j] != cells[k])
  {
    if o.Grid? {
      hide KidsFootprint;
      GridCells(h, o.kids, elemType, dims - 1, lengths);
      hide AllShaped;
      assert h[o.data].cells[1..] == Roots(o.kids);
      assert forall k :: 1 <= k < |h[o.data].cells| ==> h[o.data].cells[k] == o.kids[k - 1].obj;
    }
  }

  lemma GridCells(h: Blocks, kids: seq<Owned>, elemType: char, dims: nat, lengths: seq<nat>)
    requires dims <= |lengths| && AllShaped(h, kids, elemType, dims, lengths)
    ensures forall k :: 0 <= k < |kids| ==>
      kids[k].obj in h && h[kids[k].obj].ArrayObject? && h[kids[k].obj].dims == dims && h[kids[k].obj].elemType == elemType
    ensures forall j, k :: 0 <= j < k < |kids| ==> kids[j].obj != kids[k].obj
  {
    forall k | 0 <= k < |kids|
      ensures kids[k].obj in h && h[kids[k].obj].ArrayObject? && h[kids[k].obj].dims == dims && h[kids[k].obj].elemType == elemType
      ensures kids[k].obj in Footprint(kids[k])
    {
      assert Shape(h, kids[k], elemType, dims, lengths);
      OwnObject(h, kids[k], elemType, dims, lengths);
    }
    hide Shape;
    forall j, k | 0 <= j < k < |kids| ensures kids[j].obj != kids[k].obj {
      assert Footprint(kids[j]) !! Footprint(kids[k]);
      assert kids[j].obj in Footprint(kids[j]) && kids[k].obj in Footprint(kids[k]);
    }
  }

  lemma OwnObject(h: Blocks, o: Owned, elemType: char, dims: nat, lengths: seq<nat>)
    requires dims <= |lengths| && Shape(h, o, elemType, dims, lengths)
    ensures o.obj in h && h[o.obj].ArrayObject? && h[o.obj].dims == dims && h[o.obj].elemType == elemType
    ensures o.obj in Footprint(o)
  {
    hide KidsFootprint, AllShaped;
  }

  lemma {:induction false} ShapeInHeap(h: Blocks, o: Owned, elemType: char, dims: nat, lengths: seq<nat>)
    requires dims <= |lengths| && Shape(h, o, elemType, dims, lengths)
    ensures Footprint(o) <= h.Keys
    decreases o, 1
  {
    match o
    case Row(obj, data) =>
    case Grid(obj, data, id, kids) =>
      hide KidsFootprint; hide AllShaped;
      AllInHeap(h, kids, elemType, dims - 1, lengths);
  }

  lemma {:induction false} AllInHeap(h: Blocks, kids: seq<Owned>, elemType: char, dims: nat, lengths: seq<nat>)
    requires dims <= |lengths| && AllShaped(h, kids, elemType, dims, lengths)
    ensures KidsFootprint(kids) <= h.Keys
    decreases kids, 0
  {
    KidsMembers(kids);
    hide Footprint; hide KidsFootprint; hide Shape;
    forall a | a in KidsFootprint(kids) ensures a in h {
      var i :| 0 <= i < |kids| && a in Footprint(kids[i]);
      ShapeInHeap(h, kids[i], elemType, dims, lengths);
    }
  }

  lemma {:induction false} AboveAll(s: set<nat>) returns (bound: nat)
    ensures forall a :: a in s ==> a < bound
    decreases |s|
  {
    if s == {} {
      bound := 0;
    } else {
      var a :| a in s;
      var rest := AboveAll(s - {a});
      bound := if rest <= a then a + 1 else rest;
      forall x | x in s ensures x < bound {
        assert x == a || x in s - {a};
      }
    }
  }

  class Heap {
    var blocks: Blocks

    /** JvmMemCalloc, when it succeeds: any address that is not in use. */
    method Alloc(block: Block) returns (a: Addr)
      modifies this
      ensures a != NULL && a !in old(blocks)
      ensures blocks == old(blocks)[a := block]
    {
      ghost var bound := AboveAll(blocks.Keys);
      assert bound + 1 !in blocks;
      a :| a != NULL && a !in blocks;
      blocks := blocks[a := block];
    }

    /** JvmMemFree: only a live block may be freed, and null is ignored. */
    method Free(a: Addr)
      requires a == NULL || a in blocks
      modifies this
      ensures blocks == if a == NULL then old(blocks) else old(blocks) - {a}
    {
      if a != NULL {
        blocks := blocks - {a};
      }
    }

    /** JvmRtCreateNewArray with at least one dimension. */
    method Create(elemType: char, dims: nat, lengths: seq<nat>) returns (a: Addr, ghost o: Owned)
      requires elemType in ELEMENT_TYPES && 1 <= dims <= |lengths|
      modifies this
      ensures a == o.obj && a != NULL
      ensures Shape(blocks, o, elemType, dims, lengths)
      ensures Footprint(o) !! old(blocks).Keys && NULL !in Footprint(o)
      ensures blocks.Keys == old(blocks).Keys + Footprint(o)
      ensures forall x :: x in old(blocks) ==> blocks[x] == old(blocks)[x]
      decreases dims, 2
    {
      a := Alloc(ArrayObject(elemType, dims, 0, 0, NULL));
      hide *;
      if dims == 1 {
        o := FillRow(a, elemType, lengths);
      } else {
        o := FillGrid(a, elemType, dims, lengths);
      }
      AddedTo(old(blocks), a, Footprint(o));
    }

    /** The branch of one dimension. */
    method FillRow(a: Addr, elemType: char, lengths: seq<nat>) returns (ghost o: Owned)
      requires |lengths| >= 1 && a in blocks && a != NULL
      modifies this
      ensures o.Row? && a == o.obj && Shape(blocks, o, elemType, 1, lengths)
      ensures a in Footprint(o) && Footprint(o) - {a} !! old(blocks).Keys && NULL !in Footprint(o)
      ensures blocks.Keys == old(blocks).Keys + Footprint(o)
      ensures forall x :: x in old(blocks) && x != a ==> blocks[x] == old(blocks)[x]
    {
      var data := Alloc(RowData(elemType, lengths[0]));
      blocks := blocks[a := ArrayObject(elemType, 1, 1 + lengths[0], lengths[0] as int - 1, data)];
      o := Row(a, data);
    }

    /** The branch of several dimensions. */
    method FillGrid(a: Addr, elemType: char, dims: nat, lengths: seq<nat>) returns (ghost o: Owned)
      requires elemType in ELEMENT_TYPES && 2 <= dims <= |lengths| && a in blocks && a != NULL
      modifies this
      ensures o.Grid? && a == o.obj && Shape(blocks, o, elemType, dims, lengths)
      ensures a in Footprint(o) && Footprint(o) - {a} !! old(blocks).Keys && NULL !in Footprint(o)
      ensures blocks.Keys == old(blocks).Keys + Footprint(o)
      ensures forall x :: x in old(blocks) && x != a ==> blocks[x] == old(blocks)[x]
      decreases dims, 1
    {
      hide KidsFootprint, AllShaped, Shape;
      var n := lengths[dims - 1];
      var data := Alloc(Cells(seq(1 + n, _ => NULL)));
      var id := Alloc(ObjectId);
      blocks := blocks[data := Cells([id] + seq(n, _ => NULL))];
      blocks := blocks[a := ArrayObject(elemType, dims, n, n as int - 1, data)];
      ghost var kids := CreateSubarrays(elemType, dims, lengths, data);
      o := Grid(a, data, id, kids);
      GridShaped(blocks, a, data, id, kids, elemType, dims, lengths);
    }

    method CreateSubarrays(elemType: char, dims: nat, lengths: seq<nat>, data: Addr) returns (ghost kids: seq<Owned>)
      requires elemType in ELEMENT_TYPES && 2 <= dims <= |lengths|
      requires data in blocks && blocks[data].Cells? && |blocks[data].cells| == 1 + lengths[dims - 1]
      modifies this
      ensures |kids| == lengths[dims - 1] && AllShaped(blocks, kids, elemType, dims - 1, lengths)
      ensures KidsFootprint(kids) !! old(blocks).Keys && NULL !in KidsFootprint(kids)
      ensures blocks.Keys == old(blocks).Keys + KidsFootprint(kids)
      ensures forall x :: x in old(blocks) && x != data ==> blocks[x] == old(blocks)[x]
      ensures blocks[data] == Cells([old(blocks)[data].cells[0]] + Roots(kids))
      decreases dims, 0
    {
      hide *;
      var n := lengths[dims - 1];
      ghost var h0, header := blocks, blocks[data].cells[0];
      kids := [];
      NoKids(blocks, elemType, dims - 1, lengths);
      var j := n;
      while j > 0
        invariant 0 <= j <= n && |kids| == n - j
        invariant AllShaped(blocks, kids, elemType, dims - 1, lengths)
        invariant KidsFootprint(kids) !! h0.Keys && NULL !in KidsFootprint(kids)
        invariant blocks.Keys == h0.Keys + KidsFootprint(kids)
        invariant forall x :: x in h0 && x != data ==> blocks[x] == h0[x]
        invariant blocks[data].Cells? && |blocks[data].cells| == 1 + n && blocks[data].cells[0] == header
        invariant blocks[data].cells[1 + j..] == Roots(kids)
      {
        j := j - 1;
        ghost var h1 := blocks;
        var a; ghost var o;
        a, o := Create(elemType, dims - 1, lengths);
        ghost var h2 := blocks;
        blocks := blocks[data := Cells(blocks[data].cells[1 + j := a])];
        OneMoreKid(h1, h2, blocks, o, kids, elemType, dims - 1, lengths, data);
        kids := [o] + kids;
      }
    }

    /** JvmRtDestroyAnArray */
    method Destroy(a: Addr, ghost o: Owned, elemType: char, ghost dims: nat, ghost lengths: seq<nat>)
      requires elemType in ELEMENT_TYPES && dims <= |lengths|
      requires Shape(blocks, o, elemType, dims, lengths) && a == o.obj && NULL !in Footprint(o)
      modifies this
      ensures blocks == old(blocks) - Footprint(o)
      decreases dims, 1
    {
      var arrayObject := blocks[a];
      if arrayObject.dims == 1 {
        if arrayObject.elemType == REF {
          Free(blocks[arrayObject.data].cells[0]);
        }
        Free(arrayObject.data);
      } else {
        DestroySubarrays(arrayObject.data, arrayObject.length, o.kids, elemType, dims, lengths);
        Free(blocks[arrayObject.data].cells[0]);
        Free(arrayObject.data);
      }
      Free(a);
    }

    method DestroySubarrays(data: Addr, length: nat, ghost kids: seq<Owned>, elemType: char, ghost dims: nat,
                            ghost lengths: seq<nat>)
      requires elemType in ELEMENT_TYPES && 2 <= dims <= |lengths| && |kids| == length
      requires AllShaped(blocks, kids, elemType, dims - 1, lengths) && NULL !in KidsFootprint(kids)
      requires data in blocks && data !in KidsFootprint(kids)
      requires blocks[data].Cells? && |blocks[data].cells| == 1 + length && blocks[data].cells[1..] == Roots(kids)
      modifies this
      ensures blocks == old(blocks) - KidsFootprint(kids)
      decreases dims, 0
    {
      hide *;
      ghost var h0: Blocks := blocks;
      var j := length;
      KidsFrom(kids, j);
      while j > 0
        invariant 0 <= j <= length
        invariant blocks == h0 - KidsFootprint(kids[j..])
        invariant data in blocks && blocks[data] == h0[data]
      {
        j := j - 1;
        KidsFrom(kids, j);
        RestKept(h0, blocks, kids, j, elemType, dims - 1, lengths);
        Destroy(blocks[data].cells[1 + j], kids[j], elemType, dims - 1, lengths);
      }
      KidsFrom(kids, 0);
    }
  }

  lemma GridShaped(h: Blocks, obj: Addr, data: Addr, id: Addr, kids: seq<Owned>, elemType: char, dims: nat,
                   lengths: seq<nat>)
    requires 2 <= dims <= |lengths| && obj != data && obj != id && data != id && {obj, data, id} <= h.Keys
    requires h[obj] == ArrayObject(elemType, dims, lengths[dims - 1], lengths[dims - 1] as int - 1, data)
    requires h[data] == Cells([id] + Roots(kids)) && h[id] == ObjectId && |kids| == lengths[dims - 1]
    requires KidsFootprint(kids) !! {obj, data, id} && AllShaped(h, kids, elemType, dims - 1, lengths)
    ensures Shape(h, Grid(obj, data, id, kids), elemType, dims, lengths)
  {
    hide KidsFootprint, AllShaped, Roots;
  }

  lemma AddedTo(h: Blocks, a: Addr, added: set<Addr>)
    requires a !in h && a in added && added - {a} !! h.Keys + {a}
    ensures added !! h.Keys && h.Keys + {a} + added == h.Keys + added
  {
  }

  lemma NoKids(h: Blocks, elemType: char, dims: nat, lengths: seq<nat>)
    requires dims <= |lengths|
    ensures AllShaped(h, [], elemType, dims, lengths) && KidsFootprint([]) == {} && Roots([]) == []
  {
  }

  /** A fresh subarray joins those created before it. */
  lemma OneMoreKid(h1: Blocks, h2: Blocks, h3: Blocks, o: Owned, kids: seq<Owned>, elemType: char, dims: nat,
                   lengths: seq<nat>, data: Addr)
    requires dims <= |lengths| && data in h1 && data !in KidsFootprint(kids)
    requires AllShaped(h1, kids, elemType, dims, lengths) && KidsFootprint(kids) <= h1.Keys
    requires Shape(h2, o, elemType, dims, lengths) && Footprint(o) !! h1.Keys
    requires h2.Keys == h1.Keys + Footprint(o) && forall x :: x in h1 ==> h2[x] == h1[x]
    requires h3.Keys == h2.Keys && forall x :: x in h2 && x != data ==> h3[x] == h2[x]
    ensures AllShaped(h3, [o] + kids, elemType, dims, lengths)
    ensures KidsFootprint([o] + kids) == Footprint(o) + KidsFootprint(kids)
    ensures Roots([o] + kids) == [o.obj] + Roots(kids)
  {
    hide *;
    ConsKids(o, kids);
    AllKept(h1, h3, kids, elemType, dims, lengths);
    ShapeKept(h2, h3, o, elemType, dims, lengths);
    AllJoin(h3, o, kids, elemType, dims, lengths);
  }

  lemma ConsKids(o: Owned, kids: seq<Owned>)
    ensures KidsFootprint([o] + kids) == Footprint(o) + KidsFootprint(kids)
    ensures Roots([o] + kids) == [o.obj] + Roots(kids)
  {
    hide Footprint;
    assert ([o] + kids)[1..] == kids;
  }

  lemma AllJoin(h: Blocks, o: Owned, kids: seq<Owned>, elemType: char, dims: nat, lengths: seq<nat>)
    requires dims <= |lengths| && Shape(h, o, elemType, dims, lengths)
    requires AllShaped(h, kids, elemType, dims, lengths) && Footprint(o) !! KidsFootprint(kids)
    ensures AllShaped(h, [o] + kids, elemType, dims, lengths)
  {
    KidsMembers(kids);
    hide Footprint; hide KidsFootprint; hide Shape;
    var more := [o] + kids;
    forall i, j | 0 <= i < j < |more| ensures Footprint(more[i]) !! Footprint(more[j]) {
      assert more[j] == kids[j - 1];
    }
  }

  lemma KidsFrom(kids: seq<Owned>, j: nat)
    requires j <= |kids|
    ensures KidsFootprint(kids[|kids|..]) == {}
    ensures kids[0..] == kids
    ensures j < |kids| ==> KidsFootprint(kids[j..]) == Footprint(kids[j]) + KidsFootprint(kids[j + 1..])
    ensures |Roots(kids)| == |kids| && forall i :: 0 <= i < |kids| ==> Roots(kids)[i] == kids[i].obj
  {
    hide Footprint;
    if j < |kids| {
      assert kids[j..][1..] == kids[j + 1..];
    }
  }

  /** The subarrays not yet destroyed are still whole, and the next one is apart from those that are gone. */
  lemma RestKept(h: Blocks, g: Blocks, kids: seq<Owned>, j: nat, elemType: char, dims: nat, lengths: seq<nat>)
    requires dims <= |lengths| && j < |kids| && AllShaped(h, kids, elemType, dims, lengths)
    requires g == h - KidsFootprint(kids[j + 1..])
    ensures Shape(g, kids[j], elemType, dims, lengths)
    ensures Footprint(kids[j]) <= KidsFootprint(kids)
    ensures Footprint(kids[j]) !! KidsFootprint(kids[j + 1..])
  {
    hide *;
    OneShaped(h, kids, j, elemType, dims, lengths);
    LaterApart(kids, j);
    ShapeInHeap(h, kids[j], elemType, dims, lengths);
    ShapeKept(h, g, kids[j], elemType, dims, lengths);
  }

  lemma OneShaped(h: Blocks, kids: seq<Owned>, j: nat, elemType: char, dims: nat, lengths: seq<nat>)
    requires dims <= |lengths| && j < |kids| && AllShaped(h, kids, elemType, dims, lengths)
    ensures Shape(h, kids[j], elemType, dims, lengths) && Apart(kids)
    ensures AllShaped(h, kids[j + 1..], elemType, dims, lengths)
  {
    hide Shape; hide Footprint;
  }

  lemma LaterApart(kids: seq<Owned>, j: nat)
    requires j < |kids| && Apart(kids)
    ensures Footprint(kids[j]) <= KidsFootprint(kids)
    ensures Footprint(kids[j]) !! KidsFootprint(kids[j + 1..])
  {
    hide Footprint; hide KidsFootprint;
    KidsMembers(kids);
    KidsMembers(kids[j + 1..]);
  }

  /** How many blocks an array takes: two for a row, and three for each grid around its subarrays. */
  function BlockCount(dims: nat, lengths: seq<nat>): nat
    requires dims <= |lengths|
  {
    if dims == 0 then 0 else if dims == 1 then 2 else 3 + lengths[dims - 1] * BlockCount(dims - 1, lengths)
  }

  lemma {:induction false} CountBlocks(h: Blocks, o: Owned, elemType: char, dims: nat, lengths: seq<nat>)
    requires dims <= |lengths| && Shape(h, o, elemType, dims, lengths)
    ensures |Footprint(o)| == BlockCount(dims, lengths)
    decreases o, 1
  {
    match o
    case Row(obj, data) =>
    case Grid(obj, data, id, kids) =>
      hide KidsFootprint; hide AllShaped;
      CountKids(h, kids, elemType, dims - 1, lengths);
      assert |{obj, data, id}| == 3;
      DisjointSize({obj, data, id}, KidsFootprint(kids));
  }

  lemma {:induction false} CountKids(h: Blocks, kids: seq<Owned>, elemType: char, dims: nat, lengths: seq<nat>)
    requires dims <= |lengths| && AllShaped(h, kids, elemType, dims, lengths)
    ensures |KidsFootprint(kids)| == |kids| * BlockCount(dims, lengths)
    decreases kids, 0
  {
    if kids != [] {
      KidsFrom(kids, 0);
      hide *;
      OneShaped(h, kids, 0, elemType, dims, lengths);
      LaterApart(kids, 0);
      CountBlocks(h, kids[0], elemType, dims, lengths);
      CountKids(h, kids[1..], elemType, dims, lengths);
      DisjointSize(Footprint(kids[0]), KidsFootprint(kids[1..]));
      OneMoreTimes(|kids|, BlockCount(dims, lengths));
    }
  }

  lemma OneMoreTimes(n: nat, c: nat)
    requires n > 0
    ensures n * c == c + (n - 1) * c
  {
  }

  lemma DisjointSize(a: set<Addr>, b: set<Addr>)
    requires a !! b
    ensures |a + b| == |a| + |b|
  {
  }

  /** Creating an array and destroying it leaves the heap as it was: every block it took is freed once. */
  method CreateAndDestroy(heap: Heap, elemType: char, dims: nat, lengths: seq<nat>)
    requires elemType in ELEMENT_TYPES && 1 <= dims <= |lengths|
    modifies heap
    ensures heap.blocks == old(heap.blocks)
  {
    hide *;
    var a; ghost var o;
    a, o := heap.Create(elemType, dims, lengths);
    heap.Destroy(a, o, elemType, dims, lengths);
  }
}
