/** CDClassView::InsertClassHierarchy: the child/sibling tree is read back into a tree control, where the
    children of a class are its superclass and its interfaces. */
module ClassTreeView {
  import opened ClassRegistry
  import opened ClassHierarchy
  import opened ClassCycles
  import opened ClassLoader
  import opened ClassDocument
  import opened Wrappers

  /** An item below the item with this handle; 0 is the control itself. */
  datatype Item = Item(parent: nat, text: string)

  /** The item for a text; there is none for an empty text, and its handle is null. */
  function Own(parent: nat, text: string): seq<Item> {
    if text == "" then [] else [Item(parent, text)]
  }

  function Handle(count: nat, text: string): nat {
    if text == "" then 0 else count + 1
  }

  /** Items get the handles 1, 2, ... and stay behind the items inserted before them. */
  class TreeCtrl {
    var items: seq<Item>

    constructor ()
      ensures items == []
    {
      items := [];
    }

    /** InsertTreeItem: no item, and a null handle, for an empty text. */
    method InsertItem(parent: nat, text: string) returns (handle: nat)
      modifies this`items
      ensures items == old(items) + Own(parent, text) && handle == Handle(|old(items)|, text)
      ensures text == "" ==> items == old(items) && handle == 0
      ensures text != "" ==>
        |items| == |old(items)| + 1 == handle && items[..handle - 1] == old(items) && items[handle - 1] == Item(parent, text)
    {
      if text == "" {
        return 0;
      }
      items := items + [Item(parent, text)];
      handle := |items|;
    }
  }

  /** The text of an item: the class path when there is one, else the class name. */
  function TextFor(name: string, path: Option<string>): string {
    if path.Some? then path.value else name
  }

  /** The texts of a tree of nodes. */
  ghost function Texts(s: Shape): Binary
    reads Nodes(s)`path
  {
    match s
    case Leaf => Nil
    case Branch(node, child, sibling) => Node(TextFor(node.name, node.path), Texts(child), Texts(sibling))
  }

  /** What InsertClassHierarchy adds to a control that has this many items. */
  function Listing(count: nat, parent: nat, b: Binary): seq<Item>
    decreases b
  {
    match b
    case Nil => []
    case Node(name, child, sibling) =>
      var own := Own(parent, name);
      var below := Listing(count + |own|, Handle(count, name), child);
      own + below + Listing(count + |own| + |below|, parent, sibling)
  }

  method InsertClassHierarchy(ctrl: TreeCtrl, root: ClassInfo?, ghost shape: Shape)
    requires At(root, shape) && Proper(shape) && forall m :: m in Nodes(shape) ==> allocated(m)
    modifies ctrl`items, Nodes(shape)`item
    ensures ctrl.items == old(ctrl.items) +
      Listing(|old(ctrl.items)|, if root == null then 0 else old(root.item), Texts(shape))
    decreases shape, 0
  {
    hide At, Proper, Nodes, Texts, Listing, TextFor;
    if root == null {
      NothingAt(shape);
      NilListing(|ctrl.items|, 0);
      return;
    }
    Opened(root, shape);
    TextIs(root);
    ghost var before, parent, texts := ctrl.items, root.item, Texts(shape);
    var str := if root.path.Some? then root.path.value else root.name;
    var hti := ctrl.InsertItem(root.item, str);
    ghost var inserted := ctrl.items;
    InsertLevel(ctrl, root.child, hti, shape.child);
    ghost var descended := ctrl.items;
    InsertLevel(ctrl, root.sibling, root.item, shape.sibling);
    Joined(before, parent, texts, inserted, hti, descended, ctrl.items);
  }

  lemma Joined(before: seq<Item>, parent: nat, texts: Binary, inserted: seq<Item>, hti: nat, descended: seq<Item>,
               after: seq<Item>)
    requires texts.Node?
    requires inserted == before + Own(parent, texts.name) && hti == Handle(|before|, texts.name)
    requires descended == inserted + Listing(|inserted|, hti, texts.child)
    requires after == descended + Listing(|descended|, parent, texts.sibling)
    ensures after == before + Listing(|before|, parent, texts)
  {
    hide *;
    var own, below := Own(parent, texts.name), Listing(|inserted|, hti, texts.child);
    var rest := Listing(|descended|, parent, texts.sibling);
    assert |inserted| == |before| + |own|;
    assert |descended| == |inserted| + |below|;
    ListingAt(|before|, parent, texts, |inserted|, hti, |descended|);
    Stitched(before, own, below, rest, inserted, descended, after, Listing(|before|, parent, texts));
  }

  /** The parts of a listing, at the counts and the handle that an insertion meets. */
  lemma ListingAt(count: nat, parent: nat, b: Binary, inserted: nat, handle: nat, descended: nat)
    requires b.Node? && inserted == count + |Own(parent, b.name)| && handle == Handle(count, b.name)
    requires descended == inserted + |Listing(inserted, handle, b.child)|
    ensures Listing(count, parent, b)
            == Own(parent, b.name) + Listing(inserted, handle, b.child) + Listing(descended, parent, b.sibling)
  {
    hide Own, Handle;
  }

  lemma Stitched(before: seq<Item>, own: seq<Item>, below: seq<Item>, rest: seq<Item>, inserted: seq<Item>,
                 descended: seq<Item>, after: seq<Item>, all: seq<Item>)
    requires inserted == before + own && descended == inserted + below && after == descended + rest
    requires all == own + below + rest
    ensures after == before + all
  {
  }

  /** The recursion on the child or on the sibling, if there is one: it goes below the item given to it. */
  method InsertLevel(ctrl: TreeCtrl, n: ClassInfo?, parent: nat, ghost shape: Shape)
    requires At(n, shape) && Proper(shape) && forall m :: m in Nodes(shape) ==> allocated(m)
    requires n != null ==> n in Nodes(shape)
    modifies ctrl`items, Nodes(shape)`item
    ensures ctrl.items == old(ctrl.items) + Listing(|old(ctrl.items)|, parent, Texts(shape))
    decreases shape, 1
  {
    hide At, Proper, Nodes, Texts, Listing;
    if n == null {
      NothingAt(shape);
      NilListing(|ctrl.items|, parent);
    } else {
      n.item := parent;
      InsertClassHierarchy(ctrl, n, shape);
    }
  }

  lemma TextIs(n: ClassInfo)
    ensures TextFor(n.name, n.path) == if n.path.Some? then n.path.value else n.name
  {
  }

  lemma NilListing(count: nat, parent: nat)
    ensures Listing(count, parent, Texts(Leaf)) == [] == Listing(count, parent, Nil)
  {
  }

  lemma ListingParts(count: nat, parent: nat, b: Binary)
    requires b.Node?
    ensures var own := Own(parent, b.name);
      var below := Listing(count + |own|, Handle(count, b.name), b.child);
      Listing(count, parent, b) == own + below + Listing(count + |own| + |below|, parent, b.sibling)
  {
  }

  lemma NothingAt(shape: Shape)
    requires At(null, shape)
    ensures shape == Leaf
  {
  }

  lemma Opened(root: ClassInfo, shape: Shape)
    requires At(root, shape) && Proper(shape)
    ensures shape.Branch? && shape.node == root
    ensures Texts(shape) == Node(TextFor(root.name, root.path), Texts(shape.child), Texts(shape.sibling))
    ensures At(root.child, shape.child) && At(root.sibling, shape.sibling)
    ensures Proper(shape.child) && Proper(shape.sibling)
    ensures Nodes(shape) == {root} + Nodes(shape.child) + Nodes(shape.sibling)
    ensures root !in Nodes(shape.child) && root !in Nodes(shape.sibling)
    ensures root.child == null <==> shape.child == Leaf
    ensures root.sibling == null <==> shape.sibling == Leaf
    ensures root.child != null ==> root.child in Nodes(shape.child)
    ensures root.sibling != null ==> root.sibling in Nodes(shape.sibling)
  {
  }

  /** The forest a reader sees below an item, counting only the items from this index on. */
  function Shown(items: seq<Item>, parent: nat, from: nat): seq<Rose>
    requires from <= |items|
    decreases |items| - from
  {
    if from == |items| then []
    else if items[from].parent == parent then
      [Rose(items[from].text, Shown(items, from + 1, from + 1))] + Shown(items, parent, from + 1)
    else Shown(items, parent, from + 1)
  }

  /** These are the items from this index on that have this parent, in their order. */
  ghost predicate Children(items: seq<Item>, parent: nat, from: nat, at: seq<nat>) {
    && (forall i :: 0 <= i < |at| ==> from <= at[i] < |items| && items[at[i]].parent == parent)
    && (forall i, j :: 0 <= i < j < |at| ==> at[i] < at[j])
    && (forall k :: from <= k < |items| && items[k].parent == parent ==> k in at)
  }

  function Read(items: seq<Item>, k: nat): Rose
    requires k < |items|
  {
    Rose(items[k].text, Shown(items, k + 1, k + 1))
  }

  /** A reader sees one entry for each item below the parent, in order, with what the item is above. */
  lemma {:induction false} ShownIs(items: seq<Item>, parent: nat, from: nat) returns (at: seq<nat>)
    requires from <= |items|
    ensures Children(items, parent, from, at) && |at| == |Shown(items, parent, from)|
    ensures forall i :: 0 <= i < |at| ==> Shown(items, parent, from)[i] == Read(items, at[i])
    decreases |items| - from
  {
    if from == |items| {
      at := [];
    } else {
      var rest := ShownIs(items, parent, from + 1);
      NextChild(items, parent, from, rest);
      if items[from].parent == parent {
        HeadShown(items, parent, from);
        hide *;
        at := [from] + rest;
        assert forall i :: 0 < i < |at| ==> at[i] == rest[i - 1];
      } else {
        ShownSkips(items, parent, from, from + 1);
        hide *;
        at := rest;
      }
    }
  }

  lemma NextChild(items: seq<Item>, parent: nat, from: nat, rest: seq<nat>)
    requires from < |items| && Children(items, parent, from + 1, rest)
    ensures Children(items, parent, from, if items[from].parent == parent then [from] + rest else rest)
  {
    if items[from].parent == parent {
      var at := [from] + rest;
      forall i | 0 <= i < |at| ensures from <= at[i] < |items| && items[at[i]].parent == parent {
      }
      forall i, j | 0 <= i < j < |at| ensures at[i] < at[j] {
        assert at[j] == rest[j - 1] && (i > 0 ==> at[i] == rest[i - 1]);
      }
      forall k | from <= k < |items| && items[k].parent == parent ensures k in at {
        assert k > from ==> k in rest;
      }
    }
  }

  /** The texts are already in the tree. */
  function Plain(text: string): string {
    text
  }

  ghost predicate Named(b: Binary) {
    b.Node? ==> b.name != "" && Named(b.child) && Named(b.sibling)
  }

  /** The items of a listing hang below the parent or below each other. */
  lemma {:induction false} ListingParents(count: nat, parent: nat, b: Binary)
    requires Named(b)
    ensures forall k :: 0 <= k < |Listing(count, parent, b)| ==>
      var p := Listing(count, parent, b)[k].parent; p == parent || count < p <= count + k
    decreases b
  {
    if b.Node? {
      ListingParents(count + 1, count + 1, b.child);
      var below := Listing(count + 1, count + 1, b.child);
      ListingParents(count + 1 + |below|, parent, b.sibling);
    }
  }

  /** Items below other parents do not show. */
  lemma {:induction false} ShownSkips(items: seq<Item>, parent: nat, from: nat, to: nat)
    requires from <= to <= |items| && forall k :: from <= k < to ==> items[k].parent != parent
    ensures Shown(items, parent, from) == Shown(items, parent, to)
    decreases |items| - from
  {
    if from < to {
      ShownSkips(items, parent, from + 1, to);
    }
  }

  lemma PartSkipped(pre: seq<Item>, part: seq<Item>, post: seq<Item>, parent: nat)
    requires forall k :: 0 <= k < |part| ==> part[k].parent != parent
    ensures Shown(pre + part + post, parent, |pre|) == Shown(pre + part + post, parent, |pre| + |part|)
  {
    hide Shown;
    ShownSkips(pre + part + post, parent, |pre|, |pre| + |part|);
  }

  lemma NothingShown(pre: seq<Item>, part: seq<Item>, parent: nat)
    requires forall k :: 0 <= k < |part| ==> part[k].parent != parent
    ensures Shown(pre + part, parent, |pre|) == []
  {
    ShownSkips(pre + part, parent, |pre|, |pre + part|);
  }

  lemma HeadShown(items: seq<Item>, parent: nat, from: nat)
    requires from < |items| && items[from].parent == parent
    ensures Shown(items, parent, from)
            == [Rose(items[from].text, Shown(items, from + 1, from + 1))] + Shown(items, parent, from + 1)
  {
  }

  lemma Regrouped(before: seq<Item>, own: Item, below: seq<Item>, rest: seq<Item>, after: seq<Item>)
    ensures var items := before + ([own] + below + rest) + after;
      && items == (before + [own]) + below + (rest + after)
      && items == (before + [own] + below) + rest + after
      && items == (before + [own] + below) + (rest + after)
      && |before| < |items| && items[|before|] == own
  {
  }

  /** No item outside this range of handles, or below the parent, is below any of them. */
  ghost predicate Clear(items: seq<Item>, low: nat, high: nat) {
    forall k :: 0 <= k < |items| ==> items[k].parent <= low || high < items[k].parent
  }

  lemma RestClear(start: nat, size: nat, parent: nat, b: Binary, after: seq<Item>)
    requires Named(b) && parent <= start && Clear(after, start, start + size + |Listing(start + size, parent, b)|)
    ensures Clear(Listing(start + size, parent, b) + after, start, start + size)
  {
    hide Listing;
    ListingParents(start + size, parent, b);
  }

  lemma ClearShrinks(items: seq<Item>, low: nat, high: nat, inner: nat)
    requires Clear(items, low, high) && low <= inner <= high
    ensures Clear(items, inner, high)
    ensures low < inner ==> forall k :: 0 <= k < |items| ==> items[k].parent != inner
  {
  }

  lemma BelowElsewhere(start: nat, parent: nat, b: Binary)
    requires Named(b) && parent < start
    ensures forall k :: 0 <= k < |Listing(start, start, b)| ==> Listing(start, start, b)[k].parent != parent
  {
    hide Listing;
    ListingParents(start, start, b);
  }

  lemma ForestThen(b: Binary, behind: seq<Rose>)
    requires b.Node?
    ensures [Rose(b.name, Forest(b.child, Plain))] + (Forest(b.sibling, Plain) + behind) == Forest(b, Plain) + behind
  {
    ForestNode(b.name, b.child, b.sibling, Plain);
    hide Forest;
  }

  /** Reading the inserted items back gives the forest that the child and sibling links stand for. */
  lemma {:induction false} ListingShown(before: seq<Item>, parent: nat, b: Binary, after: seq<Item>)
    requires Named(b) && parent <= |before|
    requires Clear(after, |before|, |before| + |Listing(|before|, parent, b)|)
    ensures var inserted := Listing(|before|, parent, b); var items := before + inserted + after;
      Shown(items, parent, |before|) == Forest(b, Plain) + Shown(items, parent, |before| + |inserted|)
    decreases b
  {
    hide Shown, Listing, Clear, Forest;
    if b.Nil? {
      NilListing(|before|, parent);
      ForestNil(Plain);
      assert before + [] + after == before + after;
    } else {
      var start, own := |before|, Item(parent, b.name);
      ListingParts(start, parent, b);
      var below := Listing(start + 1, start + 1, b.child);
      var rest := Listing(start + 1 + |below|, parent, b.sibling);
      var items := before + ([own] + below + rest) + after;
      Regrouped(before, own, below, rest, after);
      HeadShown(items, parent, start);
      // the child: its forest, and nothing behind it hangs there
      RestClear(start, 1 + |below|, parent, b.sibling, after);
      ClearShrinks(rest + after, start, start + 1 + |below|, start + 1);
      ListingShown(before + [own], start + 1, b.child, rest + after);
      NothingShown(before + [own] + below, rest + after, start + 1);
      assert Shown(items, start + 1, start + 1) == Forest(b.child, Plain);
      // the sibling: the child's items do not hang below the parent
      BelowElsewhere(start + 1, parent, b.child);
      PartSkipped(before + [own], below, rest + after, parent);
      ClearShrinks(after, start, start + 1 + |below| + |rest|, start + 1 + |below|);
      ListingShown(before + [own] + below, parent, b.sibling, after);
      var behind := Shown(items, parent, start + |[own] + below + rest|);
      assert Shown(items, parent, start + 1) == Forest(b.sibling, Plain) + behind;
      ForestThen(b, behind);
    }
  }

  // ---------- the whole way ----------

  /** What is shown for a class, from where its file is. */
  function CaptionFor(locate: Places): Caption {
    name => TextFor(name, PathFor(name, locate(name)))
  }

  /** A class in an archive is shown as its name and the archive's, one in a file by the file's path, another by its
      name. */
  lemma CaptionIs(name: string, locate: Places)
    ensures match locate(name)
      case NotFound => CaptionFor(locate)(name) == name
      case File(path) => CaptionFor(locate)(name) == path
      case Archive(jar) => CaptionFor(locate)(name) == name + " (" + jar + ")"
  {
  }

  /** The names of the tree have texts. */
  predicate Titled(b: Binary, caption: Caption) {
    b.Node? ==> caption(b.name) != "" && Titled(b.child, caption) && Titled(b.sibling, caption)
  }

  /** The texts of nodes placed by the class files are the captions of their names. */
  lemma {:induction false} TextsOf(s: Shape, locate: Places)
    requires forall n :: n in Nodes(s) ==> Placed(n, locate)
    requires Titled(Encoded(s), CaptionFor(locate))
    ensures Named(Texts(s)) && Forest(Texts(s), Plain) == Forest(Encoded(s), CaptionFor(locate))
  {
    hide CaptionFor, TextFor, Placed, Forest, Titled;
    if s.Branch? {
      CaptionOf(s.node, locate);
      TitledNode(s.node.name, Encoded(s.child), Encoded(s.sibling), CaptionFor(locate));
      TextsOf(s.child, locate);
      TextsOf(s.sibling, locate);
      ForestNode(s.node.name, Encoded(s.child), Encoded(s.sibling), CaptionFor(locate));
      ForestNode(TextFor(s.node.name, s.node.path), Texts(s.child), Texts(s.sibling), Plain);
    } else {
      ForestNil(Plain);
      ForestNil(CaptionFor(locate));
    }
  }

  lemma CaptionOf(n: ClassInfo, locate: Places)
    requires Placed(n, locate)
    ensures TextFor(n.name, n.path) == CaptionFor(locate)(n.name)
  {
  }

  lemma TitledNode(name: string, child: Binary, sibling: Binary, caption: Caption)
    requires Titled(Node(name, child, sibling), caption)
    ensures caption(name) != "" && Titled(child, caption) && Titled(sibling, caption)
  {
  }

  lemma ForestNode(name: string, child: Binary, sibling: Binary, caption: Caption)
    ensures Forest(Node(name, child, sibling), caption)
            == [Rose(caption(name), Forest(child, caption))] + Forest(sibling, caption)
  {
  }

  lemma ForestNil(caption: Caption)
    ensures Forest(Nil, caption) == []
  {
  }

  /** The forest of a root alone on its level. */
  lemma RootForest(shape: Shape, root: ClassInfo, below: Binary, locate: Places)
    requires At(root, shape) && Proper(shape) && Encoded(shape) == Node(root.name, below, Nil)
    requires TextFor(root.name, root.path) != "" && Titled(below, CaptionFor(locate))
    requires forall m :: m in Nodes(shape) && m != root ==> Placed(m, locate)
    ensures Named(Texts(shape))
    ensures Forest(Texts(shape), Plain) == [Rose(TextFor(root.name, root.path), Forest(below, CaptionFor(locate)))]
  {
    assert shape.sibling == Leaf;
    TextsOf(shape.child, locate);
  }

  // ---------- items without a text ----------

  /** Every tree of the forest has a text, at all levels. */
  predicate Texted(forest: seq<Rose>)
    decreases forest, 0
  {
    forall i :: 0 <= i < |forest| ==> TextedTree(forest[i])
  }

  predicate TextedTree(tree: Rose)
    decreases tree, 1
  {
    tree.text != "" && Texted(tree.kids)
  }

  /** No item without a text is inserted, so none shows. */
  lemma {:induction false} ListingTexted(count: nat, parent: nat, b: Binary)
    ensures forall k :: 0 <= k < |Listing(count, parent, b)| ==> Listing(count, parent, b)[k].text != ""
    decreases b
  {
    if b.Node? {
      var own := Own(parent, b.name);
      var below := Listing(count + |own|, Handle(count, b.name), b.child);
      ListingTexted(count + |own|, Handle(count, b.name), b.child);
      ListingTexted(count + |own| + |below|, parent, b.sibling);
    }
  }

  lemma {:induction false} ShownTexted(items: seq<Item>, parent: nat, from: nat)
    requires from <= |items| && forall k :: from <= k < |items| ==> items[k].text != ""
    ensures Texted(Shown(items, parent, from))
    decreases |items| - from
  {
    if from < |items| {
      ShownTexted(items, from + 1, from + 1);
      ShownTexted(items, parent, from + 1);
    }
  }

  /** A hierarchy in which everything has a text has one for every class that is loaded. */
  lemma {:induction false} TextedTitled(db: ClassDb, names: seq<string>, depth: nat, caption: Caption, forest: seq<Rose>)
    requires LoadWithin(db, names, depth).Some? && IsHierarchy(db, names, caption, forest) && Texted(forest)
    ensures Titled(LoadWithin(db, names, depth).value, caption)
    decreases depth, |names|
  {
    if names != [] {
      assert IsTree(db, names[0], caption, forest[0]) && TextedTree(forest[0]);
      assert forest == [forest[0]] + forest[1..];
      HierarchyCons(db, names, caption, forest[0], forest[1..]);
      if names[0] !in db {
        UnloadedTitled(db, names, caption, forest);
      } else {
        var linked := LinkedParents(db[names[0]]);
        TextedTitled(db, linked, depth - 1, caption, if linked == [] then [] else forest[0].kids);
        TextedTitled(db, names[1..], depth, caption, forest[1..]);
      }
    }
  }

  lemma {:induction false} UnloadedTitled(db: ClassDb, names: seq<string>, caption: Caption, forest: seq<Rose>)
    requires IsHierarchy(db, names, caption, forest) && Texted(forest)
    ensures Titled(Unloaded(names), caption)
    decreases |names|
  {
    if names != [] {
      assert IsTree(db, names[0], caption, forest[0]) && TextedTree(forest[0]);
      assert forest == [forest[0]] + forest[1..];
      HierarchyCons(db, names, caption, forest[0], forest[1..]);
      UnloadedTitled(db, names[1..], caption, forest[1..]);
    }
  }

  // ---------- opening and showing ----------

  /** What is loaded above a class. */
  ghost function Above(db: ClassDb, name: string): Binary
    requires !Cycle(db, [name])
  {
    LoadEnds(db, [name]);
    LoadWithin(db, [name], |db|).value.child
  }

  /** Nothing is cut off above the class, and everything that is shown has a text. */
  ghost predicate Showable(db: ClassDb, locate: Places, name: string, text: string)
    requires !Cycle(db, [name])
  {
    LoadEnds(db, [name]);
    NothingCutOff(db, [name], |db|) && text != "" && Titled(Above(db, name), CaptionFor(locate))
  }

  /** A reader sees the class with this text, and below it its whole hierarchy. */
  predicate WholeShown(db: ClassDb, locate: Places, name: string, text: string, shown: seq<Rose>) {
    && |shown| == 1 && shown[0].text == text
    && IsHierarchy(db, ParentsOf(db, name), CaptionFor(locate), shown[0].kids)
  }

  /** Opening a class and showing it below an item: the reader sees the whole hierarchy exactly when nothing is
      cut off and everything has a text. */
  method ShowHierarchy(reg: Registry, ctrl: TreeCtrl, db: ClassDb, locate: Places, name: string, path: Option<string>,
                       top: nat)
    returns (ok: bool, root: ClassInfo)
    requires reg.Valid() && !Cycle(db, [name]) && top <= |ctrl.items|
    modifies reg`list, reg`nodes, reg`clock, ctrl`items
    ensures reg.Valid() && (ok <==> name in db)
    ensures !ok ==> ctrl.items == old(ctrl.items)
    ensures ok ==> old(ctrl.items) <= ctrl.items
    ensures ok ==>
      (WholeShown(db, locate, name, TextFor(name, path), Shown(ctrl.items, top, |old(ctrl.items)|))
       <==> Showable(db, locate, name, TextFor(name, path)))
    ensures ok && Resolvable(db, [name]) ==>
      (WholeShown(db, locate, name, TextFor(name, path), Shown(ctrl.items, top, |old(ctrl.items)|))
       <==> TextFor(name, path) != "" && Titled(Above(db, name), CaptionFor(locate)))
    ensures ok && Showable(db, locate, name, TextFor(name, path)) ==>
      var def, shown := db[name], Shown(ctrl.items, top, |old(ctrl.items)|);
      && |shown| == 1 && shown[0].text == (if path.Some? then path.value else name)
      && (def.superclass.Some? ==>
            && |shown[0].kids| == 1 + |def.interfaces|
            && shown[0].kids[0].text == CaptionFor(locate)(def.superclass.value)
            && forall k :: 0 <= k < |def.interfaces| ==>
                 shown[0].kids[1 + k].text == CaptionFor(locate)(def.interfaces[k]))
  {
    hide Registry.Valid, At, LoadedOnce, Encoded, Proper, LoadWithin, Cycle, Listing, Shown, Nodes, Texts, Placed;
    hide Showable, WholeShown, Titled, Above, Resolvable;
    ghost var shape;
    ok, root, shape := Open(reg, db, locate, name, path);
    if ok {
      root.item := top;
      InsertClassHierarchy(ctrl, root, shape);
      ShownExactly(db, locate, root, shape, old(ctrl.items), top);
      if Showable(db, locate, name, TextFor(name, path)) {
        ShownInOrder(db, locate, name, TextFor(name, path), Shown(ctrl.items, top, |old(ctrl.items)|));
      }
      TextIs(root);
      if Resolvable(db, [name]) {
        ShowableIs(db, locate, name, TextFor(name, path));
        ResolvableNotCutOff(db, [name], |db|);
      }
    }
  }

  lemma ShownInOrder(db: ClassDb, locate: Places, name: string, text: string, shown: seq<Rose>)
    requires name in db && WholeShown(db, locate, name, text, shown)
    ensures |shown| == 1 && shown[0].text == text
    ensures var def := db[name];
      def.superclass.Some? ==>
        && |shown[0].kids| == 1 + |def.interfaces|
        && shown[0].kids[0].text == CaptionFor(locate)(def.superclass.value)
        && forall k :: 0 <= k < |def.interfaces| ==> shown[0].kids[1 + k].text == CaptionFor(locate)(def.interfaces[k])
  {
    hide IsHierarchy, CaptionFor;
    KidTexts(db, name, CaptionFor(locate), shown[0].kids);
  }

  /** The items that were added show the hierarchy exactly when they can. */
  lemma ShownExactly(db: ClassDb, locate: Places, root: ClassInfo, shape: Shape, before: seq<Item>, top: nat)
    requires !Cycle(db, [root.name]) && root.name in db && top <= |before|
    requires At(root, shape) && Proper(shape) && LoadWithin(db, [root.name], |db|) == Some(Encoded(shape))
    requires forall m :: m in Nodes(shape) && m != root ==> Placed(m, locate)
    ensures var text := TextFor(root.name, root.path);
      WholeShown(db, locate, root.name, text, Shown(before + Listing(|before|, top, Texts(shape)), top, |before|))
      <==> Showable(db, locate, root.name, text)
  {
    hide *;
    var text, caption := TextFor(root.name, root.path), CaptionFor(locate);
    var listing := Listing(|before|, top, Texts(shape));
    var shown := Shown(before + listing, top, |before|);
    LoadedOne(db, root.name);
    if WholeShown(db, locate, root.name, text, shown) {
      ListingTexted(|before|, top, Texts(shape));
      ShownTexted(before + listing, top, |before|);
      WholeTitled(db, locate, root.name, text, shown);
    }
    if text != "" && Titled(Above(db, root.name), caption) {
      RootForest(shape, root, Above(db, root.name), locate);
      ReadBack(before, top, Texts(shape));
      assert shown == [Rose(text, Forest(Above(db, root.name), caption))];
      BelowShown(db, root.name, caption);
      WholeIs(db, locate, root.name, text, Forest(Above(db, root.name), caption));
    }
    ShowableIs(db, locate, root.name, text);
  }

  lemma ShowableIs(db: ClassDb, locate: Places, name: string, text: string)
    requires !Cycle(db, [name])
    ensures LoadWithin(db, [name], |db|).Some?
    ensures Showable(db, locate, name, text)
            <==> NothingCutOff(db, [name], |db|) && text != "" && Titled(Above(db, name), CaptionFor(locate))
  {
    hide Cycle, LoadWithin, Titled;
    LoadEnds(db, [name]);
  }

  lemma WholeIs(db: ClassDb, locate: Places, name: string, text: string, kids: seq<Rose>)
    ensures WholeShown(db, locate, name, text, [Rose(text, kids)])
            <==> IsHierarchy(db, ParentsOf(db, name), CaptionFor(locate), kids)
  {
  }

  /** What is loaded for one class, and above it. */
  lemma LoadedOne(db: ClassDb, name: string)
    requires !Cycle(db, [name]) && name in db
    ensures |db| > 0 && LoadWithin(db, LinkedParents(db[name]), |db| - 1) == Some(Above(db, name))
    ensures LoadWithin(db, [name], |db|) == Some(Node(name, Above(db, name), Nil))
  {
    hide Cycle;
    LoadEnds(db, [name]);
    assert [name][1..] == [];
  }

  lemma WholeTitled(db: ClassDb, locate: Places, name: string, text: string, shown: seq<Rose>)
    requires !Cycle(db, [name]) && name in db
    requires WholeShown(db, locate, name, text, shown) && Texted(shown)
    ensures text != "" && Titled(Above(db, name), CaptionFor(locate))
  {
    hide Cycle, LoadWithin, Above, IsHierarchy, Titled, CaptionFor;
    LoadedOne(db, name);
    assert TextedTree(shown[0]);
    var linked := LinkedParents(db[name]);
    NoKidsShown(db, [], CaptionFor(locate));
    TextedTitled(db, linked, |db| - 1, CaptionFor(locate), if linked == [] then [] else shown[0].kids);
  }

  /** What is shown below one class is its hierarchy exactly when nothing is cut off. */
  lemma BelowShown(db: ClassDb, name: string, caption: Caption)
    requires !Cycle(db, [name]) && name in db
    ensures LoadWithin(db, [name], |db|).Some?
    ensures IsHierarchy(db, ParentsOf(db, name), caption, Forest(Above(db, name), caption))
            <==> NothingCutOff(db, [name], |db|)
  {
    hide Cycle, Above, IsHierarchy;
    LoadedOne(db, name);
    var def := db[name];
    assert [name][1..] == [];
    assert NothingCutOff(db, [], |db|);
    HierarchyShown(db, LinkedParents(def), |db| - 1, caption);
    if def.superclass.None? {
      assert Parents(def) == def.interfaces;
      NoKidsShown(db, def.interfaces, caption);
    }
  }

  lemma ReadBack(before: seq<Item>, parent: nat, b: Binary)
    requires Named(b) && parent <= |before|
    ensures Shown(before + Listing(|before|, parent, b), parent, |before|) == Forest(b, Plain)
  {
    hide Listing;
    var inserted := Listing(|before|, parent, b);
    ListingShown(before, parent, b, []);
    assert before + inserted + [] == before + inserted;
  }
}
