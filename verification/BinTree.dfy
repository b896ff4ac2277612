/** The tree of bintree.c as a value, and what a sequence of additions makes of it. */
module TreeModel {
  import opened Wrappers

  type Entry = (nat, nat)  // key and value

  datatype Tree = Leaf | Node(left: Tree, key: nat, val: nat, right: Tree)

  /** add_node: equal keys go to the right. */
  function Insert(t: Tree, key: nat, val: nat): Tree {
    match t
    case Leaf => Node(Leaf, key, val, Leaf)
    case Node(l, k, v, r) => if key >= k then Node(l, k, v, Insert(r, key, val)) else Node(Insert(l, key, val), k, v, r)
  }

  /** search_node */
  function Search(t: Tree, key: nat): Option<nat> {
    match t
    case Leaf => None
    case Node(l, k, v, r) => if k == key then Some(v) else if key > k then Search(r, key) else Search(l, key)
  }

  function InOrder(t: Tree): seq<Entry> {
    match t
    case Leaf => []
    case Node(l, k, v, r) => InOrder(l) + [(k, v)] + InOrder(r)
  }

  function PreOrder(t: Tree): seq<Entry> {
    match t
    case Leaf => []
    case Node(l, k, v, r) => [(k, v)] + PreOrder(l) + PreOrder(r)
  }

  function PostOrder(t: Tree): seq<Entry> {
    match t
    case Leaf => []
    case Node(l, k, v, r) => PostOrder(l) + PostOrder(r) + [(k, v)]
  }

  /** The tree after these additions, the earliest first. */
  function Build(adds: seq<Entry>): Tree
    decreases |adds|
  {
    if adds == [] then Leaf
    else
      var last := adds[|adds| - 1];
      Insert(Build(adds[..|adds| - 1]), last.0, last.1)
  }

  /** left < node <= right, everywhere */
  ghost predicate Ordered(t: Tree) {
    match t
    case Leaf => true
    case Node(l, k, _, r) =>
      && Ordered(l) && Ordered(r)
      && (forall i :: 0 <= i < |InOrder(l)| ==> InOrder(l)[i].0 < k)
      && (forall i :: 0 <= i < |InOrder(r)| ==> k <= InOrder(r)[i].0)
  }

  /** The entries with this key, in order. */
  function WithKey(s: seq<Entry>, key: nat): seq<Entry> {
    if s == [] then [] else if s[0].0 == key then [s[0]] + WithKey(s[1..], key) else WithKey(s[1..], key)
  }

  ghost predicate Sorted(s: seq<Entry>) {
    forall i, j :: 0 <= i < j < |s| ==> s[i].0 <= s[j].0
  }

  /** Sorted by key, and entries with equal keys in their original order. */
  ghost predicate IsStableSort(s: seq<Entry>, original: seq<Entry>) {
    Sorted(s) && forall k :: WithKey(s, k) == WithKey(original, k)
  }

  lemma {:induction false} WithKeyAppend(a: seq<Entry>, b: seq<Entry>, key: nat)
    ensures WithKey(a + b, key) == WithKey(a, key) + WithKey(b, key)
  {
    if a == [] {
      assert a + b == b;
    } else {
      assert (a + b)[1..] == a[1..] + b;
      WithKeyAppend(a[1..], b, key);
    }
  }

  lemma {:induction false} WithKeyAbsent(s: seq<Entry>, key: nat)
    requires forall i :: 0 <= i < |s| ==> s[i].0 != key
    ensures WithKey(s, key) == []
  {
    if s != [] {
      WithKeyAbsent(s[1..], key);
    }
  }

  lemma {:induction false} WithKeyPresent(s: seq<Entry>, i: nat)
    requires i < |s|
    ensures s[i] in WithKey(s, s[i].0)
  {
    if i > 0 {
      WithKeyPresent(s[1..], i - 1);
    }
  }

  lemma {:induction false} WithKeyMembers(s: seq<Entry>, key: nat)
    ensures forall e :: e in WithKey(s, key) ==> e in s && e.0 == key
  {
    if s != [] {
      WithKeyMembers(s[1..], key);
    }
  }

  lemma WithKeyOne(e: Entry, key: nat)
    ensures WithKey([e], key) == if e.0 == key then [e] else []
  {
    assert [e][1..] == [];
  }

  lemma NodeWithKey(l: Tree, k: nat, v: nat, r: Tree, j: nat)
    ensures WithKey(InOrder(Node(l, k, v, r)), j)
            == WithKey(InOrder(l), j) + (if k == j then [(k, v)] else []) + WithKey(InOrder(r), j)
  {
    WithKeyAppend(InOrder(l) + [(k, v)], InOrder(r), j);
    WithKeyAppend(InOrder(l), [(k, v)], j);
    WithKeyOne((k, v), j);
  }

  /** The new entry comes behind all entries with its key; the other keys are untouched. */
  lemma {:induction false} InsertWithKey(t: Tree, key: nat, val: nat, j: nat)
    requires Ordered(t)
    ensures WithKey(InOrder(Insert(t, key, val)), j)
            == WithKey(InOrder(t), j) + (if j == key then [(key, val)] else [])
  {
    match t
    case Leaf =>
      NodeWithKey(Leaf, key, val, Leaf, j);
    case Node(l, k, v, r) =>
      NodeWithKey(l, k, v, r, j);
      if key >= k {
        NodeWithKey(l, k, v, Insert(r, key, val), j);
        InsertWithKey(r, key, val, j);
      } else {
        NodeWithKey(Insert(l, key, val), k, v, r, j);
        InsertWithKey(l, key, val, j);
        if j == key {
          WithKeyAbsent(InOrder(r), j);
        }
      }
  }

  /** The listing gains one entry somewhere. */
  lemma {:induction false} InsertListing(t: Tree, key: nat, val: nat) returns (i: nat)
    ensures i <= |InOrder(t)|
    ensures InOrder(Insert(t, key, val)) == InOrder(t)[..i] + [(key, val)] + InOrder(t)[i..]
  {
    match t
    case Leaf => i := 0;
    case Node(l, k, v, r) =>
      if key >= k {
        var j := InsertListing(r, key, val);
        i := |InOrder(l)| + 1 + j;
        assert InOrder(t)[..i] == InOrder(l) + [(k, v)] + InOrder(r)[..j];
        assert InOrder(t)[i..] == InOrder(r)[j..];
      } else {
        i := InsertListing(l, key, val);
        assert InOrder(t)[..i] == InOrder(l)[..i];
        assert InOrder(t)[i..] == InOrder(l)[i..] + [(k, v)] + InOrder(r);
      }
  }

  lemma InsertKeys(t: Tree, key: nat, val: nat)
    ensures forall i :: 0 <= i < |InOrder(Insert(t, key, val))| ==>
              InOrder(Insert(t, key, val))[i].0 == key || InOrder(Insert(t, key, val))[i] in InOrder(t)
  {
    var at := InsertListing(t, key, val);
  }

  lemma {:induction false} InsertOrdered(t: Tree, key: nat, val: nat)
    requires Ordered(t)
    ensures Ordered(Insert(t, key, val))
  {
    match t
    case Leaf =>
    case Node(l, k, v, r) =>
      if key >= k {
        InsertOrdered(r, key, val);
        InsertKeys(r, key, val);
      } else {
        InsertOrdered(l, key, val);
        InsertKeys(l, key, val);
      }
  }

  lemma {:induction false} OrderedSorted(t: Tree)
    requires Ordered(t)
    ensures Sorted(InOrder(t))
  {
    match t
    case Leaf =>
    case Node(l, k, v, r) =>
      OrderedSorted(l);
      OrderedSorted(r);
  }

  /** After any additions the tree is ordered and its in-order listing is their stable sort by key. */
  lemma {:induction false} BuildSorts(adds: seq<Entry>)
    ensures Ordered(Build(adds)) && IsStableSort(InOrder(Build(adds)), adds)
    decreases |adds|
  {
    if adds != [] {
      var init, last := adds[..|adds| - 1], adds[|adds| - 1];
      assert adds == init + [last];
      BuildSorts(init);
      InsertOrdered(Build(init), last.0, last.1);
      forall k ensures WithKey(InOrder(Build(adds)), k) == WithKey(adds, k) {
        InsertWithKey(Build(init), last.0, last.1, k);
        WithKeyAppend(init, [last], k);
        WithKeyOne(last, k);
      }
    }
    OrderedSorted(Build(adds));
  }

  /** There is only one stable sort. */
  lemma {:induction false} StableSortUnique(a: seq<Entry>, b: seq<Entry>, original: seq<Entry>)
    requires IsStableSort(a, original) && IsStableSort(b, original)
    ensures a == b
  {
    SameListing(a, b);
  }

  lemma WithKeyFirst(s: seq<Entry>)
    ensures s != [] ==> WithKey(s, s[0].0) != [] && WithKey(s, s[0].0)[0] == s[0]
  {
  }

  lemma WithKeyTail(s: seq<Entry>, key: nat)
    requires s != []
    ensures s[0].0 == key ==> WithKey(s, key) != [] && WithKey(s[1..], key) == WithKey(s, key)[1..]
    ensures s[0].0 != key ==> WithKey(s[1..], key) == WithKey(s, key)
  {
  }

  lemma {:induction false} SameListing(a: seq<Entry>, b: seq<Entry>)
    requires Sorted(a) && Sorted(b) && forall k :: WithKey(a, k) == WithKey(b, k)
    ensures a == b
    decreases |a|
  {
    WithKeyFirst(a);
    WithKeyFirst(b);
    if a != [] {
      WithKeyMembers(b, a[0].0);
      assert a[0] in b;
      WithKeyMembers(a, b[0].0);
      assert b[0] in a;
      assert a[0].0 == b[0].0;
      assert WithKey(a, a[0].0)[0] == a[0] && WithKey(b, b[0].0)[0] == b[0];
      forall k: nat ensures WithKey(a[1..], k) == WithKey(b[1..], k) {
        assert WithKey(a, k) == WithKey(b, k);
        WithKeyTail(a, k);
        WithKeyTail(b, k);
      }
      SameListing(a[1..], b[1..]);
    }
  }

  lemma {:induction false} SearchFirst(t: Tree, key: nat)
    requires Ordered(t)
    ensures var found := WithKey(InOrder(t), key);
      Search(t, key) == if found == [] then None else Some(found[0].1)
  {
    match t
    case Leaf =>
    case Node(l, k, v, r) =>
      NodeWithKey(l, k, v, r, key);
      if key <= k {
        if key < k {
          WithKeyAbsent(InOrder(r), key);
        } else {
          WithKeyAbsent(InOrder(l), key);
        }
        SearchFirst(l, key);
      } else {
        WithKeyAbsent(InOrder(l), key);
        SearchFirst(r, key);
      }
  }

  /** A search returns the value of the earliest addition with the key. */
  lemma SearchEarliest(adds: seq<Entry>, key: nat)
    ensures Search(Build(adds), key)
            == if WithKey(adds, key) == [] then None else Some(WithKey(adds, key)[0].1)
  {
    BuildSorts(adds);
    SearchFirst(Build(adds), key);
  }

  /** All three traversals visit the same entries. */
  lemma {:induction false} TraversalsAgree(t: Tree)
    ensures multiset(PreOrder(t)) == multiset(InOrder(t)) == multiset(PostOrder(t))
  {
    match t
    case Leaf =>
    case Node(l, k, v, r) =>
      TraversalsAgree(l);
      TraversalsAgree(r);
  }

  /** The root comes first in pre-order, last in post-order, and between the smaller keys and the others in order;
      in each of the three the smaller keys come before the others. */
  lemma RootPlace(t: Tree) returns (n: nat)
    requires Ordered(t) && t.Node?
    ensures n < |InOrder(t)| == |PreOrder(t)| == |PostOrder(t)|
    ensures PreOrder(t)[0] == PostOrder(t)[|PostOrder(t)| - 1] == InOrder(t)[n] == (t.key, t.val)
    ensures forall i :: 0 <= i < n ==>
      InOrder(t)[i].0 < t.key && PreOrder(t)[1 + i].0 < t.key && PostOrder(t)[i].0 < t.key
    ensures forall i :: n <= i < |InOrder(t)| - 1 ==>
      t.key <= InOrder(t)[1 + i].0 && t.key <= PreOrder(t)[1 + i].0 && t.key <= PostOrder(t)[i].0
  {
    n := |InOrder(t.left)|;
    SameMembers(t.left);
    SameMembers(t.right);
    forall i | 0 <= i < n ensures PreOrder(t.left)[i].0 < t.key && PostOrder(t.left)[i].0 < t.key {
      assert PreOrder(t.left)[i] in InOrder(t.left) && PostOrder(t.left)[i] in InOrder(t.left);
    }
    forall i | 0 <= i < |InOrder(t.right)| ensures t.key <= PreOrder(t.right)[i].0 && t.key <= PostOrder(t.right)[i].0 {
      assert PreOrder(t.right)[i] in InOrder(t.right) && PostOrder(t.right)[i] in InOrder(t.right);
    }
  }

  lemma SameMembers(t: Tree)
    ensures |InOrder(t)| == |PreOrder(t)| == |PostOrder(t)|
    ensures forall e :: e in PreOrder(t) || e in PostOrder(t) ==> e in InOrder(t)
  {
    TraversalsAgree(t);
    var a, b, c := InOrder(t), PreOrder(t), PostOrder(t);
    assert |multiset(a)| == |a| && |multiset(b)| == |b| && |multiset(c)| == |c|;
    forall e | e in b || e in c ensures e in a {
      assert e in multiset(b) || e in multiset(c);
    }
  }

  /** Three keys in all three orders. */
  lemma TraversalSample()
    ensures var t := Build([(2, 7), (1, 8), (3, 9)]);
      && PreOrder(t) == [(2, 7), (1, 8), (3, 9)] && InOrder(t) == [(1, 8), (2, 7), (3, 9)]
      && PostOrder(t) == [(1, 8), (3, 9), (2, 7)]
  {
    var adds: seq<Entry> := [(2, 7), (1, 8), (3, 9)];
    assert adds[..2] == [(2, 7), (1, 8)] && adds[..2][..1] == [(2, 7)] && adds[..2][..1][..0] == [];
    assert Build(adds[..2][..1]) == Node(Leaf, 2, 7, Leaf);
    assert Build(adds[..2]) == Node(Node(Leaf, 1, 8, Leaf), 2, 7, Leaf);
    assert Build(adds) == Node(Node(Leaf, 1, 8, Leaf), 2, 7, Node(Leaf, 3, 9, Leaf));
  }
}

/** bintree.c on linked nodes. */
module BinTree {
  import opened TreeModel
  import opened Wrappers

  class TreeNode {
    var left: TreeNode?
    var right: TreeNode?
    const key: nat
    const val: nat
    ghost var repr: set<TreeNode>
    ghost var model: Tree

    /** What the node and the roots below it say. */
    ghost predicate Local()
      reads this, left, right
    {
      && this in repr
      && (left != null ==> left in repr) && (right != null ==> right in repr)
      && repr == {this} + Repr(left) + Repr(right)
      && this !in Repr(left) && this !in Repr(right) && Repr(left) !! Repr(right)
      && model == Node(Model(left), key, val, Model(right))
    }

    ghost predicate Valid()
      reads this, repr
      decreases repr
    {
      && this in repr
      && (left != null ==> left in repr && left.repr < repr)
      && (right != null ==> right in repr && right.repr < repr)
      && Local()
      && (left != null ==> left.Valid()) && (right != null ==> right.Valid())
    }

    /** get_new_node */
    constructor (key: nat, val: nat)
      ensures Valid() && repr == {this} && left == null && right == null
      ensures this.key == key && this.val == val
    {
      this.key, this.val, left, right := key, val, null, null;
      repr, model := {this}, Node(Leaf, key, val, Leaf);
    }
  }

  ghost function Repr(n: TreeNode?): set<TreeNode>
    reads n
  {
    if n == null then {} else n.repr
  }

  ghost function Model(n: TreeNode?): Tree
    reads n
  {
    if n == null then Leaf else n.model
  }

  /** add_node for a tree that is not empty; the empty one is the first branch of Add. */
  method AddNode(root: TreeNode, node: TreeNode)
    requires root.Valid() && node.Valid() && node.repr == {node} && node !in root.repr
    modifies root.repr
    ensures root.Valid() && root.repr == old(root.repr) + {node}
    ensures root.model == Insert(old(root.model), node.key, node.val)
    decreases root.repr, 1
  {
    OpenValid(root);
    hide TreeNode.Valid; hide Opened; hide Insert;
    if node.key >= root.key {
      AddRight(root, node);
    } else {
      AddLeft(root, node);
    }
  }

  /** The node goes into the subtree, or becomes it. */
  method AddBelow(sub: TreeNode?, node: TreeNode) returns (sub': TreeNode)
    requires (sub != null ==> sub.Valid()) && node.Valid() && node.repr == {node} && node !in Repr(sub)
    modifies Repr(sub)
    ensures sub'.Valid() && sub'.repr == old(Repr(sub)) + {node}
    ensures sub'.model == Insert(old(Model(sub)), node.key, node.val)
    decreases Repr(sub), 2
  {
    if sub == null {
      NodeModel(node);
      return node;
    }
    hide TreeNode.Valid, Insert;
    AddNode(sub, node);
    return sub;
  }

  method AddRight(root: TreeNode, node: TreeNode)
    requires Opened(root) && node.Valid() && node.repr == {node} && node !in root.repr
    requires node.key >= root.key
    modifies root.repr
    ensures root.Valid() && root.repr == old(root.repr) + {node}
    ensures root.model == Insert(old(root.model), node.key, node.val)
    decreases root.repr, 0
  {
    OpenedParts(root);
    InsertRight(root.model, node.key, node.val);
    OneMore(root, Repr(root.left), Repr(root.right), node);
    hide *;
    root.right := AddBelow(root.right, node);
    Refresh(root);
  }

  method AddLeft(root: TreeNode, node: TreeNode)
    requires Opened(root) && node.Valid() && node.repr == {node} && node !in root.repr
    requires node.key < root.key
    modifies root.repr
    ensures root.Valid() && root.repr == old(root.repr) + {node}
    ensures root.model == Insert(old(root.model), node.key, node.val)
    decreases root.repr, 0
  {
    OpenedParts(root);
    InsertLeft(root.model, node.key, node.val);
    OneMore(root, Repr(root.left), Repr(root.right), node);
    hide *;
    root.left := AddBelow(root.left, node);
    Refresh(root);
  }

  lemma OneMore(n: TreeNode, l: set<TreeNode>, r: set<TreeNode>, node: TreeNode)
    ensures {n} + (l + {node}) + r == {n} + l + r + {node} == {n} + l + (r + {node})
  {
  }

  ghost predicate Opened(n: TreeNode)
    reads n, n.left, n.right, Repr(n.left), Repr(n.right)
  {
    n.Local() && (n.left != null ==> n.left.Valid()) && (n.right != null ==> n.right.Valid())
  }

  lemma OpenedParts(n: TreeNode)
    requires Opened(n)
    ensures n.repr == {n} + Repr(n.left) + Repr(n.right) && n.model == Node(Model(n.left), n.key, n.val, Model(n.right))
    ensures n !in Repr(n.left) && n !in Repr(n.right) && Repr(n.left) !! Repr(n.right)
    ensures n.left != null ==> n.left.Valid() && n.left in n.left.repr
    ensures n.right != null ==> n.right.Valid() && n.right in n.right.repr
  {
  }

  lemma InRepr(n: TreeNode?)
    requires n != null ==> n.Valid()
    ensures n != null ==> n in n.repr
  {
  }

  /** Brings the ghost fields of a root up to date after one of its subtrees has changed. */
  ghost method Refresh(root: TreeNode)
    requires (root.left != null ==> root.left.Valid()) && root !in Repr(root.left)
    requires (root.right != null ==> root.right.Valid()) && root !in Repr(root.right)
    requires Repr(root.left) !! Repr(root.right)
    modifies root`repr, root`model
    ensures root.Valid()
    ensures root.repr == {root} + old(Repr(root.left)) + old(Repr(root.right))
    ensures root.model == Node(old(Model(root.left)), root.key, root.val, old(Model(root.right)))
  {
    hide TreeNode.Valid;
    InRepr(root.left);
    InRepr(root.right);
    root.repr := {root} + Repr(root.left) + Repr(root.right);
    root.model := Node(Model(root.left), root.key, root.val, Model(root.right));
    CloseValid(root);
  }

  lemma OpenValid(n: TreeNode)
    requires n.Valid()
    ensures Opened(n)
  {
  }

  lemma CloseValid(n: TreeNode)
    requires Opened(n)
    ensures n.Valid()
  {
    assert n.left != null ==> n !in n.left.repr;
    assert n.right != null ==> n !in n.right.repr;
  }

  lemma InsertRight(t: Tree, key: nat, val: nat)
    requires t.Node? && key >= t.key
    ensures Insert(t, key, val) == Node(t.left, t.key, t.val, Insert(t.right, key, val))
    ensures Insert(Leaf, key, val) == Node(Leaf, key, val, Leaf)
  {
  }

  lemma InsertLeft(t: Tree, key: nat, val: nat)
    requires t.Node? && key < t.key
    ensures Insert(t, key, val) == Node(Insert(t.left, key, val), t.key, t.val, t.right)
    ensures Insert(Leaf, key, val) == Node(Leaf, key, val, Leaf)
  {
  }

  lemma NodeModel(node: TreeNode)
    requires node.Valid() && node.repr == {node}
    ensures node.model == Node(Leaf, node.key, node.val, Leaf)
  {
    assert node.left == null && node.right == null;
  }

  /** search_node with no parent pointer asked for. */
  method SearchNode(root: TreeNode?, key: nat) returns (found: TreeNode?)
    requires root != null ==> root.Valid()
    ensures found == null <==> Search(Model(root), key) == None
    ensures found != null ==> found in Repr(root) && found.key == key && Search(Model(root), key) == Some(found.val)
    decreases Repr(root)
  {
    found := null;
    if root == null {
      return null;
    }
    if root.key == key {
      return root;
    }
    if key > root.key {
      if root.right != null {
        found := SearchNode(root.right, key);
      }
    } else {
      if root.left != null {
        found := SearchNode(root.left, key);
      }
    }
  }

  datatype Order = Pre | In | Post

  function Listing(order: Order, t: Tree): seq<Entry> {
    match order
    case Pre => PreOrder(t)
    case In => InOrder(t)
    case Post => PostOrder(t)
  }

  function Keys(s: seq<Entry>): (ks: seq<nat>)
    ensures |ks| == |s| && forall i :: 0 <= i < |s| ==> ks[i] == s[i].0
  {
    seq(|s|, i requires 0 <= i < |s| => s[i].0)
  }

  lemma KeysAppend(a: seq<Entry>, b: seq<Entry>)
    ensures Keys(a + b) == Keys(a) + Keys(b)
  {
  }

  lemma KeysOfNode(order: Order, t: Tree)
    requires t.Node?
    ensures var l, r := Keys(Listing(order, t.left)), Keys(Listing(order, t.right));
      Keys(Listing(order, t)) == match order
        case Pre => [t.key] + l + r
        case In => l + [t.key] + r
        case Post => l + r + [t.key]
  {
    var l, r, e := Listing(order, t.left), Listing(order, t.right), [(t.key, t.val)];
    assert Keys(e) == [t.key];
    match order {
      case Pre =>
        KeysAppend(e + l, r);
        KeysAppend(e, l);
      case In =>
        KeysAppend(l + e, r);
        KeysAppend(l, e);
      case Post =>
        KeysAppend(l + r, e);
        KeysAppend(l, r);
    }
  }

  /** traverse_pre_order, traverse_in_order and traverse_post_order: visited is what the action was called
      with. The result code tells whether there was a node at all. */
  method Traverse(order: Order, root: TreeNode?) returns (visited: seq<nat>, code: int)
    requires root != null ==> root.Valid()
    ensures visited == Keys(Listing(order, Model(root)))
    ensures code == if root == null then 0 else 1
    decreases Repr(root)
  {
    if root == null {
      return [], 0;
    }
    OpenValid(root);
    hide Keys; hide Listing; hide TreeNode.Valid;
    var lefts, _ := Traverse(order, root.left);
    var rights, _ := Traverse(order, root.right);
    match order {
      case Pre => visited := [root.key] + lefts + rights;
      case In => visited := lefts + [root.key] + rights;
      case Post => visited := lefts + rights + [root.key];
    }
    code := 1;
    KeysOfNode(order, root.model);
  }

  /** bin_tree_t with the history of its additions. */
  class SearchTree {
    var root: TreeNode?
    const invalid: nat
    ghost var adds: seq<Entry>

    ghost predicate Valid()
      reads this, root, Repr(root)
    {
      (root != null ==> root.Valid()) && Model(root) == Build(adds)
    }

    constructor (invalid: nat)
      ensures Valid() && adds == [] && this.invalid == invalid
    {
      root, adds, this.invalid := null, [], invalid;
    }

    /** bin_tree_add_node */
    method Add(key: nat, val: nat)
      requires Valid()
      modifies this, Repr(root)
      ensures Valid() && adds == old(adds) + [(key, val)]
      ensures fresh(Repr(root) - old(Repr(root)))
    {
      var node := new TreeNode(key, val);
      if root == null {
        root := node;
      } else {
        AddNode(root, node);
      }
      adds := adds + [(key, val)];
      assert adds[..|adds| - 1] == old(adds);
    }

    /** bin_tree_search_tree: the value of the earliest addition with the key. */
    method Find(key: nat) returns (val: nat)
      requires Valid()
      ensures val == if WithKey(adds, key) == [] then invalid else WithKey(adds, key)[0].1
    {
      var node := SearchNode(root, key);
      SearchEarliest(adds, key);
      val := if node != null then node.val else invalid;
    }

    /** bin_tree_traverse_tree in order: the keys of all additions, sorted. */
    method VisitInOrder() returns (visited: seq<nat>)
      requires Valid()
      ensures exists s: seq<Entry> :: IsStableSort(s, adds) && visited == Keys(s)
    {
      var keys, code := Traverse(In, root);
      BuildSorts(adds);
      visited := keys;
    }
  }
}
