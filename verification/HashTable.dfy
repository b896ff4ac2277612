/** Hashtabl.c: an array of buckets, each a doubly linked chain of nodes. */
module HashTable {
  import opened TableModel
  import opened Wrappers
  import opened Sequences

  class HashNode {
    var next: HashNode?
    var prev: HashNode?
    const key: Key
    const val: Val
    ghost const home: nat
    ghost var frees: nat       // times its memory was given back

    /** create_hash_node, with key and value filled in and the bucket it is meant for. */
    constructor (key: Key, val: Val, ghost home: nat)
      ensures this.key == key && this.val == val && this.home == home && next == null && prev == null && frees == 0
    {
      this.key, this.val, this.home, next, prev, frees := key, val, home, null, null, 0;
    }

    // A node may be read only while its memory has not been given back.

    function Next(): HashNode?
      requires frees == 0
      reads this`next, this`frees
    {
      next
    }

    function Prev(): HashNode?
      requires frees == 0
      reads this`prev, this`frees
    {
      prev
    }

    function Item(): Entry
      requires frees == 0
      reads this`frees
    {
      Entry(key, val)
    }

    /** destroy_hash_node, mem_free */
    method Free()
      requires frees == 0
      modifies this`frees
      ensures frees == 1
    {
      frees := 1;
    }
  }

  predicate NulFree(str: Text) {
    forall i :: 0 <= i < |str| ==> str[i] != 0
  }

  /** hash(): str is the string with its terminating zero left off. */
  method Hash(str: Text, size: nat) returns (index: nat)
    requires size == |str| && NulFree(str)
    ensures index == HashIndex(str)
  {
    var h: bv32, left, p := 0, size, 0;
    while left != 0 && str[p] != 0
      invariant 0 <= left <= size && p == size - left
      invariant Accumulate(h, str[p..]) == Accumulate(0, str)
    {
      hide Mix; hide SignExtend;
      assert str[p..][1..] == str[p + 1..];
      h := Mix(h, SignExtend(str[p]));
      left := left - 1;
      p := p + 1;
    }
    index := (h as int) % BUCKET_SIZE;
  }

  /** The node at position i, or null off either end. */
  function At(chain: seq<HashNode>, i: int): HashNode? {
    if 0 <= i < |chain| then chain[i] else null
  }

  ghost predicate Linked(head: HashNode?, chain: seq<HashNode>)
    reads (set n | n in chain)`next, (set n | n in chain)`prev
  {
    && head == At(chain, 0)
    && (forall i :: 0 <= i < |chain| ==> chain[i].next == At(chain, i + 1))
    && (forall i :: 0 <= i < |chain| ==> chain[i].prev == At(chain, i - 1))
    && (forall i, j :: 0 <= i < j < |chain| ==> chain[i] != chain[j])
  }

  /** The list part of hash_table_add_ex: links a fresh node before the head. */
  method PushFront(head: HashNode?, node: HashNode, ghost chain: seq<HashNode>)
    requires Linked(head, chain) && node !in chain && node.next == null && node.prev == null
    requires forall n :: n in chain ==> n.frees == 0
    modifies node`next, node`prev, (set n | n in chain)`prev
    ensures Linked(node, [node] + chain)
  {
    if head != null {
      node.next := head;
      node.prev := head.Prev();
      head.prev := node;
    }
    ghost var longer := [node] + chain;
    AtCons(node, chain);
    assert chain != [] ==> chain[0].prev == node;
    assert forall j :: 0 < j < |chain| ==> chain[j].prev == At(chain, j - 1);
    assert forall j :: 0 <= j < |chain| ==> chain[j].next == At(chain, j + 1);
    hide At;
    forall i | 0 <= i < |longer|
      ensures longer[i].next == At(longer, i + 1) && longer[i].prev == At(longer, i - 1)
    {
      if i > 0 {
        assert longer[i] == chain[i - 1];
      }
    }
  }

  lemma AtCons(node: HashNode, chain: seq<HashNode>)
    ensures forall i: int :: i >= 0 ==> At([node] + chain, i + 1) == At(chain, i)
    ensures forall i: int :: i >= 1 ==> At([node] + chain, i) == At(chain, i - 1)
    ensures At([node] + chain, 0) == node && At([node] + chain, -1) == null
    ensures At(chain, 0) == if chain == [] then null else chain[0]
  {
  }

  lemma WithoutAtIndex(chain: seq<HashNode>, i: nat, j: int)
    requires i < |chain|
    ensures At(Without(chain, i), j) == if j < i then At(chain, j) else At(chain, j + 1)
  {
  }

  /** The list part of hash_table_remove_ex: takes a node out and returns the new head. */
  method Unlink(head: HashNode, node: HashNode, ghost chain: seq<HashNode>, ghost i: nat) returns (head': HashNode?)
    requires Linked(head, chain) && i < |chain| && chain[i] == node
    requires forall n :: n in chain ==> n.frees == 0
    modifies (set n | n in chain)`next, (set n | n in chain)`prev
    ensures Linked(head', Without(chain, i))
  {
    ghost var after, before := At(chain, i + 1), At(chain, i - 1);
    assert node.next == after && node.prev == before;
    assert node == head <==> i == 0;
    head' := head;
    if node == head {
      head' := node.Next();
    }
    if node.Next() != null {
      node.Next().prev := node.Prev();
    }
    if node.Prev() != null {
      node.Prev().next := node.Next();
    }
    if node.Prev() == null && node.Next() == null {
      head' := null;
    }
    assert forall j :: 0 <= j < |chain| && j != i - 1 ==> chain[j].next == At(chain, j + 1);
    assert forall j :: 0 <= j < |chain| && j != i + 1 ==> chain[j].prev == At(chain, j - 1);
    assert i > 0 ==> chain[i - 1].next == after;
    assert i + 1 < |chain| ==> chain[i + 1].prev == before;
    WithoutLinks(chain, i);
  }

  lemma WithoutNext(chain: seq<HashNode>, i: nat, j: nat)
    requires i < |chain| && j + 1 < |chain|
    requires forall k :: 0 <= k < |chain| && k != i - 1 ==> chain[k].next == At(chain, k + 1)
    requires i > 0 ==> chain[i - 1].next == At(chain, i + 1)
    ensures Without(chain, i)[j].next == At(Without(chain, i), j + 1)
  {
    WithoutAtIndex(chain, i, j);
    WithoutAtIndex(chain, i, j + 1);
    hide Without;
  }

  lemma WithoutPrev(chain: seq<HashNode>, i: nat, j: nat)
    requires i < |chain| && j + 1 < |chain|
    requires forall k :: 0 <= k < |chain| && k != i + 1 ==> chain[k].prev == At(chain, k - 1)
    requires i + 1 < |chain| ==> chain[i + 1].prev == At(chain, i - 1)
    ensures Without(chain, i)[j].prev == At(Without(chain, i), j - 1)
  {
    WithoutAtIndex(chain, i, j);
    WithoutAtIndex(chain, i, j - 1);
    hide Without;
  }

  lemma WithoutDistinct(chain: seq<HashNode>, i: nat)
    requires i < |chain|
    requires forall j, k :: 0 <= j < k < |chain| ==> chain[j] != chain[k]
    ensures forall j, k :: 0 <= j < k < |Without(chain, i)| ==> Without(chain, i)[j] != Without(chain, i)[k]
  {
    var rest := Without(chain, i);
    forall j, k | 0 <= j < k < |rest| ensures rest[j] != rest[k] {
      WithoutAtIndex(chain, i, j);
      WithoutAtIndex(chain, i, k);
      hide Without;
    }
  }

  lemma WithoutLinks(chain: seq<HashNode>, i: nat)
    requires i < |chain|
    requires forall j, k :: 0 <= j < k < |chain| ==> chain[j] != chain[k]
    requires forall j :: 0 <= j < |chain| && j != i - 1 ==> chain[j].next == At(chain, j + 1)
    requires forall j :: 0 <= j < |chain| && j != i + 1 ==> chain[j].prev == At(chain, j - 1)
    requires i > 0 ==> chain[i - 1].next == At(chain, i + 1)
    requires i + 1 < |chain| ==> chain[i + 1].prev == At(chain, i - 1)
    ensures Linked(if i == 0 then At(chain, 1) else chain[0], Without(chain, i))
  {
    hide Without;
    var rest := Without(chain, i);
    forall j | 0 <= j < |rest|
      ensures rest[j].next == At(rest, j + 1)
      ensures rest[j].prev == At(rest, j - 1)
    {
      WithoutNext(chain, i, j);
      WithoutPrev(chain, i, j);
    }
    WithoutAtIndex(chain, i, 0);
    WithoutDistinct(chain, i);
  }

  function Entries(chain: seq<HashNode>): (es: seq<Entry>)
    ensures |es| == |chain| && forall i :: 0 <= i < |chain| ==> es[i] == Entry(chain[i].key, chain[i].val)
  {
    seq(|chain|, i requires 0 <= i < |chain| => Entry(chain[i].key, chain[i].val))
  }

  function TableOf(chains: seq<seq<HashNode>>): (t: Buckets)
    requires |chains| == BUCKET_SIZE
    ensures forall b :: 0 <= b < BUCKET_SIZE ==> t[b] == Entries(chains[b])
  {
    seq(BUCKET_SIZE, b requires 0 <= b < BUCKET_SIZE => Entries(chains[b]))
  }

  class Table {
    const buckets: array<HashNode?>
    const isDict: bool
    const invalid: Val
    const hasRundown: bool
    var rundown: seq<Val>            // the calls of the rundown function so far
    ghost var chains: seq<seq<HashNode>>
    ghost var nodes: set<HashNode>   // every node ever added
    ghost var history: seq<Op>       // the successful operations so far

    /** The nodes of bucket b are at home there, and allocated. */
    ghost predicate AtHome(b: nat)
      requires b < |chains|
      reads this`chains, this`nodes, nodes`frees
    {
      forall n :: n in chains[b] ==> n in nodes && n.home == b && Bucket(n.key) == b && n.frees == 0
    }

    /** No node is freed twice, and those not freed are in a chain from this bucket on. */
    ghost predicate FreedBut(index: nat)
      reads this`chains, this`nodes, nodes`frees
    {
      forall n :: n in nodes ==> n.frees <= 1 && (n.frees == 0 ==> index <= n.home < |chains| && n in chains[n.home])
    }

    /** The buckets from this one on are intact, the nodes of all others were freed. */
    ghost predicate IntactFrom(index: nat)
      reads this`chains, this`nodes, buckets, nodes`next, nodes`prev, nodes`frees
    {
      && buckets.Length == |chains| == BUCKET_SIZE
      && (forall b :: index <= b < BUCKET_SIZE ==> AtHome(b) && Linked(buckets[b], chains[b]))
      && FreedBut(index)
    }

    ghost predicate Intact()
      reads this`chains, this`nodes, buckets, nodes`next, nodes`prev, nodes`frees
    {
      IntactFrom(0)
    }

    ghost predicate Valid()
      reads this, buckets, nodes`next, nodes`prev, nodes`frees
    {
      && Intact()
      && TableOf(chains) == Run(history).table
      && rundown == (if hasRundown then Run(history).rundown else [])
    }

    predicate KeyFits(key: Key) {
      (isDict <==> key.Num?) && (key.Str? ==> NulFree(key.text))
    }

    /** hash_table_create */
    constructor (isDict: bool, invalid: Val, hasRundown: bool)
      ensures Valid() && history == [] && rundown == []
      ensures this.isDict == isDict && this.invalid == invalid && this.hasRundown == hasRundown
      ensures fresh(buckets) && nodes == {}
    {
      this.isDict, this.invalid, this.hasRundown := isDict, invalid, hasRundown;
      buckets := new HashNode?[BUCKET_SIZE](_ => null);
      chains := seq(BUCKET_SIZE, _ => []);
      nodes, history, rundown := {}, [], [];
      new;
      assert TableOf(chains) == Empty();
    }

    /** The bucket the key hashes to; a dictionary keeps everything in bucket 0. */
    method Locate(key: Key) returns (index: nat)
      requires KeyFits(key)
      ensures index == Bucket(key)
      ensures isDict ==> index == 0
      ensures !isDict ==> index == HashIndex(key.text)
    {
      index := 0;
      if !isDict {
        index := Hash(key.text, |key.text|);
      }
    }

    /** hash_table_add_ex. A null string is refused. */
    method Add(key: Option<Key>, val: Val) returns (code: nat)
      requires Valid() && (key.Some? ==> KeyFits(key.value)) && (isDict ==> key.Some?)
      modifies this, buckets, nodes
      ensures Valid() && fresh(nodes - old(nodes))
      ensures key.None? ==> code == 0 && history == old(history) && nodes == old(nodes)
      ensures key.Some? ==> old(nodes) < nodes
      ensures key.Some? ==> code == 1 && history == old(history) + [TableModel.Op.Add(key.value, val)]
    {
      if key.None? {
        return 0;
      }
      AddKey(key.value, val);
      return 1;
    }

    lemma OpenValid()
      requires Valid()
      ensures Intact() && |chains| == BUCKET_SIZE && TableOf(chains) == Run(history).table
      ensures rundown == if hasRundown then Run(history).rundown else []
    {
    }

    lemma CloseValid()
      requires Intact() && |chains| == BUCKET_SIZE && TableOf(chains) == Run(history).table
      requires rundown == if hasRundown then Run(history).rundown else []
      ensures Valid()
    {
    }

    method AddKey(key: Key, val: Val)
      requires Valid() && KeyFits(key)
      modifies this, buckets, nodes
      ensures Valid() && fresh(nodes - old(nodes)) && old(nodes) < nodes
      ensures history == old(history) + [TableModel.Op.Add(key, val)]
    {
      hide *;
      OpenValid();
      var b := Locate(key);
      var node := new HashNode(key, val, b);
      PushedTable(chains, node);
      RunStepAdd(history, key, val);
      Push(b, node);
      history := history + [TableModel.Op.Add(key, val)];
      CloseValid();
    }

    method Push(b: nat, node: HashNode)
      requires b < BUCKET_SIZE && Intact()
      requires node !in nodes && node.home == b && Bucket(node.key) == b && node.next == null && node.prev == null
      requires node.frees == 0
      modifies this`chains, this`nodes, buckets, nodes`next, nodes`prev, node`next, node`prev
      ensures nodes == old(nodes) + {node}
      ensures chains == old(chains)[b := [node] + old(chains)[b]]
      ensures Intact()
    {
      hide Bucket, Linked, At;
      ghost var chain := chains[b];
      assert AtHome(b);
      PushFront(buckets[b], node, chain);
      buckets[b] := node;
      chains := chains[b := [node] + chain];
      nodes := nodes + {node};
      forall c | 0 <= c < BUCKET_SIZE
        ensures AtHome(c) && Linked(buckets[c], chains[c])
      {
        assert old(AtHome(c) && Linked(buckets[c], chains[c]));
        if c != b {
          assert buckets[c] == old(buckets[c]) && chains[c] == old(chains[c]);
          assert forall n :: n in chains[c] ==> n != node && n !in chain;
        }
      }
    }

    /** Finds the first node with the key; dict_getval and hash_table_getval walk the chain like this. */
    method FindNode(key: Key) returns (node: HashNode?, ghost i: nat)
      requires Valid() && KeyFits(key)
      ensures |chains| == BUCKET_SIZE
      ensures node == At(chains[Bucket(key)], Find(Entries(chains[Bucket(key)]), key))
      ensures i == Find(Entries(chains[Bucket(key)]), key) <= |chains[Bucket(key)]|
      ensures node == null <==> i == |chains[Bucket(key)]|
      ensures node != null ==> node == chains[Bucket(key)][i] && node.frees == 0
    {
      hide Bucket, SameKey, Run, TableOf, Linked, Find, Entries;
      var b := Locate(key);
      assert AtHome(b) && Linked(buckets[b], chains[b]);
      node, i := FindIn(buckets[b], key, chains[b]);
    }

    /** hash_table_get_ex */
    method Get(key: Key) returns (val: Val)
      requires Valid() && KeyFits(key)
      ensures val == Got(Run(history).table, key, invalid)
      ensures val == if StackRun(history, key) == [] then invalid else StackRun(history, key)[0]
      ensures key.Num? ==>
        val == if NumberStack(history, key.number) == [] then invalid else NumberStack(history, key.number)[0]
    {
      if key.Num? {
        DictionaryOfStacks(history, key.number, invalid);
      }
      hide NumberStack;
      hide Bucket; hide Run; hide StackRun; hide Find; hide Entries;
      var node, i := FindNode(key);
      RunRefinesStacks(history, key, invalid);
      val := if node != null then node.Item().val else invalid;
    }

    /** hash_table_remove_ex: 1 for a removed node, 0 when no node of the bucket has the key, and the
        invalid value when the bucket is empty. */
    method Remove(key: Key) returns (code: nat)
      requires Valid() && KeyFits(key)
      modifies this, buckets, nodes
      ensures Valid() && nodes == old(nodes)
      ensures history == old(history) + [TableModel.Op.Remove(key)]
      ensures var chain := old(Run(history).table[Bucket(key)]);
        code == if Find(chain, key) < |chain| then 1 else if chain == [] then invalid else 0
      ensures code == 1 || (StackRun(old(history), key) == [] && (code == 0 || code == invalid))
      ensures StackRun(old(history), key) != [] ==> code == 1
      ensures key.Num? ==> StackRun(old(history), key) == NumberStack(old(history), key.number)
    {
      hide *;
      FoundInRun(history, key, invalid);
      if key.Num? {
        DictionaryOfStacks(history, key.number, invalid);
      }
      OpenValid();
      RunStepRemove(history, key);
      var node, i := FindNode(key);
      var b := Locate(key);
      TableAt(chains, b);
      if node == null {
        var empty := EmptyBucket(b);
        code := if empty then invalid else 0;
        history := history + [TableModel.Op.Remove(key)];
        CloseValid();
        return;
      }
      RemovedTable(chains, key);
      TakeOut(b, node, i);
      history := history + [TableModel.Op.Remove(key)];
      CloseValid();
      return 1;
    }

    method EmptyBucket(b: nat) returns (empty: bool)
      requires Intact() && b < BUCKET_SIZE
      ensures empty <==> chains[b] == []
    {
      assert Linked(buckets[b], chains[b]);
      empty := buckets[b] == null;
    }

    /** What is done with the node found: it is unlinked, its value run down, its memory given back. */
    method TakeOut(b: nat, node: HashNode, ghost i: nat)
      requires Intact() && b < BUCKET_SIZE && i < |chains[b]| && chains[b][i] == node
      modifies this`chains, this`rundown, buckets, nodes`next, nodes`prev, nodes`frees
      ensures chains == old(chains)[b := Without(old(chains)[b], i)]
      ensures rundown == old(rundown) + (if hasRundown then [node.val] else [])
      ensures Intact() && node.frees == 1
    {
      hide Bucket, Linked, At, Without;
      assert AtHome(b);
      Detach(b, node, i);
      if hasRundown {
        rundown := rundown + [node.Item().val];
      }
      label Unlinked:
      node.Free();
      forall c | 0 <= c < BUCKET_SIZE ensures AtHome(c) && Linked(buckets[c], chains[c]) {
        assert old@Unlinked(AtHome(c) && Linked(buckets[c], chains[c]));
      }
      forall n | n in nodes && n.frees == 0 ensures n in chains[n.home] {
        assert n in old(chains)[n.home];
        if n.home == b {
          OthersStay(old(chains)[b], i, n);
        }
      }
    }

    method Detach(b: nat, node: HashNode, ghost i: nat)
      requires Intact() && b < BUCKET_SIZE && i < |chains[b]| && chains[b][i] == node
      modifies this`chains, buckets, nodes`next, nodes`prev
      ensures chains == old(chains)[b := Without(old(chains)[b], i)] && node !in chains[b]
      ensures forall c :: 0 <= c < BUCKET_SIZE ==> AtHome(c) && Linked(buckets[c], chains[c])
    {
      hide Bucket, Linked, At;
      ghost var chain := chains[b];
      assert AtHome(b) && Linked(buckets[b], chain);
      HeadOf(buckets[b], chain);
      DistinctWithout(buckets[b], chain, i);
      var head := Unlink(buckets[b], node, chain, i);
      buckets[b] := head;
      chains := chains[b := Without(chain, i)];
      forall c | 0 <= c < BUCKET_SIZE
        ensures AtHome(c) && Linked(buckets[c], chains[c])
      {
        assert old(AtHome(c) && Linked(buckets[c], chains[c]));
        if c != b {
          assert buckets[c] == old(buckets[c]) && chains[c] == old(chains[c]);
          assert forall n :: n in chains[c] ==> n !in chain;
        }
      }
    }

    /** hash_table_destroy: every node of every chain is freed and its value run down. So over the table's
        life every node ever added is freed once, and every value added is run down once. */
    method Destroy()
      requires Valid()
      modifies this`rundown, nodes`frees
      ensures rundown == old(rundown) + (if hasRundown then AllValues(Run(history).table) else [])
      ensures hasRundown ==> multiset(rundown) == AddedIn(history)
      ensures forall n :: n in nodes ==> n.frees == 1
    {
      hide *;
      OpenValid();
      ghost var table := Run(history).table;
      ValuesNone(table);
      var index := 0;
      while index < BUCKET_SIZE
        invariant 0 <= index <= BUCKET_SIZE && IntactFrom(index) && |chains| == BUCKET_SIZE
        invariant rundown == old(rundown) + (if hasRundown then ValuesUpTo(table, index) else [])
      {
        ValuesMore(table, index);
        TableAt(chains, index);
        RunDownBucket(index);
        index := index + 1;
      }
      AllFreed();
      RundownOnce(history);
      BagOfRundown(old(rundown), table);
    }

    lemma AllFreed()
      requires IntactFrom(BUCKET_SIZE)
      ensures forall n :: n in nodes ==> n.frees == 1
    {
    }

    method RunDownBucket(b: nat)
      requires b < BUCKET_SIZE && IntactFrom(b) && |chains| == BUCKET_SIZE
      modifies this`rundown, nodes`frees
      ensures IntactFrom(b + 1)
      ensures rundown == old(rundown) + (if hasRundown then Values(Entries(chains[b])) else [])
    {
      hide Linked, Values, Entries, Bucket;
      assert AtHome(b) && Linked(buckets[b], chains[b]);
      RunDownChain(buckets[b], chains[b]);
      forall c | b < c < BUCKET_SIZE ensures AtHome(c) && Linked(buckets[c], chains[c]) {
        assert old(AtHome(c) && Linked(buckets[c], chains[c]));
        assert forall n :: n in chains[c] ==> n !in chains[b];
      }
    }

    method RunDownChain(head: HashNode?, ghost chain: seq<HashNode>)
      requires Linked(head, chain) && forall n :: n in chain ==> n.frees == 0
      modifies this`rundown, (set n | n in chain)`frees
      ensures rundown == old(rundown) + (if hasRundown then Values(Entries(chain)) else [])
      ensures forall n :: n in chain ==> n.frees == 1
    {
      hide Linked, At, ValuesBefore, Values, Entries, Run, Bucket;
      ValuesPrefix(chain, 0);
      LinkedAt(head, chain, 0);
      var node := head;
      ghost var i := 0;
      while node != null
        invariant i <= |chain| && node == At(chain, i)
        invariant node == null <==> i == |chain|
        invariant rundown == old(rundown) + (if hasRundown then ValuesBefore(chain, i) else [])
        invariant forall j :: 0 <= j < |chain| ==> chain[j].frees == if j < i then 1 else 0
        decreases |chain| - i
      {
        LinkedAt(head, chain, i);
        ValuesPrefix(chain, i);
        var next := node.Next();
        if hasRundown {
          rundown := rundown + [node.Item().val];
        }
        node.Free();
        node := next;
        i := i + 1;
        LinkedAt(head, chain, i);
      }
      ValuesPrefix(chain, i);
    }
  }

  lemma DistinctWithout(head: HashNode?, chain: seq<HashNode>, i: nat)
    requires i < |chain| && Linked(head, chain)
    ensures chain[i] !in Without(chain, i)
  {
  }

  lemma OthersStay(chain: seq<HashNode>, i: nat, n: HashNode)
    requires i < |chain| && n in chain && n != chain[i]
    ensures n in Without(chain, i)
  {
    var j :| 0 <= j < |chain| && chain[j] == n;
    assert Without(chain, i)[if j < i then j else j - 1] == n;
  }

  method FindIn(head: HashNode?, key: Key, ghost chain: seq<HashNode>) returns (node: HashNode?, ghost i: nat)
    requires Linked(head, chain) && forall n :: n in chain ==> n.frees == 0
    ensures node == At(chain, Find(Entries(chain), key))
    ensures i == Find(Entries(chain), key) <= |chain| && node == At(chain, i)
    ensures node == null <==> i == |chain|
    ensures node != null ==> node == chain[i] && node.frees == 0
  {
    hide SameKey, Find;
    node := head;
    i := 0;
    while node != null && !SameKey(node.Item().key, key)
      invariant i <= |chain| && node == At(chain, i) && (node != null ==> node.frees == 0)
      invariant forall j :: 0 <= j < i ==> !SameKey(chain[j].key, key)
      decreases |chain| - i
    {
      node := node.Next();
      i := i + 1;
    }
    FindIs(Entries(chain), key, i);
  }

  ghost function ValuesBefore(chain: seq<HashNode>, i: nat): seq<Val>
    requires i <= |chain|
  {
    Values(Entries(chain))[..i]
  }

  lemma ValuesPrefix(chain: seq<HashNode>, i: nat)
    requires i <= |chain|
    ensures ValuesBefore(chain, 0) == []
    ensures i < |chain| ==> ValuesBefore(chain, i + 1) == ValuesBefore(chain, i) + [chain[i].val]
    ensures ValuesBefore(chain, |chain|) == Values(Entries(chain))
  {
  }

  lemma LinkedAt(head: HashNode?, chain: seq<HashNode>, i: nat)
    requires Linked(head, chain) && i <= |chain|
    ensures head == At(chain, 0)
    ensures At(chain, i) == null <==> i == |chain|
    ensures i < |chain| ==> At(chain, i) == chain[i] && chain[i].next == At(chain, i + 1)
    ensures i < |chain| ==> forall j :: 0 <= j < |chain| && j != i ==> chain[j] != chain[i]
  {
  }

  lemma ValuesNone(t: Buckets)
    ensures ValuesUpTo(t, 0) == []
  {
  }

  lemma ValuesMore(t: Buckets, n: nat)
    requires n < BUCKET_SIZE
    ensures ValuesUpTo(t, n + 1) == ValuesUpTo(t, n) + Values(t[n])
  {
  }

  lemma BagOfRundown(rundown: seq<Val>, t: Buckets)
    ensures AllValues(t) == ValuesUpTo(t, BUCKET_SIZE)
    ensures multiset(rundown + AllValues(t)) == multiset(rundown) + multiset(AllValues(t))
  {
    hide ValuesUpTo;
  }

  lemma HeadOf(head: HashNode?, chain: seq<HashNode>)
    requires Linked(head, chain)
    ensures head == At(chain, 0) && (chain != [] <==> head != null)
  {
  }

  lemma RunStepAdd(history: seq<Op>, key: Key, val: Val)
    ensures var w := Run(history); var op := TableModel.Op.Add(key, val);
      Run(history + [op]) == World(Added(w.table, key, val), w.rundown)
  {
    assert (history + [TableModel.Op.Add(key, val)])[..|history|] == history;
  }

  lemma RunStepRemove(history: seq<Op>, key: Key)
    ensures var w := Run(history); var chain := w.table[Bucket(key)]; var i := Find(chain, key);
      Run(history + [TableModel.Op.Remove(key)])
      == if i < |chain| then World(Removed(w.table, key), w.rundown + [chain[i].val]) else w
  {
    assert (history + [TableModel.Op.Remove(key)])[..|history|] == history;
    hide Bucket; hide Find; hide Removed;
  }

  lemma TableAt(chains: seq<seq<HashNode>>, b: nat)
    requires |chains| == BUCKET_SIZE && b < BUCKET_SIZE
    ensures TableOf(chains)[b] == Entries(chains[b])
    ensures |Entries(chains[b])| == |chains[b]|
    ensures forall i :: 0 <= i < |chains[b]| ==> Entries(chains[b])[i].val == chains[b][i].val
  {
  }

  lemma {:induction false} FindIs(chain: seq<Entry>, key: Key, i: nat)
    requires i <= |chain| && (forall j :: 0 <= j < i ==> !SameKey(chain[j].key, key))
    requires i < |chain| ==> SameKey(chain[i].key, key)
    ensures Find(chain, key) == i
  {
    hide SameKey;
    if i > 0 {
      FindIs(chain[1..], key, i - 1);
    }
  }

  lemma PushedTable(chains: seq<seq<HashNode>>, node: HashNode)
    requires |chains| == BUCKET_SIZE
    ensures var b := Bucket(node.key);
      TableOf(chains[b := [node] + chains[b]]) == Added(TableOf(chains), node.key, node.val)
  {
    hide Bucket;
    var b := Bucket(node.key);
    assert Entries([node] + chains[b]) == [Entry(node.key, node.val)] + Entries(chains[b]);
  }

  lemma RemovedTable(chains: seq<seq<HashNode>>, key: Key)
    requires |chains| == BUCKET_SIZE
    requires Find(Entries(chains[Bucket(key)]), key) < |chains[Bucket(key)]|
    ensures var b := Bucket(key); var i := Find(Entries(chains[b]), key);
      TableOf(chains[b := Without(chains[b], i)]) == Removed(TableOf(chains), key)
  {
    hide Bucket; hide SameKey;
    var b := Bucket(key);
    var i := Find(Entries(chains[b]), key);
    assert Entries(Without(chains[b], i)) == Without(Entries(chains[b]), i);
  }
}
