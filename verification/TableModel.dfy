/** The hash of Hashtabl.c and its table as a value: one list of entries for each bucket. */
module TableModel {
  import opened Sequences

  type Val = nat

  /** A C string, its bytes without the terminating zero. */
  type Text = seq<bv8>

  /** The key union: a string in a hash table, a number in a dictionary. */
  datatype Key = Str(text: Text) | Num(number: nat)

  datatype Entry = Entry(key: Key, val: Val)

  const BUCKET_SIZE: nat := 211

  // ---------- hash() ----------

  /** A plain char is signed: bytes from 0x80 on widen with ones. */
  function SignExtend(b: bv8): bv32 {
    if b >= 0x80 then 0xffff_ff00 | (b as bv32) else b as bv32
  }

  /** One turn of the accumulator, in 32-bit arithmetic. */
  function Mix(h: bv32, c: bv32): bv32 {
    var h1 := (h << 4) + c;
    var u := h1 & 0xf000_0000;
    if u != 0 then (h1 ^ (u >> 24)) ^ u else h1
  }

  function Accumulate(h: bv32, text: Text): bv32
    decreases |text|
  {
    if text == [] then h else Accumulate(Mix(h, SignExtend(text[0])), text[1..])
  }

  function HashIndex(text: Text): (b: nat)
    ensures b < BUCKET_SIZE
  {
    (Accumulate(0, text) as int) % BUCKET_SIZE
  }

  /** A character is added to sixteen times the value; what then stands above 28 bits is folded into the bits from
      the fourth on. */
  lemma MixFolds(h: bv32, c: bv32)
    ensures var sum := (h << 4) + c; Mix(h, c) == (sum & 0x0fff_ffff) ^ ((sum >> 28) << 4)
  {
  }

  /** As long as nothing stands there: the value is the text read as digits in base 16. */
  lemma MixDigits(h: bv32, c: bv32)
    requires h < 0x00ff_fff0 && c < 0x100
    ensures Mix(h, c) == (h << 4) + c
  {
    assert h << 4 < 0x0fff_ff00;
    assert (h << 4) + c < 0x1000_0000;
  }

  /** A string long enough for the folding: "counters" lies in bucket 78. */
  lemma HashSample()
    ensures Accumulate(0, [0x63, 0x6f, 0x75, 0x6e, 0x74, 0x65, 0x72, 0x73]) == 0x06c5_aa33
    ensures HashIndex([0x63, 0x6f, 0x75, 0x6e, 0x74, 0x65, 0x72, 0x73]) == 78
  {
    var text: Text := [0x63, 0x6f, 0x75, 0x6e, 0x74, 0x65, 0x72, 0x73];
    MixValues();
    hide Mix, SignExtend;
    assert Accumulate(0x6c5_aa33, text[8..]) == 0x6c5_aa33;
    assert Accumulate(0xa6c_5aa2, text[7..]) == Accumulate(0x6c5_aa33, text[8..]);
    assert Accumulate(0x6a6_c5a5, text[6..]) == Accumulate(0xa6c_5aa2, text[7..]);
    assert Accumulate(0x6a_6c54, text[5..]) == Accumulate(0x6a6_c5a5, text[6..]);
    assert Accumulate(0x6a65, text[3..]) == Accumulate(0x6a6be, text[4..]) == Accumulate(0x6a_6c54, text[5..]);
    assert Accumulate(0, text) == Accumulate(0x63, text[1..]) == Accumulate(0x69f, text[2..]);
    assert 0x06c5_aa33 as int == 113617459 && 113617459 % 211 == 78;
  }

  lemma MixValues()
    ensures Mix(0, SignExtend(0x63)) == 0x63 && Mix(0x63, SignExtend(0x6f)) == 0x69f
    ensures Mix(0x69f, SignExtend(0x75)) == 0x6a65 && Mix(0x6a65, SignExtend(0x6e)) == 0x6_a6be
    ensures Mix(0x6_a6be, SignExtend(0x74)) == 0x6a_6c54 && Mix(0x6a_6c54, SignExtend(0x65)) == 0x6a6_c5a5
    ensures Mix(0x6a6_c5a5, SignExtend(0x72)) == 0xa6c_5aa2 && Mix(0xa6c_5aa2, SignExtend(0x73)) == 0x6c5_aa33
  {
  }

  /** A byte is widened as a signed number in two's complement. */
  lemma SignExtendIs(b: bv8)
    ensures b < 0x80 ==> SignExtend(b) == b as bv32
    ensures b >= 0x80 ==> SignExtend(b) == 0 - (0x100 - (b as bv32))
  {
  }

  /** There are 211 buckets. */
  lemma HashIndexIs(text: Text)
    ensures HashIndex(text) == (Accumulate(0, text) as int) % 211
    ensures Accumulate(0, []) == 0
  {
  }

  lemma MixBelow(h: bv32, c: bv32)
    ensures Mix(h, c) < 0x1000_0000
  {
  }

  /** The accumulator never uses its upper four bits, whatever the string. */
  lemma {:induction false} AccumulatorBelow(h: bv32, text: Text)
    requires h < 0x1000_0000
    ensures Accumulate(h, text) < 0x1000_0000
    decreases |text|
  {
    if text != [] {
      MixBelow(h, SignExtend(text[0]));
      hide Mix; hide SignExtend;
      AccumulatorBelow(Mix(h, SignExtend(text[0])), text[1..]);
    }
  }

  // ---------- comparing keys ----------

  function Lower(b: bv8): bv8 {
    if 0x41 <= b <= 0x5a then b + 0x20 else b
  }

  /** stricmp( a, b ) == 0 */
  predicate SameText(a: Text, b: Text) {
    |a| == |b| && forall i :: 0 <= i < |a| ==> Lower(a[i]) == Lower(b[i])
  }

  predicate SameKey(a: Key, b: Key) {
    match (a, b)
    case (Str(x), Str(y)) => SameText(x, y)
    case (Num(m), Num(n)) => m == n
    case _ => false
  }

  /** Strings are spread by hash, case and all; every number lives in bucket 0. */
  function Bucket(key: Key): (b: nat)
    ensures b < BUCKET_SIZE
  {
    match key
    case Str(text) => HashIndex(text)
    case Num(_) => 0
  }

  /** What the table takes for the same key: the same bucket, and equal ignoring case. */
  predicate SameClass(a: Key, b: Key) {
    Bucket(a) == Bucket(b) && SameKey(a, b)
  }

  lemma SameClassEquivalence(a: Key, b: Key, c: Key)
    ensures SameClass(a, a)
    ensures SameClass(a, b) ==> SameClass(b, a)
    ensures SameClass(a, b) && SameClass(b, c) ==> SameClass(a, c)
  {
    hide Bucket; hide Lower;
  }

  /** The keys of a dictionary are the same when the numbers are equal, and never the same as a string. */
  lemma NumberClass(m: nat, n: nat, text: Text)
    ensures SameClass(Num(m), Num(n)) <==> m == n
    ensures !SameClass(Num(m), Str(text)) && !SameClass(Str(text), Num(m))
  {
  }

  /** Strings are the same for the table when they lie in the same bucket, are of one length, and have at each place
      the same byte, or a letter from A to Z and the one from a to z; others never share a stack. */
  lemma StringClass(a: Text, b: Text)
    ensures SameClass(Str(a), Str(b)) <==>
            && HashIndex(a) == HashIndex(b) && |a| == |b|
            && forall i :: 0 <= i < |a| ==>
                 a[i] == b[i] || (0x41 <= a[i] <= 0x5a && b[i] == a[i] + 0x20) || (0x41 <= b[i] <= 0x5a && a[i] == b[i] + 0x20)
  {
    hide HashIndex;
    if |a| == |b| {
      forall i | 0 <= i < |a|
        ensures Lower(a[i]) == Lower(b[i]) <==>
          a[i] == b[i] || (0x41 <= a[i] <= 0x5a && b[i] == a[i] + 0x20) || (0x41 <= b[i] <= 0x5a && a[i] == b[i] + 0x20)
      {
        LowerIs(a[i], b[i]);
      }
    }
    hide Lower;
  }

  lemma LowerIs(a: bv8, b: bv8)
    ensures Lower(a) == Lower(b)
            <==> a == b || (0x41 <= a <= 0x5a && b == a + 0x20) || (0x41 <= b <= 0x5a && a == b + 0x20)
  {
  }

  // ---------- the operations on lists of entries ----------

  function Chains(n: nat): (chains: seq<seq<Entry>>)
    ensures |chains| == n && forall i :: 0 <= i < n ==> chains[i] == []
  {
    if n == 0 then [] else Chains(n - 1) + [[]]
  }

  type Buckets = t: seq<seq<Entry>> | |t| == BUCKET_SIZE witness Chains(BUCKET_SIZE)

  function Empty(): Buckets {
    Chains(BUCKET_SIZE)
  }

  /** The first entry of the chain with this key, or the end. */
  function Find(chain: seq<Entry>, key: Key): (i: nat)
    ensures i <= |chain|
    ensures forall j :: 0 <= j < i ==> !SameKey(chain[j].key, key)
    ensures i < |chain| ==> SameKey(chain[i].key, key)
  {
    if chain == [] || SameKey(chain[0].key, key) then 0 else 1 + Find(chain[1..], key)
  }

  function Added(t: Buckets, key: Key, val: Val): Buckets {
    t[Bucket(key) := [Entry(key, val)] + t[Bucket(key)]]
  }

  function Got(t: Buckets, key: Key, invalid: Val): Val {
    var chain := t[Bucket(key)];
    var i := Find(chain, key);
    if i < |chain| then chain[i].val else invalid
  }

  function Removed(t: Buckets, key: Key): Buckets {
    var chain := t[Bucket(key)];
    var i := Find(chain, key);
    if i < |chain| then t[Bucket(key) := Without(chain, i)] else t
  }

  // ---------- the table as a stack of values for each class of keys ----------

  function Matching(chain: seq<Entry>, key: Key): seq<Val> {
    if chain == [] then []
    else if SameKey(chain[0].key, key) then [chain[0].val] + Matching(chain[1..], key)
    else Matching(chain[1..], key)
  }

  /** The values stored for the class of this key, the latest first. */
  function Stack(t: Buckets, key: Key): seq<Val> {
    Matching(t[Bucket(key)], key)
  }

  lemma {:induction false} MatchingFind(chain: seq<Entry>, key: Key)
    ensures var i := Find(chain, key);
      if i == |chain| then Matching(chain, key) == []
      else Matching(chain, key) != [] && Matching(chain, key)[0] == chain[i].val
           && Matching(Without(chain, i), key) == Matching(chain, key)[1..]
  {
    hide SameKey;
    if chain != [] {
      var i := Find(chain, key);
      if i > 0 {
        MatchingFind(chain[1..], key);
        if i < |chain| {
          assert Without(chain, i)[1..] == Without(chain[1..], i - 1);
        }
      } else {
        assert Without(chain, 0) == chain[1..];
      }
    }
  }

  lemma {:induction false} MatchingOther(chain: seq<Entry>, i: nat, key: Key)
    requires i < |chain| && !SameKey(chain[i].key, key)
    ensures Matching(Without(chain, i), key) == Matching(chain, key)
  {
    hide SameKey;
    if i > 0 {
      assert Without(chain, i)[1..] == Without(chain[1..], i - 1);
      MatchingOther(chain[1..], i - 1, key);
    } else {
      assert Without(chain, 0) == chain[1..];
    }
  }

  /** Adding pushes on the stack of the key's class and touches no other. */
  lemma AddPushes(t: Buckets, key: Key, val: Val, other: Key)
    ensures Stack(Added(t, key, val), other)
            == if SameClass(key, other) then [val] + Stack(t, other) else Stack(t, other)
  {
    hide Bucket; hide SameKey;
    var chain := t[Bucket(key)];
    assert ([Entry(key, val)] + chain)[1..] == chain;
  }

  /** Getting peeks. */
  lemma GetPeeks(t: Buckets, key: Key, invalid: Val)
    ensures Got(t, key, invalid) == if Stack(t, key) == [] then invalid else Stack(t, key)[0]
  {
    hide Bucket; hide SameKey;
    MatchingFind(t[Bucket(key)], key);
  }

  /** Removing pops the stack of the key's class and touches no other. */
  lemma RemovePops(t: Buckets, key: Key, other: Key)
    ensures Stack(Removed(t, key), other)
            == if SameClass(key, other) && Stack(t, other) != [] then Stack(t, other)[1..] else Stack(t, other)
  {
    hide Bucket;
    var chain := t[Bucket(key)];
    var i := Find(chain, key);
    if Bucket(key) == Bucket(other) {
      if SameKey(key, other) {
        FindSame(chain, key, other);
        MatchingFind(chain, other);
      } else if i < |chain| {
        SameKeyFacts(chain[i].key, key, other);
        MatchingOther(chain, i, other);
      }
    }
  }

  lemma SameKeyFacts(a: Key, b: Key, c: Key)
    ensures SameKey(a, b) && SameKey(b, c) ==> SameKey(a, c)
    ensures SameKey(a, b) ==> SameKey(b, a)
    ensures SameKey(a, b) && SameKey(a, c) ==> SameKey(b, c)
  {
    hide Lower;
  }

  lemma {:induction false} FindSame(chain: seq<Entry>, key: Key, other: Key)
    requires SameKey(key, other)
    ensures Find(chain, key) == Find(chain, other)
  {
    hide SameKey;
    if chain != [] {
      SameKeyFacts(chain[0].key, key, other);
      SameKeyFacts(chain[0].key, other, key);
      SameKeyFacts(key, other, key);
      FindSame(chain[1..], key, other);
    }
  }

  // ---------- whole runs ----------

  datatype Op = Add(key: Key, val: Val) | Get(key: Key) | Remove(key: Key)

  /** What one operation makes of the table and of the list of values handed to the rundown function. */
  datatype World = World(table: Buckets, rundown: seq<Val>)

  function Apply(w: World, op: Op): World {
    match op
    case Add(key, val) => w.(table := Added(w.table, key, val))
    case Get(_) => w
    case Remove(key) =>
      var chain := w.table[Bucket(key)];
      var i := Find(chain, key);
      if i < |chain| then World(Removed(w.table, key), w.rundown + [chain[i].val]) else w
  }

  function Run(ops: seq<Op>): World
    decreases |ops|
  {
    if ops == [] then World(Empty(), []) else Apply(Run(ops[..|ops| - 1]), ops[|ops| - 1])
  }

  /** The same run seen by one class of keys only: a stack of values. */
  function StackRun(ops: seq<Op>, key: Key): seq<Val>
    decreases |ops|
  {
    if ops == [] then []
    else
      var before, op := StackRun(ops[..|ops| - 1], key), ops[|ops| - 1];
      if !SameClass(op.key, key) then before
      else match op
        case Add(_, val) => [val] + before
        case Get(_) => before
        case Remove(_) => if before == [] then [] else before[1..]
  }

  /** Over any run the table refines a map from key classes to stacks of values. */
  lemma {:induction false} RunRefinesStacks(ops: seq<Op>, key: Key, invalid: Val)
    ensures Stack(Run(ops).table, key) == StackRun(ops, key)
    ensures Got(Run(ops).table, key, invalid)
            == if StackRun(ops, key) == [] then invalid else StackRun(ops, key)[0]
    decreases |ops|
  {
    GetPeeks(Run(ops).table, key, invalid);
    hide Bucket; hide SameKey; hide Added; hide Removed; hide Got; hide SameClass;
    if ops != [] {
      var before, op := Run(ops[..|ops| - 1]), ops[|ops| - 1];
      RunRefinesStacks(ops[..|ops| - 1], key, invalid);
      hide Stack;
      match op {
        case Add(k, v) => AddPushes(before.table, k, v, key);
        case Get(k) =>
        case Remove(k) =>
          RemovePops(before.table, k, key);
          RemovedNothing(before.table, k);
      }
    }
  }

  lemma FoundInRun(ops: seq<Op>, key: Key, invalid: Val)
    ensures var chain := Run(ops).table[Bucket(key)]; Find(chain, key) < |chain| <==> StackRun(ops, key) != []
  {
    RunRefinesStacks(ops, key, invalid);
    hide Run, StackRun, Bucket, SameKey;
    MatchingFind(Run(ops).table[Bucket(key)], key);
  }

  /** The values a run leaves with a number, the latest first. */
  function NumberStack(ops: seq<Op>, number: nat): seq<Val>
    decreases |ops|
  {
    if ops == [] then []
    else
      var before, op := NumberStack(ops[..|ops| - 1], number), ops[|ops| - 1];
      if op.key != Num(number) then before
      else if op.Add? then [op.val] + before
      else if op.Remove? && before != [] then before[1..]
      else before
  }

  /** Over any run a dictionary is a map from numbers to stacks. */
  lemma {:induction false} DictionaryOfStacks(ops: seq<Op>, number: nat, invalid: Val)
    ensures StackRun(ops, Num(number)) == NumberStack(ops, number)
    ensures Got(Run(ops).table, Num(number), invalid)
            == if NumberStack(ops, number) == [] then invalid else NumberStack(ops, number)[0]
    decreases |ops|
  {
    RunRefinesStacks(ops, Num(number), invalid);
    hide Got, Run, SameClass;
    if ops != [] {
      DictionaryOfStacks(ops[..|ops| - 1], number, invalid);
      match ops[|ops| - 1].key {
        case Num(n) => NumberClass(n, number, []);
        case Str(text) => NumberClass(number, number, text);
      }
    }
  }

  /** Two keys with different values, and one key with two. */
  lemma DictionarySample(invalid: Val)
    ensures var ops := [Op.Add(Num(1), 10), Op.Add(Num(2), 20), Op.Add(Num(1), 30)];
      && Got(Run(ops).table, Num(1), invalid) == 30 && Got(Run(ops).table, Num(2), invalid) == 20
      && Got(Run(ops + [Op.Remove(Num(1))]).table, Num(1), invalid) == 10
  {
    var ops := [Op.Add(Num(1), 10), Op.Add(Num(2), 20), Op.Add(Num(1), 30)];
    hide Got, Run;
    DictionaryOfStacks(ops, 1, invalid);
    DictionaryOfStacks(ops, 2, invalid);
    DictionaryOfStacks(ops + [Op.Remove(Num(1))], 1, invalid);
    NumberStep([], Op.Add(Num(1), 10));
    NumberStep([Op.Add(Num(1), 10)], Op.Add(Num(2), 20));
    NumberStep([Op.Add(Num(1), 10), Op.Add(Num(2), 20)], Op.Add(Num(1), 30));
    NumberStep(ops, Op.Remove(Num(1)));
    hide NumberStack;
    assert [] + [Op.Add(Num(1), 10)] == [Op.Add(Num(1), 10)];
    assert [Op.Add(Num(1), 10)] + [Op.Add(Num(2), 20)] == [Op.Add(Num(1), 10), Op.Add(Num(2), 20)];
    assert [Op.Add(Num(1), 10), Op.Add(Num(2), 20)] + [Op.Add(Num(1), 30)] == ops;
  }

  lemma NumberStep(ops: seq<Op>, op: Op)
    ensures NumberStack([], 1) == [] == NumberStack([], 2)
    ensures op.key.Num? ==> var n := op.key.number;
      NumberStack(ops + [op], n) ==
        if op.Add? then [op.val] + NumberStack(ops, n)
        else if op.Remove? && NumberStack(ops, n) != [] then NumberStack(ops, n)[1..] else NumberStack(ops, n)
    ensures forall n | op.key != Num(n) :: NumberStack(ops + [op], n) == NumberStack(ops, n)
  {
    assert (ops + [op])[..|ops|] == ops;
  }

  lemma RemovedNothing(t: Buckets, key: Key)
    ensures Find(t[Bucket(key)], key) == |t[Bucket(key)]| ==> Removed(t, key) == t
  {
    hide Bucket; hide SameKey;
  }

  // ---------- every value is run down exactly once ----------

  function Values(chain: seq<Entry>): (vs: seq<Val>)
    ensures |vs| == |chain| && forall i :: 0 <= i < |chain| ==> vs[i] == chain[i].val
  {
    seq(|chain|, i requires 0 <= i < |chain| => chain[i].val)
  }

  /** The values of the first n buckets, in the order hash_table_destroy meets them. */
  function ValuesUpTo(t: Buckets, n: nat): seq<Val>
    requires n <= BUCKET_SIZE
  {
    if n == 0 then [] else ValuesUpTo(t, n - 1) + Values(t[n - 1])
  }

  function AllValues(t: Buckets): seq<Val> {
    ValuesUpTo(t, BUCKET_SIZE)
  }

  function BagUpTo(t: Buckets, n: nat): multiset<Val>
    requires n <= BUCKET_SIZE
  {
    if n == 0 then multiset{} else BagUpTo(t, n - 1) + multiset(Values(t[n - 1]))
  }

  lemma {:induction false} BagOfValues(t: Buckets, n: nat)
    requires n <= BUCKET_SIZE
    ensures multiset(ValuesUpTo(t, n)) == BagUpTo(t, n)
  {
    if n > 0 {
      BagOfValues(t, n - 1);
    }
  }

  lemma {:induction false} SameBag(t: Buckets, u: Buckets, n: nat)
    requires n <= BUCKET_SIZE && forall i :: 0 <= i < n ==> t[i] == u[i]
    ensures BagUpTo(t, n) == BagUpTo(u, n)
  {
    hide Values;
    if n > 0 {
      SameBag(t, u, n - 1);
    }
  }

  /** A chain with one more value makes the whole table hold one more value. */
  lemma {:induction false} ReplaceChain(t: Buckets, u: Buckets, b: nat, more: Val, n: nat)
    requires b < n <= BUCKET_SIZE && forall i :: 0 <= i < BUCKET_SIZE && i != b ==> t[i] == u[i]
    requires multiset(Values(u[b])) == multiset(Values(t[b])) + multiset{more}
    ensures BagUpTo(u, n) == BagUpTo(t, n) + multiset{more}
  {
    hide Values;
    if n == b + 1 {
      SameBag(t, u, b);
    } else {
      ReplaceChain(t, u, b, more, n - 1);
    }
  }

  lemma ConsValues(e: Entry, chain: seq<Entry>)
    ensures multiset(Values([e] + chain)) == multiset(Values(chain)) + multiset{e.val}
  {
    assert Values([e] + chain) == [e.val] + Values(chain);
  }

  lemma DropValues(chain: seq<Entry>, i: nat)
    requires i < |chain|
    ensures multiset(Values(chain)) == multiset(Values(Without(chain, i))) + multiset{chain[i].val}
  {
    var vs := Values(chain);
    assert Values(Without(chain, i)) == vs[..i] + vs[i + 1..];
    assert vs == vs[..i] + [vs[i]] + vs[i + 1..];
  }

  lemma AddedValues(t: Buckets, key: Key, val: Val)
    ensures multiset(AllValues(Added(t, key, val))) == multiset(AllValues(t)) + multiset{val}
  {
    hide Bucket; hide Values; hide ValuesUpTo; hide BagUpTo;
    var b, u := Bucket(key), Added(t, key, val);
    ConsValues(Entry(key, val), t[b]);
    ReplaceChain(t, u, b, val, BUCKET_SIZE);
    BagOfValues(t, BUCKET_SIZE);
    BagOfValues(u, BUCKET_SIZE);
  }

  lemma RemovedValues(t: Buckets, key: Key)
    requires Find(t[Bucket(key)], key) < |t[Bucket(key)]|
    ensures multiset(AllValues(t))
            == multiset(AllValues(Removed(t, key))) + multiset{t[Bucket(key)][Find(t[Bucket(key)], key)].val}
  {
    hide Bucket; hide Values; hide ValuesUpTo; hide BagUpTo; hide Without; hide SameKey;
    var b, u := Bucket(key), Removed(t, key);
    var i := Find(t[b], key);
    DropValues(t[b], i);
    ReplaceChain(u, t, b, t[b][i].val, BUCKET_SIZE);
    BagOfValues(t, BUCKET_SIZE);
    BagOfValues(u, BUCKET_SIZE);
  }

  /** The values of all additions of the run. */
  function AddedIn(ops: seq<Op>): multiset<Val>
    decreases |ops|
  {
    if ops == [] then multiset{}
    else if ops[|ops| - 1].Add? then AddedIn(ops[..|ops| - 1]) + multiset{ops[|ops| - 1].val}
    else AddedIn(ops[..|ops| - 1])
  }

  /** Values already run down, and those destroy would still run down. */
  function Handled(w: World): multiset<Val> {
    multiset(w.rundown) + multiset(AllValues(w.table))
  }

  lemma ApplyHandles(w: World, op: Op)
    ensures Handled(Apply(w, op)) == Handled(w) + (if op.Add? then multiset{op.val} else multiset{})
  {
    hide Bucket; hide Find; hide Added; hide Removed; hide AllValues;
    match op {
      case Add(k, v) => AddedValues(w.table, k, v);
      case Get(k) =>
      case Remove(k) =>
        if Find(w.table[Bucket(k)], k) < |w.table[Bucket(k)]| {
          RemovedValues(w.table, k);
        }
    }
  }

  /** Over a table's whole life, ending in destroy, each added value is run down exactly once. */
  lemma {:induction false} RundownOnce(ops: seq<Op>)
    ensures multiset(Run(ops).rundown) + multiset(AllValues(Run(ops).table)) == AddedIn(ops)
    decreases |ops|
  {
    hide Apply; hide AllValues;
    if ops == [] {
      EmptyTable();
    } else {
      ApplyHandles(Run(ops[..|ops| - 1]), ops[|ops| - 1]);
      RundownOnce(ops[..|ops| - 1]);
    }
  }

  lemma EmptyTable()
    ensures AllValues(Empty()) == []
  {
    EmptyValues(BUCKET_SIZE);
  }

  lemma {:induction false} EmptyValues(n: nat)
    requires n <= BUCKET_SIZE
    ensures ValuesUpTo(Empty(), n) == []
  {
    if n > 0 {
      EmptyValues(n - 1);
    }
  }
}
