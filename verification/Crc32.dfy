/** The CRC shift register of crctab.c and crc32.c, as a 32-bit word.
    The word operations are wrapped so that proofs can hide the bit-vector theory. */
module ShiftRegister {

  /** The low-order terms of the polynomial; the lowest power is the most significant bit. */
  const PATTERN: bv32 := 0xedb8_8320

  const ALL_ONES: bv32 := 0xffff_ffff

  function Xor(a: bv32, b: bv32): bv32 {
    a ^ b
  }

  function Shr(a: bv32): bv32 {
    a >> 1
  }

  predicate Lsb(a: bv32) {
    a & 1 == 1
  }

  function Widen(b: bv8): bv32 {
    b as bv32
  }

  function LowByte(c: bv32): bv32 {
    c & 0xff
  }

  function HighBytes(c: bv32): bv32 {
    c & 0xffff_ff00
  }

  function DropByte(c: bv32): bv32 {
    c >> 8
  }

  /** One turn of the register: multiply by x modulo the polynomial. */
  function Step(c: bv32): bv32 {
    if Lsb(c) then Xor(PATTERN, Shr(c)) else Shr(c)
  }

  function Steps(c: bv32, k: nat): bv32
    decreases k
  {
    if k == 0 then c else Steps(Step(c), k - 1)
  }

  /** Feeds one message bit: it is added to the register's highest power, then the register turns. */
  function Feed(c: bv32, bit: bool): bv32 {
    Step(if bit then Xor(c, 1) else c)
  }

  /** The bit-serial shift register. */
  function Run(c: bv32, bits: seq<bool>): bv32
    decreases |bits|
  {
    if bits == [] then c else Run(Feed(c, bits[0]), bits[1..])
  }

  /** Bit i of a word, counted from the least significant end. */
  predicate Bit(c: bv32, i: nat)
    decreases i
  {
    if i == 0 then Lsb(c) else Bit(Shr(c), i - 1)
  }

  // ---------- word facts (pure bit-vector reasoning) ----------

  lemma XorComm(a: bv32, b: bv32)
    ensures Xor(a, b) == Xor(b, a)
  {
  }

  lemma XorAssoc(a: bv32, b: bv32, c: bv32)
    ensures Xor(Xor(a, b), c) == Xor(a, Xor(b, c))
  {
    assert (a ^ b) ^ c == a ^ (b ^ c);
  }

  lemma XorCancel(a: bv32, b: bv32)
    ensures Xor(a, a) == 0 && Xor(a, 0) == a
    ensures Xor(a, Xor(a, b)) == b
  {
  }

  /** A common term cancels. */
  lemma XorCommon(c: bv32, a: bv32, b: bv32)
    ensures Xor(Xor(c, a), Xor(c, b)) == Xor(a, b)
  {
    hide Xor;
    XorComm(c, a);
    XorAssoc(a, c, Xor(c, b));
    XorCancel(c, b);
  }

  lemma ShrXor(a: bv32, b: bv32)
    ensures Shr(Xor(a, b)) == Xor(Shr(a), Shr(b))
  {
  }

  lemma LsbXor(a: bv32, b: bv32)
    ensures Lsb(Xor(a, b)) == (Lsb(a) != Lsb(b))
  {
  }

  lemma OneFacts()
    ensures Lsb(1) && Shr(1) == 0 && !Lsb(0) && Shr(0) == 0
    ensures Lsb(ALL_ONES)
  {
  }

  lemma SplitBytes(c: bv32)
    ensures c == Xor(LowByte(c), HighBytes(c))
    ensures DropByte(HighBytes(c)) == DropByte(c)
  {
  }

  lemma DropByteIsEightShifts(c: bv32)
    ensures DropByte(c) == Shr(Shr(Shr(Shr(Shr(Shr(Shr(Shr(c))))))))
  {
  }

  lemma HighBytesEven(c: bv32)
    ensures !Lsb(HighBytes(c))
    ensures !Lsb(Shr(HighBytes(c)))
    ensures !Lsb(Shr(Shr(HighBytes(c))))
    ensures !Lsb(Shr(Shr(Shr(HighBytes(c)))))
    ensures !Lsb(Shr(Shr(Shr(Shr(HighBytes(c))))))
    ensures !Lsb(Shr(Shr(Shr(Shr(Shr(HighBytes(c)))))))
    ensures !Lsb(Shr(Shr(Shr(Shr(Shr(Shr(HighBytes(c))))))))
    ensures !Lsb(Shr(Shr(Shr(Shr(Shr(Shr(Shr(HighBytes(c)))))))))
  {
  }

  lemma XorByteHigh(c: bv32, b: bv8)
    ensures HighBytes(Xor(c, Widen(b))) == HighBytes(c)
  {
  }

  lemma StepZero(c: bv32)
    requires Step(c) == 0
    ensures c == 0
  {
  }

  lemma FourDrops(c: bv32)
    ensures DropByte(DropByte(DropByte(DropByte(c)))) == 0
  {
  }

  // ---------- linearity and invertibility ----------

  /** The key lemma: turning the register is linear over exclusive-or. */
  lemma StepXor(a: bv32, b: bv32)
    ensures Step(Xor(a, b)) == Xor(Step(a), Step(b))
  {
    hide Xor; hide Shr; hide Lsb;
    ShrXor(a, b);
    LsbXor(a, b);
    XorAssoc(PATTERN, Shr(a), Shr(b));
    XorComm(PATTERN, Shr(b));
    XorComm(PATTERN, Shr(a));
    XorAssoc(Shr(a), PATTERN, Shr(b));
    XorCommon(PATTERN, Shr(a), Shr(b));
  }

  lemma {:induction false} StepsXor(a: bv32, b: bv32, k: nat)
    ensures Steps(Xor(a, b), k) == Xor(Steps(a, k), Steps(b, k))
    decreases k
  {
    hide Xor; hide Step;
    if k > 0 {
      StepXor(a, b);
      StepsXor(Step(a), Step(b), k - 1);
    }
  }

  lemma {:induction false} StepsZero(k: nat)
    ensures Steps(0, k) == 0
    decreases k
  {
    assert Step(0) == 0;
    hide Step;
    if k > 0 {
      StepsZero(k - 1);
    }
  }

  /** The register never forgets: only the zero register turns to zero. */
  lemma {:induction false} StepsKernel(c: bv32, k: nat)
    requires Steps(c, k) == 0
    ensures c == 0
    decreases k
  {
    if k > 0 {
      assert Steps(Step(c), k - 1) == 0;
      hide Step;
      StepsKernel(Step(c), k - 1);
      StepZero(c);
    }
  }

  lemma {:induction false} StepsAdd(c: bv32, j: nat, k: nat)
    ensures Steps(c, j + k) == Steps(Steps(c, j), k)
    decreases j
  {
    hide Step;
    if j > 0 {
      StepsAdd(Step(c), j - 1, k);
    }
  }

  // ---------- bits of a word ----------

  lemma {:induction false} BitXor(a: bv32, b: bv32, i: nat)
    ensures Bit(Xor(a, b), i) == (Bit(a, i) != Bit(b, i))
    decreases i
  {
    hide Xor; hide Shr; hide Lsb;
    if i == 0 {
      LsbXor(a, b);
    } else {
      ShrXor(a, b);
      BitXor(Shr(a), Shr(b), i - 1);
    }
  }

  lemma {:induction false} BitZero(i: nat)
    ensures !Bit(0, i)
    decreases i
  {
    OneFacts();
    hide Shr; hide Lsb;
    if i > 0 {
      BitZero(i - 1);
    }
  }

  lemma BitDrop(c: bv32, i: nat)
    ensures Bit(c, i + 8) == Bit(DropByte(c), i)
  {
    DropByteIsEightShifts(c);
    hide Shr; hide Lsb; hide DropByte;
    var c2 := Shr(Shr(c));
    var c4 := Shr(Shr(c2));
    var c6 := Shr(Shr(c4));
    assert Bit(c, i + 8) == Bit(c2, i + 6);
    assert Bit(c2, i + 6) == Bit(c4, i + 4);
    assert Bit(c4, i + 4) == Bit(c6, i + 2);
    assert Bit(c6, i + 2) == Bit(Shr(Shr(c6)), i);
  }

  /** A word has 32 bits. */
  lemma BitBeyond(c: bv32, i: nat)
    requires 32 <= i
    ensures !Bit(c, i)
  {
    FourDrops(c);
    hide Shr; hide Lsb; hide DropByte;
    BitDrop(c, i - 8);
    BitDrop(DropByte(c), i - 16);
    BitDrop(DropByte(DropByte(c)), i - 24);
    BitDrop(DropByte(DropByte(DropByte(c))), i - 32);
    BitZero(i - 32);
  }

  // ---------- whole bytes at a time ----------

  /** Bits that are fed one at a time may as well be added to the register beforehand. */
  lemma {:induction false} RunAsSteps(c: bv32, bits: seq<bool>, word: bv32)
    requires forall i: nat :: Bit(word, i) == (i < |bits| && bits[i])
    ensures Run(c, bits) == Steps(Xor(c, word), |bits|)
    decreases |bits|
  {
    hide Xor; hide Shr; hide Lsb; hide Step;
    if bits == [] {
      AllBitsClear(word);
      XorCancel(c, c);
    } else {
      OneFacts();
      var first: bv32 := if bits[0] then 1 else 0;
      var rest := Xor(word, first);
      XorCancel(first, word);
      XorComm(word, first);
      assert word == Xor(first, rest);
      assert Bit(word, 0) == bits[0];
      LsbXor(word, first);
      assert !Lsb(rest);
      ShrXor(word, first);
      XorCancel(Shr(word), 0);
      assert Shr(rest) == Shr(word);
      StepEven(rest);
      XorAssoc(c, first, rest);
      StepXor(Xor(c, first), rest);
      XorCancel(c, 0);
      assert Feed(c, bits[0]) == Step(Xor(c, first));
      forall i: nat
        ensures Bit(Shr(word), i) == (i < |bits[1..]| && bits[1..][i])
      {
        assert Bit(word, i + 1) == Bit(Shr(word), i);
      }
      RunAsSteps(Feed(c, bits[0]), bits[1..], Shr(word));
      assert Step(Xor(c, word)) == Xor(Feed(c, bits[0]), Shr(word));
    }
  }

  lemma StepEven(c: bv32)
    requires !Lsb(c)
    ensures Step(c) == Shr(c)
  {
  }

  lemma ShrEvenZero(c: bv32)
    requires !Lsb(c) && Shr(c) == 0
    ensures c == 0
  {
  }

  function Shifts(c: bv32, k: nat): bv32
    decreases k
  {
    if k == 0 then c else Shifts(Shr(c), k - 1)
  }

  lemma ShiftsDrop(c: bv32, k: nat)
    ensures Shifts(c, k + 8) == Shifts(DropByte(c), k)
  {
    DropByteIsEightShifts(c);
    hide Shr; hide DropByte;
    var c2 := Shr(Shr(c));
    var c4 := Shr(Shr(c2));
    var c6 := Shr(Shr(c4));
    assert Shifts(c, k + 8) == Shifts(c2, k + 6);
    assert Shifts(c2, k + 6) == Shifts(c4, k + 4);
    assert Shifts(c4, k + 4) == Shifts(c6, k + 2);
    assert Shifts(c6, k + 2) == Shifts(Shr(Shr(c6)), k);
  }

  lemma {:induction false} ClearUpTo(c: bv32, k: nat)
    requires forall i: nat :: !Bit(c, i)
    requires Shifts(c, k) == 0
    ensures c == 0
    decreases k
  {
    hide Shr; hide Lsb;
    if k > 0 {
      assert !Bit(c, 0);
      forall i: nat ensures !Bit(Shr(c), i) {
        assert !Bit(c, i + 1);
      }
      ClearUpTo(Shr(c), k - 1);
      ShrEvenZero(c);
    }
  }

  lemma AllBitsClear(c: bv32)
    requires forall i: nat :: !Bit(c, i)
    ensures c == 0
  {
    FourDrops(c);
    hide Bit; hide Shr; hide DropByte;
    ShiftsDrop(c, 24);
    ShiftsDrop(DropByte(c), 16);
    ShiftsDrop(DropByte(DropByte(c)), 8);
    ShiftsDrop(DropByte(DropByte(DropByte(c))), 0);
    ClearUpTo(c, 32);
  }

  /** The eight bits of a byte in the order they enter the register: least significant first. */
  function ByteBits(b: bv8): seq<bool> {
    seq(8, i requires 0 <= i < 8 => Bit(Widen(b), i))
  }

  function MessageBits(message: seq<bv8>): (bits: seq<bool>)
    ensures |bits| == 8 * |message|
    decreases |message|
  {
    if message == [] then [] else ByteBits(message[0]) + MessageBits(message[1..])
  }

  lemma WidenDrop(b: bv8)
    ensures DropByte(Widen(b)) == 0
  {
  }

  lemma ByteWord(b: bv8, i: nat)
    ensures Bit(Widen(b), i) == (i < |ByteBits(b)| && ByteBits(b)[i])
  {
    WidenDrop(b);
    hide Shr; hide Lsb; hide Widen; hide DropByte;
    if 8 <= i {
      BitDrop(Widen(b), i - 8);
      BitZero(i - 8);
    }
  }

  lemma RunByte(c: bv32, b: bv8)
    ensures Run(c, ByteBits(b)) == Steps(Xor(c, Widen(b)), 8)
  {
    hide Xor; hide Widen; hide Bit; hide Step;
    forall i: nat ensures Bit(Widen(b), i) == (i < |ByteBits(b)| && ByteBits(b)[i]) {
      ByteWord(b, i);
    }
    assert |ByteBits(b)| == 8;
    hide ByteBits;
    RunAsSteps(c, ByteBits(b), Widen(b));
  }

  lemma EightEvenSteps(c: bv32)
    ensures Steps(HighBytes(c), 8) == DropByte(c)
  {
    HighBytesEven(c);
    SplitBytes(c);
    DropByteIsEightShifts(HighBytes(c));
    hide Shr; hide Lsb; hide HighBytes; hide DropByte; hide Xor;
    var h := HighBytes(c);
    var h2 := Shr(Shr(h));
    var h4 := Shr(Shr(h2));
    var h6 := Shr(Shr(h4));
    assert Steps(h, 8) == Steps(h2, 6);
    assert Steps(h2, 6) == Steps(h4, 4);
    assert Steps(h4, 4) == Steps(h6, 2);
    assert Steps(h6, 2) == Shr(Shr(h6));
  }

  /** The byte-table identity: one table entry replaces eight turns of the register. */
  lemma ByteStep(c: bv32, b: bv8)
    ensures Run(c, ByteBits(b)) == Xor(Steps(LowByte(Xor(c, Widen(b))), 8), DropByte(c))
  {
    XorByteHigh(c, b);
    SplitBytes(Xor(c, Widen(b)));
    SplitBytes(c);
    SplitBytes(Xor(c, Widen(b)));
    hide Xor; hide Widen; hide LowByte; hide HighBytes; hide DropByte; hide Step; hide ByteBits; hide Run;
    RunByte(c, b);
    StepsXor(LowByte(Xor(c, Widen(b))), HighBytes(Xor(c, Widen(b))), 8);
    EightEvenSteps(c);
  }

  lemma {:induction false} RunAppend(c: bv32, a: seq<bool>, b: seq<bool>)
    ensures Run(c, a + b) == Run(Run(c, a), b)
    decreases |a|
  {
    hide Feed;
    if a == [] {
      assert a + b == b;
    } else {
      assert (a + b)[1..] == a[1..] + b;
      RunAppend(Feed(c, a[0]), a[1..], b);
    }
  }

  lemma {:induction false} MessageBitsAppend(a: seq<bv8>, b: seq<bv8>)
    ensures MessageBits(a + b) == MessageBits(a) + MessageBits(b)
    decreases |a|
  {
    hide ByteBits;
    if a == [] {
      assert a + b == b;
    } else {
      assert (a + b)[1..] == a[1..] + b;
      MessageBitsAppend(a[1..], b);
    }
  }
}

/** The table generator of crctab.c and the byte-wise consumer of crc32.c. */
module Crc32 {
  import opened ShiftRegister

  /** Entry n is the register after the byte n has been turned through it. */
  ghost predicate IsCrcTable(table: seq<bv32>) {
    |table| == 256 && forall n :: 0 <= n < 256 ==> table[n] == Steps(n as bv32, 8)
  }

  method MakeCrcTable(table: array<bv32>)
    requires table.Length == 256
    modifies table
    ensures IsCrcTable(table[..])
  {
    hide *;
    var n := 0;
    while n < 256
      invariant 0 <= n <= 256
      invariant forall m :: 0 <= m < n ==> table[m] == EntryOf(m)
    {
      var c := n as bv32;
      var k := 8;
      FirstStep(n);
      while k != 0
        invariant 0 <= k <= 8
        invariant Steps(c, k) == EntryOf(n)
        invariant forall m :: 0 <= m < n ==> table[m] == EntryOf(m)
      {
        NextStep(c, k);
        c := if Lsb(c) then Xor(PATTERN, Shr(c)) else Shr(c);
        k := k - 1;
      }
      StepsDone(c);
      table[n] := c;
      n := n + 1;
    }
    EntriesMake(table[..]);
  }

  function EntryOf(n: nat): bv32
    requires n < 256
  {
    Steps(n as bv32, 8)
  }

  lemma FirstStep(n: nat)
    requires n < 256
    ensures Steps(n as bv32, 8) == EntryOf(n)
  {
  }

  lemma EntriesMake(table: seq<bv32>)
    requires |table| == 256 && forall m :: 0 <= m < 256 ==> table[m] == EntryOf(m)
    ensures IsCrcTable(table)
  {
    hide Steps;
  }

  lemma NextStep(c: bv32, k: nat)
    requires k > 0
    ensures Steps(c, k) == Steps(if Lsb(c) then Xor(PATTERN, Shr(c)) else Shr(c), k - 1)
  {
    hide Xor, Shr, Lsb;
  }

  lemma StepsDone(c: bv32)
    ensures Steps(c, 0) == c
  {
  }

  /** What crc32 returns: complement, run the bits of the buffer through the register, complement. */
  function Crc(crc: bv32, message: seq<bv8>): bv32 {
    Xor(Run(Xor(crc, ALL_ONES), MessageBits(message)), ALL_ONES)
  }

  /** The macro CRC32(c, b). */
  function TableStep(table: seq<bv32>, c: bv32, b: bv8): bv32
    requires |table| == 256
  {
    Xor(table[LowByte(Xor(c, Widen(b))) as int], DropByte(c))
  }

  lemma LowByteIndex(c: bv32)
    ensures LowByte(c) as int < 256 && (LowByte(c) as int) as bv32 == LowByte(c)
  {
  }

  lemma TableStepRuns(table: seq<bv32>, c: bv32, b: bv8)
    requires IsCrcTable(table)
    ensures TableStep(table, c, b) == Run(c, MessageBits([b]))
  {
    LowByteIndex(Xor(c, Widen(b)));
    assert MessageBits([b]) == ByteBits(b);
    hide Xor; hide Widen; hide LowByte; hide DropByte; hide Steps; hide ByteBits; hide Run; hide MessageBits;
    ByteStep(c, b);
  }

  lemma RunConcat(c: bv32, a: seq<bv8>, b: seq<bv8>)
    ensures Run(c, MessageBits(a + b)) == Run(Run(c, MessageBits(a)), MessageBits(b))
  {
    hide Run; hide MessageBits;
    MessageBitsAppend(a, b);
    RunAppend(c, MessageBits(a), MessageBits(b));
  }

  method Do1(table: array<bv32>, crc: bv32, buf: array<bv8>, pos: nat) returns (crc': bv32, pos': nat)
    requires IsCrcTable(table[..]) && pos + 1 <= buf.Length
    ensures pos' == pos + 1
    ensures crc' == Run(crc, MessageBits(buf[pos..pos']))
  {
    TableStepRuns(table[..], crc, buf[pos]);
    assert buf[pos..pos + 1] == [buf[pos]];
    hide Run; hide MessageBits; hide Steps;
    LowByteIndex(Xor(crc, Widen(buf[pos])));
    crc' := Xor(table[LowByte(Xor(crc, Widen(buf[pos]))) as int], DropByte(crc));
    pos' := pos + 1;
  }

  method Do2(table: array<bv32>, crc: bv32, buf: array<bv8>, pos: nat) returns (crc': bv32, pos': nat)
    requires IsCrcTable(table[..]) && pos + 2 <= buf.Length
    ensures pos' == pos + 2
    ensures crc' == Run(crc, MessageBits(buf[pos..pos']))
  {
    hide Run; hide MessageBits; hide Steps;
    var c, p := Do1(table, crc, buf, pos);
    crc', pos' := Do1(table, c, buf, p);
    assert buf[pos..p] + buf[p..pos'] == buf[pos..pos'];
    RunConcat(crc, buf[pos..p], buf[p..pos']);
  }

  method Do4(table: array<bv32>, crc: bv32, buf: array<bv8>, pos: nat) returns (crc': bv32, pos': nat)
    requires IsCrcTable(table[..]) && pos + 4 <= buf.Length
    ensures pos' == pos + 4
    ensures crc' == Run(crc, MessageBits(buf[pos..pos']))
  {
    hide Run; hide MessageBits; hide Steps;
    var c, p := Do2(table, crc, buf, pos);
    crc', pos' := Do2(table, c, buf, p);
    assert buf[pos..p] + buf[p..pos'] == buf[pos..pos'];
    RunConcat(crc, buf[pos..p], buf[p..pos']);
  }

  method Do8(table: array<bv32>, crc: bv32, buf: array<bv8>, pos: nat) returns (crc': bv32, pos': nat)
    requires IsCrcTable(table[..]) && pos + 8 <= buf.Length
    ensures pos' == pos + 8
    ensures crc' == Run(crc, MessageBits(buf[pos..pos']))
  {
    hide Run; hide MessageBits; hide Steps;
    var c, p := Do4(table, crc, buf, pos);
    crc', pos' := Do4(table, c, buf, p);
    assert buf[pos..p] + buf[p..pos'] == buf[pos..pos'];
    RunConcat(crc, buf[pos..p], buf[p..pos']);
  }

  /** crc32(): the unrolled loop, then the tail. A null buffer asks for the initial register value. */
  method ComputeCrc32(table: array<bv32>, crc: bv32, buf: array?<bv8>, len: nat) returns (r: bv32)
    requires IsCrcTable(table[..])
    requires buf != null ==> len <= buf.Length
    ensures buf == null ==> r == 0
    ensures buf != null ==> r == Crc(crc, buf[..len])
  {
    if buf == null {
      return 0;
    }
    hide Run; hide MessageBits; hide Steps; hide Xor;
    var c, pos, left := Xor(crc, ALL_ONES), 0, len;
    RunNothing(c, buf[..0]);
    while left >= 8
      invariant 0 <= left <= len && pos == len - left
      invariant c == Run(Xor(crc, ALL_ONES), MessageBits(buf[..pos]))
    {
      ghost var before, was := pos, c;
      c, pos := Do8(table, c, buf, pos);
      assert buf[..before] + buf[before..pos] == buf[..pos];
      RunConcat(Xor(crc, ALL_ONES), buf[..before], buf[before..pos]);
      left := left - 8;
    }
    while left != 0
      invariant 0 <= left <= len && pos == len - left
      invariant c == Run(Xor(crc, ALL_ONES), MessageBits(buf[..pos]))
    {
      ghost var before := pos;
      c, pos := Do1(table, c, buf, pos);
      assert buf[..before] + buf[before..pos] == buf[..pos];
      RunConcat(Xor(crc, ALL_ONES), buf[..before], buf[before..pos]);
      left := left - 1;
    }
    assert buf[..pos] == buf[..len];
    r := Xor(c, ALL_ONES);
  }

  lemma RunNothing(c: bv32, none: seq<bv8>)
    requires none == []
    ensures Run(c, MessageBits(none)) == c
  {
  }

  /** A checksum may be computed piecewise: feed the result over A into B. */
  lemma CrcConcat(crc: bv32, a: seq<bv8>, b: seq<bv8>)
    ensures Crc(Crc(crc, a), b) == Crc(crc, a + b)
  {
    hide Run; hide MessageBits; hide Xor;
    var r := Run(Xor(crc, ALL_ONES), MessageBits(a));
    XorAssoc(r, ALL_ONES, ALL_ONES);
    XorCancel(ALL_ONES, 0);
    XorCancel(r, 0);
    RunConcat(Xor(crc, ALL_ONES), a, b);
  }
}
