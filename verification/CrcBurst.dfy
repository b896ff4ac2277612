/** Error detection: what the checksum of two buffers says about their difference. */
module CrcBurst {
  import opened ShiftRegister
  import opened Crc32

  lemma FeedInjective(x: bv32, y: bv32, bit: bool)
    requires Feed(x, bit) == Feed(y, bit)
    ensures x == y
  {
    hide Xor; hide Step;
    var one: bv32 := if bit then 1 else 0;
    XorCancel(x, 0);
    XorCancel(y, 0);
    StepXor(Xor(x, one), Xor(y, one));
    XorCancel(Step(Xor(x, one)), 0);
    StepZero(Xor(Xor(x, one), Xor(y, one)));
    XorComm(x, one);
    XorComm(y, one);
    XorCommon(one, x, y);
    XorEqual(x, y);
  }

  lemma XorEqual(x: bv32, y: bv32)
    requires Xor(x, y) == 0
    ensures x == y
  {
  }

  lemma {:induction false} RunInjective(x: bv32, y: bv32, bits: seq<bool>)
    requires Run(x, bits) == Run(y, bits)
    ensures x == y
    decreases |bits|
  {
    hide Feed;
    if bits != [] {
      RunInjective(Feed(x, bits[0]), Feed(y, bits[0]), bits[1..]);
      FeedInjective(x, y, bits[0]);
    }
  }

  function Shl(c: bv32): bv32 {
    c << 1
  }

  lemma ShlFacts(c: bv32, bit: bool)
    requires c < 0x8000_0000
    ensures Shr(Xor(Shl(c), if bit then 1 else 0)) == c
    ensures Lsb(Xor(Shl(c), if bit then 1 else 0)) == bit
  {
  }

  lemma TopBitWord(c: bv32)
    ensures Lsb(Shr(Shr(Shr(Shr(Shr(Shr(Shr(DropByte(DropByte(DropByte(c)))))))))))
            == (c >= 0x8000_0000)
  {
  }

  lemma TopBit(c: bv32)
    requires !Bit(c, 31)
    ensures c < 0x8000_0000
  {
    TopBitWord(c);
    hide Shr; hide Lsb; hide DropByte;
    BitDrop(c, 23);
    BitDrop(DropByte(c), 15);
    BitDrop(DropByte(DropByte(c)), 7);
    var d := DropByte(DropByte(DropByte(c)));
    var d2 := Shr(Shr(d));
    var d4 := Shr(Shr(d2));
    assert Bit(d, 7) == Bit(d2, 5);
    assert Bit(d2, 5) == Bit(d4, 3);
    assert Bit(d4, 3) == Bit(Shr(Shr(d4)), 1);
  }

  /** Every string of at most 32 bits is the bit pattern of some word. */
  lemma {:induction false} Pack(bits: seq<bool>) returns (word: bv32)
    requires |bits| <= 32
    ensures forall i: nat :: Bit(word, i) == (i < |bits| && bits[i])
    decreases |bits|
  {
    if bits == [] {
      word := 0;
      hide Bit;
      forall i: nat ensures !Bit(word, i) { BitZero(i); }
    } else {
      var rest := Pack(bits[1..]);
      assert !Bit(rest, 31);
      TopBit(rest);
      ShlFacts(rest, bits[0]);
      hide Shr; hide Lsb; hide Xor; hide Shl;
      word := Xor(Shl(rest), if bits[0] then 1 else 0);
      forall i: nat ensures Bit(word, i) == (i < |bits| && bits[i]) {
        if i > 0 {
          assert Bit(word, i) == Bit(rest, i - 1);
        }
      }
    }
  }

  /** Up to 32 bits of message are recoverable from the register they were fed into. */
  lemma WindowInjective(c: bv32, a: seq<bool>, b: seq<bool>)
    requires |a| == |b| <= 32
    requires Run(c, a) == Run(c, b)
    ensures a == b
  {
    hide Bit; hide Run; hide Xor; hide Steps;
    var p := Pack(a);
    var q := Pack(b);
    RunAsSteps(c, a, p);
    RunAsSteps(c, b, q);
    StepsXor(Xor(c, p), Xor(c, q), |a|);
    XorCancel(Steps(Xor(c, p), |a|), 0);
    StepsKernel(Xor(Xor(c, p), Xor(c, q)), |a|);
    XorCommon(c, p, q);
    XorEqual(p, q);
    forall i: nat | i < |a| ensures a[i] == b[i] {
      assert Bit(p, i) == a[i];
    }
  }

  lemma WidenInjective(a: bv8, b: bv8)
    requires Widen(a) == Widen(b)
    ensures a == b
  {
  }

  lemma ByteBitsInjective(a: bv8, b: bv8)
    requires ByteBits(a) == ByteBits(b)
    ensures a == b
  {
    hide Bit; hide Xor; hide Widen;
    forall i: nat ensures !Bit(Xor(Widen(a), Widen(b)), i) {
      ByteWord(a, i);
      ByteWord(b, i);
      BitXor(Widen(a), Widen(b), i);
    }
    AllBitsClear(Xor(Widen(a), Widen(b)));
    XorEqual(Widen(a), Widen(b));
    WidenInjective(a, b);
  }

  lemma {:induction false} MessageBitsInjective(a: seq<bv8>, b: seq<bv8>)
    requires |a| == |b| && MessageBits(a) == MessageBits(b)
    ensures a == b
    decreases |a|
  {
    hide Bit;
    if a != [] {
      assert ByteBits(a[0]) == MessageBits(a)[..8] == MessageBits(b)[..8] == ByteBits(b[0]);
      ByteBitsInjective(a[0], b[0]);
      assert MessageBits(a[1..]) == MessageBits(a)[8..] == MessageBits(b)[8..] == MessageBits(b[1..]);
      MessageBitsInjective(a[1..], b[1..]);
    }
  }

  lemma SplitWindow(c: bv32, bits: seq<bool>, from: nat, to: nat)
    requires from <= to <= |bits|
    ensures Run(c, bits) == Run(Run(Run(c, bits[..from]), bits[from..to]), bits[to..])
  {
    hide Run;
    assert bits == bits[..from] + (bits[from..to] + bits[to..]);
    RunAppend(c, bits[..from], bits[from..to] + bits[to..]);
    RunAppend(Run(c, bits[..from]), bits[from..to], bits[to..]);
  }

  /** Bit strings that agree outside a window of 32 bits and drive the register to the same value are equal. */
  lemma BurstBits(c: bv32, x: seq<bool>, y: seq<bool>, from: nat, to: nat)
    requires |x| == |y| && from <= to <= |x| && to <= from + 32
    requires x[..from] == y[..from] && x[to..] == y[to..]
    requires Run(c, x) == Run(c, y)
    ensures x == y
  {
    hide Run;
    SplitWindow(c, x, from, to);
    SplitWindow(c, y, from, to);
    var d := Run(c, x[..from]);
    RunInjective(Run(d, x[from..to]), Run(d, y[from..to]), x[to..]);
    WindowInjective(d, x[from..to], y[from..to]);
    assert x == x[..from] + x[from..to] + x[to..];
    assert y == y[..from] + y[from..to] + y[to..];
  }

  /** Equal checksums come from equal registers. */
  lemma CrcReflectsRun(crc: bv32, a: seq<bv8>, b: seq<bv8>)
    requires Crc(crc, a) == Crc(crc, b)
    ensures Run(Xor(crc, ALL_ONES), MessageBits(a)) == Run(Xor(crc, ALL_ONES), MessageBits(b))
  {
    hide Run; hide MessageBits; hide Xor;
    var r := Run(Xor(crc, ALL_ONES), MessageBits(a));
    var s := Run(Xor(crc, ALL_ONES), MessageBits(b));
    XorComm(r, ALL_ONES);
    XorComm(s, ALL_ONES);
    XorCommon(ALL_ONES, r, s);
    XorCancel(Xor(r, ALL_ONES), 0);
    XorEqual(r, s);
  }

  /** Burst detection: buffers that differ only inside a window of 32 consecutive bits
      never have the same checksum. */
  lemma BurstDetected(crc: bv32, a: seq<bv8>, b: seq<bv8>, start: nat)
    requires |a| == |b| && a != b
    requires forall i :: 0 <= i < 8 * |a| && !(start <= i < start + 32)
                         ==> MessageBits(a)[i] == MessageBits(b)[i]
    ensures Crc(crc, a) != Crc(crc, b)
  {
    hide Run; hide MessageBits; hide Xor; hide Crc;
    var x, y := MessageBits(a), MessageBits(b);
    var n := 8 * |a|;
    var from := if start < n then start else n;
    var to := if start + 32 < n then start + 32 else n;
    if Crc(crc, a) == Crc(crc, b) {
      CrcReflectsRun(crc, a, b);
      assert x[..from] == y[..from];
      assert x[to..] == y[to..];
      BurstBits(Xor(crc, ALL_ONES), x, y, from, to);
      MessageBitsInjective(a, b);
    }
  }
}
