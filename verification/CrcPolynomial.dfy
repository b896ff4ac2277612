/** Polynomials over GF(2), as the finite set of exponents that have coefficient one. */
module Polynomials {
  type Poly = set<nat>

  /** Addition is exclusive-or of coefficients. */
  function Add(a: Poly, b: Poly): Poly {
    (a - b) + (b - a)
  }

  function Displaced(a: Poly, k: nat): Poly {
    set e | e in a :: e + k
  }

  lemma DisplacedMembers(a: Poly, k: nat)
    ensures forall e: nat :: e in Displaced(a, k) <==> e >= k && e - k in a
  {
    forall e: nat ensures e in Displaced(a, k) <==> e >= k && e - k in a {
      if e >= k && e - k in a {
        assert (e - k) + k in Displaced(a, k);
      }
    }
  }

  /** a * x^k */
  function MulXn(a: Poly, k: nat): (r: Poly)
    ensures forall e: nat :: e in r <==> e >= k && e - k in a
  {
    DisplacedMembers(a, k);
    Displaced(a, k)
  }

  /** The coefficient of x^e in the polynomial with these coefficients, the highest power first. */
  predicate Coefficient(bits: seq<bool>, e: nat) {
    e < |bits| && bits[|bits| - 1 - e]
  }

  function FromBits(bits: seq<bool>): Poly {
    set e: nat | e < |bits| && Coefficient(bits, e)
  }

  /** The product of the polynomial with coefficients q (highest power first) and p. */
  function Times(q: seq<bool>, p: Poly): Poly
    decreases |q|
  {
    if q == [] then {}
    else Add(MulXn(Times(q[..|q| - 1], p), 1), if q[|q| - 1] then p else {})
  }

  /** r is a remainder of a on division by p: a = q p + r and r is of lower degree than p. */
  ghost predicate IsRemainder(a: Poly, p: Poly, degree: nat, r: Poly) {
    && (forall e: nat :: e in r ==> e < degree)
    && exists q: seq<bool> :: a == Add(Times(q, p), r)
  }

  lemma MulXnAdd(a: Poly, b: Poly, k: nat)
    ensures MulXn(Add(a, b), k) == Add(MulXn(a, k), MulXn(b, k))
  {
  }

  lemma MulXnTwice(a: Poly, j: nat, k: nat)
    ensures MulXn(MulXn(a, j), k) == MulXn(a, j + k)
  {
  }

  lemma FromBitsAppend(bits: seq<bool>, bit: bool)
    ensures FromBits(bits + [bit]) == Add(MulXn(FromBits(bits), 1), if bit then {0} else {})
  {
    var all := bits + [bit];
    forall e: nat
      ensures e in FromBits(all) <==> e in Add(MulXn(FromBits(bits), 1), if bit then {0} else {})
    {
      if 0 < e < |all| {
        assert all[|all| - 1 - e] == bits[|bits| - 1 - (e - 1)];
      }
    }
  }

  lemma TimesAppend(q: seq<bool>, bit: bool, p: Poly)
    ensures Times(q + [bit], p) == Add(MulXn(Times(q, p), 1), if bit then p else {})
  {
    assert (q + [bit])[..|q|] == q;
  }

  /** Pads a quotient with leading zero coefficients. */
  function Padded(q: seq<bool>, n: nat): seq<bool> {
    seq(n, _ => false) + q
  }

  lemma {:induction false} TimesZeros(n: nat, p: Poly)
    ensures Times(seq(n, _ => false), p) == {}
    decreases n
  {
    if n > 0 {
      assert seq(n, _ => false)[..n - 1] == seq(n - 1, _ => false);
      TimesZeros(n - 1, p);
    }
  }

  lemma {:induction false} TimesPadded(q: seq<bool>, n: nat, p: Poly)
    ensures Times(Padded(q, n), p) == Times(q, p)
    decreases |q|
  {
    if q == [] {
      assert Padded(q, n) == seq(n, _ => false);
      TimesZeros(n, p);
    } else {
      var init := q[..|q| - 1];
      assert Padded(q, n) == Padded(init, n) + [q[|q| - 1]];
      TimesAppend(Padded(init, n), q[|q| - 1], p);
      TimesPadded(init, n, p);
    }
  }

  function XorBits(a: seq<bool>, b: seq<bool>): seq<bool>
    requires |a| == |b|
  {
    seq(|a|, i requires 0 <= i < |a| => a[i] != b[i])
  }

  lemma {:induction false} TimesAdd(a: seq<bool>, b: seq<bool>, p: Poly)
    requires |a| == |b|
    ensures Times(XorBits(a, b), p) == Add(Times(a, p), Times(b, p))
    decreases |a|
  {
    if a != [] {
      var n := |a| - 1;
      assert XorBits(a, b)[..n] == XorBits(a[..n], b[..n]);
      TimesAdd(a[..n], b[..n], p);
      MulXnAdd(Times(a[..n], p), Times(b[..n], p), 1);
    }
  }

  lemma AllFalse(q: seq<bool>, p: Poly)
    requires forall i :: 0 <= i < |q| ==> !q[i]
    ensures Times(q, p) == {}
  {
    assert q == seq(|q|, _ => false);
    TimesZeros(|q|, p);
  }

  /** A nonzero multiple of p has at least the degree of p. */
  lemma {:induction false} TimesDegree(q: seq<bool>, p: Poly, degree: nat) returns (top: nat)
    requires degree in p && forall e: nat :: e in p ==> e <= degree
    requires exists i :: 0 <= i < |q| && q[i]
    ensures degree <= top && top in Times(q, p)
    ensures forall e: nat :: e in Times(q, p) ==> e <= top
    decreases |q|
  {
    var n := |q| - 1;
    if exists i :: 0 <= i < n && q[i] {
      var i :| 0 <= i < n && q[i];
      assert q[..n][i];
      var t := TimesDegree(q[..n], p, degree);
      top := t + 1;
    } else {
      AllFalse(q[..n], p);
      assert q[n];
      top := degree;
    }
  }

  lemma AddMembers(a: Poly, b: Poly)
    ensures forall e: nat :: e in Add(a, b) <==> (e in a) != (e in b)
  {
  }

  lemma AddSwap(a: Poly, b: Poly, c: Poly)
    ensures Add(Add(a, b), c) == Add(Add(a, c), b)
  {
  }

  lemma AddCross(t: Poly, r: Poly, u: Poly, s: Poly)
    requires Add(t, r) == Add(u, s)
    ensures Add(t, u) == Add(r, s)
  {
    forall e: nat ensures e in Add(t, u) <==> e in Add(r, s) {
      assert e in Add(t, r) <==> e in Add(u, s);
    }
  }

  /** Division leaves one remainder only. */
  lemma RemainderUnique(a: Poly, p: Poly, degree: nat, r: Poly, s: Poly)
    requires degree in p && forall e: nat :: e in p ==> e <= degree
    requires IsRemainder(a, p, degree, r) && IsRemainder(a, p, degree, s)
    ensures r == s
  {
    var q: seq<bool> :| a == Add(Times(q, p), r);
    var t: seq<bool> :| a == Add(Times(t, p), s);
    var q', t' := Padded(q, |t|), t;
    TimesPadded(q, |t|, p);
    t' := Padded(t, |q|);
    TimesPadded(t, |q|, p);
    TimesAdd(q', t', p);
    var d := XorBits(q', t');
    AddCross(Times(q, p), r, Times(t, p), s);
    hide Add; hide Times; hide Padded; hide XorBits;
    assert Times(d, p) == Add(r, s);
    AddMembers(r, s);
    if exists i :: 0 <= i < |d| && d[i] {
      var top := TimesDegree(d, p, degree);
      assert false;
    }
    AllFalse(d, p);
    forall e: nat ensures e in r <==> e in s {
      assert e !in Add(r, s);
    }
  }
}

/** The checksum is a polynomial remainder, as the comment of crctab.c has it. */
module CrcPolynomial {
  import opened ShiftRegister
  import opened Crc32
  import opened Polynomials

  /** x^32+x^26+x^23+x^22+x^16+x^12+x^11+x^10+x^8+x^7+x^5+x^4+x^2+x+1 */
  const P: Poly := {0, 1, 2, 4, 5, 7, 8, 10, 11, 12, 16, 22, 23, 26, 32}

  /** x^31 + ... + x + 1, the initial register */
  const ALL_POWERS: Poly := set e: nat | e < 32

  /** The coefficient of x^e in a register: the lowest power is the most significant bit. */
  predicate RegCoefficient(c: bv32, e: nat) {
    e < 32 && Bit(c, 31 - e)
  }

  function RegPoly(c: bv32): Poly {
    set e: nat | e < 32 && RegCoefficient(c, e)
  }

  lemma RegPolyXor(a: bv32, b: bv32)
    ensures RegPoly(Xor(a, b)) == Add(RegPoly(a), RegPoly(b))
  {
    hide Xor; hide Bit;
    forall e: nat | e < 32 ensures e in RegPoly(Xor(a, b)) <==> e in Add(RegPoly(a), RegPoly(b)) {
      BitXor(a, b, 31 - e);
    }
  }

  lemma PatternByte0(i: nat)
    requires i < 8
    ensures Bit(PATTERN, i) <==> 31 - i in P
  {
    assert !Bit(PATTERN, 0) && !Bit(PATTERN, 1) && !Bit(PATTERN, 2) && !Bit(PATTERN, 3)
        && !Bit(PATTERN, 4) && Bit(PATTERN, 5) && !Bit(PATTERN, 6) && !Bit(PATTERN, 7);
  }

  lemma PatternByte1(i: nat)
    requires i < 8
    ensures Bit(0xed_b883, i) <==> 23 - i in P
  {
    assert Bit(0xed_b883, 0) && Bit(0xed_b883, 1) && !Bit(0xed_b883, 2) && !Bit(0xed_b883, 3)
        && !Bit(0xed_b883, 4) && !Bit(0xed_b883, 5) && !Bit(0xed_b883, 6) && Bit(0xed_b883, 7);
  }

  lemma PatternByte2(i: nat)
    requires i < 8
    ensures Bit(0xedb8, i) <==> 15 - i in P
  {
    assert !Bit(0xedb8, 0) && !Bit(0xedb8, 1) && !Bit(0xedb8, 2) && Bit(0xedb8, 3)
        && Bit(0xedb8, 4) && Bit(0xedb8, 5) && !Bit(0xedb8, 6) && Bit(0xedb8, 7);
  }

  lemma PatternByte3(i: nat)
    requires i < 8
    ensures Bit(0xed, i) <==> 7 - i in P
  {
    assert Bit(0xed, 0) && !Bit(0xed, 1) && Bit(0xed, 2) && Bit(0xed, 3)
        && !Bit(0xed, 4) && Bit(0xed, 5) && Bit(0xed, 6) && Bit(0xed, 7);
  }

  lemma PatternBytes()
    ensures DropByte(PATTERN) == 0xed_b883 && DropByte(0xed_b883) == 0xedb8 && DropByte(0xedb8) == 0xed
  {
  }

  /** The constant of the source is the polynomial of its comment without x^32. */
  lemma PatternBits(i: nat)
    requires i < 32
    ensures Bit(PATTERN, i) <==> 31 - i in P
  {
    hide *;
    PatternBytes();
    PatternByte0(i % 8);
    PatternByte1(i % 8);
    PatternByte2(i % 8);
    PatternByte3(i % 8);
    BitDrops(PATTERN, 0xed_b883, 0xedb8, 0xed, i);
  }

  /** Finds bit i of a word in one of its bytes. */
  lemma BitDrops(c: bv32, d: bv32, e: bv32, f: bv32, i: nat)
    requires i < 32 && d == DropByte(c) && e == DropByte(d) && f == DropByte(e)
    ensures Bit(c, i) == Bit(if i < 8 then c else if i < 16 then d else if i < 24 then e else f, i % 8)
  {
    hide DropByte; hide Shr; hide Lsb; hide Bit;
    if 8 <= i {
      BitDrop(c, i - 8);
      if 16 <= i {
        BitDrop(d, i - 16);
        if 24 <= i {
          BitDrop(e, i - 24);
        }
      }
    }
  }

  /** Multiplying the register by x and subtracting the polynomial when the degree reaches 32. */
  lemma StepPoly(c: bv32)
    ensures MulXn(RegPoly(c), 1) == Add(RegPoly(Step(c)), if Lsb(c) then P else {})
  {
    hide *;
    forall e: nat
      ensures e in MulXn(RegPoly(c), 1) <==> e in Add(RegPoly(Step(c)), if Lsb(c) then P else {})
    {
      StepCoefficient(c, e);
    }
  }

  lemma StepCoefficient(c: bv32, e: nat)
    ensures e in MulXn(RegPoly(c), 1) <==> e in Add(RegPoly(Step(c)), if Lsb(c) then P else {})
  {
    hide Xor, Shr, Lsb;
    if e < 32 {
      PatternBits(31 - e);
      BitXor(PATTERN, Shr(c), 31 - e);
      assert Bit(Shr(c), 31 - e) == Bit(c, 32 - e);
      if e == 0 {
        BitBeyond(c, 32);
      }
    } else if e == 32 {
      assert RegCoefficient(c, 31) == Bit(c, 0);
    }
  }

  lemma OnePoly()
    ensures RegPoly(1) == {31}
  {
    OneFacts();
    hide Shr; hide Lsb;
    forall e: nat ensures e in RegPoly(1) <==> e == 31 {
      if e < 31 {
        BitZero(30 - e);
      }
    }
  }

  /** Feeding a bit b multiplies by x and adds b x^32, modulo P. */
  lemma FeedPoly(c: bv32, bit: bool) returns (quotient: bool)
    ensures Add(MulXn(RegPoly(c), 1), if bit then {32} else {})
            == Add(RegPoly(Feed(c, bit)), if quotient then P else {})
  {
    hide Xor; hide Shr; hide Lsb; hide Bit; hide Step; hide RegPoly;
    var d := if bit then Xor(c, 1) else c;
    StepPoly(d);
    quotient := Lsb(d);
    if bit {
      RegPolyXor(c, 1);
      OnePoly();
      MulXnAdd(RegPoly(c), RegPoly(1), 1);
      assert MulXn({31}, 1) == {32};
    }
  }

  /** The dividend: the message times x^32, plus the initial register moved above the message. */
  function Dividend(c: bv32, bits: seq<bool>): Poly {
    Add(MulXn(FromBits(bits), 32), MulXn(RegPoly(c), |bits|))
  }

  lemma DividendAppend(c: bv32, bits: seq<bool>, bit: bool)
    ensures Dividend(c, bits + [bit]) == Add(MulXn(Dividend(c, bits), 1), if bit then {32} else {})
  {
    hide RegPoly; hide FromBits; hide Add; hide MulXn;
    FromBitsAppend(bits, bit);
    var m := FromBits(bits);
    MulXnAdd(MulXn(m, 1), if bit then {0} else {}, 32);
    MulXnTwice(m, 1, 32);
    MulXnTwice(m, 32, 1);
    MulXnTwice(RegPoly(c), |bits|, 1);
    MulXnAdd(MulXn(m, 32), MulXn(RegPoly(c), |bits|), 1);
    MonomialShift(bit, 0, 32);
    AddSwap(MulXn(m, 33), if bit then {32} else {}, MulXn(RegPoly(c), |bits| + 1));
  }

  lemma MonomialShift(bit: bool, e: nat, k: nat)
    ensures MulXn(if bit then {e} else {}, k) == if bit then {e + k} else {}
  {
  }

  /** The shift register divides: after any message it holds the dividend modulo P. */
  lemma {:induction false} RegisterDivides(c: bv32, bits: seq<bool>) returns (q: seq<bool>)
    ensures Dividend(c, bits) == Add(Times(q, P), RegPoly(Run(c, bits)))
    decreases |bits|
  {
    if bits == [] {
      q := [];
      assert FromBits(bits) == {};
      hide Bit;
    } else {
      hide RegPoly; hide Feed; hide FromBits;
      var n := |bits| - 1;
      var r := Run(c, bits[..n]);
      assert bits == bits[..n] + [bits[n]];
      RunAppend(c, bits[..n], [bits[n]]);
      RunOne(r, bits[n]);
      var q0 := RegisterDivides(c, bits[..n]);
      var b := FeedPoly(r, bits[n]);
      q := q0 + [b];
      DividendAppend(c, bits[..n], bits[n]);
      TimesAppend(q0, b, P);
      MulXnAdd(Times(q0, P), RegPoly(r), 1);
      Regroup(MulXn(Times(q0, P), 1), MulXn(RegPoly(r), 1), if bits[n] then {32} else {},
              if b then P else {}, RegPoly(Feed(r, bits[n])));
    }
  }

  lemma RunOne(c: bv32, bit: bool)
    ensures Run(c, [bit]) == Feed(c, bit)
  {
    hide Feed;
    assert Run(Feed(c, bit), []) == Feed(c, bit);
  }

  lemma Regroup(t: Poly, r: Poly, b: Poly, p: Poly, s: Poly)
    requires Add(r, b) == Add(s, p)
    ensures Add(Add(t, r), b) == Add(Add(t, p), s)
  {
    forall e: nat ensures e in Add(Add(t, r), b) <==> e in Add(Add(t, p), s) {
      assert e in Add(r, b) <==> e in Add(s, p);
    }
  }

  lemma AllOnesPoly()
    ensures RegPoly(ALL_ONES) == ALL_POWERS
  {
    forall e: nat | e < 32 ensures e in RegPoly(ALL_ONES) {
      AllOnesBit(31 - e);
    }
  }

  lemma AllOnesBytes(i: nat)
    requires i < 8
    ensures Bit(ALL_ONES, i) && Bit(0xff_ffff, i) && Bit(0xffff, i) && Bit(0xff, i)
  {
    assert Bit(ALL_ONES, 0) && Bit(ALL_ONES, 1) && Bit(ALL_ONES, 2) && Bit(ALL_ONES, 3)
        && Bit(ALL_ONES, 4) && Bit(ALL_ONES, 5) && Bit(ALL_ONES, 6) && Bit(ALL_ONES, 7);
    assert Bit(0xff_ffff, 0) && Bit(0xff_ffff, 1) && Bit(0xff_ffff, 2) && Bit(0xff_ffff, 3)
        && Bit(0xff_ffff, 4) && Bit(0xff_ffff, 5) && Bit(0xff_ffff, 6) && Bit(0xff_ffff, 7);
    assert Bit(0xffff, 0) && Bit(0xffff, 1) && Bit(0xffff, 2) && Bit(0xffff, 3)
        && Bit(0xffff, 4) && Bit(0xffff, 5) && Bit(0xffff, 6) && Bit(0xffff, 7);
    assert Bit(0xff, 0) && Bit(0xff, 1) && Bit(0xff, 2) && Bit(0xff, 3)
        && Bit(0xff, 4) && Bit(0xff, 5) && Bit(0xff, 6) && Bit(0xff, 7);
  }

  lemma AllOnesBit(i: nat)
    requires i < 32
    ensures Bit(ALL_ONES, i)
  {
    assert DropByte(ALL_ONES) == 0xff_ffff;
    assert DropByte(0xff_ffff) == 0xffff;
    assert DropByte(0xffff) == 0xff;
    hide DropByte; hide Shr; hide Lsb;
    AllOnesBytes(i % 8);
    BitDrops(ALL_ONES, 0xff_ffff, 0xffff, 0xff, i);
  }

  /** crc32(0, m) is the complement of the remainder of m(x) x^32 + (x^31 + ... + 1) x^(8n) modulo P. */
  lemma CrcIsRemainder(message: seq<bv8>)
    ensures var n := 8 * |message|;
      IsRemainder(Add(MulXn(FromBits(MessageBits(message)), 32), MulXn(ALL_POWERS, n)),
                  P, 32, RegPoly(Xor(Crc(0, message), ALL_ONES)))
  {
    hide Run; hide MessageBits; hide Xor; hide FromBits;
    AllOnesPoly();
    XorComm(0, ALL_ONES);
    XorCancel(ALL_ONES, 0);
    var r := Run(ALL_ONES, MessageBits(message));
    XorAssoc(r, ALL_ONES, ALL_ONES);
    XorCancel(r, 0);
    var q := RegisterDivides(ALL_ONES, MessageBits(message));
    hide Bit;
  }

  /** A table entry is (q x^32) mod P for the byte q. */
  lemma TableEntryIsRemainder(b: bv8)
    ensures IsRemainder(MulXn(FromBits(ByteBits(b)), 32), P, 32, RegPoly(Steps(Widen(b), 8)))
  {
    hide Xor; hide FromBits; hide ByteBits; hide Run; hide Steps; hide Widen;
    RunByte(0, b);
    XorComm(0, Widen(b));
    XorCancel(Widen(b), 0);
    ZeroPoly();
    var q := RegisterDivides(0, ByteBits(b));
    assert MulXn(RegPoly(0), |ByteBits(b)|) == {};
    hide Bit;
  }

  lemma ZeroPoly()
    ensures RegPoly(0) == {}
  {
    hide Bit;
    forall e: nat ensures e !in RegPoly(0) {
      if e < 32 {
        BitZero(31 - e);
      }
    }
  }
}
