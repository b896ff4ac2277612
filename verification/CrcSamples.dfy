/** Values of the table and of a checksum, as the source and the literature give them. */
module CrcSamples {
  import opened ShiftRegister
  import opened Crc32

  function EightSteps(c: bv32): bv32 {
    Step(Step(Step(Step(Step(Step(Step(Step(c))))))))
  }

  lemma StepsAreEight(c: bv32)
    ensures Steps(c, 8) == EightSteps(c)
  {
    hide Step;
    assert Steps(c, 8) == Steps(Step(Step(c)), 6) == Steps(Step(Step(Step(Step(c)))), 4);
  }

  /** The entries for single bits in the table that the source also spells out. By StepsXor every other entry is the
      exclusive or of those for its bits. */
  lemma TableEntries(table: seq<bv32>)
    requires IsCrcTable(table)
    ensures table[0] == 0
    ensures table[1] == 0x7707_3096 && table[2] == 0xee0e_612c
    ensures table[4] == 0x076d_c419 && table[8] == 0x0edb_8832
    ensures table[16] == 0x1db7_1064 && table[32] == 0x3b6e_20c8
    ensures table[64] == 0x76dc_4190 && table[128] == 0xedb8_8320
  {
    EntryValues();
    hide *;
    Entry(table, 0, 0);
    Entry(table, 1, 1);
    Entry(table, 2, 2);
    Entry(table, 4, 4);
    Entry(table, 8, 8);
    Entry(table, 16, 16);
    Entry(table, 32, 32);
    Entry(table, 64, 64);
    Entry(table, 128, 128);
  }

  lemma Entry(table: seq<bv32>, n: nat, c: bv32)
    requires IsCrcTable(table) && n < 256 && n as bv32 == c
    ensures table[n] == EightSteps(c)
  {
    hide Steps, EightSteps;
    StepsAreEight(c);
  }

  lemma EntryValues()
    ensures EightSteps(0) == 0x0000_0000
    ensures EightSteps(1) == 0x7707_3096
    ensures EightSteps(2) == 0xee0e_612c
    ensures EightSteps(4) == 0x076d_c419
    ensures EightSteps(8) == 0x0edb_8832
    ensures EightSteps(16) == 0x1db7_1064
    ensures EightSteps(32) == 0x3b6e_20c8
    ensures EightSteps(64) == 0x76dc_4190
    ensures EightSteps(128) == 0xedb8_8320
  {
  }

  /** One byte, when the register's next value is known. */
  lemma Next(c: bv32, s: seq<bv8>, k: nat, b: bv8, c': bv32)
    requires k < |s| && s[k] == b && EightSteps(Xor(c, Widen(b))) == c'
    ensures Run(c, MessageBits(s[k..])) == Run(c', MessageBits(s[k + 1..]))
  {
    OneByte(b);
    hide *;
    RunByte(c, b);
    StepsAreEight(Xor(c, Widen(b)));
    assert s[k..] == [b] + s[k + 1..];
    RunConcat(c, [b], s[k + 1..]);
  }

  lemma OneByte(b: bv8)
    ensures MessageBits([b]) == ByteBits(b)
  {
    hide ByteBits;
    assert [b][1..] == [] && MessageBits([b]) == ByteBits(b) + [];
  }

  lemma RegisterValues()
    ensures EightSteps(Xor(0xffff_ffff, Widen(0x31))) == 0x7c23_1048
    ensures EightSteps(Xor(0x7c23_1048, Widen(0x32))) == 0xb0ac_bb32
    ensures EightSteps(Xor(0xb0ac_bb32, Widen(0x33))) == 0x77b7_9c2d
    ensures EightSteps(Xor(0x77b7_9c2d, Widen(0x34))) == 0x641c_1f5c
    ensures EightSteps(Xor(0x641c_1f5c, Widen(0x35))) == 0x340a_c5e3
    ensures EightSteps(Xor(0x340a_c5e3, Widen(0x36))) == 0xf68d_2c9e
    ensures EightSteps(Xor(0xf68d_2c9e, Widen(0x37))) == 0xaffc_9660
    ensures EightSteps(Xor(0xaffc_9660, Widen(0x38))) == 0x651f_2550
    ensures EightSteps(Xor(0x651f_2550, Widen(0x39))) == 0x340b_c6d9
  {
  }

  /** The check value of CRC-32: the checksum of the digits from 1 to 9. */
  lemma CheckValue()
    ensures Crc(0, [0x31, 0x32, 0x33, 0x34, 0x35, 0x36, 0x37, 0x38, 0x39]) == 0xcbf4_3926
  {
    var digits: seq<bv8> := [0x31, 0x32, 0x33, 0x34, 0x35, 0x36, 0x37, 0x38, 0x39];
    assert digits[0..] == digits;
    hide *;
    DigitsFrom(digits);
    DigitsNext(digits);
    DigitsLast(digits);
    Closing(digits);
  }

  lemma DigitsFrom(s: seq<bv8>)
    requires |s| == 9 && s[0] == 0x31 && s[1] == 0x32 && s[2] == 0x33
    ensures Run(0xffff_ffff, MessageBits(s[0..])) == Run(0x77b7_9c2d, MessageBits(s[3..]))
  {
    hide *;
    RegisterValues();
    Next(0xffff_ffff, s, 0, 0x31, 0x7c23_1048);
    Next(0x7c23_1048, s, 1, 0x32, 0xb0ac_bb32);
    Next(0xb0ac_bb32, s, 2, 0x33, 0x77b7_9c2d);
  }

  lemma DigitsNext(s: seq<bv8>)
    requires |s| == 9 && s[3] == 0x34 && s[4] == 0x35 && s[5] == 0x36
    ensures Run(0x77b7_9c2d, MessageBits(s[3..])) == Run(0xf68d_2c9e, MessageBits(s[6..]))
  {
    hide *;
    RegisterValues();
    Next(0x77b7_9c2d, s, 3, 0x34, 0x641c_1f5c);
    Next(0x641c_1f5c, s, 4, 0x35, 0x340a_c5e3);
    Next(0x340a_c5e3, s, 5, 0x36, 0xf68d_2c9e);
  }

  lemma DigitsLast(s: seq<bv8>)
    requires |s| == 9 && s[6] == 0x37 && s[7] == 0x38 && s[8] == 0x39
    ensures Run(0xf68d_2c9e, MessageBits(s[6..])) == Run(0x340b_c6d9, MessageBits(s[9..]))
  {
    hide *;
    RegisterValues();
    Next(0xf68d_2c9e, s, 6, 0x37, 0xaffc_9660);
    Next(0xaffc_9660, s, 7, 0x38, 0x651f_2550);
    Next(0x651f_2550, s, 8, 0x39, 0x340b_c6d9);
  }

  lemma Closing(digits: seq<bv8>)
    requires |digits| == 9
    ensures Run(0x340b_c6d9, MessageBits(digits[9..])) == 0x340b_c6d9
    ensures Run(0xffff_ffff, MessageBits(digits)) == 0x340b_c6d9 ==> Crc(0, digits) == 0xcbf4_3926
  {
    RunNothing(0x340b_c6d9, digits[9..]);
    assert Xor(0, ALL_ONES) == 0xffff_ffff && Xor(0x340b_c6d9, ALL_ONES) == 0xcbf4_3926;
    hide Run, MessageBits, Xor;
  }
}
