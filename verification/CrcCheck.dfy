/** The check value that catalogues of checksums list for the CRC-32 of section 8 of RFC
    1952: the checksum of the ASCII digits 1 to 9. */
module CrcCheck {
  import opened Crc32
  import opened CrcWindows

  /** One byte through the register, on words. */
  lemma AddByteOfNumber(r: bv32, b: bv32)
    requires Number(b) < 256
    ensures AddByte(Number(r), Number(b)) == Number(Step8(Sum(r, b)))
  {
    hide Number, Step8, Sum, Steps, Xor;
    NumberOfSum(r, b);
    Step8OfNumber(Sum(r, b));
  }

  const DIGITS: seq<byte> := [0x31, 0x32, 0x33, 0x34, 0x35, 0x36, 0x37, 0x38, 0x39]

  lemma CheckValue()
    ensures Crc(DIGITS) == 0xCBF4_3926
  {
    hide Number, AddByte, Xor, Register;
    NumbersOfDigits();
    Ends();
    Registers();
    RegisterOfNine(ALL_ONES, DIGITS);
    Complement(Number(0x340BC6D9));
  }

  lemma RegisterOfNine(r: nat, d: seq<byte>)
    requires |d| == 9
    ensures Register(r, d) == AddByte(AddByte(AddByte(AddByte(AddByte(AddByte(AddByte(AddByte(AddByte(
            r, d[0]), d[1]), d[2]), d[3]), d[4]), d[5]), d[6]), d[7]), d[8])
  {
    hide AddByte, Register;
    RegisterOfThree(r, d[..3]);
    RegisterOfThree(Register(r, d[..3]), d[3..6]);
    RegisterOfThree(Register(Register(r, d[..3]), d[3..6]), d[6..]);
    assert d == d[..3] + d[3..6] + d[6..];
    RegisterOfConcat(r, d[..3] + d[3..6], d[6..]);
    RegisterOfConcat(r, d[..3], d[3..6]);
  }

  lemma RegisterOfThree(r: nat, d: seq<byte>)
    requires |d| == 3
    ensures Register(r, d) == AddByte(AddByte(AddByte(r, d[0]), d[1]), d[2])
  {
    hide AddByte;
    assert d[1..][1..][1..] == [];
    assert Register(AddByte(r, d[0]), d[1..]) == Register(AddByte(AddByte(r, d[0]), d[1]), d[1..][1..]);
  }

  lemma NumbersOfDigits()
    ensures Number(0x31) == 0x31 && Number(0x32) == 0x32 && Number(0x33) == 0x33 && Number(0x34) == 0x34
    ensures Number(0x35) == 0x35 && Number(0x36) == 0x36 && Number(0x37) == 0x37 && Number(0x38) == 0x38
    ensures Number(0x39) == 0x39
  {
    Nibble(0x31);
    Nibble(0x32);
    Nibble(0x33);
    Nibble(0x34);
    Nibble(0x35);
    Nibble(0x36);
    Nibble(0x37);
    Nibble(0x38);
    Nibble(0x39);
    Nibble(0x3);
    OfZero();
    hide Number;
  }

  lemma Ends()
    ensures Number(0xFFFF_FFFF) == ALL_ONES && Number(0x340BC6D9) == 0x340BC6D9
  {
    Nibble(0xFFFFFFFF);
    Nibble(0xFFFFFFF);
    Nibble(0xFFFFFF);
    Nibble(0xFFFFF);
    Nibble(0xFFFF);
    Nibble(0xFFF);
    Nibble(0xFF);
    Nibble(0xF);
    Nibble(0x340BC6D9);
    Nibble(0x340BC6D);
    Nibble(0x340BC6);
    Nibble(0x340BC);
    Nibble(0x340B);
    Nibble(0x340);
    Nibble(0x34);
    Nibble(0x3);
    OfZero();
    hide Number;
  }

  lemma Feed(r: bv32, b: bv32, r': bv32)
    requires Number(b) < 256 && r' == Step8(Sum(r, b))
    ensures AddByte(Number(r), Number(b)) == Number(r')
  {
    AddByteOfNumber(r, b);
  }

  lemma Registers()
    ensures AddByte(AddByte(AddByte(AddByte(AddByte(AddByte(AddByte(AddByte(AddByte(
            Number(0xFFFF_FFFF), 0x31), 0x32), 0x33), 0x34), 0x35), 0x36), 0x37), 0x38), 0x39) == Number(0x340BC6D9)
  {
    hide Number, AddByte;
    NumbersOfDigits();
    Feed(0xFFFFFFFF, 0x31, 0x7C231048);
    Feed(0x7C231048, 0x32, 0xB0ACBB32);
    Feed(0xB0ACBB32, 0x33, 0x77B79C2D);
    Feed(0x77B79C2D, 0x34, 0x641C1F5C);
    Feed(0x641C1F5C, 0x35, 0x340AC5E3);
    Feed(0x340AC5E3, 0x36, 0xF68D2C9E);
    Feed(0xF68D2C9E, 0x37, 0xAFFC9660);
    Feed(0xAFFC9660, 0x38, 0x651F2550);
    Feed(0x651F2550, 0x39, 0x340BC6D9);
  }
}
