/** The CRC-32 of section 8 of RFC 1952, bit by bit: the checksum that `zlib.crc32`
    computes and that guards the firmware update HEADER.  Registers are natural numbers
    below 2^32; exclusive or is defined on their binary digits. */
module Crc32 {

  type byte = n: nat | n < 256

  const TWO32: nat := 0x1_0000_0000
  const POLYNOMIAL: nat := 0xEDB8_8320
  const ALL_ONES: nat := 0xFFFF_FFFF

  function Xor(a: nat, b: nat): nat
    decreases a + b
  {
    if a == 0 && b == 0 then 0 else (a + b) % 2 + 2 * Xor(a / 2, b / 2)
  }

  function Feedback(r: nat): nat {
    if r % 2 == 1 then POLYNOMIAL else 0
  }

  /** One bit through the reflected shift register. */
  function Step(r: nat): nat {
    Xor(r / 2, Feedback(r))
  }

  function Steps(r: nat, n: nat): nat
    decreases n
  {
    if n == 0 then r else Steps(Step(r), n - 1)
  }

  function AddByte(r: nat, b: byte): nat {
    Steps(Xor(r, b), 8)
  }

  function Register(r: nat, data: seq<byte>): nat
    decreases data
  {
    if data == [] then r else Register(AddByte(r, data[0]), data[1..])
  }

  function Crc(data: seq<byte>): nat {
    Xor(Register(ALL_ONES, data), ALL_ONES)
  }

  // ------------------------------------------------------------- exclusive or

  lemma XorHalves(a: nat, b: nat)
    ensures Xor(a, b) / 2 == Xor(a / 2, b / 2) && Xor(a, b) % 2 == (a + b) % 2
  {
  }

  lemma {:induction false} XorCommutes(a: nat, b: nat)
    ensures Xor(a, b) == Xor(b, a)
    decreases a + b
  {
    if a != 0 || b != 0 { XorCommutes(a / 2, b / 2); }
  }

  lemma Parity(a: nat, x: nat, b: nat, c: nat)
    requires x % 2 == (b + c) % 2
    ensures (a + x) % 2 == (a + b + c) % 2
  {
  }

  lemma SameDigits(p: nat, q: nat)
    requires p / 2 == q / 2 && p % 2 == q % 2
    ensures p == q
  {
  }

  lemma {:induction false} XorAssociates(a: nat, b: nat, c: nat)
    ensures Xor(a, Xor(b, c)) == Xor(Xor(a, b), c)
    decreases a + b + c
  {
    if a != 0 || b != 0 || c != 0 {
      XorAssociates(a / 2, b / 2, c / 2);
      hide Xor;
      var x, y := Xor(b, c), Xor(a, b);
      XorHalves(b, c);
      XorHalves(a, b);
      XorHalves(a, x);
      XorHalves(y, c);
      Parity(a, x, b, c);
      Parity(c, y, a, b);
      SameDigits(Xor(a, x), Xor(y, c));
    }
  }

  lemma {:induction false} XorSelf(a: nat)
    ensures Xor(a, a) == 0 && Xor(a, 0) == a && Xor(0, a) == a
    decreases a
  {
    if a != 0 { XorSelf(a / 2); }
  }

  lemma {:induction false} XorBound(a: nat, b: nat, k: nat)
    requires a < Pow2(k) && b < Pow2(k)
    ensures Xor(a, b) < Pow2(k)
    decreases k
  {
    if k > 0 { XorBound(a / 2, b / 2, k - 1); }
  }

  function Pow2(k: nat): (p: nat)
    ensures p > 0
  {
    if k == 0 then 1 else 2 * Pow2(k - 1)
  }

  lemma PowersOfTwo()
    ensures Pow2(32) == TWO32
  {
    assert Pow2(8) == 16 * Pow2(4) == 256;
    assert Pow2(16) == 16 * Pow2(12) == 256 * Pow2(8);
    assert Pow2(24) == 16 * Pow2(20) == 256 * Pow2(16);
    assert Pow2(32) == 16 * Pow2(28) == 256 * Pow2(24);
  }

  lemma XorFits(a: nat, b: nat)
    requires a < TWO32 && b < TWO32
    ensures Xor(a, b) < TWO32
  {
    PowersOfTwo();
    XorBound(a, b, 32);
  }

  lemma XorInterchange(a: nat, b: nat, p: nat, q: nat)
    ensures Xor(Xor(a, p), Xor(b, q)) == Xor(Xor(a, b), Xor(p, q))
  {
    hide Xor;
    XorAssociates(a, p, Xor(b, q));
    XorAssociates(p, b, q);
    XorCommutes(p, b);
    XorAssociates(b, p, q);
    XorAssociates(a, b, Xor(p, q));
  }

  lemma XorCancels(a: nat, b: nat)
    ensures Xor(a, b) == 0 <==> a == b
    ensures Xor(Xor(a, b), b) == a
  {
    hide Xor;
    XorAssociates(a, b, b);
    XorSelf(a);
    XorSelf(b);
  }

  /** `w` shifted up or down by k digits. */
  function Up(w: nat, k: nat): nat
    decreases k
  {
    if k == 0 then w else 2 * Up(w, k - 1)
  }

  function Down(w: nat, k: nat): nat
    decreases k
  {
    if k == 0 then w else Down(w / 2, k - 1)
  }

  lemma ByteShifts(w: nat)
    ensures Up(w, 8) == 256 * w && Down(w, 8) == w / 256
  {
    assert Up(w, 4) == 16 * w && Up(w, 8) == 16 * Up(w, 4);
    assert Down(w, 4 + 4) == Down(w / 2 / 2, 6) == Down(w / 2 / 2 / 2 / 2, 4);
    assert w / 2 / 2 / 2 / 2 == w / 16;
    var v := w / 16;
    assert Down(v, 4) == v / 2 / 2 / 2 / 2;
  }

  /** Digits of different weight do not interfere. */
  lemma {:induction false} XorDisjoint(b: nat, w: nat, k: nat)
    requires Down(b, k) == 0
    ensures Xor(b, Up(w, k)) == b + Up(w, k)
    decreases k
  {
    hide Xor;
    XorSelf(w);
    if k > 0 {
      var u := Up(w, k - 1);
      XorDisjoint(b / 2, w, k - 1);
      XorHalves(b, 2 * u);
      FromDigits(Xor(b, 2 * u), b, u);
    }
  }

  lemma FromDigits(x: nat, b: nat, u: nat)
    requires x / 2 == b / 2 + u && x % 2 == (b + 2 * u) % 2
    ensures x == b + 2 * u
  {
  }

  lemma {:induction false} XorShifts(a: nat, b: nat, k: nat)
    ensures Down(Xor(a, b), k) == Xor(Down(a, k), Down(b, k))
    decreases k
  {
    hide Xor;
    if k > 0 {
      XorHalves(a, b);
      XorShifts(a / 2, b / 2, k - 1);
    }
  }

  lemma {:induction false} XorOfUps(a: nat, b: nat, k: nat)
    ensures Xor(Up(a, k), Up(b, k)) == Up(Xor(a, b), k)
    decreases k
  {
    hide Xor;
    if k > 0 {
      var x, y := Up(a, k - 1), Up(b, k - 1);
      XorOfUps(a, b, k - 1);
      XorHalves(2 * x, 2 * y);
      SameDigits(Xor(2 * x, 2 * y), 2 * Xor(x, y));
    }
  }

  /** Bytes do not interfere. */
  lemma XorOfBytes(a: nat, b: nat, c: byte, d: byte)
    ensures Xor(256 * a + c, 256 * b + d) == 256 * Xor(a, b) + Xor(c, d) && Xor(c, d) < 256
  {
    hide Xor, Up, Down, Pow2;
    ByteShifts(a);
    ByteShifts(b);
    ByteShifts(c);
    ByteShifts(d);
    ByteShifts(Xor(a, b));
    EightBits();
    XorBound(c, d, 8);
    ByteShifts(Xor(c, d));
    XorDisjoint(c, a, 8);
    XorDisjoint(d, b, 8);
    XorDisjoint(Xor(c, d), Xor(a, b), 8);
    XorOfUps(a, b, 8);
    XorInterchange(c, d, Up(a, 8), Up(b, 8));
  }

  lemma EightBits()
    ensures Pow2(8) == 256
  {
    assert Pow2(8) == 16 * Pow2(4);
  }

  lemma XorKeepsLeft(a: nat, b: nat, c: nat)
    ensures Xor(a, b) == Xor(a, c) <==> b == c
  {
    hide Xor;
    XorCommutes(a, b);
    XorCommutes(a, c);
    XorCancels(b, a);
    XorCancels(c, a);
  }

  // ------------------------------------------------- linearity and injectivity

  lemma FeedbackOfSum(r: nat, s: nat, x: nat)
    requires x % 2 == (r + s) % 2
    ensures Feedback(x) == if Feedback(r) == Feedback(s) then 0 else POLYNOMIAL
    ensures Feedback(r) in {0, POLYNOMIAL} && Feedback(s) in {0, POLYNOMIAL}
  {
  }

  lemma FeedbackIsLinear(r: nat, s: nat)
    ensures Feedback(Xor(r, s)) == Xor(Feedback(r), Feedback(s))
  {
    hide Xor;
    XorHalves(r, s);
    FeedbackOfSum(r, s, Xor(r, s));
    hide Feedback;
    XorSelf(POLYNOMIAL);
    XorSelf(0);
  }

  lemma StepIsLinear(r: nat, s: nat)
    ensures Step(Xor(r, s)) == Xor(Step(r), Step(s))
  {
    hide Xor, Feedback;
    XorHalves(r, s);
    FeedbackIsLinear(r, s);
    XorInterchange(r / 2, s / 2, Feedback(r), Feedback(s));
  }

  lemma {:induction false} StepsAreLinear(r: nat, s: nat, n: nat)
    ensures Steps(Xor(r, s), n) == Xor(Steps(r, n), Steps(s, n))
    decreases n
  {
    hide Xor, Step;
    if n > 0 {
      StepIsLinear(r, s);
      StepsAreLinear(Step(r), Step(s), n - 1);
    }
  }

  /** The register never forgets a difference: a step maps nothing but 0 to 0, since the
      polynomial has the top bit that shifting clears. */
  lemma StepKeepsNonZero(r: nat)
    requires 0 < r < TWO32
    ensures 0 < Step(r) < TWO32
  {
    hide Xor;
    XorFits(r / 2, Feedback(r));
    XorCancels(r / 2, Feedback(r));
  }

  lemma {:induction false} StepsAreInjective(r: nat, s: nat, n: nat)
    requires r < TWO32 && s < TWO32 && r != s
    ensures Steps(r, n) != Steps(s, n)
    decreases n
  {
    hide Xor, Step;
    if n > 0 {
      XorCancels(r, s);
      XorFits(r, s);
      StepIsLinear(r, s);
      StepKeepsNonZero(Xor(r, s));
      XorCancels(Step(r), Step(s));
      StepFits(r);
      StepFits(s);
      StepsAreInjective(Step(r), Step(s), n - 1);
    }
  }

  lemma StepFits(r: nat)
    requires r < TWO32
    ensures Step(r) < TWO32
  {
    XorFits(r / 2, Feedback(r));
  }

  lemma {:induction false} StepsFit(r: nat, n: nat)
    requires r < TWO32
    ensures Steps(r, n) < TWO32
    decreases n
  {
    if n > 0 {
      StepFits(r);
      StepsFit(Step(r), n - 1);
    }
  }

  lemma AddByteFits(r: nat, b: byte)
    requires r < TWO32
    ensures AddByte(r, b) < TWO32
  {
    XorFits(r, b);
    StepsFit(Xor(r, b), 8);
  }

  lemma {:induction false} RegisterFits(r: nat, data: seq<byte>)
    requires r < TWO32
    ensures Register(r, data) < TWO32
    decreases data
  {
    hide AddByte;
    if data != [] {
      AddByteFits(r, data[0]);
      RegisterFits(AddByte(r, data[0]), data[1..]);
    }
  }

  lemma CrcFits(data: seq<byte>)
    ensures Crc(data) < TWO32
  {
    RegisterFits(ALL_ONES, data);
    XorFits(Register(ALL_ONES, data), ALL_ONES);
  }

  lemma {:induction false} StepsCompose(r: nat, m: nat, n: nat)
    ensures Steps(r, m + n) == Steps(Steps(r, m), n)
    decreases m
  {
    hide Step;
    if m > 0 { StepsCompose(Step(r), m - 1, n); }
  }

  lemma {:induction false} RegisterIsInjective(r: nat, s: nat, data: seq<byte>)
    requires r < TWO32 && s < TWO32 && r != s
    ensures Register(r, data) != Register(s, data)
    decreases data
  {
    hide Xor, Steps;
    if data != [] {
      var b := data[0];
      XorCancels(r, b);
      XorCancels(s, b);
      XorFits(r, b);
      XorFits(s, b);
      StepsAreInjective(Xor(r, b), Xor(s, b), 8);
      AddByteFits(r, b);
      AddByteFits(s, b);
      RegisterIsInjective(AddByte(r, b), AddByte(s, b), data[1..]);
    }
  }

  lemma {:induction false} RegisterOfConcat(r: nat, a: seq<byte>, b: seq<byte>)
    ensures Register(r, a + b) == Register(Register(r, a), b)
    decreases a
  {
    hide AddByte;
    if a == [] {
      assert a + b == b;
    } else {
      RegisterOfConcat(AddByte(r, a[0]), a[1..], b);
      assert (a + b)[1..] == a[1..] + b;
    }
  }

  // -------------------------------------------------------------------- words

  /** Steps only shift while the low bits are clear. */
  lemma {:induction false} StepsShiftOut(w: nat, n: nat)
    ensures Steps(Up(w, n), n) == w
    decreases n
  {
    hide Xor;
    if n > 0 {
      var x := Up(w, n - 1);
      XorSelf(x);
      assert Step(2 * x) == x;
      hide Step;
      StepsShiftOut(w, n - 1);
    }
  }

  /** The table-driven form of the RFC agrees with the bit-by-bit one: a byte is added by
      one look-up of the low byte and one shift. */
  lemma TableDriven(r: nat, b: byte)
    ensures AddByte(r, b) == Xor(Steps(Xor(r, b) % 256, 8), r / 256)
  {
    hide Xor, Steps, Up, Down;
    var x, high := Xor(r, b), r / 256;
    ByteShifts(x);
    ByteShifts(r);
    ByteShifts(b);
    ByteShifts(high);
    ByteShifts(x % 256);
    XorShifts(r, b, 8);
    XorSelf(high);
    XorDisjoint(x % 256, high, 8);
    StepsShiftOut(high, 8);
    StepsAreLinear(x % 256, Up(high, 8), 8);
  }

  /** The number with these bytes, first byte lowest. */
  function Word(d: seq<byte>): nat {
    if d == [] then 0 else d[0] + 256 * Word(d[1..])
  }

  lemma {:induction false} WordIsInjective(c: seq<byte>, d: seq<byte>)
    requires |c| == |d| && Word(c) == Word(d)
    ensures c == d
  {
    if c != [] {
      WordIsInjective(c[1..], d[1..]);
      assert c == [c[0]] + c[1..] && d == [d[0]] + d[1..];
    }
  }

  /** Feeding bytes is adding their word and shifting it through. */
  lemma {:induction false} RegisterOfWord(r: nat, d: seq<byte>)
    ensures Register(r, d) == Steps(Xor(r, Word(d)), 8 * |d|)
    decreases d
  {
    hide Xor, Step;
    XorSelf(r);
    if d != [] {
      var b, rest := d[0], Word(d[1..]);
      ByteShifts(b);
      ByteShifts(rest);
      hide Up, Down;
      XorDisjoint(b, rest, 8);
      StepsShiftOut(rest, 8);
      StepsAreLinear(Xor(r, b), Up(rest, 8), 8);
      XorAssociates(r, b, Up(rest, 8));
      RegisterOfWord(AddByte(r, b), d[1..]);
      StepsCompose(Xor(r, Word(d)), 8, 8 * (|d| - 1));
    }
  }

  lemma WordFits(d: seq<byte>)
    requires |d| <= 4
    ensures Word(d) < TWO32
  {
    WordBound(d);
    assert Pow256(4) == 256 * (256 * (256 * (256 * Pow256(0))));
    Pow256Grows(|d|, 4);
  }

  function Pow256(k: nat): (p: nat)
    ensures p > 0
  {
    if k == 0 then 1 else 256 * Pow256(k - 1)
  }

  lemma {:induction false} Pow256Grows(j: nat, k: nat)
    requires j <= k
    ensures 0 < Pow256(j) <= Pow256(k)
    decreases k
  {
    if j < k { Pow256Grows(j, k - 1); } else if k > 0 { Pow256Grows(j - 1, k - 1); }
  }

  lemma {:induction false} WordBound(d: seq<byte>)
    ensures Word(d) < Pow256(|d|)
  {
    if d != [] { WordBound(d[1..]); }
  }

  /** The difference of two messages goes through the register on its own. */
  lemma RegisterDifference(r: nat, c: seq<byte>, d: seq<byte>)
    requires |c| == |d|
    ensures Xor(Register(r, c), Register(r, d)) == Steps(Xor(Word(c), Word(d)), 8 * |c|)
  {
    hide Xor, Steps, Word, Register;
    RegisterOfWord(r, c);
    RegisterOfWord(r, d);
    StepsAreLinear(Xor(r, Word(c)), Xor(r, Word(d)), 8 * |c|);
    XorInterchange(r, r, Word(c), Word(d));
    XorSelf(r);
    XorSelf(Xor(Word(c), Word(d)));
  }

  lemma {:induction false} StepsKeepNonZero(w: nat, n: nat)
    requires 0 < w < TWO32
    ensures 0 < Steps(w, n) < TWO32
    decreases n
  {
    hide Step;
    if n > 0 {
      StepKeepsNonZero(w);
      StepsKeepNonZero(Step(w), n - 1);
    }
  }

  /** Every burst of at most 32 bits is detected, wherever it starts: messages of the same
      length have different checksums if all their differences, as numbers whose lowest bit
      is that of the first byte, lie within 32 consecutive bits. */
  lemma BitBurstChangesCrc(before: seq<byte>, c: seq<byte>, d: seq<byte>, after: seq<byte>, u: nat, k: nat)
    requires |c| == |d| && Xor(Word(c), Word(d)) == Up(u, k) && 0 < u < TWO32 && k <= 8 * |c|
    ensures Crc(before + c + after) != Crc(before + d + after)
  {
    hide Xor, Steps, Word, Register, Up;
    var r := Register(ALL_ONES, before);
    RegisterFits(ALL_ONES, before);
    RegisterOfConcat(ALL_ONES, before, c);
    RegisterOfConcat(ALL_ONES, before, d);
    RegisterOfConcat(ALL_ONES, before + c, after);
    RegisterOfConcat(ALL_ONES, before + d, after);
    RegisterDifference(r, c, d);
    StepsCompose(Up(u, k), k, 8 * |c| - k);
    StepsShiftOut(u, k);
    StepsKeepNonZero(u, 8 * |c| - k);
    XorCancels(Register(r, c), Register(r, d));
    RegisterFits(r, c);
    RegisterFits(r, d);
    RegisterIsInjective(Register(r, c), Register(r, d), after);
    XorCancels(Register(Register(r, c), after), ALL_ONES);
    XorCancels(Register(Register(r, d), after), ALL_ONES);
  }

  /** In particular a change inside at most four consecutive bytes is detected. */
  lemma BurstChangesCrc(before: seq<byte>, c: seq<byte>, d: seq<byte>, after: seq<byte>)
    requires |c| == |d| <= 4 && c != d
    ensures Crc(before + c + after) != Crc(before + d + after)
  {
    hide Xor, Word;
    var u := Xor(Word(c), Word(d));
    assert Word(c) != Word(d) by {
      if Word(c) == Word(d) { WordIsInjective(c, d); }
    }
    WordFits(c);
    WordFits(d);
    XorFits(Word(c), Word(d));
    XorCancels(Word(c), Word(d));
    assert Up(u, 0) == u;
    BitBurstChangesCrc(before, c, d, after, u, 0);
  }

  /** The difference of the checksums of two messages that end differently. */
  lemma CrcDifference(before: seq<byte>, c: seq<byte>, d: seq<byte>)
    requires |c| == |d|
    ensures Xor(Crc(before + c), Crc(before + d)) == Steps(Xor(Word(c), Word(d)), 8 * |c|)
  {
    hide Xor, Steps, Word, Register;
    var r := Register(ALL_ONES, before);
    RegisterOfConcat(ALL_ONES, before, c);
    RegisterOfConcat(ALL_ONES, before, d);
    RegisterDifference(r, c, d);
    var a, b := Register(r, c), Register(r, d);
    XorInterchange(a, b, ALL_ONES, ALL_ONES);
    XorSelf(ALL_ONES);
    XorSelf(Xor(a, b));
  }

  // ------------------------------------------------------------------ preset

  /** Exclusive or with k ones is the complement. */
  lemma {:induction false} XorWithOnes(w: nat, k: nat)
    requires w < Pow2(k)
    ensures Xor(Pow2(k) - 1, w) == Pow2(k) - 1 - w && Xor(w, Pow2(k) - 1) == Pow2(k) - 1 - w
    decreases k
  {
    hide Xor;
    if k > 0 {
      XorWithOnes(w / 2, k - 1);
      XorHalves(Pow2(k) - 1, w);
      XorHalves(w, Pow2(k) - 1);
      Halves(Pow2(k - 1), w);
      SameDigits(Xor(Pow2(k) - 1, w), Pow2(k) - 1 - w);
      SameDigits(Xor(w, Pow2(k) - 1), Pow2(k) - 1 - w);
    } else {
      XorSelf(0);
    }
  }

  lemma Halves(p: nat, w: nat)
    requires 0 < p && w < 2 * p
    ensures (2 * p - 1) / 2 == p - 1 && (2 * p - 1) % 2 == 1
    ensures (2 * p - 1 - w) / 2 == p - 1 - w / 2 && (2 * p - 1 - w) % 2 == (2 * p - 1 + w) % 2
  {
  }

  lemma Complement(w: nat)
    requires w < TWO32
    ensures Xor(ALL_ONES, w) == 0xFFFF_FFFF - w && Xor(w, ALL_ONES) == 0xFFFF_FFFF - w
  {
    hide Xor, Pow2;
    PowersOfTwo();
    XorWithOnes(w, 32);
  }

  /** What the register starts from and ends with, said of messages of four bytes or more:
      the checksum is the complement of what a register of zeros makes of the message with
      its first four bytes complemented. */
  lemma PresetIsOnes(d: seq<byte>, c: seq<byte>)
    requires |d| >= 4 && |c| == 4 && forall i :: 0 <= i < 4 ==> c[i] as int == 255 - d[i] as int
    ensures Crc(d) == 0xFFFF_FFFF - Register(0, c + d[4..])
  {
    hide Xor, Steps, Word, Register;
    var w := Word(d[..4]);
    WordFits(d[..4]);
    WordOfComplement(d[..4], c);
    RegisterOfWord(ALL_ONES, d[..4]);
    RegisterOfWord(0, c);
    Complement(w);
    XorSelf(Word(c));
    assert d == d[..4] + d[4..];
    RegisterOfConcat(ALL_ONES, d[..4], d[4..]);
    RegisterOfConcat(0, c, d[4..]);
    RegisterFits(ALL_ONES, d);
    Complement(Register(ALL_ONES, d));
  }

  lemma WordOfComplement(d: seq<byte>, c: seq<byte>)
    requires |c| == |d| == 4 && forall i :: 0 <= i < 4 ==> c[i] as int == 255 - d[i] as int
    ensures Word(c) == 0xFFFF_FFFF - Word(d)
  {
    WordOfFour(c);
    WordOfFour(d);
  }

  lemma WordOfFour(d: seq<byte>)
    requires |d| == 4
    ensures Word(d) == d[0] as int + 256 * d[1] as int + 0x1_0000 * d[2] as int + 0x100_0000 * d[3] as int
  {
    assert Word(d[1..][1..][1..][1..]) == 0;
    assert Word(d[1..][1..][1..]) == d[3] as int;
    assert Word(d[1..][1..]) == d[2] as int + 256 * d[3] as int;
    assert Word(d[1..]) == d[1] as int + 256 * d[2] as int + 0x1_0000 * d[3] as int;
  }
}
