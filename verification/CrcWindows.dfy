/** Where a change of at most four bytes that reaches into the checksum itself goes
    undetected.  Registers are 32-bit words here, so that the finitely many cases can be
    computed; the operations are named so that proofs can do without their bits. */
module CrcWindows {
  import opened Crc32

  function Half(b: bv32): bv32 { b >> 1 }

  predicate Odd(b: bv32) { b & 1 == 1 }

  function Sum(a: bv32, b: bv32): bv32 { a ^ b }

  function StepBits(b: bv32): bv32 {
    if b & 1 == 1 then (b >> 1) ^ 0xEDB8_8320 else b >> 1
  }

  function BackBits(b: bv32): bv32 {
    if b & 0x8000_0000 != 0 then ((b ^ 0xEDB8_8320) << 1) | 1 else b << 1
  }

  function Step4(b: bv32): bv32 { StepBits(StepBits(StepBits(StepBits(b)))) }

  function Step8(b: bv32): bv32 { Step4(Step4(b)) }

  function Back4(b: bv32): bv32 { BackBits(BackBits(BackBits(BackBits(b)))) }

  function Back8(b: bv32): bv32 { Back4(Back4(b)) }

  lemma StepBitsIs(b: bv32)
    ensures StepBits(b) == if Odd(b) then Sum(Half(b), 0xEDB8_8320) else Half(b)
  {
  }

  // ------------------------------------------------------- words and numbers

  /** The number with these bits. */
  function Number(b: bv32): nat {
    if b == 0 then 0 else
      HalfIsLess(b);
      (if Odd(b) then 1 else 0) + 2 * Number(Half(b))
  }

  lemma HalfIsLess(b: bv32)
    ensures b != 0 ==> Half(b) < b
  {
  }

  lemma OfZero()
    ensures Half(0) == 0 && !Odd(0) && Sum(0, 0) == 0 && Number(0) == 0
  {
  }

  lemma SumHalves(a: bv32, b: bv32)
    ensures Half(Sum(a, b)) == Sum(Half(a), Half(b))
    ensures Odd(Sum(a, b)) <==> Odd(a) != Odd(b)
  {
  }

  lemma NumberHalves(b: bv32)
    ensures Number(b) / 2 == Number(Half(b)) && Number(b) % 2 == if Odd(b) then 1 else 0
  {
    hide Half, Odd;
    OfZero();
  }

  lemma {:induction false} NumberOfSum(a: bv32, b: bv32)
    ensures Number(Sum(a, b)) == Xor(Number(a), Number(b))
    decreases a, b
  {
    hide Half, Odd, Sum, Number, Xor;
    OfZero();
    if a == 0 && b == 0 {
      XorSelf(0);
    } else {
      HalfIsLess(a);
      HalfIsLess(b);
      NumberOfSum(Half(a), Half(b));
      SumHalves(a, b);
      NumberHalves(a);
      NumberHalves(b);
      NumberHalves(Sum(a, b));
      XorHalves(Number(a), Number(b));
      SameDigits(Number(Sum(a, b)), Xor(Number(a), Number(b)));
    }
  }

  lemma {:induction false} NumberIsInjective(a: bv32, b: bv32)
    requires Number(a) == Number(b)
    ensures a == b
    decreases a, b
  {
    hide Half, Odd, Sum, Number;
    OfZero();
    if a != 0 || b != 0 {
      HalfIsLess(a);
      HalfIsLess(b);
      NumberHalves(a);
      NumberHalves(b);
      NumberIsInjective(Half(a), Half(b));
      FromHalf(a, b);
    }
  }

  lemma FromHalf(a: bv32, b: bv32)
    ensures Half(a) == Half(b) && Odd(a) == Odd(b) ==> a == b
  {
  }

  function Rest4(b: bv32): bv32 { b >> 4 }

  function Rest8(b: bv32): bv32 { b >> 8 }

  predicate Clear4(b: bv32) { b & 0xF == 0 }

  predicate Clear8(b: bv32) { b & 0xFF == 0 }

  lemma NumberNibbles(b: bv32)
    ensures Number(b) / 16 == Number(Rest4(b)) && (Number(b) % 16 == 0 <==> Clear4(b))
  {
    hide Half, Odd, Number, Rest4, Clear4;
    var b1 := Half(b);
    var b2 := Half(b1);
    NumberHalves(b);
    NumberHalves(b1);
    NumberHalves(b2);
    NumberHalves(Half(b2));
    BitsOfNibble(b);
  }

  lemma BitsOfNibble(b: bv32)
    ensures Half(Half(Half(Half(b)))) == Rest4(b)
    ensures Clear4(b) <==> !Odd(b) && !Odd(Half(b)) && !Odd(Half(Half(b))) && !Odd(Half(Half(Half(b))))
  {
  }

  /** Eight halvings at once. */
  lemma NumberBytes(b: bv32)
    ensures Number(b) / 256 == Number(Rest8(b)) && (Number(b) % 256 == 0 <==> Clear8(b))
  {
    hide Number, Rest4, Rest8, Clear4, Clear8;
    NumberNibbles(b);
    NumberNibbles(Rest4(b));
    NibblesOfByte(b);
  }

  lemma NibblesOfByte(b: bv32)
    ensures Rest4(Rest4(b)) == Rest8(b) && (Clear8(b) <==> Clear4(b) && Clear4(Rest4(b)))
  {
  }

  lemma NumberOfPolynomial()
    ensures Number(0xEDB8_8320) == POLYNOMIAL
  {
    Nibble(0xEDB8_8320);
    Nibble(0xEDB_8832);
    Nibble(0xED_B883);
    Nibble(0xE_DB88);
    Nibble(0xEDB8);
    Nibble(0xEDB);
    Nibble(0xED);
    Nibble(0xE);
    OfZero();
    hide Number;
  }

  function Bit(on: bool): nat { if on then 1 else 0 }

  lemma Nibble(b: bv32)
    ensures Number(b) == Bit(Odd(b)) + 2 * Bit(Odd(b >> 1)) + 4 * Bit(Odd(b >> 2)) + 8 * Bit(Odd(b >> 3))
                         + 16 * Number(b >> 4)
  {
    hide Half, Odd, Number;
    NumberHalves(b);
    NumberHalves(b >> 1);
    NumberHalves(b >> 2);
    NumberHalves(b >> 3);
    HalfShifts(b);
  }

  lemma HalfShifts(b: bv32)
    ensures Half(b) == b >> 1 && Half(b >> 1) == b >> 2 && Half(b >> 2) == b >> 3 && Half(b >> 3) == b >> 4
  {
  }

  lemma StepOfNumber(b: bv32)
    ensures Number(StepBits(b)) == Step(Number(b))
  {
    hide StepBits, Half, Odd, Sum, Number, Xor;
    StepBitsIs(b);
    NumberHalves(b);
    NumberOfPolynomial();
    NumberOfSum(Half(b), 0xEDB8_8320);
    XorSelf(Number(Half(b)));
  }

  lemma Step8OfNumber(b: bv32)
    ensures Number(Step8(b)) == Steps(Number(b), 8)
  {
    hide StepBits, Step, Number;
    Step4OfNumber(b);
    Step4OfNumber(Step4(b));
    StepsCompose(Number(b), 4, 4);
  }

  lemma Step4OfNumber(b: bv32)
    ensures Number(Step4(b)) == Steps(Number(b), 4)
  {
    hide StepBits, Step, Number;
    var b1 := StepBits(b);
    var b2 := StepBits(b1);
    StepOfNumber(b);
    StepOfNumber(b1);
    StepOfNumber(b2);
    StepOfNumber(StepBits(b2));
    var n := Number(b);
    assert Steps(n, 4) == Steps(Step(n), 3) == Steps(Step(Step(n)), 2) == Steps(Step(Step(Step(n))), 1)
        == Steps(Step(Step(Step(Step(n)))), 0);
  }

  /** Every number below 2^32 has a word. */
  lemma {:induction false} WordOf(n: nat, k: nat) returns (b: bv32)
    requires n < Pow2(k) && k <= 32
    ensures Number(b) == n
  {
    hide Half, Odd, Number;
    if k == 0 {
      b := 0;
      OfZero();
    } else {
      var h := WordOf(n / 2, k - 1);
      Pow2Grows(k - 1, 31);
      PowersOfTwo();
      TopIsClear(h);
      b := Append(h, n % 2 == 1);
      AppendHalves(h, n % 2 == 1);
      NumberHalves(b);
    }
  }

  lemma {:induction false} Pow2Grows(j: nat, k: nat)
    requires j <= k
    ensures Pow2(j) <= Pow2(k)
    decreases k
  {
    if j < k { Pow2Grows(j, k - 1); }
  }

  function Append(h: bv32, odd: bool): bv32 { (h << 1) | (if odd then 1 else 0) }

  lemma AppendHalves(h: bv32, odd: bool)
    requires h & 0x8000_0000 == 0
    ensures Half(Append(h, odd)) == h && Odd(Append(h, odd)) == odd
  {
  }

  lemma TopIsClear(b: bv32)
    requires Number(b) < 0x8000_0000
    ensures b & 0x8000_0000 == 0
  {
    hide Number, Rest4, Rest8, Clear4, Clear8, Half, Odd;
    var b2 := Rest8(Rest8(b));
    var top := Rest8(b2);
    NumberBytes(b);
    NumberBytes(Rest8(b));
    NumberBytes(b2);
    assert Number(top) < 128;
    NumberNibbles(top);
    NumberHalves(Rest4(top));
    NumberHalves(Half(Rest4(top)));
    NumberHalves(Half(Half(Rest4(top))));
    OnlyZero(Half(Half(Half(Rest4(top)))));
    TopBit(b);
  }

  lemma OnlyZero(b: bv32)
    ensures Number(b) == 0 ==> b == 0
  {
    hide Half, Odd, Number;
    OfZero();
    if Number(b) == 0 { NumberIsInjective(b, 0); }
  }

  lemma TopBit(b: bv32)
    ensures b & 0x8000_0000 == 0 <==> Half(Half(Half(Rest4(Rest8(Rest8(Rest8(b))))))) == 0
  {
  }

  // ---------------------------------------------------------- finitely many cases

  lemma BackStep(b: bv32)
    ensures BackBits(StepBits(b)) == b
  {
  }

  lemma BackStep8(b: bv32)
    ensures Back8(Step8(b)) == b
  {
    hide StepBits, BackBits;
    BackStep4(b);
    BackStep4(Step4(b));
  }

  lemma BackStep4(b: bv32)
    ensures Back4(Step4(b)) == b
  {
    hide StepBits, BackBits;
    var b1 := StepBits(b);
    var b2 := StepBits(b1);
    BackStep(b);
    BackStep(b1);
    BackStep(b2);
    BackStep(StepBits(b2));
  }

  predicate IsByte(b: bv32) { b & 0xFFFF_FF00 == 0 }

  function Low8(b: bv32): bv32 { b & 0xFF }

  /** One byte of difference before the checksum and three in it. */
  lemma OneByte(b: bv32)
    requires IsByte(b) && Low8(Step8(b)) == 0
    ensures b == 0
  {
  }

  /** Three bytes before and one in it. */
  lemma ThreeBytes(v: bv32)
    requires v & 0xFF_FFFF == 0 && Back8(Back8(Back8(v))) & 0xFF00_0000 == 0
    ensures v == 0
  {
  }

  /** The inverse of the low byte of eight steps. */
  function Inverse(y: bv32): bv32 {
    (if y & 0x1 != 0 then 0x4f else 0)
    ^ (if y & 0x2 != 0 then 0xfa else 0)
    ^ (if y & 0x4 != 0 then 0xbb else 0)
    ^ (if y & 0x8 != 0 then 0x39 else 0)
    ^ (if y & 0x10 != 0 then 0x72 else 0)
    ^ (if y & 0x20 != 0 then 0x80 else 0)
    ^ (if y & 0x40 != 0 then 0x2b else 0)
    ^ (if y & 0x80 != 0 then 0x32 else 0)
  }

  lemma InverseOfStep(z: bv32)
    requires IsByte(z)
    ensures Inverse(Low8(Step8(z))) == z
  {
  }

  /** Bytes 0 and 1, and bytes 1 and 2. */
  function LowPair(b: bv32): bv32 { b & 0xFFFF }

  function MiddlePair(b: bv32): bv32 { (b >> 8) & 0xFFFF }

  lemma TwoBytesLow(x: bv32)
    requires IsByte(x)
    requires var t := MiddlePair(Step8(x)); Step8(Inverse(Low8(t))) & 0xFF00 == t & 0xFF00
    ensures x == 0 || x == 0x61
  {
  }

  // ------------------------------------------------------------------- tails

  lemma StepOfSum(x: bv32, y: bv32)
    requires !Odd(y)
    ensures StepBits(Sum(x, y)) == Sum(StepBits(x), Half(y))
  {
    hide StepBits, Half, Odd, Sum;
    StepBitsIs(x);
    StepBitsIs(Sum(x, y));
    SumHalves(x, y);
    SumSwaps(Half(x), Half(y));
  }

  lemma SumSwaps(a: bv32, b: bv32)
    ensures Sum(Sum(a, b), 0xEDB8_8320) == Sum(Sum(a, 0xEDB8_8320), b)
  {
    Swaps(a, b);
  }

  lemma Swaps(a: bv32, b: bv32)
    ensures (a ^ b) ^ 0xEDB8_8320 == (a ^ 0xEDB8_8320) ^ b
  {
  }

  lemma Step4OfSum(x: bv32, y: bv32)
    requires Clear4(y)
    ensures Step4(Sum(x, y)) == Sum(Step4(x), Rest4(y))
  {
    hide StepBits, Half, Odd, Sum, Rest4, Clear4;
    BitsOfNibble(y);
    var x1, y1 := StepBits(x), Half(y);
    var x2, y2 := StepBits(x1), Half(y1);
    StepOfSum(x, y);
    StepOfSum(x1, y1);
    StepOfSum(x2, y2);
    StepOfSum(StepBits(x2), Half(y2));
  }

  /** Eight steps look up the low byte and shift the rest. */
  lemma Step8IsTable(b: bv32)
    ensures Step8(b) == Sum(Step8(Low8(b)), Rest8(b))
  {
    hide Step4, Half, Odd, Sum, Rest4, Rest8, Clear4, Low8;
    SplitsLow(b);
    var y := b & 0xFFFF_FF00;
    Step4OfSum(Low8(b), y);
    Step4OfSum(Step4(Low8(b)), Rest4(y));
  }

  lemma SplitsLow(b: bv32)
    ensures var y := b & 0xFFFF_FF00;
            b == Sum(Low8(b), y) && Clear4(y) && Clear4(Rest4(y)) && Rest4(Rest4(y)) == Rest8(b)
  {
  }

  /** Two bytes of difference before the checksum and two in it. */
  lemma TwoBytes(b: bv32)
    requires Rest8(Rest8(b)) == 0 && Clear8(Step8(Step8(b))) && Clear8(Rest8(Step8(Step8(b))))
    ensures b == 0 || (b == 0xD861 && Step8(Step8(b)) == 0xF4EE_0000)
  {
    hide Step8, Sum, Rest8, Clear8, Low8, Inverse;
    var x := Low8(b);
    var u := Step8(b);
    var z := Low8(u);
    Step8IsTable(b);
    Step8IsTable(u);
    Step8OfZero();
    TwoBytesAre(b, x, Step8(x), u, z, Step8(z), Step8(u));
  }

  lemma Step8OfZero()
    ensures Step8(0) == 0
  {
  }

  lemma TwoBytesAre(b: bv32, x: bv32, t: bv32, u: bv32, z: bv32, w: bv32, v: bv32)
    requires Rest8(Rest8(b)) == 0 && x == Low8(b) && t == Step8(x) && u == Sum(t, Rest8(b))
    requires z == Low8(u) && w == Step8(z) && v == Sum(w, Rest8(u)) && Clear8(v) && Clear8(Rest8(v))
    ensures b == 0 || (b == 0xD861 && v == 0xF4EE_0000)
  {
    hide Rest8, Low8, Sum, Clear8, Step8, Inverse, LowPair, MiddlePair, IsByte;
    MiddleBytes(b, x, t, u, z, w, v);
    PairsDecide(x, z);
    if x == 0 {
      FromZero(b, z, t, u);
    } else {
      From61(b, z, t, u, w, v);
    }
  }

  lemma PairsDecide(x: bv32, z: bv32)
    requires IsByte(x) && IsByte(z) && LowPair(Step8(z)) == MiddlePair(Step8(x))
    ensures x == 0 || x == 0x61
    ensures z == Inverse(Low8(MiddlePair(Step8(x))))
  {
    hide Step8, Inverse, MiddlePair, IsByte, Low8;
    InverseOfStep(z);
    LowBytes(Step8(z));
    TwoBytesLow(x);
  }

  lemma LowBytes(w: bv32)
    ensures Low8(LowPair(w)) == Low8(w) && LowPair(w) & 0xFF00 == w & 0xFF00
  {
  }

  lemma FromZero(b: bv32, z: bv32, t: bv32, u: bv32)
    requires Low8(b) == 0 && t == Step8(0) && u == Sum(t, Rest8(b)) && Rest8(Rest8(b)) == 0
    requires z == Low8(u) && z == Inverse(Low8(MiddlePair(t)))
    ensures b == 0
  {
  }

  lemma From61(b: bv32, z: bv32, t: bv32, u: bv32, w: bv32, v: bv32)
    requires Low8(b) == 0x61 && t == Step8(0x61) && u == Sum(t, Rest8(b)) && Rest8(Rest8(b)) == 0
    requires z == Low8(u) && z == Inverse(Low8(MiddlePair(t))) && w == Step8(z) && v == Sum(w, Rest8(u))
    ensures b == 0xD861 && v == 0xF4EE_0000
  {
  }

  lemma MiddleBytes(b: bv32, x: bv32, t: bv32, u: bv32, z: bv32, w: bv32, v: bv32)
    requires Rest8(Rest8(b)) == 0 && x == Low8(b) && u == Sum(t, Rest8(b))
    requires z == Low8(u) && v == Sum(w, Rest8(u)) && Clear8(v) && Clear8(Rest8(v))
    ensures LowPair(w) == MiddlePair(t) && IsByte(x) && IsByte(z)
  {
  }

  lemma Powers()
    ensures Pow256(1) == 256 && Pow256(2) == 65536 && Pow256(3) == 16777216
  {
    assert Pow256(3) == 256 * Pow256(2) && Pow256(2) == 256 * Pow256(1) && Pow256(1) == 256 * Pow256(0);
  }

  /** A non-zero word of m bytes whose image has its m low bytes clear: there is exactly one,
      for m = 2. */
  lemma TailDifference(w: nat, m: nat)
    requires 1 <= m <= 3 && 0 < w < Pow256(m)
    requires Steps(w, 8 * m) % Pow256(m) == 0
    ensures m == 2 && w == 0xD861 && Steps(w, 16) == 0xF4EE_0000
  {
    hide Steps, Pow256, Pow2;
    Powers();
    PowersOfTwo();
    OfZero();
    var b := WordOf(w, 32);
    if m == 1 {
      TailOfOne(w, b);
    } else if m == 2 {
      TailOfTwo(w, b);
    } else {
      TailOfThree(w, b);
    }
  }

  lemma TailOfOne(w: nat, b: bv32)
    requires Number(b) == w < 256 && Steps(w, 8) % 256 == 0
    ensures w == 0
  {
    hide Number, Steps, Step8, Rest8, Clear8;
    OfZero();
    Step8OfNumber(b);
    NumberBytes(b);
    NumberBytes(Step8(b));
    OnlyZero(Rest8(b));
    BytesAre(b, Step8(b));
    OneByte(b);
  }

  lemma BytesAre(b: bv32, v: bv32)
    ensures Rest8(b) == 0 <==> IsByte(b)
    ensures Rest8(Rest8(Rest8(b))) == 0 <==> b & 0xFF00_0000 == 0
    ensures Clear8(v) <==> Low8(v) == 0
    ensures Clear8(v) && Clear8(Rest8(v)) && Clear8(Rest8(Rest8(v))) <==> v & 0xFF_FFFF == 0
  {
  }

  lemma TailOfTwo(w: nat, b: bv32)
    requires Number(b) == w < 65536 && Steps(w, 16) % 65536 == 0
    ensures w == 0 || (w == 0xD861 && Steps(w, 16) == 0xF4EE_0000)
  {
    hide Number, Steps, Step8, Rest8, Clear8;
    var u := Step8(b);
    var v := Step8(u);
    OfZero();
    Step8OfNumber(b);
    Step8OfNumber(u);
    StepsCompose(w, 8, 8);
    NumberBytes(b);
    NumberBytes(Rest8(b));
    OnlyZero(Rest8(Rest8(b)));
    NumberBytes(v);
    NumberBytes(Rest8(v));
    LowBytesClear(Number(v));
    TwoBytes(b);
    TheTwoBytes();
  }

  lemma LowBytesClear(n: nat)
    ensures n % 65536 == 0 ==> n % 256 == 0 && (n / 256) % 256 == 0
    ensures n % 16777216 == 0 ==> n % 256 == 0 && (n / 256) % 256 == 0 && (n / 256 / 256) % 256 == 0
  {
    if n % 65536 == 0 {
      Multiple(n, n / 65536 * 256);
    }
    if n % 16777216 == 0 {
      Multiple(n, n / 16777216 * 65536);
      Multiple(n / 256, n / 16777216 * 256);
    }
  }

  lemma Multiple(n: nat, q: nat)
    requires n == 256 * q
    ensures n % 256 == 0 && n / 256 == q
  {
  }

  lemma TheTwoBytes()
    ensures Number(0xD861) == 0xD861 && Number(0xF4EE_0000) == 0xF4EE_0000
  {
    Nibble(0xD861);
    Nibble(0xD86);
    Nibble(0xD8);
    Nibble(0xD);
    Nibble(0xF4EE_0000);
    Nibble(0xF4E_E000);
    Nibble(0xF4_EE00);
    Nibble(0xF_4EE0);
    Nibble(0xF4EE);
    Nibble(0xF4E);
    Nibble(0xF4);
    Nibble(0xF);
    OfZero();
    hide Number;
  }

  lemma TailOfThree(w: nat, b: bv32)
    requires Number(b) == w < 16777216 && Steps(w, 24) % 16777216 == 0
    ensures w == 0
  {
    hide Number, Steps, Step8, Back8, Rest8, Clear8;
    var t := Step8(b);
    var u := Step8(t);
    var v := Step8(u);
    OfZero();
    Step8OfNumber(b);
    Step8OfNumber(t);
    Step8OfNumber(u);
    StepsCompose(w, 8, 8);
    StepsCompose(w, 16, 8);
    NumberBytes(b);
    NumberBytes(Rest8(b));
    NumberBytes(Rest8(Rest8(b)));
    OnlyZero(Rest8(Rest8(Rest8(b))));
    NumberBytes(v);
    NumberBytes(Rest8(v));
    NumberBytes(Rest8(Rest8(v)));
    LowBytesClear(Number(v));
    BytesAre(b, v);
    BackStep8(u);
    BackStep8(t);
    BackStep8(b);
    ThreeBytes(v);
    Back8OfZero();
  }

  lemma Back8OfZero()
    ensures Back8(0) == 0
  {
  }

  /** And that one is a difference of the register that the checksum can follow. */
  lemma TailExists()
    ensures Steps(0xD861, 16) == 0xF4EE_0000
  {
    hide Number, Steps, Step8;
    Step8OfNumber(0xD861);
    Step8OfNumber(Step8(0xD861));
    StepsCompose(0xD861, 8, 8);
    TheTwoBytes();
    TwoSteps();
  }

  lemma TwoSteps()
    ensures Step8(Step8(0xD861)) == 0xF4EE_0000
  {
  }
}
