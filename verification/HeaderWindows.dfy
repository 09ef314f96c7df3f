/** Corruption of a packed header that reaches from the header part into the CRC field. */
module HeaderWindows {
  import opened Crc32
  import CrcWindows
  import opened FirmwareHeader

  /** Numbers that differ only in their leading bytes. */
  lemma {:induction false} ValueDifference(p: seq<byte>, q: seq<byte>, common: seq<byte>)
    requires |p| == |q|
    ensures Xor(Value(p + common), Value(q + common)) == Xor(Value(p), Value(q)) * Pow256(|common|)
    decreases common
  {
    hide Xor;
    if common == [] {
      assert p + common == p && q + common == q;
    } else {
      var n := |common| - 1;
      var init, last := common[..n], common[n];
      ValueDifference(p, q, init);
      LastByte(p, common);
      LastByte(q, common);
      XorOfBytes(Value(p + init), Value(q + init), last, last);
      XorSelf(last);
      XorCancels(last, last);
      hide Value;
      Regroup(Xor(Value(p), Value(q)), Pow256(n));
    }
  }

  lemma LastByte(p: seq<byte>, common: seq<byte>)
    requires common != []
    ensures Value(p + common) == 256 * Value(p + common[..|common| - 1]) + common[|common| - 1]
  {
    var s := p + common;
    assert s[..|s| - 1] == p + common[..|common| - 1];
  }

  lemma Regroup(x: nat, y: nat)
    ensures 256 * (x * y) == x * (256 * y)
  {
  }

  lemma {:induction false} ValueIsInjective(p: seq<byte>, q: seq<byte>)
    requires |p| == |q| && Value(p) == Value(q)
    ensures p == q
  {
    BigEndianOfValue(p);
    BigEndianOfValue(q);
  }

  lemma XorOfWords(c: seq<byte>, d: seq<byte>)
    requires |c| == |d| <= 3
    ensures Xor(Word(c), Word(d)) < Pow256(|c|)
    ensures Xor(Word(c), Word(d)) == 0 <==> c == d
  {
    hide Xor, Word, Pow2, Pow256;
    WordBound(c);
    WordBound(d);
    BytesAsBits(|c|);
    XorBound(Word(c), Word(d), 8 * |c|);
    XorCancels(Word(c), Word(d));
    if Word(c) == Word(d) {
      WordIsInjective(c, d);
    }
  }

  lemma {:induction false} BytesAsBits(k: nat)
    ensures Pow256(k) == Pow2(8 * k)
  {
    if k > 0 {
      BytesAsBits(k - 1);
      FourBits(8 * k - 8);
      FourBits(8 * k - 4);
    }
  }

  lemma FourBits(k: nat)
    ensures Pow2(k + 4) == 16 * Pow2(k)
  {
    assert Pow2(k + 1) == 2 * Pow2(k) && Pow2(k + 2) == 2 * Pow2(k + 1);
    assert Pow2(k + 3) == 2 * Pow2(k + 2) && Pow2(k + 4) == 2 * Pow2(k + 3);
  }

  /** The one difference of two bytes before the checksum and two in it that cancels out. */
  ghost predicate Cancels(c: seq<byte>, d: seq<byte>, p: seq<byte>, q: seq<byte>) {
    && |c| == |d| == |p| == |q| == 2
    && Xor(c[0], d[0]) == 0x61 && Xor(c[1], d[1]) == 0xD8
    && Xor(p[0], q[0]) == 0xF4 && Xor(p[1], q[1]) == 0xEE
  }

  lemma CancelsAsNumbers(c: seq<byte>, d: seq<byte>, p: seq<byte>, q: seq<byte>)
    requires |c| == |d| == |p| == |q| == 2
    ensures Cancels(c, d, p, q) <==>
            Xor(Word(c), Word(d)) == 0xD861 && Xor(Value(p), Value(q)) == 0xF4EE
  {
    hide Xor, Word, Value;
    TwoByteNumbers(c, p);
    TwoByteNumbers(d, q);
    XorOfBytes(c[1], d[1], c[0], d[0]);
    XorOfBytes(p[0], q[0], p[1], q[1]);
    ByteDigits(Xor(c[1], d[1]), Xor(c[0], d[0]));
    ByteDigits(Xor(p[0], q[0]), Xor(p[1], q[1]));
  }

  lemma ByteDigits(x: nat, y: nat)
    requires y < 256
    ensures 256 * x + y == 0xD861 <==> x == 0xD8 && y == 0x61
    ensures 256 * x + y == 0xF4EE <==> x == 0xF4 && y == 0xEE
  {
  }

  lemma TwoByteNumbers(c: seq<byte>, p: seq<byte>)
    requires |c| == |p| == 2
    ensures Word(c) == 256 * (c[1] as int) + c[0] && Value(p) == 256 * (p[0] as int) + p[1]
  {
    assert Word(c) == c[0] + 256 * Word(c[1..]) && Word(c[1..]) == c[1] + 256 * Word([]) by {
      assert c[1..][1..] == [];
    }
    assert Value(p) == 256 * Value(p[..1]) + p[1] && Value(p[..1]) == 256 * Value([]) + p[0] by {
      assert p[..1][..0] == [];
    }
  }

  /** A message that ends in c and its stored checksum p + common are changed to d and
      q + common: the checksum still fits exactly if the changes cancel out. */
  lemma TailWindow(before: seq<byte>, c: seq<byte>, d: seq<byte>, p: seq<byte>, q: seq<byte>, common: seq<byte>)
    requires 1 <= |c| == |d| == |common| <= 3 && |p| == |q| == 4 - |c|
    requires Value(p + common) == Crc(before + c) && (c != d || p != q)
    ensures Value(q + common) == Crc(before + d) <==> Cancels(c, d, p, q)
  {
    hide Xor, Word, Value, Steps, Crc, Pow256, Cancels;
    var m := |c|;
    var w, v := Xor(Word(c), Word(d)), Xor(Value(p), Value(q));
    CrcDifference(before, c, d);
    ValueDifference(p, q, common);
    XorKeepsLeft(Value(p + common), Value(q + common), Crc(before + d));
    assert Value(q + common) == Crc(before + d) <==> Steps(w, 8 * m) == v * Pow256(m);
    XorOfWords(c, d);
    XorCancels(Value(p), Value(q));
    CrcWindows.Powers();
    if w == 0 {
      SameTail(m, c, d, p, q, v);
    } else {
      MultipleOf(v, Pow256(m));
      if Steps(w, 8 * m) == v * Pow256(m) {
        CrcWindows.TailDifference(w, m);
      }
      if m == 2 {
        CancelsAsNumbers(c, d, p, q);
        CrcWindows.TailExists();
      } else {
        NotTwo(c, d, p, q);
      }
    }
  }

  lemma MultipleOf(v: nat, n: nat)
    requires n in {256, 65536, 16777216}
    ensures v * n % n == 0
  {
  }

  lemma NotTwo(c: seq<byte>, d: seq<byte>, p: seq<byte>, q: seq<byte>)
    requires |c| != 2
    ensures !Cancels(c, d, p, q)
  {
  }

  lemma SameTail(m: nat, c: seq<byte>, d: seq<byte>, p: seq<byte>, q: seq<byte>, v: nat)
    requires 1 <= m <= 3 && c == d && |p| == |q| && p != q && v == Xor(Value(p), Value(q))
    ensures Steps(0, 8 * m) != v * Pow256(m) && !Cancels(c, d, p, q)
  {
    hide Value, Steps, Pow256;
    XorCancels(Value(p), Value(q));
    if v == 0 {
      ValueIsInjective(p, q);
    }
    StepsOfZero(8 * m);
    CrcWindows.Powers();
    if |c| == 2 {
      XorCancels(c[0], d[0]);
    }
  }

  lemma {:induction false} StepsOfZero(n: nat)
    ensures Steps(0, n) == 0
  {
    if n > 0 {
      assert Step(0) == 0 by { XorSelf(0); }
      StepsOfZero(n - 1);
    }
  }

  lemma WindowSlices(d: seq<byte>, e: seq<byte>, lo: nat)
    requires |d| >= HEADER_AND_CRC_SIZE && 104 < lo < 108 && DifferWithin(d, e, lo, lo + 4)
    ensures d[..108] == d[..lo] + d[lo..108] && e[..108] == d[..lo] + e[lo..108]
    ensures d[108..112] == d[108..lo + 4] + d[lo + 4..112] && e[108..112] == e[108..lo + 4] + d[lo + 4..112]
    ensures d != e ==> d[lo..108] != e[lo..108] || d[108..lo + 4] != e[108..lo + 4]
    ensures e[0..4] == d[0..4] && e[4..8] == d[4..8] && e[56..88] == d[56..88]
  {
    assert e[lo + 4..112] == e[lo + 4..][..108 - lo] == d[lo + 4..][..108 - lo] == d[lo + 4..112];
    assert e[0..4] == e[..lo][0..4] && e[4..8] == e[..lo][4..8] && e[56..88] == e[..lo][56..88];
    assert d[0..4] == d[..lo][0..4] && d[4..8] == d[..lo][4..8] && d[56..88] == d[..lo][56..88];
    assert d == d[..lo] + d[lo..108] + d[108..lo + 4] + d[lo + 4..];
    assert e == e[..lo] + e[lo..108] + e[108..lo + 4] + e[lo + 4..];
  }

  /** A change inside four consecutive bytes that reaches from the header part into the CRC
      field is detected, with one exception: in the window that has two bytes of each, one
      pattern of changes cancels out, and it is accepted if enough data is left for the
      signature size that comes of it. */
  lemma StraddlingBurst(h: Header, tail: seq<byte>, e: seq<byte>, lo: nat)
    requires h.InRange() && 104 < lo < 108
    requires DifferWithin(Encode(h) + tail, e, lo, lo + 4) && e != Encode(h) + tail
    ensures var d := Encode(h) + tail;
            Check(e).Success? <==>
            && lo == 106 && Cancels(d[106..108], e[106..108], d[108..110], e[108..110])
            && |e| >= HEADER_AND_CRC_SIZE + SignatureSize(e)
  {
    hide Encode, Value, Crc, Zeros, Cancels, SignatureSize;
    var d := Encode(h) + tail;
    DecodeOfEncode(h, tail);
    WindowSlices(d, e, lo);
    TailWindow(d[..lo], d[lo..108], e[lo..108], d[108..lo + 4], e[108..lo + 4], d[lo + 4..112]);
    if lo != 106 {
      NotTwo(d[lo..108], e[lo..108], d[108..lo + 4], e[108..lo + 4]);
    }
  }

  /** The exception exists: a header with a signature of 25048 bytes can be changed in four
      bytes into one that is accepted and has no signature. */
  lemma UndetectedBurst(h: Header, tail: seq<byte>) returns (e: seq<byte>)
    requires h.InRange() && |h.signature| == 0x61D8
    ensures DifferWithin(Encode(h) + tail, e, 106, 110) && e != Encode(h) + tail
    ensures Check(e).Success? && Decode(e) == h.(signature := [])
  {
    hide Encode, Value, Crc, Zeros, Cancels, Xor, SignatureSize;
    var d := Encode(h) + tail;
    DecodeOfEncode(h, tail);
    SizeBytes(h, tail);
    XorOfBytes(0, 0, d[108], 0xF4);
    XorOfBytes(0, 0, d[109], 0xEE);
    e := d[..106] + [0, 0, Xor(d[108], 0xF4), Xor(d[109], 0xEE)] + d[110..];
    assert e[106..108] == [0, 0] && e[108..110] == [Xor(d[108], 0xF4), Xor(d[109], 0xEE)];
    assert e[106] != d[106];
    Cancelled(d[106..108], d[108..110]);
    StraddlingBurst(h, tail, e, 106);
    NoSize(d, e);
    SameFields(d, e);
    assert e[112..112] == [];
  }

  lemma Cancelled(c: seq<byte>, p: seq<byte>)
    requires c == [0x61, 0xD8] && |p| == 2
    ensures Xor(p[0], 0xF4) < 256 && Xor(p[1], 0xEE) < 256
    ensures Cancels(c, [0, 0], p, [Xor(p[0], 0xF4), Xor(p[1], 0xEE)])
  {
    hide Xor;
    XorOfBytes(0, 0, p[0], 0xF4);
    XorOfBytes(0, 0, p[1], 0xEE);
    XorSelf(0x61);
    XorSelf(0xD8);
    XorCommutes(p[0], 0xF4);
    XorCommutes(p[1], 0xEE);
    XorCancels(0xF4, p[0]);
    XorCancels(0xEE, p[1]);
    XorCommutes(p[0], Xor(p[0], 0xF4));
    XorCommutes(p[1], Xor(p[1], 0xEE));
  }

  lemma SizeBytes(h: Header, tail: seq<byte>)
    requires h.InRange() && |h.signature| == 0x61D8
    ensures var d := Encode(h) + tail;
            |d| >= HEADER_AND_CRC_SIZE && d[104..108] == [0, 0, 0x61, 0xD8]
  {
    hide Fixed, Encode, BigEndian, Zeros, CrcField;
    EncodeSlices(h, tail);
    FixedFields(h);
    SizeAsBytes();
    var d := Encode(h) + tail;
    assert d[104..108] == d[..108][104..108];
  }

  lemma SizeAsBytes()
    ensures BigEndian(0x61D8, 4) == [0, 0, 0x61, 0xD8]
  {
    var b2 := BigEndian(0, 2);
    assert b2 == [0, 0] by { assert BigEndian(0, 1) == [0]; }
    assert BigEndian(0x61, 3) == b2 + [0x61];
    assert BigEndian(0x61D8, 4) == BigEndian(0x61, 3) + [0xD8];
  }

  lemma {:induction false} ValueOfZeros(s: seq<byte>)
    requires forall i :: 0 <= i < |s| ==> s[i] == 0
    ensures Value(s) == 0
  {
    if s != [] { ValueOfZeros(s[..|s| - 1]); }
  }

  lemma SameFields(d: seq<byte>, e: seq<byte>)
    requires |d| == |e| >= HEADER_AND_CRC_SIZE && e[..106] == d[..106]
    ensures e[8..16] == d[8..16] && e[16..24] == d[16..24] && e[24..56] == d[24..56] && e[88..104] == d[88..104]
  {
    assert e[8..16] == e[..106][8..16] && e[16..24] == e[..106][16..24];
    assert e[24..56] == e[..106][24..56] && e[88..104] == e[..106][88..104];
  }

  lemma NoSize(d: seq<byte>, e: seq<byte>)
    requires |d| == |e| >= HEADER_AND_CRC_SIZE && d[104..108] == [0, 0, 0x61, 0xD8]
    requires e[..106] == d[..106] && e[106..108] == [0, 0]
    ensures SignatureSize(e) == 0
  {
    assert d[104] == d[104..108][0] && d[105] == d[104..108][1];
    assert e[104] == e[..106][104] && e[105] == e[..106][105];
    assert e[106] == e[106..108][0] && e[107] == e[106..108][1];
    var s := e[104..108];
    assert s == [0, 0, 0, 0];
    ValueOfZeros(s);
  }
}
