/** The codec of the firmware update HEADER: 108 bytes in big-endian order, a CRC-32 of
    them, and a signature of variable length. */
module FirmwareHeader {
  import Crc32

  type byte = Crc32.byte

  const SIZEOF_SHA256 := 32
  const SIZEOF_SHA512 := 64
  const SIZEOF_GUID := 16
  const HEADER_MAGIC := 0x5A51_B3D4
  const HEADER_FORMAT_VERSION := 2
  /** `struct.calcsize(">2I2Q64s16sI")`. */
  const HEADER_SIZE := 108
  const HEADER_AND_CRC_SIZE := 112

  const TWO64 := 0x1_0000_0000_0000_0000

  // ------------------------------------------------------- big-endian integers

  lemma Sizes()
    ensures Crc32.Pow256(4) == Crc32.TWO32 && Crc32.Pow256(8) == TWO64
  {
    assert Crc32.Pow256(4) == 256 * (256 * (256 * (256 * Crc32.Pow256(0))));
    assert Crc32.Pow256(8) == 256 * (256 * (256 * (256 * Crc32.Pow256(4))));
  }

  function BigEndian(n: nat, k: nat): (s: seq<byte>)
    ensures |s| == k
  {
    if k == 0 then [] else BigEndian(n / 256, k - 1) + [n % 256]
  }

  function Value(s: seq<byte>): nat {
    if s == [] then 0 else 256 * Value(s[..|s| - 1]) + s[|s| - 1]
  }

  lemma {:induction false} ValueOfBigEndian(n: nat, k: nat)
    requires n < Crc32.Pow256(k)
    ensures Value(BigEndian(n, k)) == n
  {
    if k > 0 {
      hide Value, BigEndian;
      BigEndianSnoc(n, k);
      ValueSnoc(BigEndian(n / 256, k - 1), n % 256);
      LeadingDigits(n, Crc32.Pow256(k - 1));
      hide Crc32.Pow256;
      ValueOfBigEndian(n / 256, k - 1);
    }
  }

  lemma BigEndianSnoc(n: nat, k: nat)
    requires k > 0
    ensures BigEndian(n, k) == BigEndian(n / 256, k - 1) + [n % 256]
  {
  }

  lemma ValueSnoc(s: seq<byte>, b: byte)
    ensures Value(s + [b]) == 256 * Value(s) + b
  {
    assert (s + [b])[..|s|] == s;
  }

  lemma LeadingDigits(n: nat, p: nat)
    requires n < 256 * p
    ensures n / 256 < p && n == 256 * (n / 256) + n % 256
  {
  }

  lemma {:induction false} BigEndianOfValue(s: seq<byte>)
    ensures Value(s) < Crc32.Pow256(|s|)
    ensures BigEndian(Value(s), |s|) == s
  {
    if s != [] {
      var init, last := s[..|s| - 1], s[|s| - 1];
      BigEndianOfValue(init);
      assert Value(s) / 256 == Value(init) && Value(s) % 256 == last;
      assert s == init + [last];
    }
  }

  // ------------------------------------------------------------------ contents

  datatype Header = Header(
    version: int,
    size: int,
    hash: seq<byte>,
    campaignId: seq<byte>,
    signature: seq<byte>)
  {
    /** The headers that fit the format. */
    predicate InRange() {
      && 0 <= version < TWO64
      && 0 <= size < TWO64
      && |hash| == SIZEOF_SHA256
      && |campaignId| == SIZEOF_GUID
      && |signature| < Crc32.TWO32
    }
  }

  datatype Failure = TooShort | BadHash | BadMagic | BadVersion | BadCrc | BadCampaignId | StructError

  datatype Result<+T> = Success(value: T) | Error(failure: Failure)

  function Zeros(n: nat): (s: seq<byte>)
    ensures |s| == n
  {
    seq(n, _ => 0)
  }

  /** The packed structure, without the CRC. */
  function Fixed(h: Header): (s: seq<byte>)
    requires h.InRange()
    ensures |s| == HEADER_SIZE
  {
    Numbers(h) + HashAndIds(h)
  }

  function CrcField(fixed: seq<byte>): (s: seq<byte>)
    ensures |s| == 4
  {
    BigEndian(Crc32.Crc(fixed), 4)
  }

  function Encode(h: Header): (s: seq<byte>)
    requires h.InRange()
    ensures |s| == HEADER_AND_CRC_SIZE + |h.signature|
  {
    Fixed(h) + CrcField(Fixed(h)) + h.signature
  }

  /** The last field of the structure. */
  function SignatureSize(d: seq<byte>): nat
    requires |d| >= HEADER_AND_CRC_SIZE
  {
    Value(d[104..108])
  }

  /** The checks of `unpack`, in its order. */
  function Check(d: seq<byte>): Result<()> {
    if |d| < HEADER_AND_CRC_SIZE then Error(TooShort)
    else if d[56..88] != Zeros(32) then Error(BadHash)
    else if Value(d[0..4]) != HEADER_MAGIC then Error(BadMagic)
    else if Value(d[4..8]) != HEADER_FORMAT_VERSION then Error(BadVersion)
    else if Value(d[108..112]) != Crc32.Crc(d[..108]) then Error(BadCrc)
    else if |d| < HEADER_AND_CRC_SIZE + SignatureSize(d) then Error(TooShort)
    else Success(())
  }

  /** The fields of an accepted blob. */
  function Decode(d: seq<byte>): Header
    requires Check(d).Success?
  {
    Header(Value(d[8..16]), Value(d[16..24]), d[24..56], d[88..104],
           d[112..HEADER_AND_CRC_SIZE + SignatureSize(d)])
  }

  // ------------------------------------------------------------------- layout

  /** The most significant byte comes first. */
  lemma {:induction false} BigEndianByte(n: nat, k: nat, i: nat)
    requires i < k
    ensures BigEndian(n, k)[i] as int == n / Crc32.Pow256(k - 1 - i) % 256
    decreases k
  {
    if i < k - 1 {
      BigEndianByte(n / 256, k - 1, i);
      DivideTwice(n, Crc32.Pow256(k - 2 - i));
    }
  }

  lemma DivideTwice(n: nat, p: nat)
    requires p > 0
    ensures n / 256 / p == n / (256 * p)
  {
    var q := n / 256 / p;
    var r := n / 256 - q * p;
    assert n / 256 == q * p + r && 0 <= r < p;
    assert n == 256 * (q * p + r) + n % 256;
    Quotient(n, 256 * p, q, 256 * r + n % 256);
  }

  lemma Quotient(n: nat, m: nat, q: nat, r: nat)
    requires n == q * m + r && r < m
    ensures n / m == q
  {
    if n / m > q {
      Times(q + 1, n / m, m);
    } else if n / m < q {
      Times(n / m + 1, q, m);
    }
  }

  lemma Times(a: nat, b: nat, m: nat)
    requires a <= b
    ensures a * m <= b * m
  {
  }

  /** Where everything is in a packed header. */
  lemma Layout(h: Header)
    requires h.InRange()
    ensures var d := Encode(h);
            && |d| == 112 + |h.signature|
            && d[0..4] == [0x5A, 0x51, 0xB3, 0xD4] && d[4..8] == [0, 0, 0, 2]
            && d[8..16] == BigEndian(h.version, 8) && d[16..24] == BigEndian(h.size, 8)
            && d[24..56] == h.hash && (forall i :: 56 <= i < 88 ==> d[i] == 0)
            && d[88..104] == h.campaignId && d[104..108] == BigEndian(|h.signature|, 4)
            && d[108..112] == BigEndian(Crc32.Crc(d[..108]), 4) && d[112..] == h.signature
  {
    var d := Encode(h);
    assert d + [] == d;
    FixedFields(h);
    MagicBytes();
    hide Fixed, BigEndian, Crc32.Crc;
    EncodeSlices(h, []);
    HeaderSlices(d);
    assert forall i :: 56 <= i < 88 ==> d[i] == d[56..88][i - 56];
    assert d[112..] == d[112..112 + |h.signature|];
  }

  lemma MagicBytes()
    ensures BigEndian(HEADER_MAGIC, 4) == [0x5A, 0x51, 0xB3, 0xD4]
    ensures BigEndian(HEADER_FORMAT_VERSION, 4) == [0, 0, 0, 2]
  {
    assert BigEndian(0x5A, 1) == [0x5A];
    assert BigEndian(0x5A51, 2) == [0x5A, 0x51];
    assert BigEndian(0x5A_51B3, 3) == [0x5A, 0x51, 0xB3];
    assert BigEndian(0, 1) == [0];
    assert BigEndian(0, 2) == [0, 0];
    assert BigEndian(0, 3) == [0, 0, 0];
  }

  // -------------------------------------------------------- language of unpack

  /** Unpacking a packed header, whatever follows it, gives the header back. */
  lemma DecodeOfEncode(h: Header, tail: seq<byte>)
    requires h.InRange()
    ensures Check(Encode(h) + tail) == Success(())
    ensures Decode(Encode(h) + tail) == h
  {
    var d := Encode(h) + tail;
    EncodeSlices(h, tail);
    FixedFields(h);
    FieldValues(h);
    CrcFieldValue(Fixed(h));
    hide Fixed, Encode, BigEndian, Value, CrcField, Zeros, Crc32.Crc;
    HeaderSlices(d);
  }

  lemma EncodeSlices(h: Header, tail: seq<byte>)
    requires h.InRange()
    ensures var d := Encode(h) + tail;
            && |d| >= HEADER_AND_CRC_SIZE + |h.signature|
            && d[..108] == Fixed(h) && d[108..112] == CrcField(Fixed(h))
            && d[112..112 + |h.signature|] == h.signature
  {
    hide Fixed, CrcField;
    Parts(Fixed(h), CrcField(Fixed(h)), h.signature, tail);
  }

  lemma Parts(f: seq<byte>, c: seq<byte>, signature: seq<byte>, tail: seq<byte>)
    requires |f| == 108 && |c| == 4
    ensures var d := f + c + signature + tail;
            d[..108] == f && d[108..112] == c && d[112..112 + |signature|] == signature
  {
  }

  /** The fields of the structure, sliced from the header part or from the whole blob. */
  lemma HeaderSlices(data: seq<byte>)
    requires |data| >= HEADER_SIZE
    ensures var header := data[..HEADER_SIZE];
            && header[0..4] == data[0..4] && header[4..8] == data[4..8] && header[8..16] == data[8..16]
            && header[16..24] == data[16..24] && header[24..56] == data[24..56]
            && header[56..88] == data[56..88] && header[88..104] == data[88..104]
            && header[104..108] == data[104..108]
            && header[24..88][..32] == data[24..56] && header[24..88][32..] == data[56..88]
  {
  }

  /** The bytes of the packed structure before and from the hash on. */
  function Numbers(h: Header): (s: seq<byte>)
    requires h.InRange()
    ensures |s| == 24
  {
    BigEndian(HEADER_MAGIC, 4) + BigEndian(HEADER_FORMAT_VERSION, 4)
    + BigEndian(h.version, 8) + BigEndian(h.size, 8)
  }

  function HashAndIds(h: Header): (s: seq<byte>)
    requires h.InRange()
    ensures |s| == 84
  {
    h.hash + Zeros(SIZEOF_SHA512 - SIZEOF_SHA256) + h.campaignId + BigEndian(|h.signature|, 4)
  }

  lemma FixedFields(h: Header)
    requires h.InRange()
    ensures var f := Fixed(h);
            && f[0..4] == BigEndian(HEADER_MAGIC, 4) && f[4..8] == BigEndian(HEADER_FORMAT_VERSION, 4)
            && f[8..16] == BigEndian(h.version, 8) && f[16..24] == BigEndian(h.size, 8)
            && f[24..56] == h.hash && f[56..88] == Zeros(32)
            && f[88..104] == h.campaignId && f[104..108] == BigEndian(|h.signature|, 4)
  {
    hide BigEndian, Zeros;
    NumberSlices(BigEndian(HEADER_MAGIC, 4), BigEndian(HEADER_FORMAT_VERSION, 4),
                 BigEndian(h.version, 8), BigEndian(h.size, 8));
    RestSlices(h.hash, Zeros(SIZEOF_SHA512 - SIZEOF_SHA256), h.campaignId, BigEndian(|h.signature|, 4));
    Slices(Numbers(h), HashAndIds(h));
  }

  lemma NumberSlices(magic: seq<byte>, format: seq<byte>, version: seq<byte>, size: seq<byte>)
    requires |magic| == |format| == 4 && |version| == |size| == 8
    ensures var n := magic + format + version + size;
            n[0..4] == magic && n[4..8] == format && n[8..16] == version && n[16..24] == size
  {
  }

  lemma RestSlices(hash: seq<byte>, padding: seq<byte>, id: seq<byte>, size: seq<byte>)
    requires |hash| == |padding| == 32 && |id| == 16 && |size| == 4
    ensures var m := hash + padding + id + size;
            m[0..32] == hash && m[32..64] == padding && m[64..80] == id && m[80..84] == size
  {
  }

  lemma Slices(n: seq<byte>, m: seq<byte>)
    requires |n| == 24 && |m| == 84
    ensures var f := n + m;
            && f[0..4] == n[0..4] && f[4..8] == n[4..8] && f[8..16] == n[8..16] && f[16..24] == n[16..24]
            && f[24..56] == m[0..32] && f[56..88] == m[32..64] && f[88..104] == m[64..80] && f[104..108] == m[80..84]
  {
  }

  lemma FieldValues(h: Header)
    requires h.InRange()
    ensures Value(BigEndian(HEADER_MAGIC, 4)) == HEADER_MAGIC
    ensures Value(BigEndian(HEADER_FORMAT_VERSION, 4)) == HEADER_FORMAT_VERSION
    ensures Value(BigEndian(h.version, 8)) == h.version && Value(BigEndian(h.size, 8)) == h.size
    ensures Value(BigEndian(|h.signature|, 4)) == |h.signature|
  {
    Sizes();
    ValueOfBigEndian(HEADER_MAGIC, 4);
    ValueOfBigEndian(HEADER_FORMAT_VERSION, 4);
    ValueOfBigEndian(h.version, 8);
    ValueOfBigEndian(h.size, 8);
    ValueOfBigEndian(|h.signature|, 4);
  }

  lemma CrcFieldValue(fixed: seq<byte>)
    ensures Value(CrcField(fixed)) == Crc32.Crc(fixed)
  {
    Sizes();
    Crc32.CrcFits(fixed);
    ValueOfBigEndian(Crc32.Crc(fixed), 4);
  }

  /** An accepted blob is the encoding of its own fields, followed by anything. */
  lemma EncodeOfDecode(d: seq<byte>)
    requires Check(d).Success?
    ensures Decode(d).InRange()
    ensures d == Encode(Decode(d)) + d[HEADER_AND_CRC_SIZE + SignatureSize(d)..]
  {
    var h := Decode(d);
    FieldsOfBytes(d);
    hide Value, Crc32.Crc, Crc32.Pow256, BigEndian, Zeros;
    HeaderSlices(d);
    ByFields(d[..108]);
    assert d[..108] == Fixed(h);
    hide Check, Fixed, Decode, SignatureSize;
    ByParts(d, 112 + |h.signature|);
  }

  lemma ByFields(f: seq<byte>)
    requires |f| == HEADER_SIZE
    ensures f == (f[0..4] + f[4..8] + f[8..16] + f[16..24]) + (f[24..56] + f[56..88] + f[88..104] + f[104..108])
  {
  }

  lemma ByParts(d: seq<byte>, n: nat)
    requires HEADER_AND_CRC_SIZE <= n <= |d|
    ensures d == d[..108] + d[108..112] + d[112..n] + d[n..]
  {
  }

  /** The fields of an accepted blob are in range and their encodings are its slices. */
  lemma FieldsOfBytes(d: seq<byte>)
    requires Check(d).Success?
    ensures var h := Decode(d);
            && h.InRange()
            && BigEndian(HEADER_MAGIC, 4) == d[0..4] && BigEndian(HEADER_FORMAT_VERSION, 4) == d[4..8]
            && BigEndian(h.version, 8) == d[8..16] && BigEndian(h.size, 8) == d[16..24]
            && BigEndian(|h.signature|, 4) == d[104..108] && CrcField(d[..108]) == d[108..112]
  {
    Sizes();
    BigEndianOfValue(d[0..4]);
    BigEndianOfValue(d[4..8]);
    BigEndianOfValue(d[8..16]);
    BigEndianOfValue(d[16..24]);
    BigEndianOfValue(d[104..108]);
    BigEndianOfValue(d[108..112]);
    hide Value, Crc32.Crc, Crc32.Pow256, BigEndian;
  }

  /** The exact language of `unpack` on a new object: the packed headers that are in range,
      with arbitrary bytes after them, and nothing else. */
  lemma AcceptedExactly(d: seq<byte>)
    ensures Check(d).Success? <==> exists h: Header, tail :: h.InRange() && d == Encode(h) + tail
  {
    if Check(d).Success? {
      EncodeOfDecode(d);
    }
    forall h: Header, tail | h.InRange() && d == Encode(h) + tail ensures Check(d).Success? {
      DecodeOfEncode(h, tail);
    }
  }

  lemma EncodeIsInjective(g: Header, h: Header, s: seq<byte>, t: seq<byte>)
    requires g.InRange() && h.InRange() && Encode(g) + s == Encode(h) + t
    ensures g == h && s == t
  {
    DecodeOfEncode(g, s);
    DecodeOfEncode(h, t);
    assert s == (Encode(g) + s)[|Encode(g)|..] == (Encode(h) + t)[|Encode(h)|..] == t;
  }

  /** Two byte strings of equal length differ only inside a window. */
  ghost predicate DifferWithin(d: seq<byte>, e: seq<byte>, lo: nat, hi: nat) {
    && |d| == |e| && lo <= hi <= |d|
    && d[..lo] == e[..lo] && d[hi..] == e[hi..]
  }

  /** Corruption of a packed header is detected when it stays inside four consecutive bytes
      of the header part, or inside the CRC field, wherever the header came from. */
  lemma BurstIsRejected(h: Header, tail: seq<byte>, e: seq<byte>, lo: nat)
    requires h.InRange() && (lo + 4 <= HEADER_SIZE || lo == HEADER_SIZE)
    requires DifferWithin(Encode(h) + tail, e, lo, lo + 4) && e != Encode(h) + tail
    ensures Check(e).Error?
  {
    var d := Encode(h) + tail;
    DecodeOfEncode(h, tail);
    hide Encode, Value, Crc32.Crc, Zeros;
    if lo == HEADER_SIZE {
      CrcFieldDiffers(d, e);
    } else {
      WindowInHeader(d, e, lo);
      Crc32.BurstChangesCrc(d[..lo], d[lo..lo + 4], e[lo..lo + 4], d[lo + 4..108]);
    }
  }

  /** The same for a burst of 32 bits that starts at any bit of the header part. */
  lemma BitBurstIsRejected(h: Header, tail: seq<byte>, e: seq<byte>, u: nat, k: nat)
    requires h.InRange() && DifferWithin(Encode(h) + tail, e, 0, HEADER_SIZE)
    requires Crc32.Xor(Crc32.Word(Fixed(h)), Crc32.Word(e[..HEADER_SIZE])) == Crc32.Up(u, k)
    requires 0 < u < Crc32.TWO32 && k <= 8 * HEADER_SIZE
    ensures Check(e).Error?
  {
    hide Encode, Fixed, Value, Crc32.Crc, Crc32.Xor, Crc32.Word, Crc32.Up, Zeros;
    var d := Encode(h) + tail;
    DecodeOfEncode(h, tail);
    EncodeSlices(h, tail);
    assert d[108..112] == e[108..112] by {
      assert d[108..112] == d[108..][..4] && e[108..112] == e[108..][..4];
    }
    Crc32.BitBurstChangesCrc([], d[..108], e[..108], [], u, k);
    assert [] + d[..108] + [] == d[..108] && [] + e[..108] + [] == e[..108];
  }

  lemma CrcFieldDiffers(d: seq<byte>, e: seq<byte>)
    requires |d| >= HEADER_AND_CRC_SIZE && DifferWithin(d, e, 108, 112) && d != e
    ensures d[..108] == e[..108] && Value(d[108..112]) != Value(e[108..112])
  {
    BigEndianOfValue(d[108..112]);
    BigEndianOfValue(e[108..112]);
    hide Value, BigEndian;
    assert d == d[..108] + d[108..112] + d[112..] && e == e[..108] + e[108..112] + e[112..];
  }

  lemma WindowInHeader(d: seq<byte>, e: seq<byte>, lo: nat)
    requires |d| >= HEADER_AND_CRC_SIZE && lo + 4 <= HEADER_SIZE && DifferWithin(d, e, lo, lo + 4) && d != e
    ensures d[..108] == d[..lo] + d[lo..lo + 4] + d[lo + 4..108]
    ensures e[..108] == d[..lo] + e[lo..lo + 4] + d[lo + 4..108]
    ensures d[lo..lo + 4] != e[lo..lo + 4] && d[108..112] == e[108..112]
  {
    assert d[lo + 4..108] == d[lo + 4..][..104 - lo] && e[lo + 4..108] == e[lo + 4..][..104 - lo];
    assert d[108..112] == d[lo + 4..][104 - lo..108 - lo] && e[108..112] == e[lo + 4..][104 - lo..108 - lo];
    assert d == d[..lo] + d[lo..lo + 4] + d[lo + 4..] && e == e[..lo] + e[lo..lo + 4] + e[lo + 4..];
  }

  // -------------------------------------------------------------------- object

  class FirmwareUpdateHeader {
    var firmwareVersion: int
    var firmwareSize: int
    var firmwareHash: seq<byte>
    var campaignId: seq<byte>
    var firmwareSignature: seq<byte>

    ghost function Fields(): Header
      reads this
    {
      Header(firmwareVersion, firmwareSize, firmwareHash, campaignId, firmwareSignature)
    }

    constructor ()
      ensures Fields() == Header(0, 0, Zeros(32), Zeros(16), [])
    {
      firmwareVersion, firmwareSize := 0, 0;
      firmwareHash, campaignId := Zeros(SIZEOF_SHA256), Zeros(SIZEOF_GUID);
      firmwareSignature := [];
    }

    /** `unpack`.  The fields before the signature are assigned before they are checked, so a
        rejected blob of full length changes them too.  The signature is only assigned when
        the new one is not empty: an object that held a signature keeps it. */
    method Unpack(data: seq<byte>) returns (r: Result<()>)
      modifies this
      ensures r == Check(data)
      ensures |data| < HEADER_AND_CRC_SIZE ==> Fields() == old(Fields())
      ensures |data| >= HEADER_AND_CRC_SIZE ==>
                && firmwareVersion == Value(data[8..16]) && firmwareSize == Value(data[16..24])
                && firmwareHash == data[24..56] && campaignId == data[88..104]
      ensures r.Error? ==> firmwareSignature == old(firmwareSignature)
      ensures r.Success? ==>
                (Fields() == Decode(data) <==> SignatureSize(data) > 0 || old(firmwareSignature) == [])
      ensures r.Success? && SignatureSize(data) == 0 ==> firmwareSignature == old(firmwareSignature)
    {
      if |data| < HEADER_AND_CRC_SIZE {
        return Error(TooShort);
      }
      var header := data[..HEADER_SIZE];
      var magic, version := Value(header[0..4]), Value(header[4..8]);
      firmwareVersion, firmwareSize := Value(header[8..16]), Value(header[16..24]);
      var hash512 := header[24..88];
      campaignId := header[88..104];
      var signatureSize := Value(header[104..108]);
      HeaderSlices(data);
      firmwareHash := hash512[..SIZEOF_SHA256];
      if hash512[SIZEOF_SHA256..] != Zeros(32) {
        return Error(BadHash);
      }
      var crc := Value(data[HEADER_SIZE..HEADER_AND_CRC_SIZE]);
      if magic != HEADER_MAGIC {
        return Error(BadMagic);
      }
      if version != HEADER_FORMAT_VERSION {
        return Error(BadVersion);
      }
      if crc != Crc32.Crc(header) {
        return Error(BadCrc);
      }
      if signatureSize != 0 {
        var total := HEADER_AND_CRC_SIZE + signatureSize;
        if |data| < total {
          return Error(TooShort);
        }
        firmwareSignature := data[HEADER_AND_CRC_SIZE..total];
      }
      return Success(());
    }

    /** `pack`: fills a buffer in place.  It fails exactly on the headers out of range, the
        two lengths being checked before the numbers. */
    method Pack() returns (r: Result<array<byte>>)
      ensures r.Success? <==> Fields().InRange()
      ensures r.Success? ==> fresh(r.value) && r.value[..] == Encode(Fields())
      ensures r == Error(BadHash) <==> |firmwareHash| != SIZEOF_SHA256
      ensures r == Error(BadCampaignId) <==> |firmwareHash| == SIZEOF_SHA256 && |campaignId| != SIZEOF_GUID
      ensures r.Error? ==> r.failure in {BadHash, BadCampaignId, StructError}
    {
      if |firmwareHash| != SIZEOF_SHA256 {
        return Error(BadHash);
      }
      if |campaignId| != SIZEOF_GUID {
        return Error(BadCampaignId);
      }
      if !(0 <= firmwareVersion < TWO64 && 0 <= firmwareSize < TWO64 && |firmwareSignature| < Crc32.TWO32) {
        return Error(StructError);
      }
      ghost var h := Fields();
      var hash512 := firmwareHash + Zeros(SIZEOF_SHA512 - SIZEOF_SHA256);
      var fixed := BigEndian(HEADER_MAGIC, 4) + BigEndian(HEADER_FORMAT_VERSION, 4)
        + BigEndian(firmwareVersion, 8) + BigEndian(firmwareSize, 8)
        + hash512 + campaignId + BigEndian(|firmwareSignature|, 4);
      assert fixed == Fixed(h) by { assert fixed == Numbers(h) + HashAndIds(h); }
      var data := new byte[HEADER_AND_CRC_SIZE + |firmwareSignature|];
      PackInto(data, 0, fixed);
      assert data[..HEADER_SIZE] == fixed;
      PackInto(data, HEADER_SIZE, BigEndian(Crc32.Crc(data[..HEADER_SIZE]), 4));
      PackInto(data, HEADER_AND_CRC_SIZE, firmwareSignature);
      assert data[..] == fixed + CrcField(fixed) + h.signature;
      return Success(data);
    }
  }

  /** Overwrites a part of a buffer. */
  method PackInto(data: array<byte>, offset: nat, bytes: seq<byte>)
    requires offset + |bytes| <= data.Length
    modifies data
    ensures data[..] == old(data[..offset]) + bytes + old(data[offset + |bytes|..])
  {
    for i := 0 to |bytes|
      invariant data[..offset] == old(data[..offset])
      invariant data[offset..offset + i] == bytes[..i]
      invariant data[offset + |bytes|..] == old(data[offset + |bytes|..])
    {
      data[offset + i] := bytes[i];
      assert data[offset..offset + i + 1] == data[offset..offset + i] + [bytes[i]];
    }
    assert data[..] == data[..offset] + data[offset..offset + |bytes|] + data[offset + |bytes|..];
  }
}
