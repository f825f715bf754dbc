/** CRC-16/X.25 (also named CRC-16/IBM-SDLC): the HDLC frame check sequence of
    ISO/IEC 13239 and appendix C.2 of RFC 1662. Polynomial 0x1021, processed
    reflected (0x8408), initial register 0xFFFF, reflected input and output,
    final XOR 0xFFFF. Written bit by bit; the table-driven evaluation of the
    crc crate computes the same function. */
module Crc16 {

  /** The generator polynomial 0x1021 with its bits reversed. */
  const POLY_REFLECTED: bv16 := 0x8408
  const INIT: bv16 := 0xFFFF
  const XOROUT: bv16 := 0xFFFF

  /** One shift of the reflected register: the bit leaving on the right decides
      whether the polynomial is subtracted. */
  function ShiftBit(c: bv16): bv16 {
    if c & 1 == 1 then (c >> 1) ^ POLY_REFLECTED else c >> 1
  }

  /** `n` shifts of the register. */
  function Shift(c: bv16, n: nat): bv16
    decreases n
  {
    if n == 0 then c else Shift(ShiftBit(c), n - 1)
  }

  /** Feeds one byte, least significant bit first. */
  function UpdateByte(c: bv16, b: bv8): bv16 {
    Shift(c ^ (b as bv16), 8)
  }

  /** The register after feeding `data`, from the left, starting from `c`. */
  function Register(c: bv16, data: seq<bv8>): bv16
    decreases |data|
  {
    if |data| == 0 then c else Register(UpdateByte(c, data[0]), data[1..])
  }

  /** The checksum the source's `X25.checksum` returns. */
  function Checksum(data: seq<bv8>): bv16 {
    Register(INIT, data) ^ XOROUT
  }

  /** The standard check value of the algorithm: the checksum of ASCII "123456789". */
  lemma CheckValue()
    ensures Checksum([0x31, 0x32, 0x33, 0x34, 0x35, 0x36, 0x37, 0x38, 0x39]) == 0x906E
  {
    var s: seq<bv8> := [0x31, 0x32, 0x33, 0x34, 0x35, 0x36, 0x37, 0x38, 0x39];
    assert UpdateByte(0xFFFF, 0x31) == 0x2F8D;
    assert UpdateByte(0x2F8D, 0x32) == 0x4D53;
    assert UpdateByte(0x4D53, 0x33) == 0x634B;
    assert UpdateByte(0x634B, 0x34) == 0x8B13;
    assert UpdateByte(0x8B13, 0x35) == 0x44BF;
    assert UpdateByte(0x44BF, 0x36) == 0x198D;
    assert UpdateByte(0x198D, 0x37) == 0x1AC8;
    assert UpdateByte(0x1AC8, 0x38) == 0xF795;
    assert UpdateByte(0xF795, 0x39) == 0x6F91;
    assert Register(0x6F91, s[9..]) == 0x6F91;
    assert Register(0xF795, s[8..]) == 0x6F91;
    assert Register(0x1AC8, s[7..]) == 0x6F91;
    assert Register(0x198D, s[6..]) == 0x6F91;
    assert Register(0x44BF, s[5..]) == 0x6F91;
    assert Register(0x8B13, s[4..]) == 0x6F91;
    assert Register(0x634B, s[3..]) == 0x6F91;
    assert Register(0x4D53, s[2..]) == 0x6F91;
    assert Register(0x2F8D, s[1..]) == 0x6F91;
  }

  /** Feeding `a` then `b` is feeding `a + b`: the checksum is a left fold. */
  lemma {:induction false} RegisterAppend(c: bv16, a: seq<bv8>, b: seq<bv8>)
    ensures Register(c, a + b) == Register(Register(c, a), b)
    decreases |a|
  {
    if |a| == 0 {
      assert a + b == b;
    } else {
      assert (a + b)[1..] == a[1..] + b;
      RegisterAppend(UpdateByte(c, a[0]), a[1..], b);
    }
  }

  /** A single shift never merges two register states. */
  lemma ShiftBitInjective(c: bv16, d: bv16)
    requires c != d
    ensures ShiftBit(c) != ShiftBit(d)
  {
    if c & 1 == d & 1 {
      // the shifted-out bits agree, so the shifted registers must differ
      assert c == ((c >> 1) << 1) | (c & 1) && d == ((d >> 1) << 1) | (d & 1);
      assert c >> 1 != d >> 1;
    } else {
      // the polynomial sets the top bit that a plain shift leaves clear
      assert ((c >> 1) ^ POLY_REFLECTED) & 0x8000 == 0x8000 && (d >> 1) & 0x8000 == 0;
      assert ((d >> 1) ^ POLY_REFLECTED) & 0x8000 == 0x8000 && (c >> 1) & 0x8000 == 0;
    }
  }

  lemma {:induction false} ShiftInjective(c: bv16, d: bv16, n: nat)
    requires c != d
    ensures Shift(c, n) != Shift(d, n)
    decreases n
  {
    if n > 0 {
      ShiftBitInjective(c, d);
      ShiftInjective(ShiftBit(c), ShiftBit(d), n - 1);
    }
  }

  /** Different registers stay different whatever data follows. */
  lemma {:induction false} RegisterInjective(c: bv16, d: bv16, data: seq<bv8>)
    requires c != d
    ensures Register(c, data) != Register(d, data)
    decreases |data|
  {
    if |data| > 0 {
      assert c ^ (data[0] as bv16) != d ^ (data[0] as bv16);
      ShiftInjective(c ^ (data[0] as bv16), d ^ (data[0] as bv16), 8);
      RegisterInjective(UpdateByte(c, data[0]), UpdateByte(d, data[0]), data[1..]);
    }
  }

  /** Two different bytes fed into the same register leave different registers. */
  lemma UpdateByteInjective(c: bv16, a: bv8, b: bv8)
    requires a != b
    ensures UpdateByte(c, a) != UpdateByte(c, b)
  {
    assert c ^ (a as bv16) != c ^ (b as bv16);
    ShiftInjective(c ^ (a as bv16), c ^ (b as bv16), 8);
  }

  /** Any corruption confined to one byte changes the checksum. */
  lemma SingleByteErrorDetected(data: seq<bv8>, k: nat, x: bv8)
    requires k < |data| && x != data[k]
    ensures Checksum(data[k := x]) != Checksum(data)
  {
    var prefix, suffix := data[..k], data[k + 1..];
    var original, corrupted := [data[k]] + suffix, [x] + suffix;
    assert data == prefix + original;
    assert data[k := x] == prefix + corrupted;
    RegisterAppend(INIT, prefix, original);
    RegisterAppend(INIT, prefix, corrupted);
    var r := Register(INIT, prefix);
    assert original[1..] == suffix && corrupted[1..] == suffix;
    UpdateByteInjective(r, data[k], x);
    RegisterInjective(UpdateByte(r, data[k]), UpdateByte(r, x), suffix);
    assert Register(r, original) == Register(UpdateByte(r, data[k]), suffix);
    assert Register(r, corrupted) == Register(UpdateByte(r, x), suffix);
  }
}
