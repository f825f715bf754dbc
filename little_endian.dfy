/** Fixed-width little-endian integers, as bincode 1.x writes them with its
    default options: no variable-length encoding, least significant byte first. */
module LittleEndian {

  const TWO_TO_THE_32: int := 0x1_0000_0000
  const TWO_TO_THE_64: int := 0x1_0000_0000_0000_0000

  newtype uint32 = x: int | 0 <= x < TWO_TO_THE_32
  newtype uint64 = x: int | 0 <= x < TWO_TO_THE_64

  /** The number of values `n` bytes can hold. */
  function Pow256(n: nat): (p: nat)
    ensures p > 0
  {
    if n == 0 then 1 else 256 * Pow256(n - 1)
  }

  /** A byte and its numeric value, spelled out nibble by nibble. The direct
      conversions `(x % 256) as bv8` and `b as int` mean the same, but the
      solver reasons about them very slowly; these tables keep every proof
      below to linear arithmetic and small bit-vector facts. */
  function NibbleOf(n: int): bv8
    requires 0 <= n < 16
  {
    if n == 0 then 0x0 else if n == 1 then 0x1 else if n == 2 then 0x2 else if n == 3 then 0x3
    else if n == 4 then 0x4 else if n == 5 then 0x5 else if n == 6 then 0x6 else if n == 7 then 0x7
    else if n == 8 then 0x8 else if n == 9 then 0x9 else if n == 10 then 0xA else if n == 11 then 0xB
    else if n == 12 then 0xC else if n == 13 then 0xD else if n == 14 then 0xE else 0xF
  }

  /** The value of the low nibble of `b`. */
  function NibbleValue(b: bv8): int {
    var m := b & 0xF;
    if m == 0x0 then 0 else if m == 0x1 then 1 else if m == 0x2 then 2 else if m == 0x3 then 3
    else if m == 0x4 then 4 else if m == 0x5 then 5 else if m == 0x6 then 6 else if m == 0x7 then 7
    else if m == 0x8 then 8 else if m == 0x9 then 9 else if m == 0xA then 10 else if m == 0xB then 11
    else if m == 0xC then 12 else if m == 0xD then 13 else if m == 0xE then 14 else 15
  }

  function ByteOf(x: int): bv8
    requires 0 <= x < 256
  {
    (NibbleOf(x / 16) << 4) | NibbleOf(x % 16)
  }

  function ByteValue(b: bv8): int {
    16 * NibbleValue(b >> 4) + NibbleValue(b)
  }

  lemma NibbleOfValue(n: int)
    requires 0 <= n < 16
    ensures NibbleOf(n) < 16 && NibbleValue(NibbleOf(n)) == n
  {
  }

  lemma NibbleValueOf(b: bv8)
    ensures 0 <= NibbleValue(b) < 16 && NibbleOf(NibbleValue(b)) == b & 0xF
  {
  }

  /** The byte of a value in 0..255 has that value. */
  lemma ValueOfByte(x: int)
    requires 0 <= x < 256
    ensures ByteValue(ByteOf(x)) == x
  {
    var high, low := NibbleOf(x / 16), NibbleOf(x % 16);
    NibbleOfValue(x / 16);
    NibbleOfValue(x % 16);
    assert ((high << 4) | low) >> 4 == high;
    assert ((high << 4) | low) & 0xF == low;
  }

  /** Every byte is the byte of its value, and that value lies in 0..255. */
  lemma ByteOfValue(b: bv8)
    ensures 0 <= ByteValue(b) < 256 && ByteOf(ByteValue(b)) == b
  {
    NibbleValueOf(b >> 4);
    NibbleValueOf(b);
    var v := ByteValue(b);
    assert v / 16 == NibbleValue(b >> 4) && v % 16 == NibbleValue(b);
    assert (((b >> 4) & 0xF) << 4) | (b & 0xF) == b;
  }

  /** The `n` bytes of `x`, least significant first. */
  function LeBytes(x: nat, n: nat): (s: seq<bv8>)
    requires x < Pow256(n)
    ensures |s| == n
    decreases n
  {
    if n == 0 then [] else [ByteOf(x % 256)] + LeBytes(x / 256, n - 1)
  }

  /** The number whose little-endian bytes are `s`. */
  function FromLe(s: seq<bv8>): (x: nat)
    ensures x < Pow256(|s|)
    decreases |s|
  {
    if |s| == 0 then 0
    else
      var rest := FromLe(s[1..]);
      ByteOfValue(s[0]);
      assert ByteValue(s[0]) + 256 * rest <= 255 + 256 * (Pow256(|s| - 1) - 1);
      ByteValue(s[0]) + 256 * rest
  }

  lemma DivMod256(low: int, high: int)
    requires 0 <= low < 256
    ensures (low + 256 * high) % 256 == low && (low + 256 * high) / 256 == high
  {
  }

  /** Decoding the bytes of `x` gives `x` back. */
  lemma {:induction false} FromLeBytes(x: nat, n: nat)
    requires x < Pow256(n)
    ensures FromLe(LeBytes(x, n)) == x
    decreases n
  {
    if n > 0 {
      var s := LeBytes(x, n);
      assert s[0] == ByteOf(x % 256) && s[1..] == LeBytes(x / 256, n - 1);
      ValueOfByte(x % 256);
      FromLeBytes(x / 256, n - 1);
      assert FromLe(s) == x % 256 + 256 * (x / 256);
    }
  }

  /** Encoding the number `s` denotes gives `s` back: no two byte strings of
      the same length denote the same number. */
  lemma {:induction false} LeBytesFromLe(s: seq<bv8>)
    ensures LeBytes(FromLe(s), |s|) == s
    decreases |s|
  {
    if |s| > 0 {
      var x, low, rest := FromLe(s), ByteValue(s[0]), FromLe(s[1..]);
      ByteOfValue(s[0]);
      assert x == low + 256 * rest;
      DivMod256(low, rest);
      assert x % 256 == low && x / 256 == rest;
      LeBytesFromLe(s[1..]);
      calc {
        LeBytes(x, |s|);
        [ByteOf(x % 256)] + LeBytes(x / 256, |s| - 1);
        [ByteOf(low)] + LeBytes(rest, |s| - 1);
        [s[0]] + s[1..];
        s;
      }
    }
  }

  function Le32(x: uint32): (s: seq<bv8>)
    ensures |s| == 4
  {
    LeBytes(x as nat, 4)
  }

  /** The inverse of `Le32`: every 4-byte string is the encoding of what it decodes to. */
  function FromLe32(s: seq<bv8>): (x: uint32)
    requires |s| == 4
    ensures Le32(x) == s
  {
    LeBytesFromLe(s);
    FromLe(s) as uint32
  }

  function Le64(x: uint64): (s: seq<bv8>)
    ensures |s| == 8
  {
    LeBytes(x as nat, 8)
  }

  /** The inverse of `Le64`: every 8-byte string is the encoding of what it decodes to. */
  function FromLe64(s: seq<bv8>): (x: uint64)
    requires |s| == 8
    ensures Le64(x) == s
  {
    LeBytesFromLe(s);
    FromLe(s) as uint64
  }

  function Le16(x: bv16): (s: seq<bv8>)
    ensures |s| == 2
  {
    [(x & 0xFF) as bv8, (x >> 8) as bv8]
  }

  /** The inverse of `Le16`: every 2-byte string is the encoding of what it decodes to. */
  function FromLe16(s: seq<bv8>): (x: bv16)
    requires |s| == 2
    ensures Le16(x) == s
  {
    (s[0] as bv16) | ((s[1] as bv16) << 8)
  }

  lemma Le32RoundTrip(x: uint32)
    ensures FromLe32(Le32(x)) == x
  {
    FromLeBytes(x as nat, 4);
  }

  lemma Le64RoundTrip(x: uint64)
    ensures FromLe64(Le64(x)) == x
  {
    FromLeBytes(x as nat, 8);
  }

  lemma Le16RoundTrip(x: bv16)
    ensures FromLe16(Le16(x)) == x
  {
  }
}
