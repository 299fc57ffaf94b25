/** The HOTP value computation of section 5.3 of RFC 4226, as `calculateCode`
    performs it: the counter is laid out as 8 big-endian bytes, keyed-hashed
    with HMAC-SHA1, and the 20-byte digest is reduced to a code below one
    million by dynamic truncation. */
module Hotp {
  import opened Bytes
  import opened Outcomes

  const DigestLength := 20
  const CounterLength := 8
  /** `SECRET_KEY_MODULE`: codes are six decimal digits. */
  const SecretKeyModule := 1000 * 1000

  type Digest = s: seq<byte> | |s| == DigestLength witness seq(20, i => 0)

  /** The keyed hash (HmacSHA1 of the platform's crypto provider): key bytes
      and message to a 20-byte digest, or `None` when the provider throws
      (algorithm missing, key rejected). */
  type Mac = (seq<byte>, seq<byte>) -> Option<Digest>

  /** The 8 bytes the source hands to the MAC for counter `tm`: byte `i` is
      `(tm >>> 8 * (7 - i)) & 0xFF`, the two's-complement pattern big-endian. */
  function CounterBytes(tm: int64): (data: seq<byte>)
    ensures |data| == CounterLength
  {
    BigEndian(Unsigned64(tm), CounterLength)
  }

  /** The loop that fills `data` from the least significant byte up, shifting
      `value` right by 8 bits each round. */
  method EncodeCounter(tm: int64) returns (data: seq<byte>)
    ensures data == CounterBytes(tm)
  {
    var buffer := new byte[CounterLength];
    var value := Unsigned64(tm);
    var i := CounterLength;
    while i > 0
      invariant 0 <= i <= CounterLength
      invariant value == UnsignedShiftRight(tm, 8 * (CounterLength - i))
      invariant forall k :: i <= k < CounterLength ==> buffer[k] == CounterBytes(tm)[k]
    {
      i := i - 1;
      buffer[i] := value % 256;
      Pow2Byte(8 * (CounterLength - 1 - i));
      DivDiv(Unsigned64(tm), Pow2(8 * (CounterLength - 1 - i)), 256);
      value := value / 256;
    }
    data := buffer[..];
  }

  /** The counter bytes read back as a signed big-endian `long` give the
      counter: negative counters are sent as their two's complement. */
  lemma CounterRoundTrip(tm: int64)
    ensures BeValue(CounterBytes(tm)) == Unsigned64(tm)
    ensures Signed64(BeValue(CounterBytes(tm))) == tm
  {
    Pow2Widths();
    assert 8 * CounterLength == 64;
    BeValueOfBigEndian(Unsigned64(tm), CounterLength);
  }

  /** Every 8-byte message is the encoding of exactly one counter. */
  lemma CounterBytesOnto(data: seq<byte>)
    requires |data| == CounterLength
    ensures BeValue(data) < TwoTo64
    ensures CounterBytes(Signed64(BeValue(data))) == data
  {
    Pow2Widths();
    assert 8 * |data| == 64;
    var v := BeValue(data);
    assert v < TwoTo64;
    assert Unsigned64(Signed64(v)) == v;
    BigEndianOfBeValue(data);
  }

  lemma CounterBytesInjective(t1: int64, t2: int64)
    requires CounterBytes(t1) == CounterBytes(t2)
    ensures t1 == t2
  {
    CounterRoundTrip(t1);
    CounterRoundTrip(t2);
  }

  /** `hash[20 - 1] & 0xF`: the low nibble of the last digest byte. */
  function Offset(hash: Digest): (offset: nat)
    ensures offset + 4 < DigestLength
  {
    hash[DigestLength - 1] % 16
  }

  /** The four digest bytes at `Offset` as an unsigned big-endian 32-bit word
      with the top bit cleared (`& 0x7FFFFFFF`). */
  function DynamicTruncation(hash: Digest): (bin: nat)
    ensures bin < 0x8000_0000
  {
    var offset := Offset(hash);
    BeValue(hash[offset..offset + 4]) % 0x8000_0000
  }

  /** The six-digit code of a digest (`truncatedHash %= SECRET_KEY_MODULE`). */
  function Truncate(hash: Digest): (code: nat)
    ensures code < SecretKeyModule
  {
    DynamicTruncation(hash) % SecretKeyModule
  }

  /** Four bytes as an unsigned big-endian 32-bit number. */
  function Word(b0: byte, b1: byte, b2: byte, b3: byte): int
  {
    b0 as int * 0x100_0000 + b1 as int * 0x1_0000 + b2 as int * 0x100 + b3 as int
  }

  /** The word assembled from the four bytes is the formula of section 5.3
      of RFC 4226, and it fits in 32 bits, so the source's `long` never
      overflows and the final `(int)` cast loses nothing. */
  lemma TruncationWord(hash: Digest)
    ensures var o := Offset(hash);
      BeValue(hash[o..o + 4])
        == Word(hash[o], hash[o + 1], hash[o + 2], hash[o + 3])
    ensures var o := Offset(hash); BeValue(hash[o..o + 4]) < 0x1_0000_0000
  {
    var o := Offset(hash);
    var w := hash[o..o + 4];
    assert w[..3][..2][..1][..0] == [];
    var b0: int, b1: int, b2: int, b3: int := hash[o], hash[o + 1], hash[o + 2], hash[o + 3];
    assert BeValue(w[..1]) == b0;
    assert BeValue(w[..2]) == b0 * 0x100 + b1;
    assert w[..3][..2] == w[..2];
    assert BeValue(w[..3]) == (b0 * 0x100 + b1) * 0x100 + b2;
    assert w[..4] == w;
    Pow2Widths();
  }

  /** The loop that assembles the word (`truncatedHash <<= 8;
      truncatedHash |= hash[offset + i] & 0xFF`; with the low byte clear
      after the shift, the `|` is an addition), then masks and reduces it. */
  method TruncateDigest(hash: Digest) returns (code: int32)
    ensures code == Truncate(hash)
    ensures 0 <= code < SecretKeyModule
  {
    var offset := hash[DigestLength - 1] % 16;
    var truncatedHash: nat := 0;
    for i := 0 to 4
      invariant truncatedHash == BeValue(hash[offset..offset + i])
    {
      assert hash[offset..offset + i + 1][..i] == hash[offset..offset + i];
      truncatedHash := truncatedHash * 256 + hash[offset + i];
    }
    truncatedHash := truncatedHash % 0x8000_0000;
    truncatedHash := truncatedHash % SecretKeyModule;
    code := truncatedHash;
  }

  /** The HOTP value of `key` at `counter`, or `None` when the MAC fails. */
  function HotpValue(mac: Mac, key: seq<byte>, counter: int64): (code: Option<int>)
    ensures code.Some? ==> 0 <= code.value < SecretKeyModule
    ensures code.None? <==> mac(key, CounterBytes(counter)).None?
  {
    match mac(key, CounterBytes(counter))
    case None => None
    case Some(hash) => Some(Truncate(hash))
  }

  /** `calculateCode(key, tm)`: a provider failure becomes `None`. */
  method CalculateCode(mac: Mac, key: seq<byte>, tm: int64) returns (code: Option<int>)
    ensures code == HotpValue(mac, key, tm)
    ensures code.Some? ==> 0 <= code.value < SecretKeyModule
  {
    var data := EncodeCounter(tm);
    var hash := mac(key, data);
    if hash.None? {
      return None;
    }
    var truncated := TruncateDigest(hash.value);
    code := Some(truncated);
  }

  /** The truncation of a digest, written with the bytes it reads. */
  lemma TruncateAt(hash: Digest, offset: nat, b0: byte, b1: byte, b2: byte, b3: byte)
    requires hash[DigestLength - 1] % 16 == offset
    requires offset + 4 < DigestLength
    requires hash[offset..offset + 4] == [b0, b1, b2, b3]
    ensures DynamicTruncation(hash) == Word(b0, b1, b2, b3) % 0x8000_0000
  {
    TruncationWord(hash);
  }

  /** The worked example of section 5.4 of RFC 4226. */
  lemma Rfc4226Example()
    ensures var hash: Digest := [0x1f, 0x86, 0x98, 0x69, 0x0e, 0x02, 0xca, 0x16, 0x61, 0x85,
                                 0x50, 0xef, 0x7f, 0x19, 0xda, 0x8e, 0x94, 0x5b, 0x55, 0x5a];
      DynamicTruncation(hash) == 0x50ef7f19 && Truncate(hash) == 872921
  {
    var hash: Digest := [0x1f, 0x86, 0x98, 0x69, 0x0e, 0x02, 0xca, 0x16, 0x61, 0x85,
                         0x50, 0xef, 0x7f, 0x19, 0xda, 0x8e, 0x94, 0x5b, 0x55, 0x5a];
    TruncateAt(hash, 10, 0x50, 0xef, 0x7f, 0x19);
  }

  /** Appendix D of RFC 4226, counter 0 (offset 0, top bit set and cleared). */
  lemma Rfc4226Counter0()
    ensures var hash: Digest := [0xcc, 0x93, 0xcf, 0x18, 0x50, 0x8d, 0x94, 0x93, 0x4c, 0x64,
                                 0xb6, 0x5d, 0x8b, 0xa7, 0x66, 0x7f, 0xb7, 0xcd, 0xe4, 0xb0];
      DynamicTruncation(hash) == 1284755224 && Truncate(hash) == 755224
  {
    var hash: Digest := [0xcc, 0x93, 0xcf, 0x18, 0x50, 0x8d, 0x94, 0x93, 0x4c, 0x64,
                         0xb6, 0x5d, 0x8b, 0xa7, 0x66, 0x7f, 0xb7, 0xcd, 0xe4, 0xb0];
    TruncateAt(hash, 0, 0xcc, 0x93, 0xcf, 0x18);
  }

  /** Appendix D of RFC 4226, counter 1 (offset 11, top bit set and cleared). */
  lemma Rfc4226Counter1()
    ensures var hash: Digest := [0x75, 0xa4, 0x8a, 0x19, 0xd4, 0xcb, 0xe1, 0x00, 0x64, 0x4e,
                                 0x8a, 0xc1, 0x39, 0x7e, 0xea, 0x74, 0x7a, 0x2d, 0x33, 0xab];
      DynamicTruncation(hash) == 1094287082 && Truncate(hash) == 287082
  {
    var hash: Digest := [0x75, 0xa4, 0x8a, 0x19, 0xd4, 0xcb, 0xe1, 0x00, 0x64, 0x4e,
                         0x8a, 0xc1, 0x39, 0x7e, 0xea, 0x74, 0x7a, 0x2d, 0x33, 0xab];
    TruncateAt(hash, 11, 0xc1, 0x39, 0x7e, 0xea);
  }

  /** A digest whose truncated word is 0x800F4240: with the top bit cleared
      that is 1000000, so the HOTP value is 0, a code the computation can
      return. */
  lemma ZeroCodeDigest()
    ensures var hash: Digest := [0x80, 0x0f, 0x42, 0x40, 0x01, 0x02, 0x03, 0x04, 0x05, 0x06,
                                 0x07, 0x08, 0x09, 0x0a, 0x0b, 0x0c, 0x0d, 0x0e, 0x0f, 0x10];
      DynamicTruncation(hash) == 1000000 && Truncate(hash) == 0
  {
    var hash: Digest := [0x80, 0x0f, 0x42, 0x40, 0x01, 0x02, 0x03, 0x04, 0x05, 0x06,
                         0x07, 0x08, 0x09, 0x0a, 0x0b, 0x0c, 0x0d, 0x0e, 0x0f, 0x10];
    TruncateAt(hash, 0, 0x80, 0x0f, 0x42, 0x40);
  }

  /** Counter -1, a step before the epoch, is sent as eight 0xFF bytes. */
  lemma CounterBytesMinusOne()
    ensures CounterBytes(-1) == [0xff, 0xff, 0xff, 0xff, 0xff, 0xff, 0xff, 0xff]
  {
    var ones: seq<byte> := [0xff, 0xff, 0xff, 0xff, 0xff, 0xff, 0xff, 0xff];
    assert BeValue(ones[..1]) == 0xff;
    assert BeValue(ones[..2]) == 0xffff by { assert ones[..2][..1] == ones[..1]; }
    assert BeValue(ones[..3]) == 0xff_ffff by { assert ones[..3][..2] == ones[..2]; }
    assert BeValue(ones[..4]) == 0xffff_ffff by { assert ones[..4][..3] == ones[..3]; }
    assert BeValue(ones[..5]) == 0xff_ffff_ffff by { assert ones[..5][..4] == ones[..4]; }
    assert BeValue(ones[..6]) == 0xffff_ffff_ffff by { assert ones[..6][..5] == ones[..5]; }
    assert BeValue(ones[..7]) == 0xff_ffff_ffff_ffff by { assert ones[..7][..6] == ones[..6]; }
    assert BeValue(ones) == 0xffff_ffff_ffff_ffff by { assert ones[..7] == ones[..|ones| - 1]; }
    CounterBytesOnto(ones);
  }
}
