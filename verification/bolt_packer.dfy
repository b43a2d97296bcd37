/** The fixed-size big-endian codec of the Bolt connection handshake:
    a u32 to four bytes and back, and the 20-byte handshake buffer made of a
    preamble and four candidate protocol versions. */
module BoltPacker {
  import opened Integers

  /** The preamble that opens every Bolt handshake. */
  const BOLT_PREAMBLE: u32 := 0x6060_B017

  /** `u32_to_u8_be`: the four bytes of `value`, most significant first. */
  function U32ToU8Be(value: u32): (r: seq<u8>)
    ensures |r| == 4
    ensures BigEndianValue(r) == value as nat
  {
    var bytes := [ShiftMask(value, 24), ShiftMask(value, 16), ShiftMask(value, 8), ShiftMask(value, 0)];
    ShiftMaskDigits(value);
    BigEndianValue4(bytes);
    bytes
  }

  /** `u8_to_u32_be`: the u32 whose big-endian bytes are `bytes`. The sum is
      formed in u32, so each partial sum is proved to stay below 2^32. */
  function U8ToU32Be(bytes: seq<u8>): (r: u32)
    requires |bytes| == 4
    ensures r as nat == BigEndianValue(bytes)
  {
    BigEndianValue4(bytes);
    (bytes[0] as u32) * 0x100_0000 +
    (bytes[1] as u32) * 0x1_0000 +
    (bytes[2] as u32) * 0x100 +
    (bytes[3] as u32)
  }

  /** Decoding the encoding of a u32 gives it back. */
  lemma RoundTrip(x: u32)
    ensures U8ToU32Be(U32ToU8Be(x)) == x
  {
  }

  /** Encoding the decoding of four bytes gives them back. */
  lemma {:induction false} ReverseRoundTrip(bytes: seq<u8>)
    requires |bytes| == 4
    ensures U32ToU8Be(U8ToU32Be(bytes)) == bytes
  {
    BigEndianInjective(U32ToU8Be(U8ToU32Be(bytes)), bytes);
  }

  /** The handshake buffer `pack_handshake` is to produce: the preamble, then
      the four candidate versions in order, each as four big-endian bytes. */
  function HandshakeLayout(preamble: u32, protocols: seq<u32>): (r: seq<u8>)
    requires |protocols| == 4
    ensures |r| == 20
  {
    U32ToU8Be(preamble) + U32ToU8Be(protocols[0]) + U32ToU8Be(protocols[1])
    + U32ToU8Be(protocols[2]) + U32ToU8Be(protocols[3])
  }

  /** `pack_handshake`: fills a zeroed 20-byte buffer, writing byte `idx` of
      each of the five words in the iteration for `idx`. */
  method PackHandshake(preamble: u32, protocols: seq<u32>) returns (buffer: seq<u8>)
    requires |protocols| == 4
    ensures buffer == HandshakeLayout(preamble, protocols)
  {
    var a := new u8[20](_ => 0);
    var preambleBytes := U32ToU8Be(preamble);
    var version0 := U32ToU8Be(protocols[0]);
    var version1 := U32ToU8Be(protocols[1]);
    var version2 := U32ToU8Be(protocols[2]);
    var version3 := U32ToU8Be(protocols[3]);
    for idx := 0 to 4
      invariant forall j :: 0 <= j < idx ==>
        a[j] == preambleBytes[j] && a[4 + j] == version0[j] && a[8 + j] == version1[j]
        && a[12 + j] == version2[j] && a[16 + j] == version3[j]
    {
      a[0 + idx] := preambleBytes[idx];
      a[4 + idx] := version0[idx];
      a[8 + idx] := version1[idx];
      a[12 + idx] := version2[idx];
      a[16 + idx] := version3[idx];
    }
    buffer := a[..];
    Slots(buffer, preambleBytes, version0, version1, version2, version3);
    assert buffer == preambleBytes + version0 + version1 + version2 + version3;
  }

  /** A 20-byte buffer whose five 4-byte slots hold w0 .. w4 is their concatenation. */
  lemma Slots(buffer: seq<u8>, w0: seq<u8>, w1: seq<u8>, w2: seq<u8>, w3: seq<u8>, w4: seq<u8>)
    requires |buffer| == 20 && |w0| == |w1| == |w2| == |w3| == |w4| == 4
    requires forall j :: 0 <= j < 4 ==>
      buffer[j] == w0[j] && buffer[4 + j] == w1[j] && buffer[8 + j] == w2[j]
      && buffer[12 + j] == w3[j] && buffer[16 + j] == w4[j]
    ensures buffer == w0 + w1 + w2 + w3 + w4
  {
    assert buffer[0..4] == w0;
    assert buffer[4..8] == w1;
    assert buffer[8..12] == w2;
    assert buffer[12..16] == w3;
    assert buffer[16..20] == w4;
    assert buffer == buffer[0..4] + buffer[4..8] + buffer[8..12] + buffer[12..16] + buffer[16..20];
  }

  /** Every slot of the handshake decodes to the word laid out there: the
      preamble at offset 0 and candidate k at offset 4 + 4k. */
  lemma {:induction false} HandshakeSlots(preamble: u32, protocols: seq<u32>)
    requires |protocols| == 4
    ensures HandshakeLayout(preamble, protocols)[0..4] == U32ToU8Be(preamble)
    ensures U8ToU32Be(HandshakeLayout(preamble, protocols)[0..4]) == preamble
    ensures forall k :: 0 <= k < 4 ==>
      HandshakeLayout(preamble, protocols)[4 + 4 * k..8 + 4 * k] == U32ToU8Be(protocols[k])
      && U8ToU32Be(HandshakeLayout(preamble, protocols)[4 + 4 * k..8 + 4 * k]) == protocols[k]
  {
    var h := HandshakeLayout(preamble, protocols);
    assert h[0..4] == U32ToU8Be(preamble);
    RoundTrip(preamble);
    forall k | 0 <= k < 4
      ensures h[4 + 4 * k..8 + 4 * k] == U32ToU8Be(protocols[k])
      ensures U8ToU32Be(h[4 + 4 * k..8 + 4 * k]) == protocols[k]
    {
      assert h[4 + 4 * k..8 + 4 * k] == U32ToU8Be(protocols[k]);
      RoundTrip(protocols[k]);
    }
  }

  /** The handshake the driver sends: Bolt preamble, version 1, three unused slots. */
  lemma HandshakeVector()
    ensures HandshakeLayout(BOLT_PREAMBLE, [1, 0, 0, 0])
         == [0x60, 0x60, 0xb0, 0x17, 0, 0, 0, 1, 0, 0, 0, 0, 0, 0, 0, 0, 0, 0, 0, 0]
  {
  }

  lemma DecodeVector()
    ensures U8ToU32Be([0x01, 0x02, 0x03, 0x04]) == 0x0102_0304
  {
  }

  lemma EncodeVector()
    ensures U32ToU8Be(0x0102_0304) == [0x01, 0x02, 0x03, 0x04]
  {
  }
}
