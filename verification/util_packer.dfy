/** The variable-length packer: a slice of u32 to big-endian bytes, and four
    bytes back to a u32 with a length check. */
module UtilPacker {
  import opened Integers
  import BoltPacker

  /** The outcome of an unpack; the error carries no information beyond the
      fact that the input was not exactly four bytes long. */
  datatype Result<T> = Ok(value: T) | Err

  /** The bytes `pack_u32_to_u8` is to produce: each word of the payload as
      four big-endian bytes, in payload order. */
  function Packed(payload: seq<u32>): (r: seq<u8>)
    ensures |r| == 4 * |payload|
  {
    if payload == [] then [] else BoltPacker.U32ToU8Be(payload[0]) + Packed(payload[1..])
  }

  /** Packing a concatenation packs the parts one after the other. */
  lemma {:induction false} PackedAppend(p: seq<u32>, q: seq<u32>)
    ensures Packed(p + q) == Packed(p) + Packed(q)
  {
    if p == [] {
      assert p + q == q;
    } else {
      assert (p + q)[1..] == p[1..] + q;
      PackedAppend(p[1..], q);
    }
  }

  /** Block `idx` of the packed bytes is the big-endian encoding of word `idx`. */
  lemma {:induction false} PackedBlock(p: seq<u32>, idx: nat)
    requires idx < |p|
    ensures Packed(p)[4 * idx..4 * idx + 4] == BoltPacker.U32ToU8Be(p[idx])
  {
    assert p == p[..idx] + [p[idx]] + p[idx + 1..];
    PackedAppend(p[..idx] + [p[idx]], p[idx + 1..]);
    PackedAppend(p[..idx], [p[idx]]);
    assert Packed([p[idx]]) == BoltPacker.U32ToU8Be(p[idx]) + Packed([]);
  }

  /** `pack_u32_to_u8`: fills a zeroed vector of 4 * |payload| bytes, writing
      block `idx` in the iteration for `idx`. */
  method PackU32ToU8(payload: seq<u32>) returns (packed: seq<u8>)
    ensures |packed| == 4 * |payload|
    ensures packed == Packed(payload)
    ensures forall idx :: 0 <= idx < |payload| ==>
      packed[4 * idx..4 * idx + 4] == BoltPacker.U32ToU8Be(payload[idx])
  {
    var payloadLen := |payload|;
    var a := new u8[payloadLen * 4](_ => 0);
    for idx := 0 to payloadLen
      invariant a[..4 * idx] == Packed(payload[..idx])
    {
      a[0 + 4 * idx] := ShiftMask(payload[idx], 24);
      a[1 + 4 * idx] := ShiftMask(payload[idx], 16);
      a[2 + 4 * idx] := ShiftMask(payload[idx], 8);
      a[3 + 4 * idx] := ShiftMask(payload[idx], 0);
      assert a[..4 * idx + 4] == a[..4 * idx] + BoltPacker.U32ToU8Be(payload[idx]);
      assert payload[..idx + 1] == payload[..idx] + [payload[idx]];
      PackedAppend(payload[..idx], [payload[idx]]);
      assert Packed([payload[idx]]) == BoltPacker.U32ToU8Be(payload[idx]) + Packed([]);
    }
    packed := a[..];
    assert a[..4 * payloadLen] == packed;
    assert payload[..payloadLen] == payload;
    forall idx | 0 <= idx < |payload|
      ensures packed[4 * idx..4 * idx + 4] == BoltPacker.U32ToU8Be(payload[idx])
    {
      PackedBlock(payload, idx);
    }
  }

  /** `unpack_u8_to_u32`: an error unless there are exactly four bytes, then
      their big-endian value. The sum is formed in u32, so each partial sum is
      proved to stay below 2^32. */
  function UnpackU8ToU32(packed: seq<u8>): (r: Result<u32>)
    ensures r.Err? <==> |packed| != 4
    ensures r.Ok? ==> r.value as nat == BigEndianValue(packed)
  {
    if |packed| != 4 then
      Err
    else
      BigEndianValue4(packed);
      Ok((packed[0] as u32) * 0x100_0000 +
         (packed[1] as u32) * 0x1_0000 +
         (packed[2] as u32) * 0x100 +
         (packed[3] as u32))
  }

  /** Unpacking any block of packed bytes gives back the word it came from. */
  lemma {:induction false} UnpackPackedBlock(p: seq<u32>, idx: nat)
    requires idx < |p|
    ensures UnpackU8ToU32(Packed(p)[4 * idx..4 * idx + 4]) == Ok(p[idx])
  {
    PackedBlock(p, idx);
  }

  /** Four bytes that unpack to `v` are exactly the packing of `[v]`. */
  lemma {:induction false} PackUnpacked(s: seq<u8>)
    requires UnpackU8ToU32(s).Ok?
    ensures Packed([UnpackU8ToU32(s).value]) == s
  {
    var v := UnpackU8ToU32(s).value;
    assert Packed([v]) == BoltPacker.U32ToU8Be(v) + Packed([]);
    BigEndianInjective(BoltPacker.U32ToU8Be(v), s);
  }

  /** Packing loses nothing: different payloads pack to different bytes. */
  lemma {:induction false} PackedInjective(p: seq<u32>, q: seq<u32>)
    requires Packed(p) == Packed(q)
    ensures p == q
  {
    forall idx | 0 <= idx < |p|
      ensures p[idx] == q[idx]
    {
      UnpackPackedBlock(p, idx);
      UnpackPackedBlock(q, idx);
    }
  }

  /** On four bytes the two packers decode alike. */
  lemma UnpackAgreesWithBolt(s: seq<u8>)
    requires |s| == 4
    ensures UnpackU8ToU32(s) == Ok(BoltPacker.U8ToU32Be(s))
  {
  }

  /** Packing the preamble followed by four versions, as the connector does,
      gives the same 20 bytes as `pack_handshake`. */
  lemma {:induction false} PackedHandshake(preamble: u32, protocols: seq<u32>)
    requires |protocols| == 4
    ensures Packed([preamble] + protocols) == BoltPacker.HandshakeLayout(preamble, protocols)
  {
    var w := [preamble] + protocols;
    var t1, t2, t3 := protocols[1..], protocols[2..], protocols[3..];
    assert w[1..] == protocols;
    assert protocols[1..] == t1 && t1[1..] == t2 && t2[1..] == t3 && t3[1..] == [];
    assert Packed(t3) == BoltPacker.U32ToU8Be(protocols[3]) + Packed([]);
    assert Packed(t2) == BoltPacker.U32ToU8Be(protocols[2]) + Packed(t3);
    assert Packed(t1) == BoltPacker.U32ToU8Be(protocols[1]) + Packed(t2);
    assert Packed(protocols) == BoltPacker.U32ToU8Be(protocols[0]) + Packed(t1);
    assert Packed(w) == BoltPacker.U32ToU8Be(preamble) + Packed(protocols);
  }

  lemma PackVector()
    ensures Packed([0x0000_0001, 0x0000_0002]) == [0x00, 0x00, 0x00, 0x01, 0x00, 0x00, 0x00, 0x02]
  {
  }

  lemma UnpackVectors()
    ensures UnpackU8ToU32([0x01, 0x02, 0x03, 0x04]) == Ok(0x0102_0304)
    ensures UnpackU8ToU32([0x01, 0x02, 0x03]) == Err
    ensures UnpackU8ToU32([0x01, 0x02, 0x03, 0x04, 0x05]) == Err
  {
  }
}
