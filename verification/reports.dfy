/** The report builders of `Keyboard` (main.cpp:127-285 and the request of
    main.cpp:295-302), each a pure function from its arguments to the 65 bytes
    handed to `hid_write`, together with readers that take the fields back out. */
module Reports {
  import opened Protocol

  /** Selector and size bytes of an identifier-table packet (main.cpp:215-216). */
  const IdentifierSelector: Byte := 0x40
  const IdentifiersPerPacket: nat := 0x1E

  /** The byte written after every identifier of an identifier-table packet (main.cpp:226). */
  const IdentifierFlag: Byte := 0xC0

  /** The payload of a stream packet starts at this byte. */
  const StreamDataOffset: nat := 5

  /** The largest chunk a stream packet holds: the payload runs to the last byte. */
  const MaxStreamChunk: nat := 60

  /** `send_special_function_control`: switch the device to software control. */
  function SpecialFunctionControl(): (r: seq<Byte>)
    ensures Framed(r, CommandWrite)
    ensures r[2] == PropertySpecialFunction && r[3] == LightingControlSoftware
    ensures ZeroFrom(r, 4)
  {
    Blank()[0 := 0][1 := CommandWrite][2 := PropertySpecialFunction][3 := LightingControlSoftware]
  }

  /** `send_lighting_control`: software lighting mode, control byte 3 (keyboards and
      headset stands). */
  function LightingControl(): (r: seq<Byte>)
    ensures Framed(r, CommandWrite)
    ensures r[2] == PropertyLightingControl && r[3] == LightingControlSoftware
    ensures r[4] == 0 && r[5] == 0x03
    ensures ZeroFrom(r, 6)
  {
    Blank()[0 := 0][1 := CommandWrite][2 := PropertyLightingControl][3 := LightingControlSoftware][5 := 0x03]
  }

  /** The first report of `send_k70_lighting_control` (main.cpp:183-198). */
  function K70LightingControl(): (r: seq<Byte>)
    ensures Framed(r, CommandWrite)
    ensures r[2] == PropertyLightingControl && r[3] == 0x08
    ensures r[4] == 0 && r[5] == 0x01
    ensures ZeroFrom(r, 6)
  {
    Blank()[0 := 0][1 := CommandWrite][2 := PropertyLightingControl][3 := 0x08][5 := 0x01]
  }

  /** Write identifier `v` and its flag into pair `k` of an identifier-table packet
      (main.cpp:225-226), leaving every other byte alone. */
  function PutIdentifier(r: seq<Byte>, k: nat, v: Byte): (u: seq<Byte>)
    requires 6 + 2 * k < |r|
    ensures |u| == |r| && u[5 + 2 * k] == v && u[6 + 2 * k] == IdentifierFlag
    ensures forall i | 0 <= i < |r| && i != 5 + 2 * k && i != 6 + 2 * k :: u[i] == r[i]
  {
    r[5 + 2 * k := v][6 + 2 * k := IdentifierFlag]
  }

  /** An identifier-table packet (main.cpp:208-227) holding the first `|ids|` pairs
      written so far; the walk fills all 30 of them. */
  function IdentifierPacket(ids: seq<Byte>): (r: seq<Byte>)
    requires |ids| <= IdentifiersPerPacket
    ensures Framed(r, CommandWrite)
    ensures r[2] == IdentifierSelector && r[3] == IdentifiersPerPacket && r[4] == 0
    ensures forall m | 0 <= m < |ids| :: r[5 + 2 * m] == ids[m] && r[6 + 2 * m] == IdentifierFlag
    ensures ZeroFrom(r, 5 + 2 * |ids|)
  {
    if |ids| == 0 then
      Blank()[0 := 0][1 := CommandWrite][2 := IdentifierSelector][3 := IdentifiersPerPacket]
    else
      var m := |ids| - 1;
      PutIdentifier(IdentifierPacket(ids[..m]), m, ids[m])
  }

  /** Writing identifier `v` and its flag into the next free pair of a packet is
      the same as building the packet with one more identifier. */
  lemma IdentifierPacketAppend(row: seq<Byte>, v: Byte)
    requires |row| < IdentifiersPerPacket
    ensures IdentifierPacket(row + [v]) == PutIdentifier(IdentifierPacket(row), |row|, v)
  {
    assert (row + [v])[..|row|] == row;
  }

  /** The 30 identifiers an identifier-table packet carries, read from offsets 5 + 2j. */
  function PacketIdentifiers(r: seq<Byte>): (ids: seq<Byte>)
    requires |r| == PacketLength
    ensures |ids| == IdentifiersPerPacket
    ensures forall m | 0 <= m < |ids| :: ids[m] == r[5 + 2 * m]
  {
    seq(IdentifiersPerPacket, m requires 0 <= m < IdentifiersPerPacket => r[5 + 2 * m])
  }

  /** Reading a full identifier-table packet gives back the identifiers written into it. */
  lemma IdentifierPacketRoundTrip(ids: seq<Byte>)
    requires |ids| == IdentifiersPerPacket
    ensures PacketIdentifiers(IdentifierPacket(ids)) == ids
    ensures IdentifierPacket(ids)[PacketLength - 1] == IdentifierFlag
  {
    var r := IdentifierPacket(ids);
    assert r[5 + 2 * 29] == ids[29] && r[6 + 2 * 29] == IdentifierFlag;
  }

  /** `send_stream_packet(packet_id, |data|, data)`: `memcpy` of the chunk to byte 5. */
  function StreamPacket(packetId: Byte, data: seq<Byte>): (r: seq<Byte>)
    requires |data| <= MaxStreamChunk
    ensures Framed(r, CommandStream)
    ensures r[2] == packetId && r[3] == |data| && r[4] == 0
    ensures r[StreamDataOffset..StreamDataOffset + |data|] == data
    ensures ZeroFrom(r, StreamDataOffset + |data|)
  {
    var header := Blank()[0 := 0][1 := CommandStream][2 := packetId][3 := |data|];
    header[..StreamDataOffset] + data + header[StreamDataOffset + |data|..]
  }

  /** The chunk a stream packet carries, as far as its size byte says. */
  function StreamPayload(r: seq<Byte>): (data: seq<Byte>)
    requires |r| == PacketLength && r[3] <= MaxStreamChunk
    ensures |data| == r[3]
    ensures forall i | 0 <= i < |data| :: data[i] == r[StreamDataOffset + i]
  {
    r[StreamDataOffset..StreamDataOffset + r[3]]
  }

  /** A stream packet's packet id and size are read back from bytes 2 and 3 and its
      chunk is recovered exactly; a full 60-byte chunk ends in the last report byte. */
  lemma StreamPacketRoundTrip(packetId: Byte, data: seq<Byte>)
    requires |data| <= MaxStreamChunk
    ensures StreamPacket(packetId, data)[2] == packetId
    ensures StreamPayload(StreamPacket(packetId, data)) == data
    ensures |data| == MaxStreamChunk ==>
      StreamPacket(packetId, data)[PacketLength - 1] == data[MaxStreamChunk - 1]
  {
    var r := StreamPacket(packetId, data);
    if |data| == MaxStreamChunk {
      assert r[StreamDataOffset..StreamDataOffset + |data|][MaxStreamChunk - 1] == data[MaxStreamChunk - 1];
    }
  }

  /** `send_rgb_channel`: commit the streamed packets of one colour channel. */
  function RgbChannel(channel: Byte, packetCount: Byte, finish: Byte): (r: seq<Byte>)
    ensures Framed(r, CommandWrite)
    ensures r[2] == PropertySubmitKeyboardColor24
    ensures r[3] == channel && r[4] == packetCount && r[5] == finish
    ensures ZeroFrom(r, 6)
  {
    Blank()[0 := 0][1 := CommandWrite][2 := PropertySubmitKeyboardColor24][3 := channel][4 := packetCount][5 := finish]
  }

  /** The READ request of `read_firmware_info` (main.cpp:295-302 and 316-323). */
  function FirmwareInfoRequest(): (r: seq<Byte>)
    ensures Framed(r, CommandRead)
    ensures r[2] == PropertyFirmwareInfo
    ensures ZeroFrom(r, 3)
  {
    Blank()[0 := 0][1 := CommandRead][2 := PropertyFirmwareInfo]
  }

  /** The three configuration reports are, byte for byte, the wire images
      [00 07 04 02 00..], [00 07 05 02 00 03 00..] and [00 07 05 08 00 01 00..],
      and a submit report is [00 07 28 c n f 00..]. */
  lemma FixedReportsOnWire(channel: Byte, packetCount: Byte, finish: Byte)
    ensures SpecialFunctionControl() == [0x00, 0x07, 0x04, 0x02] + Zeros(61)
    ensures LightingControl() == [0x00, 0x07, 0x05, 0x02, 0x00, 0x03] + Zeros(59)
    ensures K70LightingControl() == [0x00, 0x07, 0x05, 0x08, 0x00, 0x01] + Zeros(59)
    ensures RgbChannel(channel, packetCount, finish) == [0x00, 0x07, 0x28, channel, packetCount, finish] + Zeros(59)
    ensures FirmwareInfoRequest() == [0x00, 0x0E, 0x01] + Zeros(62)
  {
    SameBytes(SpecialFunctionControl(), [0x00, 0x07, 0x04, 0x02] + Zeros(61));
    SameBytes(LightingControl(), [0x00, 0x07, 0x05, 0x02, 0x00, 0x03] + Zeros(59));
    SameBytes(K70LightingControl(), [0x00, 0x07, 0x05, 0x08, 0x00, 0x01] + Zeros(59));
    SameBytes(RgbChannel(channel, packetCount, finish), [0x00, 0x07, 0x28, channel, packetCount, finish] + Zeros(59));
    SameBytes(FirmwareInfoRequest(), [0x00, 0x0E, 0x01] + Zeros(62));
  }

  lemma SameBytes(a: seq<Byte>, b: seq<Byte>)
    requires |a| == |b|
    requires forall i | 0 <= i < |a| :: a[i] == b[i]
    ensures a == b
  {
  }
}
