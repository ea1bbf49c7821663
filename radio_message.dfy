/**
 * The MAVLink "RADIO" status message (id 166) as the radio firmware frames
 * it: the six-byte header, the two version-specific payload layouts, the
 * checksum trailer, and the choice of statistics slots by node identity.
 */
module RadioMessage {
  import opened Wrappers
  import opened Checksum
  import opened ByteOrder

  const MAVLINK_MSG_ID_RADIO: bv8 := 166
  const MAVLINK_RADIO_CRC_EXTRA: bv8 := 21
  /** '3' and 'D': the radio calls itself "3D" (3DRadio). */
  const RADIO_SOURCE_SYSTEM: bv8 := 0x33
  const RADIO_SOURCE_COMPONENT: bv8 := 0x44
  /** Start byte of a MAVLink 1.0 frame. */
  const MAGIC_V10: bv8 := 254
  /** Start byte of a MAVLink 0.9 frame: 'U'. */
  const MAGIC_V09: bv8 := 0x55

  const HEADER_LENGTH: nat := 6
  /** sizeof(struct mavlink_RADIO_v09): five uint8_t and two uint16_t, packed. */
  const PAYLOAD_LENGTH: nat := 9
  /** The length byte of the header: PAYLOAD_LENGTH as a byte. */
  const PAYLOAD_LENGTH_BYTE: bv8 := 9
  /** Header, payload and the two checksum bytes; the same in both versions. */
  const FRAME_LENGTH: nat := PAYLOAD_LENGTH + 8

  /** One slot of the statistics arrays kept per node. */
  datatype LinkStatistics = LinkStatistics(averageRssi: bv8, averageNoise: bv8)

  /** The radio's error counters. */
  datatype ErrorCounts = ErrorCounts(rxErrors: bv16, correctedPackets: bv16)

  /** The fields of the RADIO message, shared by the two layouts. */
  datatype Radio = Radio(
    rssi: bv8, remrssi: bv8, txbuf: bv8, noise: bv8, remnoise: bv8,
    rxerrors: bv16, fixed: bv16)

  // ---------------------------------------------------------------------
  // 16-bit words and bytes
  // ---------------------------------------------------------------------

  /**
   * The unsigned value of a byte, counted up from zero, for a uint8_t used
   * as an index or a length.  It is written by recursion rather than as
   * `b as int` to keep bit-vector-to-integer conversions out of the proofs
   * about the buffer, which they make far more expensive;
   * ByteValueIsNumeric is the bridge to the numeric value.
   */
  function ByteValue(b: bv8): nat
    decreases b
  {
    if b == 0 then 0 else ByteValue(b - 1) + 1
  }

  lemma {:induction false} ByteValueIsNumeric(b: bv8)
    ensures ByteValue(b) == b as int
    decreases b
  {
    if b != 0 {
      ByteValueIsNumeric(b - 1);
    }
  }

  lemma PayloadLengthByte()
    ensures ByteValue(PAYLOAD_LENGTH_BYTE) == PAYLOAD_LENGTH
  {
    ByteValueIsNumeric(PAYLOAD_LENGTH_BYTE);
  }

  function LowByte(v: bv16): bv8
  {
    (v & 0xFF) as bv8
  }

  function HighByte(v: bv16): bv8
  {
    (v >> 8) as bv8
  }

  /** The word whose low byte is `lo` and high byte is `hi`. */
  function Word(lo: bv8, hi: bv8): (v: bv16)
    ensures LowByte(v) == lo && HighByte(v) == hi
  {
    (hi as bv16 << 8) | lo as bv16
  }

  lemma WordOfBytes(v: bv16)
    ensures Word(LowByte(v), HighByte(v)) == v
  {
  }

  /**
   * The bytes a uint16_t store leaves in memory.  The firmware is built by
   * SDCC for the 8051, which stores the low byte first.
   */
  function StoreU16(v: bv16): seq<bv8>
  {
    [LowByte(v), HighByte(v)]
  }

  // ---------------------------------------------------------------------
  // Node identity
  // ---------------------------------------------------------------------

  /** The statistics slot read for rssi, remrssi and remnoise: 1 on node 0, 0 on any other node. */
  function PeerSlot(nodeId: nat): (slot: nat)
    ensures slot != nodeId && slot < 2
  {
    if nodeId == 0 then 1 else 0
  }

  /** The slots the report reads exist in both statistics arrays. */
  predicate SlotsAvailable(nodeId: nat, statistics: seq<LinkStatistics>, remote: seq<LinkStatistics>)
  {
    nodeId < |statistics| && PeerSlot(nodeId) < |statistics| && PeerSlot(nodeId) < |remote|
  }

  /**
   * The field values the report fills in: noise from this node's own slot,
   * rssi, remrssi and remnoise from the peer slot, txbuf from the uint8_t
   * store of the serial read space, the two counters from the error counts.
   */
  function Select(nodeId: nat, statistics: seq<LinkStatistics>, remote: seq<LinkStatistics>,
                  errors: ErrorCounts, txbuf: bv8): Radio
    requires SlotsAvailable(nodeId, statistics, remote)
  {
    var peer := PeerSlot(nodeId);
    Radio(
      rssi := statistics[peer].averageRssi,
      remrssi := remote[peer].averageRssi,
      txbuf := txbuf,
      noise := statistics[nodeId].averageNoise,
      remnoise := remote[peer].averageNoise,
      rxerrors := errors.rxErrors,
      fixed := errors.correctedPackets)
  }

  /**
   * The two ends of a link read opposite slots: on the same arrays, node 0
   * and node 1 report each other's rssi, remrssi and remnoise, while each
   * reads noise from its own slot.
   */
  lemma NodeIdentityInversion(statistics: seq<LinkStatistics>, remote: seq<LinkStatistics>,
                              errors: ErrorCounts, txbuf: bv8)
    requires |statistics| >= 2 && |remote| >= 2
    ensures SlotsAvailable(0, statistics, remote) && SlotsAvailable(1, statistics, remote)
    ensures var m0, m1 := Select(0, statistics, remote, errors, txbuf), Select(1, statistics, remote, errors, txbuf);
      && m0.rssi == statistics[1].averageRssi && m1.rssi == statistics[0].averageRssi
      && m0.remrssi == remote[1].averageRssi && m1.remrssi == remote[0].averageRssi
      && m0.remnoise == remote[1].averageNoise && m1.remnoise == remote[0].averageNoise
      && m0.noise == statistics[0].averageNoise && m1.noise == statistics[1].averageNoise
      && m0.txbuf == m1.txbuf == txbuf
      && m0.rxerrors == m1.rxerrors == errors.rxErrors
      && m0.fixed == m1.fixed == errors.correctedPackets
  {
  }

  // ---------------------------------------------------------------------
  // Payload layouts
  // ---------------------------------------------------------------------

  /**
   * The payload bytes the struct stores leave at pbuf[6..15]: for 1.0,
   * struct mavlink_RADIO_v10 (counters first); for 0.9, struct
   * mavlink_RADIO_v09 (counters last), both in storage order.
   */
  function StoredPayload(v10: bool, m: Radio): seq<bv8>
  {
    if v10 then
      StoreU16(m.rxerrors) + StoreU16(m.fixed) + [m.rssi, m.remrssi, m.txbuf, m.noise, m.remnoise]
    else
      [m.rssi, m.remrssi, m.txbuf, m.noise, m.remnoise] + StoreU16(m.rxerrors) + StoreU16(m.fixed)
  }

  /**
   * The payload on the wire: MAVLink 1.0 sends the counters low byte first,
   * MAVLink 0.9 sends them high byte first.
   */
  function Payload(v10: bool, m: Radio): (p: seq<bv8>)
    ensures |p| == PAYLOAD_LENGTH
  {
    if v10 then
      [LowByte(m.rxerrors), HighByte(m.rxerrors), LowByte(m.fixed), HighByte(m.fixed),
       m.rssi, m.remrssi, m.txbuf, m.noise, m.remnoise]
    else
      [m.rssi, m.remrssi, m.txbuf, m.noise, m.remnoise,
       HighByte(m.rxerrors), LowByte(m.rxerrors), HighByte(m.fixed), LowByte(m.fixed)]
  }

  /** MAVLink 1.0 sends the stored struct unchanged. */
  lemma PayloadV10IsStored(m: Radio)
    ensures Payload(true, m) == StoredPayload(true, m)
  {
  }

  /** MAVLink 0.9 sends the stored struct with the two counters byte-swapped (swap_bytes(5, 4) within the payload). */
  lemma PayloadV09IsSwappedStored(m: Radio)
    ensures 5 + 2 * PairCount(4) <= |StoredPayload(false, m)|
    ensures Payload(false, m) == SwapPairs(StoredPayload(false, m), 5, 4)
  {
  }

  /** The receiver's reading of a payload: the inverse of Payload. */
  function DecodePayload(v10: bool, p: seq<bv8>): (m: Radio)
    requires |p| == PAYLOAD_LENGTH
    ensures Payload(v10, m) == p
  {
    if v10 then
      Radio(rssi := p[4], remrssi := p[5], txbuf := p[6], noise := p[7], remnoise := p[8],
            rxerrors := Word(p[0], p[1]), fixed := Word(p[2], p[3]))
    else
      Radio(rssi := p[0], remrssi := p[1], txbuf := p[2], noise := p[3], remnoise := p[4],
            rxerrors := Word(p[6], p[5]), fixed := Word(p[8], p[7]))
  }

  /** Decoding an encoded payload gives back every field. */
  lemma DecodeEncodePayload(v10: bool, m: Radio)
    ensures DecodePayload(v10, Payload(v10, m)) == m
  {
    WordOfBytes(m.rxerrors);
    WordOfBytes(m.fixed);
  }

  // ---------------------------------------------------------------------
  // The frame
  // ---------------------------------------------------------------------

  function Magic(v10: bool): bv8
  {
    if v10 then MAGIC_V10 else MAGIC_V09
  }

  function Header(v10: bool, seqnum: bv8): seq<bv8>
  {
    [Magic(v10), PAYLOAD_LENGTH_BYTE, seqnum, RADIO_SOURCE_SYSTEM, RADIO_SOURCE_COMPONENT, MAVLINK_MSG_ID_RADIO]
  }

  /** The bytes the checksum trailer follows: header and payload. */
  function Body(v10: bool, seqnum: bv8, m: Radio): (body: seq<bv8>)
    ensures |body| == HEADER_LENGTH + PAYLOAD_LENGTH
  {
    Header(v10, seqnum) + Payload(v10, m)
  }

  /** The seed MAVLink 1.0 appends to the checksummed bytes; none for 0.9. */
  function Seed(v10: bool): seq<bv8>
  {
    if v10 then [MAVLINK_RADIO_CRC_EXTRA] else []
  }

  /** The checksum of a frame body: from the length byte on, the start byte excluded, then the seed. */
  function BodyChecksum(body: seq<bv8>, v10: bool): bv16
    requires |body| >= 1
  {
    Crc(body[1..] + Seed(v10))
  }

  /** The 17-byte frame: header, payload, checksum low byte, checksum high byte. */
  function Frame(v10: bool, seqnum: bv8, m: Radio): (f: seq<bv8>)
    ensures |f| == FRAME_LENGTH
  {
    var body := Body(v10, seqnum, m);
    var sum := BodyChecksum(body, v10);
    body + [LowByte(sum), HighByte(sum)]
  }

  /** The header bytes of a frame. */
  lemma FrameHeader(v10: bool, seqnum: bv8, m: Radio)
    ensures var f := Frame(v10, seqnum, m);
      && f[0] == (if v10 then 254 else 0x55)
      && f[1] == 9
      && f[2] == seqnum
      && f[3] == 0x33 && f[4] == 0x44
      && f[5] == 166
  {
  }

  /** The MAVLink 1.0 payload: counters at 6..9 low byte first, then the five byte fields at 10..14. */
  lemma FramePayloadV10(seqnum: bv8, m: Radio)
    ensures var f := Frame(true, seqnum, m);
      && Word(f[6], f[7]) == m.rxerrors && Word(f[8], f[9]) == m.fixed
      && f[10] == m.rssi && f[11] == m.remrssi && f[12] == m.txbuf
      && f[13] == m.noise && f[14] == m.remnoise
  {
    WordOfBytes(m.rxerrors);
    WordOfBytes(m.fixed);
  }

  /** The MAVLink 0.9 payload: the five byte fields at 6..10, then the counters at 11..14 high byte first. */
  lemma FramePayloadV09(seqnum: bv8, m: Radio)
    ensures var f := Frame(false, seqnum, m);
      && f[6] == m.rssi && f[7] == m.remrssi && f[8] == m.txbuf
      && f[9] == m.noise && f[10] == m.remnoise
      && Word(f[12], f[11]) == m.rxerrors && Word(f[14], f[13]) == m.fixed
  {
    WordOfBytes(m.rxerrors);
    WordOfBytes(m.fixed);
  }

  /**
   * The trailer is the checksum of bytes 1..14 (and of the seed 21 for 1.0),
   * low byte at 15 and high byte at 16; the 1.0 checksum is the 0.9 running
   * sum over the same bytes, accumulated once more with 21.
   */
  lemma FrameChecksum(v10: bool, seqnum: bv8, m: Radio)
    ensures var f := Frame(v10, seqnum, m);
      var sum := Crc(f[1..15] + Seed(v10));
      && Word(f[15], f[16]) == sum
      && (v10 ==> sum == Accumulate(Crc(f[1..15]), MAVLINK_RADIO_CRC_EXTRA))
  {
    var f := Frame(v10, seqnum, m);
    var body := Body(v10, seqnum, m);
    assert f[1..15] == body[1..];
    WordOfBytes(BodyChecksum(body, v10));
    SeedLaw(f[1..15], MAVLINK_RADIO_CRC_EXTRA);
    if !v10 {
      assert f[1..15] + Seed(v10) == f[1..15];
    }
  }

  /**
   * What a ground station does with a frame: check the start byte, the
   * length, the message id and the checksum, then read the sequence number
   * and the payload.
   */
  function ParseFrame(v10: bool, f: seq<bv8>): Option<(bv8, Radio)>
  {
    if |f| == FRAME_LENGTH && f[0] == Magic(v10) && f[1] == PAYLOAD_LENGTH_BYTE
       && f[3] == RADIO_SOURCE_SYSTEM && f[4] == RADIO_SOURCE_COMPONENT && f[5] == MAVLINK_MSG_ID_RADIO
       && Word(f[15], f[16]) == BodyChecksum(f[..15], v10)
    then Some((f[2], DecodePayload(v10, f[6..15])))
    else None
  }

  /** Every frame the radio builds is accepted and read back as the values that went in. */
  lemma ParseFrameOfFrame(v10: bool, seqnum: bv8, m: Radio)
    ensures ParseFrame(v10, Frame(v10, seqnum, m)) == Some((seqnum, m))
  {
    var f := Frame(v10, seqnum, m);
    var body := Body(v10, seqnum, m);
    assert f[..15] == body;
    assert f[6..15] == Payload(v10, m);
    WordOfBytes(BodyChecksum(body, v10));
    DecodeEncodePayload(v10, m);
  }

  /** Every frame a ground station accepts is the frame of what it reads out of it. */
  lemma FrameOfParseFrame(v10: bool, f: seq<bv8>)
    requires ParseFrame(v10, f).Some?
    ensures f == Frame(v10, ParseFrame(v10, f).value.0, ParseFrame(v10, f).value.1)
  {
    var (s, m) := ParseFrame(v10, f).value;
    var body := Body(v10, s, m);
    assert Payload(v10, m) == f[6..15];
    assert body == f[..15];
    var sum := BodyChecksum(body, v10);
    assert LowByte(sum) == f[15] && HighByte(sum) == f[16];
    assert f == f[..15] + [f[15], f[16]];
  }

  /**
   * A known vector for MAVLink 1.0: sequence number 255, rssi 150, remrssi 88,
   * txbuf 64, noise 10, remnoise 7, rxerrors 0x0103 and fixed 0x0201.
   */
  lemma FrameVectorV10()
    ensures Frame(true, 255, Radio(150, 88, 64, 10, 7, 0x0103, 0x0201))
         == [254, 9, 255, 51, 68, 166, 3, 1, 1, 2, 150, 88, 64, 10, 7, 179, 85]
  {
    var body := Body(true, 255, Radio(150, 88, 64, 10, 7, 0x0103, 0x0201));
    BodyVectorV10();
    ChecksumVectorV10();
    assert body[1..] + Seed(true) == [9, 255, 51, 68, 166, 3, 1] + [1, 2, 150, 88, 64, 10, 7, 21];
  }

  lemma BodyVectorV10()
    ensures Body(true, 255, Radio(150, 88, 64, 10, 7, 0x0103, 0x0201)) == [254, 9, 255, 51, 68, 166, 3, 1, 1, 2, 150, 88, 64, 10, 7]
  {
  }

  /** The checksum of the vector, computed in two runs of the loop joined by FoldAppend. */
  lemma ChecksumVectorV10()
    ensures Crc([9, 255, 51, 68, 166, 3, 1] + [1, 2, 150, 88, 64, 10, 7, 21]) == 0x55B3
  {
    FoldAppend(CRC_INIT, [9, 255, 51, 68, 166, 3, 1], [1, 2, 150, 88, 64, 10, 7, 21]);
    assert Fold(CRC_INIT, [9, 255, 51, 68, 166, 3, 1]) == 0x8035;
    assert Fold(0x8035, [1, 2, 150, 88, 64, 10, 7, 21]) == 0x55B3;
  }

  /** The same values framed for MAVLink 0.9: no seed, and the counters go out high byte first. */
  lemma FrameVectorV09()
    ensures Frame(false, 255, Radio(150, 88, 64, 10, 7, 0x0103, 0x0201))
         == [85, 9, 255, 51, 68, 166, 150, 88, 64, 10, 7, 1, 3, 2, 1, 168, 247]
  {
    var body := Body(false, 255, Radio(150, 88, 64, 10, 7, 0x0103, 0x0201));
    BodyVectorV09();
    ChecksumVectorV09();
    assert body[1..] + Seed(false) == [9, 255, 51, 68, 166, 150, 88] + [64, 10, 7, 1, 3, 2, 1];
  }

  lemma BodyVectorV09()
    ensures Body(false, 255, Radio(150, 88, 64, 10, 7, 0x0103, 0x0201)) == [85, 9, 255, 51, 68, 166, 150, 88, 64, 10, 7, 1, 3, 2, 1]
  {
  }

  /** The checksum of the vector, computed in two runs of the loop joined by FoldAppend. */
  lemma ChecksumVectorV09()
    ensures Crc([9, 255, 51, 68, 166, 150, 88] + [64, 10, 7, 1, 3, 2, 1]) == 0xF7A8
  {
    FoldAppend(CRC_INIT, [9, 255, 51, 68, 166, 150, 88], [64, 10, 7, 1, 3, 2, 1]);
    assert Fold(CRC_INIT, [9, 255, 51, 68, 166, 150, 88]) == 0x2894;
    assert Fold(0x2894, [64, 10, 7, 1, 3, 2, 1]) == 0xF7A8;
  }
}
