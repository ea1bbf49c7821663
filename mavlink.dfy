/**
 * The report generator: the shared packet buffer `pbuf`, the sequence
 * counter, and the three routines that build a RADIO frame in place and
 * hand it to the serial port when it has room.
 */
module Mavlink {
  import opened Wrappers
  import opened Checksum
  import opened ByteOrder
  import opened RadioMessage

  /** The bytes mavlink_crc folds into the checksum of a buffer whose length byte is s[1]. */
  function CoveredBytes(s: seq<bv8>, v10: bool): seq<bv8>
    requires 2 <= |s| && ByteValue(s[1]) + 8 <= |s|
  {
    s[1..ByteValue(s[1]) + 6] + Seed(v10)
  }

  /**
   * The buffer `s` after mavlink_crc: the checksum of the covered bytes is
   * stored low byte first at s[1]+6 and high byte at s[1]+7 (over the seed,
   * for 1.0), and every other byte is as before.
   */
  function AppendChecksum(s: seq<bv8>, v10: bool): (r: seq<bv8>)
    requires 2 <= |s| && ByteValue(s[1]) + 8 <= |s|
    ensures |r| == |s|
  {
    var length := ByteValue(s[1]);
    var sum := Crc(CoveredBytes(s, v10));
    s[length + 6 := LowByte(sum)][length + 7 := HighByte(sum)]
  }

  /**
   * mavlink_crc's output: the checksum of pbuf[1..length+6] (then the seed
   * 21, for 1.0) low byte at length+6 and high byte at length+7; no other
   * index changes.
   */
  lemma AppendChecksumBytes(s: seq<bv8>, v10: bool)
    requires 2 <= |s| && ByteValue(s[1]) + 8 <= |s|
    ensures var length := ByteValue(s[1]);
      var sum := Crc(s[1..length + 6] + (if v10 then [MAVLINK_RADIO_CRC_EXTRA] else []));
      var r := AppendChecksum(s, v10);
      && Word(r[length + 6], r[length + 7]) == sum
      && forall j :: 0 <= j < |s| && j != length + 6 && j != length + 7 ==> r[j] == s[j]
  {
    var length := ByteValue(s[1]);
    WordOfBytes(Crc(CoveredBytes(s, v10)));
  }

  /**
   * The checksum never depends on the start byte, nor on what the buffer
   * held at and after s[1]+6 (for 1.0 the seed is planted there first).
   */
  lemma AppendChecksumCoverage(s: seq<bv8>, t: seq<bv8>, v10: bool)
    requires 2 <= |s| && ByteValue(s[1]) + 8 <= |s|
    requires |t| == |s| && t[1..ByteValue(s[1]) + 6] == s[1..ByteValue(s[1]) + 6]
    ensures t[1] == s[1]
    ensures var length := ByteValue(s[1]);
      AppendChecksum(t, v10)[length + 6..length + 8] == AppendChecksum(s, v10)[length + 6..length + 8]
  {
    assert t[1] == t[1..ByteValue(s[1]) + 6][0];
  }

  /** Applied to a buffer that starts with a frame body, mavlink_crc completes the frame. */
  lemma AppendChecksumOfBody(s: seq<bv8>, v10: bool, seqnum: bv8, m: Radio)
    requires |s| >= FRAME_LENGTH
    requires s[..HEADER_LENGTH + PAYLOAD_LENGTH] == Body(v10, seqnum, m)
    ensures ByteValue(s[1]) + 8 <= |s|
    ensures AppendChecksum(s, v10)[..FRAME_LENGTH] == Frame(v10, seqnum, m)
    ensures AppendChecksum(s, v10)[FRAME_LENGTH..] == s[FRAME_LENGTH..]
  {
    var body := Body(v10, seqnum, m);
    assert s[1] == body[1] == PAYLOAD_LENGTH_BYTE;
    PayloadLengthByte();
    assert CoveredBytes(s, v10) == body[1..] + Seed(v10);
  }

  /** After planting the seed, mavlink_crc's loop range is exactly the covered bytes. */
  lemma SeededCoverage(s: seq<bv8>, seeded: seq<bv8>, v10: bool)
    requires 2 <= |s| && ByteValue(s[1]) + 8 <= |s|
    requires seeded == if v10 then s[ByteValue(s[1]) + 6 := MAVLINK_RADIO_CRC_EXTRA] else s
    ensures ByteValue(s[1]) + 6 + |Seed(v10)| <= |seeded|
    ensures seeded[1..ByteValue(s[1]) + 6 + |Seed(v10)|] == CoveredBytes(s, v10)
  {
  }

  /** Writing the two checksum bytes over the seeded buffer leaves no trace of the seed. */
  lemma SeedOverwritten(s: seq<bv8>, seeded: seq<bv8>, v10: bool)
    requires 2 <= |s| && ByteValue(s[1]) + 8 <= |s|
    requires seeded == if v10 then s[ByteValue(s[1]) + 6 := MAVLINK_RADIO_CRC_EXTRA] else s
    ensures var length := ByteValue(s[1]);
      var sum := Crc(CoveredBytes(s, v10));
      seeded[length + 6 := LowByte(sum)][length + 7 := HighByte(sum)] == AppendChecksum(s, v10)
  {
  }

  // ---------------------------------------------------------------------
  // MAVLink_report as a function on the buffer
  // ---------------------------------------------------------------------

  /** The sequence number after `seqnum++` on a uint8_t. */
  function NextSeqnum(seqnum: bv8): bv8
  {
    seqnum + 1
  }

  /** The sequence number counts up by one and wraps from 255 to 0. */
  lemma NextSeqnumWraps(seqnum: bv8)
    ensures NextSeqnum(seqnum) as int == (seqnum as int + 1) % 256
    ensures seqnum == 255 ==> NextSeqnum(seqnum) == 0
  {
  }

  /** The buffer after the six header stores, in the order MAVLink_report makes them. */
  function HeaderStores(s: seq<bv8>, v10: bool, seqnum: bv8): (r: seq<bv8>)
    requires |s| >= FRAME_LENGTH
    ensures |r| == |s|
  {
    s[0 := Magic(v10)][1 := PAYLOAD_LENGTH_BYTE][2 := seqnum]
     [3 := RADIO_SOURCE_SYSTEM][4 := RADIO_SOURCE_COMPONENT][5 := MAVLINK_MSG_ID_RADIO]
  }

  /**
   * The buffer after the struct mavlink_RADIO_v10 field stores at pbuf[6],
   * in source order; each uint16_t store leaves its low byte first.
   */
  function V10Stores(s: seq<bv8>, m: Radio): (r: seq<bv8>)
    requires |s| >= FRAME_LENGTH
    ensures |r| == |s|
  {
    s[6 := LowByte(m.rxerrors)][7 := HighByte(m.rxerrors)]
     [8 := LowByte(m.fixed)][9 := HighByte(m.fixed)]
     [12 := m.txbuf][13 := m.noise]
     [10 := m.rssi][11 := m.remrssi][14 := m.remnoise]
  }

  /** The buffer after the struct mavlink_RADIO_v09 field stores at pbuf[6], in source order. */
  function V09Stores(s: seq<bv8>, m: Radio): (r: seq<bv8>)
    requires |s| >= FRAME_LENGTH
    ensures |r| == |s|
  {
    s[11 := LowByte(m.rxerrors)][12 := HighByte(m.rxerrors)]
     [13 := LowByte(m.fixed)][14 := HighByte(m.fixed)]
     [8 := m.txbuf][9 := m.noise]
     [6 := m.rssi][7 := m.remrssi][10 := m.remnoise]
  }

  /** The buffer MAVLink_report hands to mavlink_crc: header, field stores, and for 0.9 the byte swap. */
  function Built(s: seq<bv8>, v10: bool, seqnum: bv8, m: Radio): (r: seq<bv8>)
    requires |s| >= FRAME_LENGTH
    ensures |r| == |s| && r[1] == PAYLOAD_LENGTH_BYTE
  {
    var headed := HeaderStores(s, v10, seqnum);
    if v10 then V10Stores(headed, m) else SwapPairs(V09Stores(headed, m), 6 + 5, 4)
  }

  /** The buffer after MAVLink_report: Built, then mavlink_crc. */
  function ReportBuffer(s: seq<bv8>, v10: bool, seqnum: bv8, m: Radio): (r: seq<bv8>)
    requires |s| >= FRAME_LENGTH
    ensures |r| == |s|
  {
    PayloadLengthByte();
    AppendChecksum(Built(s, v10, seqnum, m), v10)
  }

  /** The header stores put Header(v10, seqnum) at pbuf[0..6] and nothing else. */
  lemma HeaderStoresPlaceHeader(s: seq<bv8>, v10: bool, seqnum: bv8)
    requires |s| >= FRAME_LENGTH
    ensures HeaderStores(s, v10, seqnum)[..HEADER_LENGTH] == Header(v10, seqnum)
    ensures HeaderStores(s, v10, seqnum)[HEADER_LENGTH..] == s[HEADER_LENGTH..]
  {
  }

  /** The 1.0 field stores lay StoredPayload(true, m) over pbuf[6..15] and touch nothing else. */
  lemma V10StoresPlacePayload(s: seq<bv8>, m: Radio)
    requires |s| >= FRAME_LENGTH
    ensures V10Stores(s, m)[..HEADER_LENGTH] == s[..HEADER_LENGTH]
    ensures V10Stores(s, m)[HEADER_LENGTH..HEADER_LENGTH + PAYLOAD_LENGTH] == StoredPayload(true, m)
    ensures V10Stores(s, m)[HEADER_LENGTH + PAYLOAD_LENGTH..] == s[HEADER_LENGTH + PAYLOAD_LENGTH..]
  {
  }

  /** The 0.9 field stores lay StoredPayload(false, m) over pbuf[6..15] and touch nothing else. */
  lemma V09StoresPlacePayload(s: seq<bv8>, m: Radio)
    requires |s| >= FRAME_LENGTH
    ensures V09Stores(s, m)[..HEADER_LENGTH] == s[..HEADER_LENGTH]
    ensures V09Stores(s, m)[HEADER_LENGTH..HEADER_LENGTH + PAYLOAD_LENGTH] == StoredPayload(false, m)
    ensures V09Stores(s, m)[HEADER_LENGTH + PAYLOAD_LENGTH..] == s[HEADER_LENGTH + PAYLOAD_LENGTH..]
  {
  }

  /** For 0.9, swap_bytes(6+5, 4) over the header and stored payload gives the frame body. */
  lemma SwappedBodyV09(stored: seq<bv8>, seqnum: bv8, m: Radio)
    requires |stored| >= FRAME_LENGTH
    requires stored[..HEADER_LENGTH] == Header(false, seqnum)
    requires stored[HEADER_LENGTH..HEADER_LENGTH + PAYLOAD_LENGTH] == StoredPayload(false, m)
    ensures SwapPairs(stored, 11, 4)[..HEADER_LENGTH + PAYLOAD_LENGTH] == Body(false, seqnum, m)
    ensures SwapPairs(stored, 11, 4)[FRAME_LENGTH..] == stored[FRAME_LENGTH..]
  {
    var header, payload, rest := stored[..HEADER_LENGTH],
      stored[HEADER_LENGTH..HEADER_LENGTH + PAYLOAD_LENGTH], stored[HEADER_LENGTH + PAYLOAD_LENGTH..];
    assert stored == header + payload + rest;
    SwapPairsLocal(header, payload, rest, 5, 4);
    PayloadV09IsSwappedStored(m);
    assert SwapPairs(stored, 11, 4) == Body(false, seqnum, m) + rest;
  }

  /** The buffer handed to mavlink_crc starts with the frame body and keeps every byte from 17 on. */
  lemma BuiltIsBody(s: seq<bv8>, v10: bool, seqnum: bv8, m: Radio)
    requires |s| >= FRAME_LENGTH
    ensures Built(s, v10, seqnum, m)[..HEADER_LENGTH + PAYLOAD_LENGTH] == Body(v10, seqnum, m)
    ensures Built(s, v10, seqnum, m)[FRAME_LENGTH..] == s[FRAME_LENGTH..]
  {
    var headed := HeaderStores(s, v10, seqnum);
    HeaderStoresPlaceHeader(s, v10, seqnum);
    if v10 {
      var stored := V10Stores(headed, m);
      V10StoresPlacePayload(headed, m);
      PayloadV10IsStored(m);
      assert stored[..HEADER_LENGTH + PAYLOAD_LENGTH]
          == stored[..HEADER_LENGTH] + stored[HEADER_LENGTH..HEADER_LENGTH + PAYLOAD_LENGTH];
    } else {
      var stored := V09Stores(headed, m);
      V09StoresPlacePayload(headed, m);
      SwappedBodyV09(stored, seqnum, m);
    }
  }

  /**
   * MAVLink_report leaves the 17-byte RADIO frame at pbuf[0..17] and every
   * later byte of the buffer as it was.
   */
  lemma ReportBufferFrame(s: seq<bv8>, v10: bool, seqnum: bv8, m: Radio)
    requires |s| >= FRAME_LENGTH
    ensures ReportBuffer(s, v10, seqnum, m)[..FRAME_LENGTH] == Frame(v10, seqnum, m)
    ensures ReportBuffer(s, v10, seqnum, m)[FRAME_LENGTH..] == s[FRAME_LENGTH..]
  {
    var built := Built(s, v10, seqnum, m);
    BuiltIsBody(s, v10, seqnum, m);
    AppendChecksumOfBody(built, v10, seqnum, m);
  }

  class Reporter {
    /** The shared packet buffer (MAX_PACKET_LENGTH bytes). */
    var pbuf: array<bv8>
    /** The sequence number of the next report. */
    var seqnum: bv8

    /** A frame fits, and every index fits the firmware's uint8_t index variables. */
    ghost predicate Valid()
      reads this
    {
      FRAME_LENGTH <= pbuf.Length <= 255
    }

    /** The process-wide state at start-up: a zeroed buffer and sequence number 0. */
    constructor (capacity: nat)
      requires FRAME_LENGTH <= capacity <= 255
      ensures Valid() && fresh(pbuf) && pbuf.Length == capacity
      ensures seqnum == 0 && forall j :: 0 <= j < capacity ==> pbuf[j] == 0
    {
      pbuf := new bv8[capacity](_ => 0);
      seqnum := 0;
    }

    /** The accumulate loop of mavlink_crc: the running sum over pbuf[1..stoplen]. */
    method RunningSum(stoplen: nat) returns (sum: bv16)
      requires 1 <= stoplen <= pbuf.Length
      ensures sum == Crc(pbuf[1..stoplen])
    {
      sum := CRC_INIT;
      ghost var covered := pbuf[1..stoplen];
      var i := 1;
      while i < stoplen
        invariant 1 <= i <= stoplen
        invariant sum == Fold(CRC_INIT, covered[..i - 1])
      {
        assert covered[..i] == covered[..i - 1] + [covered[i - 1]];
        FoldSnoc(CRC_INIT, covered[..i - 1], pbuf[i]);
        sum := Accumulate(sum, pbuf[i]);
        i := i + 1;
      }
      assert covered[..i - 1] == covered;
    }

    /**
     * mavlink_crc: checksum the bytes from the length byte to the end of
     * the payload (and the seed, for 1.0) and store the sum after the
     * payload, low byte first.
     */
    method MavlinkCrc(usingMavlink10: bool)
      requires Valid()
      requires ByteValue(pbuf[1]) + 8 <= pbuf.Length
      modifies pbuf
      ensures pbuf[..] == AppendChecksum(old(pbuf[..]), usingMavlink10)
    {
      ghost var initial := pbuf[..];
      var length := ByteValue(pbuf[1]);
      var stoplen := length + 6;
      if usingMavlink10 {
        pbuf[length + 6] := MAVLINK_RADIO_CRC_EXTRA;
        stoplen := stoplen + 1;
      }
      ghost var seeded := pbuf[..];
      SeededCoverage(initial, seeded, usingMavlink10);
      var sum := RunningSum(stoplen);
      pbuf[length + 6] := LowByte(sum);
      pbuf[length + 7] := HighByte(sum);
      SeedOverwritten(initial, seeded, usingMavlink10);
    }

    /** swap_bytes: exchange adjacent bytes pairwise from pbuf[ofs] while below ofs+len. */
    method SwapBytes(ofs: nat, len: nat)
      requires Valid()
      requires ofs + 2 * PairCount(len) <= pbuf.Length
      modifies pbuf
      ensures pbuf[..] == SwapPairs(old(pbuf[..]), ofs, len)
    {
      ghost var target := SwapFrom(pbuf[..], ofs, ofs + len);
      var i := ofs;
      while i < ofs + len
        invariant ofs <= i <= pbuf.Length
        invariant i < ofs + len ==> i + 2 * PairCount(ofs + len - i) <= pbuf.Length
        invariant SwapFrom(pbuf[..], i, ofs + len) == target
        decreases ofs + len - i
      {
        ghost var before := pbuf[..];
        var tmp := pbuf[i];
        pbuf[i] := pbuf[i + 1];
        pbuf[i + 1] := tmp;
        assert pbuf[..] == before[i := before[i + 1]][i + 1 := before[i]];
        i := i + 2;
      }
      SwapFromIsSwapPairs(old(pbuf[..]), ofs, len);
    }

    /** The six header stores of MAVLink_report; `seqnum++` post-increments the sequence number. */
    method WriteHeader(usingMavlink10: bool)
      requires Valid()
      modifies this`seqnum, pbuf
      ensures seqnum == NextSeqnum(old(seqnum))
      ensures pbuf[..] == HeaderStores(old(pbuf[..]), usingMavlink10, old(seqnum))
    {
      pbuf[0] := if usingMavlink10 then MAGIC_V10 else MAGIC_V09;
      pbuf[1] := PAYLOAD_LENGTH_BYTE;
      pbuf[2] := seqnum;
      seqnum := NextSeqnum(seqnum);
      pbuf[3] := RADIO_SOURCE_SYSTEM;
      pbuf[4] := RADIO_SOURCE_COMPONENT;
      pbuf[5] := MAVLINK_MSG_ID_RADIO;
    }

    /**
     * The 1.0 branch of MAVLink_report: the field stores through a
     * struct mavlink_RADIO_v10 pointer at pbuf[6], the peer's slot chosen
     * by node identity.
     */
    method FillV10(nodeId: nat, statistics: seq<LinkStatistics>, remoteStatistics: seq<LinkStatistics>,
                   errors: ErrorCounts, txbuf: bv8)
      requires Valid()
      requires SlotsAvailable(nodeId, statistics, remoteStatistics)
      modifies pbuf
      ensures pbuf[..] == V10Stores(old(pbuf[..]), Select(nodeId, statistics, remoteStatistics, errors, txbuf))
    {
      pbuf[6] := LowByte(errors.rxErrors);
      pbuf[7] := HighByte(errors.rxErrors);
      pbuf[8] := LowByte(errors.correctedPackets);
      pbuf[9] := HighByte(errors.correctedPackets);
      pbuf[12] := txbuf;
      pbuf[13] := statistics[nodeId].averageNoise;
      if nodeId == 0 {
        pbuf[10] := statistics[1].averageRssi;
        pbuf[11] := remoteStatistics[1].averageRssi;
        pbuf[14] := remoteStatistics[1].averageNoise;
      } else {
        pbuf[10] := statistics[0].averageRssi;
        pbuf[11] := remoteStatistics[0].averageRssi;
        pbuf[14] := remoteStatistics[0].averageNoise;
      }
    }

    /**
     * The 0.9 branch of MAVLink_report up to the byte swap: the field
     * stores through a struct mavlink_RADIO_v09 pointer at pbuf[6].
     */
    method FillV09(nodeId: nat, statistics: seq<LinkStatistics>, remoteStatistics: seq<LinkStatistics>,
                   errors: ErrorCounts, txbuf: bv8)
      requires Valid()
      requires SlotsAvailable(nodeId, statistics, remoteStatistics)
      modifies pbuf
      ensures pbuf[..] == V09Stores(old(pbuf[..]), Select(nodeId, statistics, remoteStatistics, errors, txbuf))
    {
      pbuf[11] := LowByte(errors.rxErrors);
      pbuf[12] := HighByte(errors.rxErrors);
      pbuf[13] := LowByte(errors.correctedPackets);
      pbuf[14] := HighByte(errors.correctedPackets);
      pbuf[8] := txbuf;
      pbuf[9] := statistics[nodeId].averageNoise;
      if nodeId == 0 {
        pbuf[6] := statistics[1].averageRssi;
        pbuf[7] := remoteStatistics[1].averageRssi;
        pbuf[10] := remoteStatistics[1].averageNoise;
      } else {
        pbuf[6] := statistics[0].averageRssi;
        pbuf[7] := remoteStatistics[0].averageRssi;
        pbuf[10] := remoteStatistics[0].averageNoise;
      }
    }

    /**
     * MAVLink_report: build the RADIO frame in pbuf[0..17] and return it as
     * the bytes written when the serial port has room for all 17; the
     * sequence number advances whether or not the frame is written.
     */
    method Report(usingMavlink10: bool, nodeId: nat,
                  statistics: seq<LinkStatistics>, remoteStatistics: seq<LinkStatistics>,
                  errors: ErrorCounts, readSpace: bv16, writeSpace: nat)
      returns (written: Option<seq<bv8>>)
      requires Valid()
      requires SlotsAvailable(nodeId, statistics, remoteStatistics)
      modifies this, pbuf
      ensures Valid() && pbuf == old(pbuf)
      ensures seqnum == NextSeqnum(old(seqnum))
      ensures var m := Select(nodeId, statistics, remoteStatistics, errors, LowByte(readSpace));
        && pbuf[..FRAME_LENGTH] == Frame(usingMavlink10, old(seqnum), m)
        && written == (if writeSpace < FRAME_LENGTH then None else Some(Frame(usingMavlink10, old(seqnum), m)))
      ensures pbuf[FRAME_LENGTH..] == old(pbuf[FRAME_LENGTH..])
    {
      ghost var initial := pbuf[..];
      ghost var first := seqnum;
      WriteHeader(usingMavlink10);
      // txbuf is a uint8_t field: the store keeps the low byte of the 16-bit read space
      var txbuf := LowByte(readSpace);
      ghost var m := Select(nodeId, statistics, remoteStatistics, errors, txbuf);
      if usingMavlink10 {
        FillV10(nodeId, statistics, remoteStatistics, errors, txbuf);
      } else {
        FillV09(nodeId, statistics, remoteStatistics, errors, txbuf);
        SwapBytes(6 + 5, 4);
      }
      assert pbuf[..] == Built(initial, usingMavlink10, first, m);
      PayloadLengthByte();
      MavlinkCrc(usingMavlink10);
      assert pbuf[..] == ReportBuffer(initial, usingMavlink10, first, m);
      ReportBufferFrame(initial, usingMavlink10, first, m);

      if writeSpace < FRAME_LENGTH {
        // the port cannot take a whole frame: drop this report
        return None;
      }
      written := Some(pbuf[..FRAME_LENGTH]);
    }
  }
}
