# MAVLink RADIO status report, verified model

This is a Dafny model of the status reporter in the SiK radio firmware
(`Firmware/radio/mavlink.c`). The reporter builds one MAVLink "RADIO"
message (id 166) in the shared packet buffer `pbuf`. It can use either of
two protocol generations, MAVLink 0.9 (start byte `'U'`) or MAVLink 1.0
(start byte 254). It then hands the 17-byte frame to the serial port if
the port has room.

The model has four modules:

- `Checksum` covers the MAVLink X.25 checksum (CRC-16/MCRF4XX: reflected
  polynomial 0x1021, initial value 0xFFFF, no final XOR).
  - `Accumulate` is the firmware's byte step and `Fold`/`Crc` is the running sum.
  - It also has an independent bit-serial reference CRC, a proof that the two
    agree on every input, and the catalogue check value.
- `ByteOrder` covers the effect of `swap_bytes`.
  - `SwapPairs` is the pairwise exchange, stated index by index.
  - `SwapFrom` is the loop one pass at a time; the two are proved equal.
- `RadioMessage` covers the message itself:
  - the constants;
  - the two packed struct layouts;
  - the node-identity slot choice;
  - the header;
  - the wire payload;
  - the checksum trailer (`Frame`);
  - the reading of a frame by a ground station (`ParseFrame`), proved to be
    the inverse of `Frame`.
- `Mavlink` covers the imperative core: a class `Reporter` holding `pbuf`
  (an `array<bv8>`) and `seqnum`.
  - `MavlinkCrc`, `SwapBytes` and `Report` compute in place, as the C
    functions do.
  - Each is proved against a function on the buffer contents:
    `AppendChecksum`, `SwapPairs` and `ReportBuffer`.
  - `ReportBufferFrame` proves that the buffer after a report starts with
    `Frame` and is unchanged from byte 17 on.

Types follow the C types:
- `uint8_t` is `bv8` and `uint16_t` is `bv16`, so `seqnum++` wraps from 255 to 0.
- The checksum step truncates `tmp` to 8 bits and `sum` to 16 bits, as the C
  stores do.
- A `uint16_t` store through the struct pointers writes the low byte first,
  because SDCC on the 8051 is little-endian. So MAVLink 1.0 counters go out
  low byte first. For 0.9, `swap_bytes(6+5, 4)` makes them go out high byte
  first.

The payload length is `sizeof(struct mavlink_RADIO_v09)`. That struct has
five `uint8_t` and two `uint16_t` fields with no padding, so the length is 9
and the frame is 9 + 8 = 17 bytes:
- the checksum is at bytes 15 and 16;
- for 1.0, the seed 21 is planted at byte 15 and then overwritten.

`sizeof(struct mavlink_RADIO_v09)` is 9 under SDCC, so the frame and the
write gate at `mavlink.c:174` are both 17 bytes.

## Model

| member | source | states |
|---|---|---|
| Checksum.FoldAppend | Firmware/radio/mavlink.c:69-76 | the running sum over a concatenation is the running sum over the second part, started from the sum over the first |
| Checksum.SeedLaw | Firmware/radio/mavlink.c:63-67 | the 1.0 checksum over bytes followed by the seed equals the 0.9 running sum over those bytes, accumulated once more with the seed |
| Checksum.AccumulateIsReferenceStep | Firmware/radio/mavlink.c:71-74 | the firmware's table-free byte step (tmp truncated to 8 bits, sum to 16) equals eight steps of the bit-serial reflected CRC with polynomial 0x8408 |
| Checksum.FoldIsReferenceFold | Firmware/radio/mavlink.c:69-76 | the firmware's checksum loop equals the bit-serial CRC on every byte sequence |
| Checksum.CheckValue | Firmware/radio/mavlink.c:58-76 | from 0xFFFF, the checksum of ASCII "123456789" is 0x6F91, the CRC-16/MCRF4XX check value |
| ByteOrder.SwapPairsExchanges | Firmware/radio/mavlink.c:117-125 | every visited pair trades places: position ofs+2k gets the byte from ofs+2k+1, and the reverse |
| ByteOrder.SwapPairsFrame | Firmware/radio/mavlink.c:117-125 | bytes outside the visited pairs keep their values; for even len that is everything outside [ofs, ofs+len) |
| ByteOrder.SwapPairsInvolution | Firmware/radio/mavlink.c:117-125 | swapping twice restores the buffer |
| ByteOrder.SwapPairsLocal | Firmware/radio/mavlink.c:117-125 | the swap neither reads nor changes bytes around the span |
| ByteOrder.SwapFromIsSwapPairs | Firmware/radio/mavlink.c:120-124 | the loop's pass-by-pass exchange, from ofs while i < ofs+len in steps of 2, computes the pairwise swap |
| RadioMessage.ByteValueIsNumeric | Firmware/radio/mavlink.c:57 | the value of the length byte used as an index is the byte's unsigned value |
| RadioMessage.Word | Firmware/radio/mavlink.c:104-109 | the uint16_t formed from two bytes has the first as its low byte and the second as its high byte |
| RadioMessage.WordOfBytes | Firmware/radio/mavlink.c:104-109 | splitting a uint16_t into low and high byte and joining them gives it back |
| RadioMessage.PeerSlot | Firmware/radio/mavlink.c:143-151 | the slot read for rssi, remrssi and remnoise is never the node's own identity and is always 0 or 1 |
| RadioMessage.NodeIdentityInversion | Firmware/radio/mavlink.c:142-153 | for any statistics, node 0 reads slot 1 and node 1 reads slot 0 for rssi, remrssi and remnoise; each reads noise from its own slot; txbuf and the counters are the same for both |
| RadioMessage.PayloadV10IsStored | Firmware/radio/mavlink.c:107-115 | the 1.0 wire payload is the stored v10 struct as is, with no byte swap |
| RadioMessage.PayloadV09IsSwappedStored | Firmware/radio/mavlink.c:98-106 | the 0.9 wire payload is the stored struct with the two counters byte-swapped by swap_bytes(5, 4) within the payload |
| RadioMessage.DecodePayload | Firmware/radio/mavlink.c:98-115 | decoding any 9-byte payload and encoding the result gives the same bytes |
| RadioMessage.DecodeEncodePayload | Firmware/radio/mavlink.c:98-115 | decoding an encoded payload gives back all seven fields |
| RadioMessage.FrameHeader | Firmware/radio/mavlink.c:131-136 | byte 0 is 254 for 1.0 and 0x55 for 0.9; byte 1 is 9; byte 2 is the sequence number; bytes 3, 4, 5 are '3', 'D' and 166 |
| RadioMessage.FramePayloadV10 | Firmware/radio/mavlink.c:138-153 | for 1.0, rxerrors is at 6..7 and fixed at 8..9, low byte first; rssi, remrssi, txbuf, noise, remnoise are at 10..14 |
| RadioMessage.FramePayloadV09 | Firmware/radio/mavlink.c:155-171 | for 0.9, rssi, remrssi, txbuf, noise, remnoise are at 6..10; rxerrors is at 11..12 and fixed at 13..14, high byte first |
| RadioMessage.FrameChecksum | Firmware/radio/mavlink.c:61-79 | bytes 15 and 16 hold the checksum of bytes 1..14, plus the seed 21 for 1.0, low byte first; the 1.0 checksum is the 0.9 one accumulated once more with 21 |
| RadioMessage.ParseFrameOfFrame | Firmware/radio/mavlink.c:128-179 | a receiver accepts every frame the radio builds and reads back its sequence number and every field |
| RadioMessage.FrameOfParseFrame | Firmware/radio/mavlink.c:128-179 | every byte string a receiver accepts is exactly the frame of what it reads out |
| RadioMessage.FrameVectorV10 | Firmware/radio/mavlink.c:128-172 | for 1.0, sequence number 255, rssi 150, remrssi 88, txbuf 64, noise 10, remnoise 7, rxerrors 0x0103 and fixed 0x0201, the frame is exactly the bytes 254 9 255 51 68 166 3 1 1 2 150 88 64 10 7 179 85 |
| RadioMessage.FrameVectorV09 | Firmware/radio/mavlink.c:128-172 | for 0.9 and the same values, the frame is exactly the bytes 85 9 255 51 68 166 150 88 64 10 7 1 3 2 1 168 247 |
| RadioMessage.ChecksumVectorV10 | Firmware/radio/mavlink.c:61-76 | the seeded checksum of the 1.0 vector's bytes 1..14 is 0x55B3 |
| RadioMessage.ChecksumVectorV09 | Firmware/radio/mavlink.c:61-76 | the checksum of the 0.9 vector's bytes 1..14 is 0xF7A8 |
| Mavlink.AppendChecksumBytes | Firmware/radio/mavlink.c:61-79 | after mavlink_crc, bytes length+6 and length+7 hold the checksum of pbuf[1..length+6] (then 21 for 1.0), low byte first, and no other byte changes |
| Mavlink.AppendChecksumCoverage | Firmware/radio/mavlink.c:69-76 | the checksum never depends on the start byte pbuf[0] or on anything from length+6 on; only pbuf[1..length+6] is covered |
| Mavlink.SeededCoverage | Firmware/radio/mavlink.c:61-67 | once the seed is planted, the loop range 1..stoplen-1 is exactly the covered bytes: 1..length+5 for 0.9, and the same plus the seed at length+6 for 1.0 |
| Mavlink.SeedOverwritten | Firmware/radio/mavlink.c:63-79 | the checksum stores overwrite the planted seed, leaving the buffer as AppendChecksum describes |
| Mavlink.AppendChecksumOfBody | Firmware/radio/mavlink.c:61-79 | run on a buffer that starts with a frame body, mavlink_crc completes the 17-byte frame and leaves bytes 17 on untouched |
| Mavlink.NextSeqnumWraps | Firmware/radio/mavlink.c:133 | seqnum++ on a uint8_t gives (old + 1) mod 256; 255 wraps to 0 |
| Mavlink.HeaderStoresPlaceHeader | Firmware/radio/mavlink.c:131-136 | the six header stores put the header at pbuf[0..6] and touch nothing else |
| Mavlink.V10StoresPlacePayload | Firmware/radio/mavlink.c:138-153 | the 1.0 field stores lay the v10 struct in storage order over pbuf[6..15] and touch nothing else |
| Mavlink.V09StoresPlacePayload | Firmware/radio/mavlink.c:155-169 | the 0.9 field stores lay the v09 struct in storage order over pbuf[6..15] and touch nothing else |
| Mavlink.SwappedBodyV09 | Firmware/radio/mavlink.c:155-170 | for 0.9, swap_bytes(6+5, 4) over the header and stored struct gives the frame body, and bytes from 17 on are unchanged |
| Mavlink.Built | Firmware/radio/mavlink.c:131-170 | the buffer handed to mavlink_crc has the same length and carries the length byte 9 at index 1 |
| Mavlink.BuiltIsBody | Firmware/radio/mavlink.c:131-170 | the buffer handed to mavlink_crc starts with the 15-byte body in both versions and keeps bytes 17 on |
| Mavlink.ReportBufferFrame | Firmware/radio/mavlink.c:128-172 | after a report, pbuf[0..17] is the RADIO frame and every later byte is as before |
| Mavlink.Reporter.constructor | Firmware/radio/mavlink.c:40-41 | start-up state: a zeroed buffer of the given capacity (17 to 255 bytes) and sequence number 0 |
| Mavlink.Reporter.RunningSum | Firmware/radio/mavlink.c:69-76 | the accumulate loop returns the checksum of pbuf[1..stoplen] and changes nothing |
| Mavlink.Reporter.MavlinkCrc | Firmware/radio/mavlink.c:55-80 | the buffer after mavlink_crc is AppendChecksum of the buffer before |
| Mavlink.Reporter.SwapBytes | Firmware/radio/mavlink.c:117-125 | the buffer after swap_bytes(ofs, len) is SwapPairs of the buffer before |
| Mavlink.Reporter.WriteHeader | Firmware/radio/mavlink.c:131-136 | the header stores are made in source order, and seqnum is post-incremented once |
| Mavlink.Reporter.FillV10 | Firmware/radio/mavlink.c:138-153 | the 1.0 field stores, with rssi, remrssi and remnoise taken from the peer slot and noise from the node's own slot |
| Mavlink.Reporter.FillV09 | Firmware/radio/mavlink.c:155-169 | the 0.9 field stores, with the same slot choice |
| Mavlink.Reporter.Report | Firmware/radio/mavlink.c:128-180 | pbuf[0..17] is the frame of the old seqnum and the selected fields; seqnum advances once whether or not the frame is sent; the frame is written exactly when write space is at least 17; bytes from 17 on are unchanged |

## Left out

- Serial transport: `serial_read_space`, `serial_write_space` and `serial_write_buf` are I/O in files that are not part of this model.
  - The two space readings are parameters of `Report`.
  - `serial_read_space` is taken to return a 16-bit count; only its low byte reaches the `uint8_t` field `txbuf`.
  - The write is the returned `Option` holding the 17 bytes sent.
- radio.h and packet.h are not part of this model. So `statistics`, `remote_statistics`, `errors`, `nodeId` and `using_mavlink_10` are parameters.
  - The statistics arrays are sequences whose length the caller must cover for the slots the report reads (`SlotsAvailable`).
- `MAX_PACKET_LENGTH` is not part of this model. The buffer length is bounded instead by `Reporter.Valid`:
  - at least 17, so that a frame fits;
  - at most 255, so that every index fits the firmware's `uint8_t` index variables.
- `MavlinkCrc` requires the length byte plus 8 to fit the buffer. The C code does not check this; a larger length byte would make it write outside `pbuf`.
- Other users of the shared `pbuf`, the timer scheduling that calls `MAVLink_report`, and the 8051 memory qualifiers (`__xdata`, `__pdata`, `register`) have no behaviour to model.
- The struct-pointer stores are not modelled in C terms. They are modelled as the byte stores they compile to, in the order the fields are assigned.
  - Each `uint16_t` store is two byte stores, low byte first.
  - `FillV10` and `FillV09` are the two branches of `if (using_mavlink_10)`.
  - `RunningSum` is the `while` loop of `mavlink_crc`.
- `ParseFrame` and `DecodePayload` are not in the firmware. They are a ground station's view of the frame and of its payload, included to prove that the frame carries every field without loss.
