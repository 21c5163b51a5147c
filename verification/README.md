# ck70 lighting encoder, modelled in Dafny

`ck70` is a small command-line tool. It sets every key of a Corsair K70 RGB MK.2 SE keyboard to one colour, using the Corsair peripheral HID protocol. Everything it sends is a 65-byte report: a zero report id, a command byte (WRITE 0x07, READ 0x0E, STREAM 0x7F), a property or packet-id byte, and a payload. This project models the encoder side of `main.cpp` as pure functions and small methods over `seq<Byte>`, and proves what those reports contain.

- `Protocol` (protocol.dfy): the protocol constants, the `Byte` type and the zeroed 65-byte report.
- `Tables` (tables.dfy): the compiled-in `keys_k70_mk2` slot-to-identifier table and the `key_mapping_k95_plat_ansi` skip list. It also proves the facts the encoder relies on: no identifier is used twice, every identifier lies inside the streamed 144 bytes, and the skip list is sorted.
- `Reports` (reports.dfy): one function per report builder (`send_special_function_control`, `send_lighting_control`, `send_k70_lighting_control`, `send_stream_packet`, `send_rgb_channel`, the firmware-info request). The identifier packet and the stream packet each have a reader that takes their fields back out. The fixed reports are also stated as their literal wire images.
- `Identifiers` (identifiers.dfy): the identifier walk of `send_k70_lighting_control`, written as the nested loops of the source. It covers the single pass over the skip list, the byte truncation of `identifier++` and the counter that carries over from packet to packet. It is proved equal to a reference definition: the 120 values of [0, 132) that are not skipped, in ascending order.
- `Colors` (colors.dfy): `send_rgb`, for any key table. Where two slots share an identifier, the later slot's colour is kept, as in the scatter loop. The round trip needs distinct identifiers below 144. It covers the scatter loop, the three 60/60/24-byte stream packets per channel and the commit report with finish value 1, 1, 2. The round trip is proved: the colours are recovered from the twelve reports. The K70 RGB MK.2 table is one instance.
- `Session` (session.dfy): the `Keyboard` object. It has a handle that may be null and a trace of the reports written. It also models `attach` and the attach loop of `main`, followed by painting all 116 slots one colour. `hid_open` is a parameter whose results are given in advance.
- `Firmware` (firmware.dfy): the decode part of `read_firmware_info` as a pure function of the reply buffer and the response offset. The offset is 1 exactly when the timed read returned nothing and the feature-report fallback was used. The model also has an encoder for replies, and the round trip between the two is proved.

## Model

| member | source | states |
|---|---|---|
| Tables.KeysDistinct | main.cpp:38-43 | no two logical slots of keys_k70_mk2 share a lighting identifier |
| Tables.KeysInStreamedRange | main.cpp:38-43 | the table has 116 entries and every identifier lies in [0, 144), so inside the part of each 168-byte buffer that is streamed |
| Tables.SkipListAscending | main.cpp:45 | the K95 Platinum skip list is strictly ascending and below 0x82 |
| Tables.KeysK70Mk2IsKeyTable | main.cpp:38-43 | keys_k70_mk2 meets everything `send_rgb` needs of a key table |
| Reports.SpecialFunctionControl | main.cpp:127-147 | the report is [00 07 04 02] followed by zeros |
| Reports.LightingControl | main.cpp:149-175 | the report is [00 07 05 02 00 03] followed by zeros |
| Reports.K70LightingControl | main.cpp:177-198 | the first report of the K70 configuration is [00 07 05 08 00 01] followed by zeros |
| Reports.IdentifierPacket | main.cpp:208-227 | an identifier packet is a WRITE report with selector 0x40 and count 0x1E; identifier m sits at byte 5+2m with flag 0xC0 after it; the rest is zero |
| Reports.IdentifierPacketRoundTrip | main.cpp:218-227 | reading bytes 5+2m of a full packet gives back the 30 identifiers written, and the last report byte is a flag |
| Reports.StreamPacket | main.cpp:236-261 | a stream report carries the packet id and the chunk size in bytes 2 and 3, and the chunk from byte 5 on, zero after it |
| Reports.StreamPacketRoundTrip | main.cpp:236-261 | the packet id and the chunk are recovered from a stream report; a 60-byte chunk ends exactly in the last report byte |
| Reports.RgbChannel | main.cpp:263-285 | the commit report is [00 07 28 channel count finish] followed by zeros |
| Reports.FirmwareInfoRequest | main.cpp:295-302 | the firmware-info request is [00 0E 01] followed by zeros |
| Reports.FixedReportsOnWire | main.cpp:127-198 | the configuration and commit reports equal their literal wire images byte for byte |
| Identifiers.ScanPass | main.cpp:219-223 | one pass over the skip list moves the counter forward by at most the length of the list |
| Identifiers.ScanPassFindsNextAccepted | main.cpp:219-223 | on an ascending skip list, one pass lands on the first identifier from the counter on that is not skipped, however many consecutive ones it steps over |
| Identifiers.ScanPassNeedsAscendingList | main.cpp:219-223 | on an unsorted list the single pass can stop on a skipped identifier |
| Identifiers.SkipScan | main.cpp:219-223 | the inner loop over key_mapping_k95_plat_ansi moves the counter to the next identifier not in the list |
| Identifiers.FillPacket | main.cpp:206-227 | thirty rounds of scan, write and increment fill one packet with the next thirty accepted identifiers, starting where the previous packet stopped |
| Identifiers.WalkIdentifierPackets | main.cpp:200-233 | the four packets written by the loops are exactly the reference table of the 120 values of [0, 132) outside the skip list |
| Identifiers.WalkReference | main.cpp:200-227 | the reference walk has 120 values, strictly ascending, below 132, and a value is in it exactly when it is in [0, 132) and not skipped |
| Identifiers.WalkIdentifiersContents | main.cpp:200-227 | the identifiers written are strictly ascending, and v is written if and only if 0 <= v < 132 and v is not in the skip list |
| Identifiers.IdentifierTableContents | main.cpp:203-233 | packet p of the table is a WRITE report with selector 0x40 and count 0x1E whose slots read back as identifiers 30p .. 30p+29 |
| Colors.FinishValue | main.cpp:104-123 | the finish byte is 2 exactly for the last (blue) channel and 1 otherwise |
| Colors.ChannelReports | main.cpp:104-123 | a channel's four reports are stream packets 1, 2 and 3 with 60, 60 and 24 bytes, then the commit of that channel with 3 packets and finish 2 for blue, 1 otherwise |
| Colors.SendRgb | main.cpp:78-124 | twelve 65-byte reports; all but every fourth are STREAM reports, and reports 3, 7 and 11 commit channels 1, 2 and 3 with finish 1, 1 and 2 |
| Colors.ChannelBufferContents | main.cpp:84-99 | each coloured slot's component lands at its identifier; every byte no coloured slot maps to stays zero |
| Colors.ScatterColors | main.cpp:84-99 | the zero-then-scatter loop produces the three reference channel buffers, where each byte holds the colour of the last slot with that identifier, for any table whose identifiers fit the buffers |
| Colors.SendRgbShape | main.cpp:101-123 | per channel: stream packets 1, 2, 3 carrying 60, 60, 24 bytes, then a commit of channel c+1 with 3 packets and finish 1, 1, 2 |
| Colors.StreamedChannelRoundTrip | main.cpp:101-123 | the three stream packets of a channel reassemble into bytes [0, 144) of its buffer |
| Colors.SendRgbRoundTrip | main.cpp:78-124 | for any key table, decoding the twelve reports gives back exactly the colours sent |
| Colors.KeyboardSendRgbRoundTrip | main.cpp:38-124 | with keys_k70_mk2, every list of at most 116 colours is recovered from the reports `send_rgb` writes |
| Colors.UniformColorExample | main.cpp:446-453 | the colour (255, 0, 128) in all 116 slots puts 255 at every key identifier in red, leaves green all zero, and puts 128 at every key identifier in blue |
| Colors.UniformColorsLightEveryKey | main.cpp:446-453 | painting all 116 slots one colour sets exactly the table's identifiers to that colour and leaves every other byte zero |
| Session.AttachReports | main.cpp:72-74 | attach writes seven reports: special-function control, lighting control, the K70 lighting control, then the four identifier-table packets |
| Session.AttachWith | main.cpp:65-76 | attach succeeds if and only if the keyboard was detached and the device opened; on failure nothing changes; on success the handle is kept and the configuration is appended to the trace |
| Session.Attach | main.cpp:65-76 | with `hid_open` as a parameter: success exactly when detached and the open succeeds, and then the seven configuration reports are written |
| Session.AttachOutcome | main.cpp:65-76 | after attach the keyboard is attached exactly when it was before or the device opened, and earlier reports are kept |
| Session.AttachAtMostOnce | main.cpp:66-67 | two attaches never both succeed, and an attach after a success changes nothing |
| Session.SendColors | main.cpp:78-124 | `send_rgb` on the keyboard keeps the handle and appends exactly the twelve reports for keys_k70_mk2 to the trace |
| Session.AttachLoop | main.cpp:439-441 | the loop stops at the first result that opened the device and writes the configuration once; if no result opened it, nothing changes |
| Session.Run | main.cpp:437-454 | the trace is the seven configuration reports followed by the twelve colour reports when the device opened, and empty otherwise |
| Firmware.LogicalLayoutOf | main.cpp:341-362 | the product ids 0x1B2D, 0x1B11, 0x1B3D, 0x1B38/0x1B49/0x1B6B/0x1B55 and 0x1B4F select K95 Platinum, K95, K55, K70 MK2 and K68, and every other id selects Normal (both directions) |
| Firmware.PhysicalLayoutOf | main.cpp:366-384 | layout codes 1 to 5 give ANSI, ISO, ABNT, JIS and DUBEOLSIK, and every other code gives ANSI |
| Firmware.DecodeDevice | main.cpp:334-405 | class C0 gives a keyboard with big-endian product id from bytes 0x0E-0x0F, the logical layout of that id and the physical layout of byte 0x17+off; C1 gives a mouse; C2 gives a headset stand for little-endian id 0x0A34 and a mousemat otherwise; any other class gives an unknown device |
| Firmware.DecodeFirmwareInfo | main.cpp:330-412 | the class is byte 0x14+off; a version exists exactly for classes C0, C1 and C2, with major byte 0x09+off and minor byte 0x08+off; a keyboard's physical layout is read from byte 0x17+off |
| Firmware.DecodeReadsOnlyFields | main.cpp:330-412 | two replies that agree on bytes 0x08+off, 0x09+off, 0x0E, 0x0F, 0x14+off and 0x17+off decode to the same info |
| Firmware.DecodeIsDecodable | main.cpp:334-405 | every reply decodes to a consistent info: the device agrees with the class, the layout with the product id, and a headset stand has product id 0x0A34 |
| Firmware.DecodeReplyRoundTrip | main.cpp:330-412 | every consistent info is decoded back from the reply that encodes it, at either response offset |
| Firmware.ProductIdBytes | main.cpp:336-393 | the product id is read from bytes 0x0E and 0x0F whatever the offset: big-endian for a keyboard, little-endian for a C2-class device |
| Firmware.ReadFirmwareInfo | main.cpp:287-328 | one request is written; the offset is 1 exactly when the timed read returned 0, and only then is the request also sent as a feature report; the chosen read's bytes overwrite the start of the request buffer and the rest of it is unchanged |
| Firmware.ShortFeatureReplyIsUnknown | main.cpp:312-412 | a feature reply shorter than the class byte leaves the request buffer's zero there, so the device is unknown and no version is reported |
| Firmware.ReadFirmwareInfoRoundTrip | main.cpp:309-412 | a device answering with the reply for an info is decoded as that info, both on the interrupt path and on the feature-report path |
| Firmware.K70ReplyScenario | main.cpp:334-412 | a C0 reply with product id bytes 1B 6B and layout 2 decodes as a K70 MK2 keyboard with ISO layout |
| Firmware.HeadsetStandFeatureScenario | main.cpp:312-400 | on the feature path a C2 reply with product id bytes 34 0A decodes as a headset stand |

## Left out

- The hidapi transport is not modelled: `hid_init`, `hid_open`, `hid_write`, `hid_read_timeout`, the feature-report calls, `hid_close` in the destructor, and `hid_exit`. Each write becomes an entry in the keyboard's trace. `hid_open` becomes given results. The reads become given byte sequences.
- The SIGINT handler and the `run` flag are not modelled. The attach loop ends when its given `hid_open` results run out. A signal that arrives after a successful attach is not modelled.
- Argument parsing is not modelled: the argument count, `strtoul` and its truncation to `uint8_t`. `Session.Run` takes the colour as three bytes.
- Console output is not modelled. `read_firmware_info` prints its findings; the model returns them as a `FirmwareInfo` value. `read_firmware_info` is never called from `main`, so `Session.Run` does not include it.
- `matrix_map_k70_mk2` (main.cpp:27-36) is not modelled. No code reads it, so no report depends on it.
- Colors.SendRgb: the source indexes keys_k70_mk2 with every colour index, so more than 116 colours read past the table. The model requires at most as many colours as table entries.
- Colors.ScatterColors: the key table is a parameter whose identifiers must lie in [0, 168). A larger identifier would write past the buffer in the source, and the model does not describe that.
- Identifiers.SkipScan: like the source, it makes one ascending pass over the skip list rather than looping until the counter is accepted. That is correct only because the list is sorted (`Identifiers.ScanPassNeedsAscendingList`).
- Firmware.ReadFirmwareInfo: the byte count that the feature read returns is ignored, as in the source. The read is modelled by the bytes it copies over the start of the request buffer.
- A C2-class reply is reported as a headset stand or a mousemat only by product id. The source takes the product id from fixed bytes 0x0E and 0x0F, even on the feature-report path where every other field moves by one byte. The model keeps this reading (`Firmware.ProductIdBytes`).
