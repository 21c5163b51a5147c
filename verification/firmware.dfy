/** `read_firmware_info` (main.cpp:287-413): the READ firmware-info request, the
    choice between the interrupt reply and the feature-report fallback, and the decoding
    of the reply into device class, product id, layouts and firmware version. The
    hidapi calls are parameters: what the timed read returned and the bytes each read
    copied into the buffer. The printing is not modelled; the decoded values are. */
module Firmware {
  import opened Wrappers
  import opened Protocol
  import opened Reports

  // Device-class byte of the reply (main.cpp:334-405).
  const ClassKeyboard: Byte := 0xC0
  const ClassMouse: Byte := 0xC1
  const ClassMousepad: Byte := 0xC2

  /** The product id that makes a 0xC2-class device a headset stand. */
  const HeadsetStandProductId: int := 0x0A34

  /** Reply offsets of the fields the decoder reads; all but the product id move by
      the response offset. */
  const VersionMinorAt: nat := 0x08
  const VersionMajorAt: nat := 0x09
  const ProductIdAt: nat := 0x0E
  const DeviceClassAt: nat := 0x14
  const PhysicalLayoutAt: nat := 0x17

  datatype LogicalLayout = K95Platinum | K95 | K55 | K70Mk2 | K68 | Normal

  datatype PhysicalLayout = Ansi | Iso | Abnt | Jis | Dubeolsik

  /** The device the reply describes, with the product id where the code reads one. */
  datatype Device =
    | KeyboardDevice(productId: int, logical: LogicalLayout, physical: PhysicalLayout)
    | Mouse
    | HeadsetStand(productId: int)
    | Mousemat(productId: int)
    | UnknownDevice

  datatype FirmwareVersion = FirmwareVersion(major: Byte, minor: Byte)

  /** Everything `read_firmware_info` reports: the class byte, the device and, for a
      known class, the firmware version. */
  datatype FirmwareInfo = FirmwareInfo(deviceClass: Byte, device: Device, version: Option<FirmwareVersion>)

  /** A 16-bit word from its high and low byte, as `(hi << 8) | lo` on bytes. */
  function Word(hi: Byte, lo: Byte): (w: int)
    ensures 0 <= w < 0x10000
    ensures w / 256 == hi && w % 256 == lo
  {
    hi * 256 + lo
  }

  /** Logical layout by keyboard product id (main.cpp:341-362). */
  function LogicalLayoutOf(pid: int): (l: LogicalLayout)
    ensures l == K95Platinum <==> pid == 0x1B2D
    ensures l == K95 <==> pid == 0x1B11
    ensures l == K55 <==> pid == 0x1B3D
    ensures l == K70Mk2 <==> pid in {0x1B38, 0x1B49, 0x1B6B, 0x1B55}
    ensures l == K68 <==> pid == 0x1B4F
  {
    if pid == 0x1B2D then K95Platinum
    else if pid == 0x1B11 then K95
    else if pid == 0x1B3D then K55
    else if pid == 0x1B38 || pid == 0x1B49 || pid == 0x1B6B || pid == 0x1B55 then K70Mk2
    else if pid == 0x1B4F then K68
    else Normal
  }

  /** Physical layout by layout byte (main.cpp:366-384); unknown codes read as ANSI. */
  function PhysicalLayoutOf(code: Byte): (p: PhysicalLayout)
    ensures 1 <= code <= 5 ==> LayoutCode(p) == code
    ensures !(1 <= code <= 5) ==> p == Ansi
  {
    if code == 0x02 then Iso
    else if code == 0x03 then Abnt
    else if code == 0x04 then Jis
    else if code == 0x05 then Dubeolsik
    else Ansi
  }

  /** The layout byte a device reports for a physical layout. */
  function LayoutCode(p: PhysicalLayout): (code: Byte)
    ensures 1 <= code <= 5
  {
    match p
    case Ansi => 0x01
    case Iso => 0x02
    case Abnt => 0x03
    case Jis => 0x04
    case Dubeolsik => 0x05
  }

  /** The device a reply describes (main.cpp:334-405). A keyboard's product id is read
      big-endian from bytes 0x0E and 0x0F, a 0xC2-class device's little-endian from
      the same bytes; neither read moves with the response offset. */
  function DecodeDevice(buf: seq<Byte>, off: nat): (d: Device)
    requires |buf| == PacketLength && off <= 1
    ensures d.KeyboardDevice? <==> buf[DeviceClassAt + off] == ClassKeyboard
    ensures d.KeyboardDevice? ==>
      && d.productId == (buf[ProductIdAt] as int) * 256 + buf[ProductIdAt + 1]
      && d.logical == LogicalLayoutOf(d.productId)
      && d.physical == PhysicalLayoutOf(buf[PhysicalLayoutAt + off])
    ensures d.Mouse? <==> buf[DeviceClassAt + off] == ClassMouse
    ensures d.HeadsetStand? || d.Mousemat? <==> buf[DeviceClassAt + off] == ClassMousepad
    ensures d.HeadsetStand? || d.Mousemat? ==>
      && d.productId == (buf[ProductIdAt + 1] as int) * 256 + buf[ProductIdAt]
      && (d.HeadsetStand? <==> d.productId == HeadsetStandProductId)
    ensures d.UnknownDevice? <==> !KnownClass(buf[DeviceClassAt + off])
  {
    var deviceClass := buf[DeviceClassAt + off];
    if deviceClass == ClassKeyboard then
      var pid := Word(buf[ProductIdAt], buf[ProductIdAt + 1]);
      KeyboardDevice(pid, LogicalLayoutOf(pid), PhysicalLayoutOf(buf[PhysicalLayoutAt + off]))
    else if deviceClass == ClassMouse then
      Mouse
    else if deviceClass == ClassMousepad then
      var pid := Word(buf[ProductIdAt + 1], buf[ProductIdAt]);
      if pid == HeadsetStandProductId then HeadsetStand(pid) else Mousemat(pid)
    else
      UnknownDevice
  }

  /** A class byte the decoder knows. */
  predicate KnownClass(c: Byte)
  {
    c == ClassKeyboard || c == ClassMouse || c == ClassMousepad
  }

  /** The decoded reply (main.cpp:330-412): the class byte, the device, and the
      version bytes 0x09 (major) and 0x08 (minor) when the class is known. */
  function DecodeFirmwareInfo(buf: seq<Byte>, off: nat): (info: FirmwareInfo)
    requires |buf| == PacketLength && off <= 1
    ensures info.deviceClass == buf[DeviceClassAt + off]
    ensures info.version.Some? <==> KnownClass(info.deviceClass)
    ensures info.version.Some? ==> info.version.value == FirmwareVersion(buf[VersionMajorAt + off], buf[VersionMinorAt + off])
    ensures buf[DeviceClassAt + off] == ClassKeyboard ==>
      info.device.KeyboardDevice? && info.device.physical == PhysicalLayoutOf(buf[PhysicalLayoutAt + off])
  {
    var deviceClass := buf[DeviceClassAt + off];
    var version := if KnownClass(deviceClass)
      then Some(FirmwareVersion(buf[VersionMajorAt + off], buf[VersionMinorAt + off]))
      else None;
    FirmwareInfo(deviceClass, DecodeDevice(buf, off), version)
  }

  /** The infos a reply can decode to: the device agrees with the class byte, a
      keyboard's logical layout is the one its product id selects, a 0xC2-class
      device is a headset stand exactly for product id 0x0A34, product ids are 16-bit,
      and the version is present exactly for a known class. */
  predicate Decodable(info: FirmwareInfo)
  {
    && (info.version.Some? <==> KnownClass(info.deviceClass))
    && match info.device
      case KeyboardDevice(pid, logical, _) =>
        info.deviceClass == ClassKeyboard && 0 <= pid < 0x10000 && logical == LogicalLayoutOf(pid)
      case Mouse => info.deviceClass == ClassMouse
      case HeadsetStand(pid) => info.deviceClass == ClassMousepad && pid == HeadsetStandProductId
      case Mousemat(pid) => info.deviceClass == ClassMousepad && 0 <= pid < 0x10000 && pid != HeadsetStandProductId
      case UnknownDevice => !KnownClass(info.deviceClass)
  }

  /** The product id carried by a device, or 0 for those without one. */
  function ProductIdOf(d: Device): int
  {
    match d
    case KeyboardDevice(pid, _, _) => pid
    case HeadsetStand(pid) => pid
    case Mousemat(pid) => pid
    case _ => 0
  }

  /** The reply a device sends for `info`, with the fields `off` bytes further on
      (except the product id, which the decoder reads at fixed bytes). */
  function FirmwareReply(info: FirmwareInfo, off: nat): (buf: seq<Byte>)
    requires Decodable(info) && off <= 1
    ensures |buf| == PacketLength
  {
    var pid := ProductIdOf(info.device);
    var hi := pid / 256;
    var lo := pid % 256;
    var version := if info.version.Some? then info.version.value else FirmwareVersion(0, 0);
    var base := Blank()[DeviceClassAt + off := info.deviceClass]
      [VersionMajorAt + off := version.major][VersionMinorAt + off := version.minor];
    match info.device
    case KeyboardDevice(_, _, physical) =>
      base[ProductIdAt := hi][ProductIdAt + 1 := lo][PhysicalLayoutAt + off := LayoutCode(physical)]
    case HeadsetStand(_) => base[ProductIdAt := lo][ProductIdAt + 1 := hi]
    case Mousemat(_) => base[ProductIdAt := lo][ProductIdAt + 1 := hi]
    case _ => base
  }

  /** The decoder reads nothing but the version bytes 0x08+off and 0x09+off, the
      product id bytes 0x0E and 0x0F, the class byte 0x14+off and the layout byte
      0x17+off: two replies that agree there decode alike. */
  lemma DecodeReadsOnlyFields(a: seq<Byte>, b: seq<Byte>, off: nat)
    requires |a| == PacketLength && |b| == PacketLength && off <= 1
    requires a[VersionMinorAt + off] == b[VersionMinorAt + off] && a[VersionMajorAt + off] == b[VersionMajorAt + off]
    requires a[ProductIdAt] == b[ProductIdAt] && a[ProductIdAt + 1] == b[ProductIdAt + 1]
    requires a[DeviceClassAt + off] == b[DeviceClassAt + off] && a[PhysicalLayoutAt + off] == b[PhysicalLayoutAt + off]
    ensures DecodeFirmwareInfo(a, off) == DecodeFirmwareInfo(b, off)
  {
  }

  /** Every reply decodes to a decodable info. */
  lemma DecodeIsDecodable(buf: seq<Byte>, off: nat)
    requires |buf| == PacketLength && off <= 1
    ensures Decodable(DecodeFirmwareInfo(buf, off))
  {
  }

  /** Round trip: the reply a device sends for any decodable info decodes back to
      that info, at either response offset. */
  lemma DecodeReplyRoundTrip(info: FirmwareInfo, off: nat)
    requires Decodable(info) && off <= 1
    ensures DecodeFirmwareInfo(FirmwareReply(info, off), off) == info
  {
    var buf := FirmwareReply(info, off);
    var decoded := DecodeFirmwareInfo(buf, off);
    assert buf[DeviceClassAt + off] == info.deviceClass;
    match info.device
    case KeyboardDevice(pid, logical, physical) =>
      assert Word(buf[ProductIdAt], buf[ProductIdAt + 1]) == pid;
    case HeadsetStand(pid) =>
      assert Word(buf[ProductIdAt + 1], buf[ProductIdAt]) == pid;
    case Mousemat(pid) =>
      assert Word(buf[ProductIdAt + 1], buf[ProductIdAt]) == pid;
    case Mouse =>
    case UnknownDevice =>
  }

  /** What `hid_read_timeout` did: its return value and the bytes it copied to the
      start of the buffer. */
  datatype TimedRead = TimedRead(actual: int, data: seq<Byte>)

  /** The buffer after a read has copied `data` over its first bytes. */
  function Overlay(buf: seq<Byte>, data: seq<Byte>): (r: seq<Byte>)
    requires |data| <= |buf|
    ensures |r| == |buf|
    ensures r[..|data|] == data && r[|data|..] == buf[|data|..]
  {
    data + buf[|data|..]
  }

  /** The outcome of `read_firmware_info`: the reports written with `hid_write`, those
      sent with `hid_send_feature_report`, the response offset, the final buffer and
      the decoded info. */
  datatype FirmwareQuery = FirmwareQuery(
    written: seq<seq<Byte>>, featureSent: seq<seq<Byte>>, offset: nat, reply: seq<Byte>, info: FirmwareInfo)

  /** `read_firmware_info`: send the request and read the reply; when the timed read
      returns 0 bytes, send the request again as a feature report, take the feature
      reply instead and read every field but the product id one byte further on. */
  function ReadFirmwareInfo(read: TimedRead, feature: seq<Byte>): (q: FirmwareQuery)
    requires |read.data| <= PacketLength && |feature| <= PacketLength
    ensures q.written == [FirmwareInfoRequest()]
    ensures q.offset == 1 <==> read.actual == 0
    ensures q.offset <= 1 && |q.reply| == PacketLength
    ensures q.featureSent == if read.actual == 0 then [FirmwareInfoRequest()] else []
    ensures q.reply[..|if read.actual == 0 then feature else read.data|] == if read.actual == 0 then feature else read.data
    ensures q.reply[|if read.actual == 0 then feature else read.data|..]
      == FirmwareInfoRequest()[|if read.actual == 0 then feature else read.data|..]
    ensures q.info == DecodeFirmwareInfo(q.reply, q.offset)
  {
    var request := FirmwareInfoRequest();
    if read.actual == 0 then
      FirmwareQuery([request], [request], 1, Overlay(request, feature), DecodeFirmwareInfo(Overlay(request, feature), 1))
    else
      FirmwareQuery([request], [], 0, Overlay(request, read.data), DecodeFirmwareInfo(Overlay(request, read.data), 0))
  }

  /** Whichever path the reply takes, a device that answers with the reply for `info`
      (shifted by one byte on the feature-report path) is decoded as `info`. */
  lemma ReadFirmwareInfoRoundTrip(info: FirmwareInfo, actual: int)
    requires Decodable(info)
    ensures actual != 0 ==> ReadFirmwareInfo(TimedRead(actual, FirmwareReply(info, 0)), []).info == info
    ensures ReadFirmwareInfo(TimedRead(0, []), FirmwareReply(info, 1)).info == info
  {
    DecodeReplyRoundTrip(info, 0);
    DecodeReplyRoundTrip(info, 1);
    assert Overlay(FirmwareInfoRequest(), FirmwareReply(info, 0)) == FirmwareReply(info, 0);
    assert Overlay(FirmwareInfoRequest(), FirmwareReply(info, 1)) == FirmwareReply(info, 1);
  }

  /** A feature reply that stops before the class byte leaves the zero the request
      buffer holds there, so the device decodes as unknown and has no version. */
  lemma ShortFeatureReplyIsUnknown(feature: seq<Byte>)
    requires |feature| <= DeviceClassAt + 1
    ensures ReadFirmwareInfo(TimedRead(0, []), feature).info == FirmwareInfo(0, UnknownDevice, None)
  {
    var q := ReadFirmwareInfo(TimedRead(0, []), feature);
    assert q.reply[DeviceClassAt + 1] == q.reply[|feature|..][DeviceClassAt + 1 - |feature|];
  }

  /** The product id comes from bytes 0x0E and 0x0F at either response offset:
      big-endian for a keyboard, little-endian for a 0xC2-class device. */
  lemma ProductIdBytes(buf: seq<Byte>, off: nat)
    requires |buf| == PacketLength && off <= 1
    ensures var d := DecodeFirmwareInfo(buf, off).device;
      && (buf[DeviceClassAt + off] == ClassKeyboard ==> d.KeyboardDevice? && d.productId == (buf[ProductIdAt] as int) * 256 + buf[ProductIdAt + 1])
      && (buf[DeviceClassAt + off] == ClassMousepad ==> ProductIdOf(d) == (buf[ProductIdAt + 1] as int) * 256 + buf[ProductIdAt])
  {
  }

  /** A K70 RGB MK.2 that answers with an interrupt report: class 0xC0, product id
      bytes 1B 6B, layout byte 2, firmware 3.8. */
  lemma K70ReplyScenario()
    ensures var reply := Blank()[DeviceClassAt := ClassKeyboard][ProductIdAt := 0x1B][ProductIdAt + 1 := 0x6B]
        [PhysicalLayoutAt := 0x02][VersionMajorAt := 3][VersionMinorAt := 8];
      ReadFirmwareInfo(TimedRead(PacketLength, reply), []).info
        == FirmwareInfo(ClassKeyboard, KeyboardDevice(K70RgbMk2SeProductId, K70Mk2, Iso), Some(FirmwareVersion(3, 8)))
  {
  }

  /** A headset stand whose timed read returns nothing: the feature reply carries
      the class one byte later, but the product id bytes 34 0A stay at 0x0E-0x0F. */
  lemma HeadsetStandFeatureScenario()
    ensures var feature := Blank()[DeviceClassAt + 1 := ClassMousepad][ProductIdAt := 0x34][ProductIdAt + 1 := 0x0A];
      var q := ReadFirmwareInfo(TimedRead(0, []), feature);
      q.offset == 1 && q.featureSent == [FirmwareInfoRequest()]
      && q.info.device == HeadsetStand(HeadsetStandProductId)
  {
  }
}
