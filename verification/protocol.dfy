/** Wire-level constants of the Corsair peripheral HID protocol and the
    65-byte report they are written into (main.cpp:10-21). */
module Protocol {

  /** An `unsigned char` / `uint8_t` of the C++ code. */
  type Byte = b: int | 0 <= b < 256

  /** The C++ conversion of an unsigned counter to `unsigned char`: modulo 256, which
      leaves a value that already fits unchanged. */
  function ToByte(n: nat): (b: Byte)
    ensures n < 256 ==> b == n
    ensures (n - b) % 256 == 0
  {
    n % 256
  }

  /** Every report is this long: one report-ID byte and 64 bytes of data. */
  const PacketLength: nat := 65

  const CorsairVendorId: int := 0x1B1C
  const K70RgbMk2SeProductId: int := 0x1B6B

  // Command bytes (report byte 1).
  const CommandWrite: Byte := 0x07
  const CommandRead: Byte := 0x0E
  const CommandStream: Byte := 0x7F

  // Lighting-control modes.
  const LightingControlHardware: Byte := 0x01
  const LightingControlSoftware: Byte := 0x02

  // Property selectors (report byte 2 of READ and WRITE reports).
  const PropertyFirmwareInfo: Byte := 0x01
  const PropertySpecialFunction: Byte := 0x04
  const PropertyLightingControl: Byte := 0x05
  const PropertySubmitKeyboardColor24: Byte := 0x28

  /** The framing every report shares: 65 bytes, a zero report-ID byte and the command. */
  predicate Framed(r: seq<Byte>, command: Byte)
  {
    |r| == PacketLength && r[0] == 0 && r[1] == command
  }

  /** Every byte of `r` from index `from` to the end is zero. */
  predicate ZeroFrom(r: seq<Byte>, from: nat)
  {
    forall i | from <= i < |r| :: r[i] == 0
  }

  /** `n` zero bytes, as `memset(buf, 0x00, n)` leaves a buffer. */
  function Zeros(n: nat): (z: seq<Byte>)
    ensures |z| == n
    ensures forall i | 0 <= i < n :: z[i] == 0
  {
    seq(n, _ => 0)
  }

  /** A report buffer right after it is zeroed. */
  function Blank(): (r: seq<Byte>)
    ensures |r| == PacketLength && ZeroFrom(r, 0)
  {
    Zeros(PacketLength)
  }
}
