/** `Keyboard::send_rgb` (main.cpp:78-124): one colour per logical key slot is
    scattered into three 168-byte channel buffers at the slot's lighting identifier,
    and each buffer is streamed in chunks of 60, 60 and 24 bytes and then committed.
    The key table is a parameter `keys`; the keyboard uses keys_k70_mk2, and the
    properties proved for any `KeyTable` are instantiated with it at the end. */
module Colors {
  import opened Wrappers
  import opened Protocol
  import opened SeqFacts
  import opened Tables
  import opened Reports

  /** `RGBColor`: three 8-bit components. */
  datatype Color = Color(r: Byte, g: Byte, b: Byte)

  /** The three colour channels, each streamed and committed on its own. */
  datatype Channel = Red | Green | Blue

  function Component(c: Color, ch: Channel): Byte
  {
    match ch
    case Red => c.r
    case Green => c.g
    case Blue => c.b
  }

  /** The channel byte of the commit report: 1 red, 2 green, 3 blue. */
  function ChannelNumber(ch: Channel): (n: Byte)
    ensures 1 <= n <= 3
  {
    match ch
    case Red => 1
    case Green => 2
    case Blue => 3
  }

  /** The finish byte of the commit report: 1 after red and green, 2 after blue,
      the last channel. */
  function FinishValue(ch: Channel): (f: Byte)
    ensures f == 2 <==> ch == Blue
    ensures f == 1 <==> ch != Blue
  {
    if ch == Blue then 2 else 1
  }

  /** Packets streamed per channel, and the size of the third one (`data_sz`). */
  const StreamPacketsPerChannel: Byte := 3
  const LastChunkSize: nat := 24

  /** The reference channel buffer: the byte at identifier `x` holds the component of
      the colour of the last coloured slot whose identifier is `x`, and zero when no
      coloured slot has that identifier. A later slot with the same identifier wins,
      as a later write does in the scatter loop. */
  function ChannelBuffer(keys: seq<int>, colors: seq<Color>, ch: Channel): (buf: seq<Byte>)
    requires |colors| <= |keys|
    ensures |buf| == ChannelBufferSize
  {
    seq(ChannelBufferSize, x =>
      match LastIndexOf(keys[..|colors|], x)
      case Some(k) => Component(colors[k], ch)
      case None => 0)
  }

  /** Each coloured slot's component lands at its identifier, and every byte that no
      coloured slot maps to stays zero. */
  lemma ChannelBufferContents(keys: seq<int>, colors: seq<Color>, ch: Channel)
    requires KeyTable(keys) && |colors| <= |keys|
    ensures forall i | 0 <= i < |colors| :: ChannelBuffer(keys, colors, ch)[keys[i]] == Component(colors[i], ch)
    ensures forall x | 0 <= x < ChannelBufferSize && x !in keys[..|colors|] :: ChannelBuffer(keys, colors, ch)[x] == 0
  {
    var coloured := keys[..|colors|];
    assert Distinct(coloured) by {
      forall i, j | 0 <= i < |coloured| && 0 <= j < |coloured| && i != j ensures coloured[i] != coloured[j] {
        assert coloured[i] == keys[i] && coloured[j] == keys[j];
      }
    }
    forall i | 0 <= i < |colors| ensures ChannelBuffer(keys, colors, ch)[keys[i]] == Component(colors[i], ch) {
      assert coloured[i] == keys[i];
      LastIndexOfDistinct(coloured, i);
    }
  }

  /** Colouring one more slot writes its component at that slot's identifier and
      leaves the rest of the buffer alone, whether or not an earlier slot had the same
      identifier. */
  lemma ChannelBufferSnoc(keys: seq<int>, colors: seq<Color>, c: Color, ch: Channel)
    requires |colors| < |keys| && 0 <= keys[|colors|] < ChannelBufferSize
    ensures ChannelBuffer(keys, colors + [c], ch) == ChannelBuffer(keys, colors, ch)[keys[|colors|] := Component(c, ch)]
  {
    var n := |colors|;
    var after := ChannelBuffer(keys, colors + [c], ch);
    var before := ChannelBuffer(keys, colors, ch);
    assert keys[..n + 1][..n] == keys[..n];
    forall x | 0 <= x < ChannelBufferSize
      ensures after[x] == before[keys[n] := Component(c, ch)][x]
    {
      var k := LastIndexOf(keys[..n], x);
      if x != keys[n] && k.Some? {
        assert (colors + [c])[k.value] == colors[k.value];
      }
    }
  }

  /** With no colours given every channel buffer is all zeros. */
  lemma EmptyChannelBuffer(keys: seq<int>, ch: Channel)
    ensures ChannelBuffer(keys, [], ch) == Zeros(ChannelBufferSize)
  {
  }

  /** The scatter loop of main.cpp:94-99 as written: three zeroed buffers, then for
      each colour in order, its components written at the slot's identifier. Any
      table whose identifiers index the 168-byte buffers will do; where two slots
      share an identifier the later one's colour stays. */
  method ScatterColors(keys: seq<int>, colors: seq<Color>) returns (red: seq<Byte>, green: seq<Byte>, blue: seq<Byte>)
    requires AllWithin(keys, 0, ChannelBufferSize) && |colors| <= |keys|
    ensures red == ChannelBuffer(keys, colors, Red)
    ensures green == ChannelBuffer(keys, colors, Green)
    ensures blue == ChannelBuffer(keys, colors, Blue)
  {
    red := Zeros(ChannelBufferSize);
    green := Zeros(ChannelBufferSize);
    blue := Zeros(ChannelBufferSize);
    EmptyChannelBuffer(keys, Red);
    EmptyChannelBuffer(keys, Green);
    EmptyChannelBuffer(keys, Blue);
    for i := 0 to |colors|
      invariant red == ChannelBuffer(keys, colors[..i], Red)
      invariant green == ChannelBuffer(keys, colors[..i], Green)
      invariant blue == ChannelBuffer(keys, colors[..i], Blue)
    {
      var color := colors[i];
      assert colors[..i + 1] == colors[..i] + [color];
      ChannelBufferSnoc(keys, colors[..i], color, Red);
      ChannelBufferSnoc(keys, colors[..i], color, Green);
      ChannelBufferSnoc(keys, colors[..i], color, Blue);
      red := red[keys[i] := color.r];
      green := green[keys[i] := color.g];
      blue := blue[keys[i] := color.b];
    }
    assert colors[..|colors|] == colors;
  }

  /** The four reports of one channel (main.cpp:104-107, 112-115, 120-123): bytes
      [0, 60), [60, 120) and [120, 144) of its buffer as stream packets 1, 2 and 3,
      then the commit naming the channel, three packets and the finish value. */
  function ChannelReports(buf: seq<Byte>, ch: Channel): (reports: seq<seq<Byte>>)
    requires |buf| == ChannelBufferSize
    ensures |reports| == 4
    ensures forall j | 0 <= j < 4 :: |reports[j]| == PacketLength
    ensures StreamReport(reports[0], 1, MaxStreamChunk) && StreamReport(reports[1], 2, MaxStreamChunk)
    ensures StreamReport(reports[2], 3, LastChunkSize)
    ensures reports[3] == RgbChannel(ChannelNumber(ch), 3, if ch == Blue then 2 else 1)
  {
    [ StreamPacket(1, buf[0..60])
    , StreamPacket(2, buf[60..120])
    , StreamPacket(3, buf[120..120 + LastChunkSize])
    , RgbChannel(ChannelNumber(ch), StreamPacketsPerChannel, FinishValue(ch)) ]
  }

  /** `send_rgb`: the twelve reports, red first, then green, then blue. */
  function SendRgb(keys: seq<int>, colors: seq<Color>): (reports: seq<seq<Byte>>)
    requires |colors| <= |keys|
    ensures |reports| == 12
    ensures forall k | 0 <= k < 12 :: |reports[k]| == PacketLength
    ensures forall k | 0 <= k < 12 && k % 4 != 3 :: Framed(reports[k], CommandStream)
    ensures reports[3] == RgbChannel(1, 3, 1) && reports[7] == RgbChannel(2, 3, 1) && reports[11] == RgbChannel(3, 3, 2)
  {
    ChannelReports(ChannelBuffer(keys, colors, Red), Red)
      + ChannelReports(ChannelBuffer(keys, colors, Green), Green)
      + ChannelReports(ChannelBuffer(keys, colors, Blue), Blue)
  }

  /** The channels in the order they are sent; channel c owns reports 4c .. 4c+3. */
  function ChannelAt(c: nat): Channel
    requires c < 3
  {
    if c == 0 then Red else if c == 1 then Green else Blue
  }

  /** Reports 4c .. 4c+3 of `send_rgb` are those of channel c. */
  lemma ChannelSlice(keys: seq<int>, colors: seq<Color>, c: nat)
    requires |colors| <= |keys| && c < 3
    ensures SendRgb(keys, colors)[4 * c .. 4 * c + 4] == ChannelReports(ChannelBuffer(keys, colors, ChannelAt(c)), ChannelAt(c))
  {
    var r := ChannelReports(ChannelBuffer(keys, colors, Red), Red);
    var g := ChannelReports(ChannelBuffer(keys, colors, Green), Green);
    var b := ChannelReports(ChannelBuffer(keys, colors, Blue), Blue);
    assert SendRgb(keys, colors) == r + g + b;
    if c == 0 {
      assert (r + g + b)[0..4] == r;
    } else if c == 1 {
      assert (r + g + b)[4..8] == g;
    } else {
      assert (r + g + b)[8..12] == b;
    }
  }

  /** Report j of channel c is report 4c + j of `send_rgb`. */
  lemma ReportOfChannel(keys: seq<int>, colors: seq<Color>, c: nat, j: nat)
    requires |colors| <= |keys| && c < 3 && j < 4
    ensures SendRgb(keys, colors)[4 * c + j] == ChannelReports(ChannelBuffer(keys, colors, ChannelAt(c)), ChannelAt(c))[j]
  {
    ChannelSlice(keys, colors, c);
    assert SendRgb(keys, colors)[4 * c + j] == SendRgb(keys, colors)[4 * c .. 4 * c + 4][j];
  }

  /** Twelve 65-byte reports whose size bytes are within a stream packet's bound. */
  predicate Streamable(reports: seq<seq<Byte>>)
  {
    |reports| == 12 && forall k | 0 <= k < 12 :: |reports[k]| == PacketLength && reports[k][3] <= MaxStreamChunk
  }

  lemma SendRgbStreamable(keys: seq<int>, colors: seq<Color>)
    requires |colors| <= |keys|
    ensures Streamable(SendRgb(keys, colors))
  {
    var r := ChannelReports(ChannelBuffer(keys, colors, Red), Red);
    var g := ChannelReports(ChannelBuffer(keys, colors, Green), Green);
    var b := ChannelReports(ChannelBuffer(keys, colors, Blue), Blue);
    var all := r + g + b;
    assert SendRgb(keys, colors) == all;
    forall k | 0 <= k < 12 ensures |all[k]| == PacketLength && all[k][3] <= MaxStreamChunk {
      if k < 4 {
        assert all[k] == r[k];
      } else if k < 8 {
        assert all[k] == g[k - 4];
      } else {
        assert all[k] == b[k - 8];
      }
    }
  }

  /** In each channel's four reports, reports 0, 1 and 2 are stream packets 1, 2 and 3
      carrying 60, 60 and 24 bytes, and report 3 commits channel c + 1 with three
      packets and finish value 1, 1, 2. */
  lemma SendRgbShape(keys: seq<int>, colors: seq<Color>)
    requires |colors| <= |keys|
    ensures forall c | 0 <= c < 3 ::
      && StreamReport(SendRgb(keys, colors)[4 * c], 1, MaxStreamChunk)
      && StreamReport(SendRgb(keys, colors)[4 * c + 1], 2, MaxStreamChunk)
      && StreamReport(SendRgb(keys, colors)[4 * c + 2], 3, LastChunkSize)
      && SendRgb(keys, colors)[4 * c + 3] == RgbChannel(c + 1, 3, if c == 2 then 2 else 1)
  {
    forall c | 0 <= c < 3
      ensures && StreamReport(SendRgb(keys, colors)[4 * c], 1, MaxStreamChunk)
              && StreamReport(SendRgb(keys, colors)[4 * c + 1], 2, MaxStreamChunk)
              && StreamReport(SendRgb(keys, colors)[4 * c + 2], 3, LastChunkSize)
              && SendRgb(keys, colors)[4 * c + 3] == RgbChannel(c + 1, 3, if c == 2 then 2 else 1)
    {
      ReportOfChannel(keys, colors, c, 0);
      ReportOfChannel(keys, colors, c, 1);
      ReportOfChannel(keys, colors, c, 2);
      ReportOfChannel(keys, colors, c, 3);
    }
  }

  /** A stream report with the given packet id and chunk size. */
  predicate StreamReport(r: seq<Byte>, packetId: Byte, size: nat)
  {
    Framed(r, CommandStream) && r[2] == packetId && r[3] == size
  }

  /** The streamed part of a channel, read back from its three stream packets: each
      packet's chunk as far as its size byte says, concatenated. */
  function StreamedChannel(reports: seq<seq<Byte>>, c: nat): (data: seq<Byte>)
    requires c < 3 && Streamable(reports)
    ensures |data| == reports[4 * c][3] + reports[4 * c + 1][3] + reports[4 * c + 2][3]
  {
    StreamPayload(reports[4 * c]) + StreamPayload(reports[4 * c + 1]) + StreamPayload(reports[4 * c + 2])
  }

  /** Reassembling the three stream packets of a channel gives back the first 144
      bytes of its buffer, the part that holds every identifier. */
  lemma StreamedChannelRoundTrip(keys: seq<int>, colors: seq<Color>, c: nat)
    requires |colors| <= |keys| && c < 3
    ensures Streamable(SendRgb(keys, colors))
    ensures StreamedChannel(SendRgb(keys, colors), c) == ChannelBuffer(keys, colors, ChannelAt(c))[..StreamedLength]
  {
    SendRgbStreamable(keys, colors);
    var buf := ChannelBuffer(keys, colors, ChannelAt(c));
    ReportOfChannel(keys, colors, c, 0);
    ReportOfChannel(keys, colors, c, 1);
    ReportOfChannel(keys, colors, c, 2);
    ChannelReportsRoundTrip(buf, ChannelAt(c));
  }

  /** The three stream packets of one channel carry, in order, exactly the streamed
      part of its buffer. */
  lemma ChannelReportsRoundTrip(buf: seq<Byte>, ch: Channel)
    requires |buf| == ChannelBufferSize
    ensures forall j | 0 <= j < 3 :: |ChannelReports(buf, ch)[j]| == PacketLength && ChannelReports(buf, ch)[j][3] <= MaxStreamChunk
    ensures StreamPayload(ChannelReports(buf, ch)[0]) + StreamPayload(ChannelReports(buf, ch)[1]) + StreamPayload(ChannelReports(buf, ch)[2])
      == buf[..StreamedLength]
  {
    StreamPacketRoundTrip(1, buf[0..60]);
    StreamPacketRoundTrip(2, buf[60..120]);
    StreamPacketRoundTrip(3, buf[120..144]);
    ChunksJoin(buf);
  }

  /** The three chunks cover the streamed part of a buffer. */
  lemma ChunksJoin(buf: seq<Byte>)
    requires |buf| >= StreamedLength
    ensures buf[0..60] + buf[60..120] + buf[120..144] == buf[..StreamedLength]
  {
  }

  /** What a device reassembles from the twelve reports: the colour of slot i is read
      from byte keys[i] of each streamed channel. */
  function DecodeColors(keys: seq<int>, reports: seq<seq<Byte>>, n: nat): (colors: seq<Color>)
    requires n <= |keys| && AllWithin(keys, 0, StreamedLength) && Streamable(reports)
    requires forall c | 0 <= c < 3 :: |StreamedChannel(reports, c)| == StreamedLength
    ensures |colors| == n
    ensures forall i | 0 <= i < n :: colors[i].r == StreamedChannel(reports, 0)[keys[i]]
    ensures forall i | 0 <= i < n :: colors[i].g == StreamedChannel(reports, 1)[keys[i]]
    ensures forall i | 0 <= i < n :: colors[i].b == StreamedChannel(reports, 2)[keys[i]]
  {
    var red := StreamedChannel(reports, 0);
    var green := StreamedChannel(reports, 1);
    var blue := StreamedChannel(reports, 2);
    seq(n, i requires 0 <= i < n => Color(red[keys[i]], green[keys[i]], blue[keys[i]]))
  }

  /** Round trip: every colour handed to `send_rgb` is recovered from the reports it
      sends, since no two slots share a byte and no identifier falls outside the
      streamed 144 bytes. */
  lemma SendRgbRoundTrip(keys: seq<int>, colors: seq<Color>)
    requires KeyTable(keys) && |colors| <= |keys|
    ensures Streamable(SendRgb(keys, colors))
    ensures forall c | 0 <= c < 3 :: |StreamedChannel(SendRgb(keys, colors), c)| == StreamedLength
    ensures DecodeColors(keys, SendRgb(keys, colors), |colors|) == colors
  {
    var reports := SendRgb(keys, colors);
    SendRgbStreamable(keys, colors);
    forall c | 0 <= c < 3
      ensures StreamedChannel(reports, c) == ChannelBuffer(keys, colors, ChannelAt(c))[..StreamedLength]
    {
      StreamedChannelRoundTrip(keys, colors, c);
    }
    ChannelBufferContents(keys, colors, Red);
    ChannelBufferContents(keys, colors, Green);
    ChannelBufferContents(keys, colors, Blue);
    var decoded := DecodeColors(keys, reports, |colors|);
    forall i | 0 <= i < |colors| ensures decoded[i] == colors[i] {
      var key := keys[i];
      assert StreamedChannel(reports, 0)[key] == ChannelBuffer(keys, colors, Red)[key];
      assert StreamedChannel(reports, 1)[key] == ChannelBuffer(keys, colors, Green)[key];
      assert StreamedChannel(reports, 2)[key] == ChannelBuffer(keys, colors, Blue)[key];
    }
  }

  /** The colours `main` sends (main.cpp:446-453): the same colour in all 116 slots. */
  function UniformColors(c: Color): (colors: seq<Color>)
    ensures |colors| == ZoneSize
    ensures forall i | 0 <= i < |colors| :: colors[i] == c
  {
    seq(ZoneSize, _ => c)
  }

  /** Painting every slot one colour lights exactly the identifiers of the key table in
      that colour and leaves every other byte of each channel dark. */
  lemma UniformColorsLightEveryKey(keys: seq<int>, c: Color, ch: Channel)
    requires KeyTable(keys)
    ensures forall x | 0 <= x < ChannelBufferSize :: ChannelBuffer(keys, UniformColors(c), ch)[x] == if x in keys then Component(c, ch) else 0
  {
    var colors := UniformColors(c);
    assert keys[..|colors|] == keys;
    ChannelBufferContents(keys, colors, ch);
    forall x | 0 <= x < ChannelBufferSize && x in keys ensures ChannelBuffer(keys, colors, ch)[x] == Component(c, ch) {
      var i :| 0 <= i < |keys| && keys[i] == x;
    }
  }

  /** The colour (255, 0, 128) in every slot of the K70 RGB MK.2: the red buffer holds 255
      at every key identifier, the green buffer is all zeros, and the blue buffer holds
      128 at every key identifier; all other bytes are zero. */
  lemma UniformColorExample()
    ensures forall x | 0 <= x < ChannelBufferSize ::
      ChannelBuffer(KeysK70Mk2, UniformColors(Color(255, 0, 128)), Red)[x] == if x in KeysK70Mk2 then 255 else 0
    ensures ChannelBuffer(KeysK70Mk2, UniformColors(Color(255, 0, 128)), Green) == Zeros(ChannelBufferSize)
    ensures forall x | 0 <= x < ChannelBufferSize ::
      ChannelBuffer(KeysK70Mk2, UniformColors(Color(255, 0, 128)), Blue)[x] == if x in KeysK70Mk2 then 128 else 0
  {
    KeysK70Mk2IsKeyTable();
    var c := Color(255, 0, 128);
    UniformColorsLightEveryKey(KeysK70Mk2, c, Red);
    UniformColorsLightEveryKey(KeysK70Mk2, c, Green);
    UniformColorsLightEveryKey(KeysK70Mk2, c, Blue);
  }

  /** The K70 RGB MK.2 instance: keys_k70_mk2 is a valid key table, so the colours
      `send_rgb` is given are recovered from its reports. */
  lemma KeyboardSendRgbRoundTrip(colors: seq<Color>)
    requires |colors| <= ZoneSize
    ensures KeyTable(KeysK70Mk2)
    ensures Streamable(SendRgb(KeysK70Mk2, colors))
    ensures forall c | 0 <= c < 3 :: |StreamedChannel(SendRgb(KeysK70Mk2, colors), c)| == StreamedLength
    ensures DecodeColors(KeysK70Mk2, SendRgb(KeysK70Mk2, colors), |colors|) == colors
  {
    KeysK70Mk2IsKeyTable();
    SendRgbRoundTrip(KeysK70Mk2, colors);
  }
}
