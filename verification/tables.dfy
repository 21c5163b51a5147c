/** The compiled-in key tables of main.cpp:23-45. */
module Tables {
  import opened SeqFacts

  /** Number of logical key slots of the K70 RGB MK.2 (main.cpp:24). */
  const ZoneSize: nat := 116

  /** Bytes of each colour channel that are streamed to the device: packets of 60, 60 and 24. */
  const StreamedLength: nat := 144

  /** Size of each per-channel colour buffer in `send_rgb` (main.cpp:79-81); the
      streamed 144 bytes are a prefix of it. */
  const ChannelBufferSize: nat := 168

  // keys_k70_mk2 (main.cpp:38-43): logical slot index -> lighting identifier.
  // The first 111 entries ascend; the last five were appended out of order.
  const KeysRow0: seq<int> := [0x00, 0x01, 0x02, 0x03, 0x04, 0x05, 0x06, 0x07, 0x08, 0x09, 0x0C, 0x0D, 0x0E, 0x0F, 0x11, 0x12, 0x14, 0x15, 0x18, 0x19]
  const KeysRow1: seq<int> := [0x1A, 0x1B, 0x1C, 0x1D, 0x1E, 0x1F, 0x20, 0x21, 0x24, 0x25, 0x26, 0x27, 0x28, 0x2A, 0x2B, 0x2C, 0x30, 0x31, 0x32, 0x33]
  const KeysRow2: seq<int> := [0x34, 0x35, 0x36, 0x37, 0x38, 0x39, 0x3C, 0x3D, 0x3E, 0x3F, 0x40, 0x42, 0x43, 0x44, 0x45, 0x48, 73, 74, 75, 76]
  const KeysRow3: seq<int> := [78, 79, 80, 81, 84, 85, 86, 87, 88, 89, 90, 91, 92, 93, 96, 97, 98, 99, 100, 101]
  const KeysRow4: seq<int> := [102, 103, 104, 105, 108, 109, 110, 111, 112, 113, 115, 116, 117, 120, 121, 122, 123, 124, 126, 127]
  const KeysRow5: seq<int> := [128, 129, 132, 133, 134, 135, 136, 137, 139, 140, 141]
  const KeysLate: seq<int> := [16, 114, 47, 59, 125]

  /** The ascending part of the table. */
  const KeysAscending: seq<int> := KeysRow0 + KeysRow1 + KeysRow2 + KeysRow3 + KeysRow4 + KeysRow5

  const KeysK70Mk2: seq<int> := KeysAscending + KeysLate

  /** key_mapping_k95_plat_ansi (main.cpp:45): identifiers the walk of main.cpp:203-227 skips. */
  const SkipK95PlatAnsi: seq<int> := [0x31, 0x3f, 0x41, 0x42, 0x51, 0x53, 0x55, 0x6f, 0x7e, 0x7f, 0x80, 0x81]

  /** The key table has one entry per logical slot and every identifier lies
      inside the streamed part of the channel buffers. */
  lemma KeysInStreamedRange()
    ensures |KeysK70Mk2| == ZoneSize
    ensures AllWithin(KeysK70Mk2, 0, StreamedLength)
  {
    KeysAscendingPart();
    AscendingWithin(KeysAscending);
    assert KeysAscending[0] == 0 && KeysAscending[|KeysAscending| - 1] == 141;
    assert AllWithin(KeysLate, 0, StreamedLength);
    AllWithinJoin(KeysAscending, KeysLate, 0, StreamedLength);
  }

  lemma KeysAscendingPart()
    ensures StrictlyAscending(KeysAscending)
  {
    assert AdjacentAscending(KeysRow0);
    assert AdjacentAscending(KeysRow1);
    assert AdjacentAscending(KeysRow2);
    assert AdjacentAscending(KeysRow3);
    assert AdjacentAscending(KeysRow4);
    assert AdjacentAscending(KeysRow5);
    AdjacentAscendingJoin(KeysRow0, KeysRow1);
    AdjacentAscendingJoin(KeysRow0 + KeysRow1, KeysRow2);
    AdjacentAscendingJoin(KeysRow0 + KeysRow1 + KeysRow2, KeysRow3);
    AdjacentAscendingJoin(KeysRow0 + KeysRow1 + KeysRow2 + KeysRow3, KeysRow4);
    AdjacentAscendingJoin(KeysRow0 + KeysRow1 + KeysRow2 + KeysRow3 + KeysRow4, KeysRow5);
    AdjacentGivesStrict(KeysAscending);
  }

  /** None of the five appended identifiers already occurs in the ascending part:
      each falls into a gap between two neighbours there. */
  lemma LateKeysFresh()
    ensures forall i | 0 <= i < |KeysLate| :: KeysLate[i] !in KeysAscending
  {
    KeysAscendingPart();
    Gap16();
    Gap114();
    Gap47();
    Gap59();
    Gap125();
    assert KeysLate == [16, 114, 47, 59, 125];
  }
  lemma Gap16()
    requires StrictlyAscending(KeysAscending)
    ensures 16 !in KeysAscending
  {
    GapNotMember(KeysAscending, 13, 16);
  }

  lemma Gap114()
    requires StrictlyAscending(KeysAscending)
    ensures 114 !in KeysAscending
  {
    GapNotMember(KeysAscending, 89, 114);
  }

  lemma Gap47()
    requires StrictlyAscending(KeysAscending)
    ensures 47 !in KeysAscending
  {
    GapNotMember(KeysAscending, 35, 47);
  }

  lemma Gap59()
    requires StrictlyAscending(KeysAscending)
    ensures 59 !in KeysAscending
  {
    GapNotMember(KeysAscending, 45, 59);
  }

  lemma Gap125()
    requires StrictlyAscending(KeysAscending)
    ensures 125 !in KeysAscending
  {
    GapNotMember(KeysAscending, 97, 125);
  }

  /** No two logical slots share a lighting identifier, so the colour fill of
      `send_rgb` never overwrites an earlier slot's colour. */
  lemma KeysDistinct()
    ensures Distinct(KeysK70Mk2)
  {
    KeysAscendingPart();
    StrictlyAscendingDistinct(KeysAscending);
    LateKeysFresh();
    assert Distinct(KeysLate);
    DistinctJoin(KeysAscending, KeysLate);
  }

  /** The skip list is sorted, which is what lets a single pass over it skip runs
      of consecutive identifiers (0x41, 0x42 and 0x7e..0x81). */
  lemma SkipListAscending()
    ensures StrictlyAscending(SkipK95PlatAnsi)
    ensures AllWithin(SkipK95PlatAnsi, 0, 0x82)
  {
    assert AdjacentAscending(SkipK95PlatAnsi);
    AdjacentGivesStrict(SkipK95PlatAnsi);
  }

  /** What `send_rgb` needs of a key table: one identifier per slot, no identifier
      twice, and every identifier inside the streamed part of a channel buffer. */
  predicate KeyTable(keys: seq<int>)
  {
    |keys| == ZoneSize && Distinct(keys) && AllWithin(keys, 0, StreamedLength)
  }

  /** keys_k70_mk2 is such a table. */
  lemma KeysK70Mk2IsKeyTable()
    ensures KeyTable(KeysK70Mk2)
  {
    KeysDistinct();
    KeysInStreamedRange();
  }
}
