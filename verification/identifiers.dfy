/** The identifier walk of `send_k70_lighting_control` (main.cpp:200-233): four
    packets of 30 lighting identifiers counted up from 0, skipping the values of
    key_mapping_k95_plat_ansi. */
module Identifiers {
  import opened Protocol
  import opened SeqFacts
  import opened Tables
  import opened Reports

  /** Number of identifier-table packets sent (main.cpp:204). */
  const IdentifierPackets: nat := 4

  /** Number of identifiers written across them: 4 packets of 30. */
  const WalkLength: nat := 120

  /** One identifier past the last one written: 120 written plus 12 skipped. */
  const WalkEnd: nat := 132

  /** One pass of the inner loop of main.cpp:219-223 over the skip list, in list
      order: the counter moves on by one each time it equals the entry being looked at. */
  function ScanPass(identifier: int, skip: seq<int>): (r: int)
    ensures identifier <= r <= identifier + |skip|
  {
    if |skip| == 0 then identifier
    else
      var before := ScanPass(identifier, skip[..|skip| - 1]);
      if before == skip[|skip| - 1] then before + 1 else before
  }

  /** `r` is the first value from `c` on that is not in `skip`: what looping
      "until the candidate is not in the skip set" computes. */
  ghost predicate IsNextAccepted(c: int, r: int, skip: seq<int>)
  {
    c <= r && r !in skip && forall v | c <= v < r :: v in skip
  }

  /** On an ascending skip list the single pass already finds the next accepted
      identifier, however many consecutive values it has to step over. */
  lemma {:induction false} ScanPassFindsNextAccepted(c: int, skip: seq<int>)
    requires StrictlyAscending(skip)
    ensures IsNextAccepted(c, ScanPass(c, skip), skip)
    decreases |skip|
  {
    if |skip| > 0 {
      var front := skip[..|skip| - 1];
      var last := skip[|skip| - 1];
      assert StrictlyAscending(front);
      ScanPassFindsNextAccepted(c, front);
      var before := ScanPass(c, front);
      assert skip == front + [last];
      forall i | 0 <= i < |front| ensures front[i] < last {
        assert front[i] == skip[i];
      }
      if before == last {
        assert ScanPass(c, skip) == last + 1;
        forall v | c <= v < last + 1 ensures v in skip {
          if v < last {
            assert v in front;
          }
        }
      }
    }
  }

  /** The single pass relies on the order: on the unsorted list [2, 1] it steps from
      1 onto 2, a value it should have skipped. */
  lemma ScanPassNeedsAscendingList()
    ensures ScanPass(1, [2, 1]) == 2 && 2 in [2, 1]
    ensures !IsNextAccepted(1, ScanPass(1, [2, 1]), [2, 1])
  {
    assert [2, 1][..1] == [2];
    assert [2][..0] == [];
  }

  /** Reference for the walk: the values below `n` that `skip` does not exclude, in
      ascending order. */
  function AcceptedBelow(n: nat, skip: seq<int>): seq<int>
  {
    if n == 0 then [] else AcceptedBelow(n - 1, skip) + (if n - 1 in skip then [] else [n - 1])
  }

  /** AcceptedBelow holds exactly the values of [0, n) outside `skip`, strictly ascending. */
  lemma {:induction false} AcceptedBelowMembers(n: nat, skip: seq<int>)
    ensures forall v :: v in AcceptedBelow(n, skip) <==> 0 <= v < n && v !in skip
    ensures StrictlyAscending(AcceptedBelow(n, skip))
    ensures AllWithin(AcceptedBelow(n, skip), 0, n)
  {
    if n > 0 {
      AcceptedBelowMembers(n - 1, skip);
      var prev := AcceptedBelow(n - 1, skip);
      if n - 1 !in skip {
        var cur := prev + [n - 1];
        forall i, j | 0 <= i < j < |cur| ensures cur[i] < cur[j] {
          if j < |prev| {
            assert cur[i] == prev[i] && cur[j] == prev[j];
          } else {
            assert cur[i] == prev[i];
          }
        }
      }
    }
  }

  /** Only membership of values below `n` matters. */
  lemma {:induction false} AcceptedBelowCongruent(n: nat, s: seq<int>, t: seq<int>)
    requires forall v | 0 <= v < n :: v in s <==> v in t
    ensures AcceptedBelow(n, s) == AcceptedBelow(n, t)
  {
    if n > 0 {
      AcceptedBelowCongruent(n - 1, s, t);
    }
  }

  /** With nothing to skip every value below `n` is accepted. */
  lemma {:induction false} AcceptedBelowNothingSkipped(n: nat)
    ensures |AcceptedBelow(n, [])| == n
  {
    if n > 0 {
      AcceptedBelowNothingSkipped(n - 1);
    }
  }

  /** One more skip-list entry removes at most one accepted value, and exactly one
      when it is new and below `n`. */
  lemma {:induction false} AcceptedBelowDrop(n: nat, s: seq<int>, x: int)
    ensures |AcceptedBelow(n, s)| - 1 <= |AcceptedBelow(n, s + [x])| <= |AcceptedBelow(n, s)|
    ensures x !in s && 0 <= x < n ==> |AcceptedBelow(n, s + [x])| == |AcceptedBelow(n, s)| - 1
  {
    if n > 0 {
      var y := n - 1;
      assert y in s + [x] <==> y in s || y == x;
      if y == x && y !in s {
        AcceptedBelowCongruent(y, s + [x], s);
      } else {
        AcceptedBelowDrop(y, s, x);
      }
    }
  }

  /** However it is ordered, a skip list of k entries removes at most k values. */
  lemma {:induction false} AcceptedBelowLowerBound(n: nat, skip: seq<int>)
    ensures |AcceptedBelow(n, skip)| >= n - |skip|
    decreases |skip|
  {
    if |skip| == 0 {
      AcceptedBelowNothingSkipped(n);
    } else {
      var front := skip[..|skip| - 1];
      assert skip == front + [skip[|skip| - 1]];
      AcceptedBelowLowerBound(n, front);
      AcceptedBelowDrop(n, front, skip[|skip| - 1]);
    }
  }

  /** When the skip list is ascending and lies below `n`, each of its entries
      removes exactly one value of [0, n). */
  lemma {:induction false} AcceptedBelowCount(n: nat, skip: seq<int>)
    requires StrictlyAscending(skip)
    requires AllWithin(skip, 0, n)
    ensures |AcceptedBelow(n, skip)| == n - |skip|
    decreases |skip|
  {
    if |skip| == 0 {
      AcceptedBelowNothingSkipped(n);
    } else {
      var k := |skip| - 1;
      var front := skip[..k];
      assert skip == front + [skip[k]];
      assert StrictlyAscending(front);
      assert AllWithin(front, 0, n);
      forall i | 0 <= i < |front| ensures front[i] != skip[k] {
        assert front[i] == skip[i];
      }
      AcceptedBelowCount(n, front);
      AcceptedBelowDrop(n, front, skip[k]);
    }
  }

  /** Raising the bound never drops a value. */
  lemma {:induction false} AcceptedBelowMonotone(m: nat, n: nat, skip: seq<int>)
    requires m <= n
    ensures |AcceptedBelow(m, skip)| <= |AcceptedBelow(n, skip)|
    decreases n - m
  {
    if m < n {
      AcceptedBelowMonotone(m, n - 1, skip);
    }
  }

  /** Stepping from `c` to the next accepted value `v` adds exactly `v`. */
  lemma {:induction false} AcceptedBelowExtend(c: nat, v: nat, skip: seq<int>)
    requires IsNextAccepted(c, v, skip)
    ensures AcceptedBelow(v + 1, skip) == AcceptedBelow(c, skip) + [v]
    decreases v - c
  {
    if c < v {
      assert IsNextAccepted(c + 1, v, skip);
      AcceptedBelowExtend(c + 1, v, skip);
      assert c in skip;
    }
  }

  /** Below 132 fewer than 120 identifiers are accepted: the walk cannot stop early. */
  lemma WalkNotDoneBeforeEnd(n: nat)
    ensures n < WalkEnd ==> |AcceptedBelow(n, SkipK95PlatAnsi)| < WalkLength
  {
    if n < WalkEnd {
      SkipListAscending();
      AcceptedBelowCount(WalkEnd, SkipK95PlatAnsi);
      AcceptedBelowMonotone(n, WalkEnd - 1, SkipK95PlatAnsi);
      assert 131 !in SkipK95PlatAnsi;
    }
  }

  /** Beyond 132 more than 120 identifiers are accepted: the walk stops exactly there. */
  lemma WalkOverBeyondEnd(n: nat)
    ensures n > WalkEnd ==> |AcceptedBelow(n, SkipK95PlatAnsi)| > WalkLength
  {
    if n > WalkEnd {
      SkipListAscending();
      AcceptedBelowCount(WalkEnd, SkipK95PlatAnsi);
      assert WalkEnd !in SkipK95PlatAnsi;
      assert |AcceptedBelow(WalkEnd + 1, SkipK95PlatAnsi)| == WalkLength + 1;
      AcceptedBelowMonotone(WalkEnd + 1, n, SkipK95PlatAnsi);
    }
  }

  /** The reference walk for the K95 Platinum skip list: 120 values, strictly
      ascending, none of them skipped, covering [0, 132) outside the skip list. */
  lemma WalkReference()
    ensures |AcceptedBelow(WalkEnd, SkipK95PlatAnsi)| == WalkLength
    ensures StrictlyAscending(AcceptedBelow(WalkEnd, SkipK95PlatAnsi))
    ensures AllWithin(AcceptedBelow(WalkEnd, SkipK95PlatAnsi), 0, WalkEnd)
    ensures forall v :: v in AcceptedBelow(WalkEnd, SkipK95PlatAnsi) <==> 0 <= v < WalkEnd && v !in SkipK95PlatAnsi
  {
    SkipListAscending();
    AcceptedBelowCount(WalkEnd, SkipK95PlatAnsi);
    AcceptedBelowMembers(WalkEnd, SkipK95PlatAnsi);
  }

  /** The identifiers the walk writes for the K95 Platinum skip list: the values of
      [0, 132) outside the skip list, each of which fits in the byte it is written to. */
  function WalkIdentifiers(): (ids: seq<Byte>)
    ensures |ids| == WalkLength
  {
    WalkReference();
    AcceptedBelow(WalkEnd, SkipK95PlatAnsi)
  }

  /** The walk writes 120 strictly ascending identifiers: exactly the values of
      [0, 132) that are not in the skip list. */
  lemma WalkIdentifiersContents()
    ensures StrictlyAscending(WalkIdentifiers())
    ensures forall v :: v in WalkIdentifiers() <==> 0 <= v < WalkEnd && v !in SkipK95PlatAnsi
  {
    WalkReference();
  }

  /** The four identifier-table packets built from 120 identifiers. */
  function IdentifierTable(ids: seq<Byte>): (packets: seq<seq<Byte>>)
    requires |ids| == WalkLength
    ensures |packets| == IdentifierPackets
  {
    seq(IdentifierPackets, p requires 0 <= p < IdentifierPackets => IdentifierPacket(ids[30 * p..30 * p + 30]))
  }

  /** Packet p of the table is a WRITE report [00 07 40 1E 00 ..] whose identifier
      slots read back as identifiers 30p .. 30p+29, the last flag ending the report. */
  lemma IdentifierTableContents(ids: seq<Byte>)
    requires |ids| == WalkLength
    ensures forall p | 0 <= p < IdentifierPackets ::
      && Framed(IdentifierTable(ids)[p], CommandWrite)
      && IdentifierTable(ids)[p][2] == IdentifierSelector
      && IdentifierTable(ids)[p][3] == IdentifiersPerPacket
      && IdentifierTable(ids)[p][PacketLength - 1] == IdentifierFlag
      && PacketIdentifiers(IdentifierTable(ids)[p]) == ids[30 * p..30 * p + 30]
  {
    forall p | 0 <= p < IdentifierPackets
      ensures && Framed(IdentifierTable(ids)[p], CommandWrite)
              && IdentifierTable(ids)[p][2] == IdentifierSelector
              && IdentifierTable(ids)[p][3] == IdentifiersPerPacket
              && IdentifierTable(ids)[p][PacketLength - 1] == IdentifierFlag
              && PacketIdentifiers(IdentifierTable(ids)[p]) == ids[30 * p..30 * p + 30]
    {
      IdentifierPacketRoundTrip(ids[30 * p..30 * p + 30]);
    }
  }

  /** One identifier of the walk: the scan moved the counter from `start` to the
      next accepted value `v`, which is appended to what was written so far. */
  lemma WalkStep(done: seq<Byte>, start: nat, v: nat)
    requires done == AcceptedBelow(start, SkipK95PlatAnsi)
    requires |done| < WalkLength
    requires IsNextAccepted(start, v, SkipK95PlatAnsi)
    ensures v < WalkEnd
    ensures done + [v] == AcceptedBelow(v + 1, SkipK95PlatAnsi)
  {
    StepWithinBound(done, start, v, SkipK95PlatAnsi);
  }

  /** The same step for any skip list of at most 12 entries. */
  lemma StepWithinBound(done: seq<Byte>, start: nat, v: nat, skip: seq<int>)
    requires done == AcceptedBelow(start, skip)
    requires |done| < WalkLength && |skip| <= 12
    requires IsNextAccepted(start, v, skip)
    ensures v < WalkEnd
    ensures done + [v] == AcceptedBelow(v + 1, skip)
  {
    AcceptedBelowExtend(start, v, skip);
    AcceptedBelowLowerBound(v + 1, skip);
  }

  /** Appending a full packet's identifiers leaves the earlier packets' slices alone. */
  lemma WrittenSlices(before: seq<Byte>, row: seq<Byte>, i: nat)
    requires |before| == 30 * i && |row| == IdentifiersPerPacket
    ensures (before + row)[30 * i..30 * i + 30] == row
    ensures forall p | 0 <= p < i :: (before + row)[30 * p..30 * p + 30] == before[30 * p..30 * p + 30]
  {
  }

  /** Once 120 identifiers are written, the counter stands at 132 and what was
      written is the reference walk. */
  lemma WalkComplete(written: seq<Byte>, identifier: nat)
    requires |written| == WalkLength
    requires written == AcceptedBelow(identifier, SkipK95PlatAnsi)
    ensures identifier == WalkEnd
    ensures written == WalkIdentifiers()
  {
    WalkNotDoneBeforeEnd(identifier);
    WalkOverBeyondEnd(identifier);
  }

  /** Four packets holding the consecutive 30-identifier slices of `ids` are the table
      built from `ids`. */
  lemma TableOfSlices(ids: seq<Byte>, packets: seq<seq<Byte>>)
    requires |ids| == WalkLength && |packets| == IdentifierPackets
    requires forall p | 0 <= p < IdentifierPackets :: packets[p] == IdentifierPacket(ids[30 * p..30 * p + 30])
    ensures packets == IdentifierTable(ids)
  {
  }

  /** The inner loop of main.cpp:219-223: one pass over the skip list, moving the
      counter on whenever it equals the entry being looked at. On the ascending
      K95 Platinum list this lands on the next identifier that is not skipped. */
  method SkipScan(identifier: nat) returns (next: nat)
    ensures next == ScanPass(identifier, SkipK95PlatAnsi)
    ensures IsNextAccepted(identifier, next, SkipK95PlatAnsi)
  {
    var skip := SkipK95PlatAnsi;
    next := identifier;
    for k := 0 to |skip|
      invariant next == ScanPass(identifier, skip[..k])
    {
      assert skip[..k + 1][..k] == skip[..k];
      if next == skip[k] {
        next := next + 1;
      }
    }
    assert skip[..|skip|] == skip;
    SkipListAscending();
    ScanPassFindsNextAccepted(identifier, skip);
  }

  /** One pass of the inner loop: the accepted value `v` the scan found fits in a
      byte, so the truncated `id` written is `v` itself; it extends both what was
      written and the packet being filled. */
  lemma FillStep(written: seq<Byte>, row: seq<Byte>, from: nat, v: nat, id: Byte, buf: seq<Byte>)
    requires written + row == AcceptedBelow(from, SkipK95PlatAnsi)
    requires |row| < IdentifiersPerPacket && |written| + IdentifiersPerPacket <= WalkLength
    requires IsNextAccepted(from, v, SkipK95PlatAnsi)
    requires id == ToByte(v)
    requires buf == IdentifierPacket(row)
    ensures id == v
    ensures written + (row + [id]) == AcceptedBelow(v + 1, SkipK95PlatAnsi)
    ensures PutIdentifier(buf, |row|, id) == IdentifierPacket(row + [id])
  {
    WalkStep(written + row, from, v);
    assert written + (row + [id]) == written + row + [id];
    IdentifierPacketAppend(row, id);
  }

  /** The inner loop of main.cpp:210-227 for one packet: thirty times, scan the skip
      list, write the identifier (truncated to a byte) and its flag into the next
      pair, and move the counter on. Starting where `written` left off, it writes the
      next thirty accepted identifiers. */
  method FillPacket(start: nat, ghost written: seq<Byte>) returns (buf: seq<Byte>, identifier: nat, row: seq<Byte>)
    requires written == AcceptedBelow(start, SkipK95PlatAnsi)
    requires |written| + IdentifiersPerPacket <= WalkLength
    ensures |row| == IdentifiersPerPacket
    ensures written + row == AcceptedBelow(identifier, SkipK95PlatAnsi)
    ensures buf == IdentifierPacket(row)
  {
    buf := Blank()[0 := 0][1 := CommandWrite][2 := IdentifierSelector][3 := IdentifiersPerPacket];
    identifier := start;
    row := [];
    assert buf == IdentifierPacket(row);
    for j := 0 to IdentifiersPerPacket
      invariant |row| == j
      invariant written + row == AcceptedBelow(identifier, SkipK95PlatAnsi)
      invariant buf == IdentifierPacket(row)
    {
      ghost var from := identifier;
      identifier := SkipScan(identifier);
      var id := ToByte(identifier);
      FillStep(written, row, from, identifier, id, buf);
      buf := PutIdentifier(buf, j, id);
      row := row + [id];
      identifier := identifier + 1;
    }
  }

  /** The packet loop of main.cpp:203-233 as written: a counter that starts at 0 and
      carries over from packet to packet, four packets of thirty identifiers each. It
      produces exactly the reference table. */
  method WalkIdentifierPackets() returns (packets: seq<seq<Byte>>)
    ensures packets == IdentifierTable(WalkIdentifiers())
  {
    packets := [];
    var identifier: nat := 0;
    ghost var written: seq<Byte> := [];
    for i := 0 to IdentifierPackets
      invariant |written| == 30 * i
      invariant written == AcceptedBelow(identifier, SkipK95PlatAnsi)
      invariant |packets| == i
      invariant forall p | 0 <= p < i :: packets[p] == IdentifierPacket(written[30 * p..30 * p + 30])
    {
      var buf, row;
      buf, identifier, row := FillPacket(identifier, written);
      WrittenSlices(written, row, i);
      written := written + row;
      packets := packets + [buf];
    }
    WalkComplete(written, identifier);
    TableOfSlices(written, packets);
  }
}
