/**
 * The routing advertisement of router-01: an IPv6 header addressed to
 * ff02::1 with next header 2, a routing header (sender address and a
 * big-endian record count), and the routing table's entries copied as raw
 * `struct route_entry` records whose metric alone is put in network order.
 */
module Advertisement {
  import opened Bytes
  import opened Ipv6
  import opened RoutingTable
  import Slip

  /** sizeof(struct routing_packet_header): the sender address and a 32-bit count. */
  const RoutingHeaderSize: nat := 20
  /** Offset of the first record: IPv6 header plus routing header. */
  const RecordsOffset: nat := 60
  /** Bytes of a record that have a fixed meaning: prefix, gateway and metric. */
  const RouteFields: nat := 36
  /** Hop limit of an advertisement: neighbours only. */
  const AdvertisementHopLimit: byte := 1

  /**
   * The record size, sizeof(struct route_entry), which depends on the ABI:
   * the advertisement copies the struct verbatim.
   */
  datatype Layout = Layout(recordSize: nat)

  predicate ValidLayout(l: Layout)
  {
    l.recordSize >= RouteFields
  }

  /** The x86-64 record: 36 bytes of fields, 4 of padding, an 8-byte time_t, a 4-byte int and 4 of padding. */
  const X86_64: Layout := Layout(56)

  /**
   * The `width` bytes that follow the metric in a record: padding, the
   * host-order timestamp and is_direct. No receiver reads them; they are
   * taken as zeros.
   */
  function HostFields(width: nat): (b: seq<byte>)
    ensures |b| == width
  {
    seq(width, _ => 0)
  }

  /** The bytes taken by `k` records of `n` bytes each. */
  function Span(k: nat, n: nat): nat
  {
    if k == 0 then 0 else Span(k - 1, n) + n
  }

  lemma {:induction false} SpanIsProduct(k: nat, n: nat)
    ensures Span(k, n) == k * n
  {
    if k > 0 {
      SpanIsProduct(k - 1, n);
      assert (k - 1) * n + n == k * n;
    }
  }

  // ---------------------------------------------------------------------------
  // Building an advertisement (timer_thread)
  // ---------------------------------------------------------------------------

  /** One entry as it goes on the wire: prefix, gateway, htonl(metric), then host bytes. */
  function RecordBytes(r: Route, l: Layout): (b: seq<byte>)
    requires ValidLayout(l)
    ensures |b| == l.recordSize
    ensures b[..16] == r.prefix && b[16..32] == r.gateway && ReadBe32(b[32..36]) == r.metric
  {
    Be32RoundTrip(r.metric);
    var b := r.prefix + r.gateway + Be32(r.metric) + HostFields(l.recordSize - RouteFields);
    assert b[32..36] == Be32(r.metric);
    b
  }

  /** The records of `rs`, in table order. */
  function Records(rs: seq<Route>, l: Layout): (b: seq<byte>)
    requires ValidLayout(l)
    ensures |b| == Span(|rs|, l.recordSize)
  {
    if rs == [] then [] else Records(rs[..|rs| - 1], l) + RecordBytes(rs[|rs| - 1], l)
  }

  /**
   * The fixed header of an advertisement sent from `src`: version 6, zero
   * traffic class and flow label, the payload length as htons truncates it,
   * next header 2, hop limit 1, destination ff02::1.
   */
  function Header(src: Address, payloadLength: int): (h: seq<byte>)
    ensures |h| == HeaderSize
  {
    [0x60, 0, 0, 0] + Be16(payloadLength % 0x1_0000) + [RoutingProtocol, AdvertisementHopLimit] + src + AllNodes
  }

  /** The advertisement timer_thread sends on the interface with address `src`. */
  function Announcement(src: Address, rs: seq<Route>, l: Layout): (p: seq<byte>)
    requires ValidLayout(l) && |rs| < 0x1_0000_0000
    ensures |p| == RecordsOffset + Span(|rs|, l.recordSize)
  {
    var size := RecordsOffset + Span(|rs|, l.recordSize);
    Header(src, size - HeaderSize) + src + Be32(|rs|) + Records(rs, l)
  }

  /**
   * Every field of the advertisement as the receiver reads it: version byte
   * 0x60, payload length = size - 40 (mod 2^16), next header 2, hop limit 1,
   * source and sender both the interface address, destination ff02::1, the
   * record count in network order, then the records.
   */
  lemma AnnouncementFields(src: Address, rs: seq<Route>, l: Layout)
    requires ValidLayout(l) && |rs| < 0x1_0000_0000
    ensures var p := Announcement(src, rs, l);
      && p[0] == 0x60 && p[1] == 0 && p[2] == 0 && p[3] == 0
      && PayloadLength(p) == (|p| - HeaderSize) % 0x1_0000
      && NextHeader(p) == RoutingProtocol && HopLimit(p) == AdvertisementHopLimit
      && Source(p) == src && Destination(p) == AllNodes
      && p[HeaderSize..HeaderSize + 16] == src
      && ReadBe32(p[56..RecordsOffset]) == |rs|
      && p[RecordsOffset..] == Records(rs, l)
  {
    var p := Announcement(src, rs, l);
    var size := RecordsOffset + Span(|rs|, l.recordSize);
    var h := Header(src, size - HeaderSize);
    HeaderFields(src, size - HeaderSize);
    assert p[..HeaderSize] == h;
    assert p[4..6] == h[4..6] && p[8..24] == h[8..24] && p[24..40] == h[24..40];
    assert p[HeaderSize..HeaderSize + 16] == src;
    assert ReadBe32(p[56..RecordsOffset]) == |rs| by {
      Be32RoundTrip(|rs|);
      assert p[56..RecordsOffset] == Be32(|rs|);
    }
  }

  lemma HeaderFields(src: Address, payloadLength: int)
    ensures var h := Header(src, payloadLength);
      && h[0] == 0x60 && h[1] == 0 && h[2] == 0 && h[3] == 0
      && ReadBe16(h[4..6]) == payloadLength % 0x1_0000
      && h[6] == RoutingProtocol && h[7] == AdvertisementHopLimit
      && h[8..24] == src && h[24..40] == AllNodes
  {
    var h := Header(src, payloadLength);
    assert h[4..6] == Be16(payloadLength % 0x1_0000);
    Be16RoundTrip(payloadLength % 0x1_0000);
    assert h[8..24] == src;
    assert h[24..40] == AllNodes;
  }

  /** A table that fits MaxRoutes entries never makes htons truncate the length. */
  lemma AnnouncementLengthExact(src: Address, rs: seq<Route>)
    requires |rs| <= MaxRoutes
    ensures PayloadLength(Announcement(src, rs, X86_64)) == |Announcement(src, rs, X86_64)| - HeaderSize
  {
    var p := Announcement(src, rs, X86_64);
    assert PayloadLength(p) == (|p| - HeaderSize) % 0x1_0000 by {
      AnnouncementFields(src, rs, X86_64);
    }
    assert |p| - HeaderSize < 0x1_0000 by {
      SpanIsProduct(|rs|, 56);
    }
  }

  /**
   * With the x86-64 record, an advertisement of 16 routes fits a SLIP send
   * and one of 17 or more does not: write_slip_data refuses it, so it never
   * leaves the router.
   */
  lemma LargeAnnouncementNotSendable(src: Address, rs: seq<Route>)
    requires |rs| < 0x1_0000_0000
    ensures |rs| <= 16 ==> |Announcement(src, rs, X86_64)| <= Slip.MaxSlipSend
    ensures |rs| >= 17 ==> |Announcement(src, rs, X86_64)| > Slip.MaxSlipSend
  {
    SpanIsProduct(|rs|, 56);
  }

  lemma {:induction false} RecordsCons(r: Route, rs: seq<Route>, l: Layout)
    requires ValidLayout(l)
    ensures Records([r] + rs, l) == RecordBytes(r, l) + Records(rs, l)
    decreases |rs|
  {
    if rs == [] {
      assert ([r] + rs)[..0] == [];
    } else {
      var front, last := rs[..|rs| - 1], rs[|rs| - 1];
      var s := [r] + rs;
      calc {
        Records(s, l);
        { assert s[..|s| - 1] == [r] + front && s[|s| - 1] == last; }
        Records([r] + front, l) + RecordBytes(last, l);
        { RecordsCons(r, front, l); }
        RecordBytes(r, l) + Records(front, l) + RecordBytes(last, l);
        RecordBytes(r, l) + (Records(front, l) + RecordBytes(last, l));
        RecordBytes(r, l) + Records(rs, l);
      }
    }
  }

  /** The entry loop of timer_thread followed by the three memcpy calls that assemble the packet. */
  method BuildAnnouncement(src: Address, entries: seq<Route>, l: Layout) returns (packet: seq<byte>)
    requires ValidLayout(l) && |entries| < 0x1_0000_0000
    ensures packet == Announcement(src, entries, l)
  {
    var size := RecordsOffset + Span(|entries|, l.recordSize);
    var header := Header(src, size - HeaderSize);
    var routingHeader := src + Be32(|entries|);
    var records := [];
    var j := 0;
    while j < |entries|
      invariant 0 <= j <= |entries|
      invariant records == Records(entries[..j], l)
    {
      records := records + RecordBytes(entries[j], l);
      assert entries[..j + 1][..j] == entries[..j];
      j := j + 1;
    }
    assert entries[..j] == entries;
    packet := header + routingHeader + records;
  }

  // ---------------------------------------------------------------------------
  // Reading an advertisement (process_routing_packet)
  // ---------------------------------------------------------------------------

  /** An advertised route as the receiver reads it: the destination and the metric. */
  datatype Offer = Offer(dest: Address, metric: uint32)

  /** The (prefix, metric) pairs a table advertises. */
  function Offers(rs: seq<Route>): (o: seq<Offer>)
    ensures |o| == |rs|
    ensures forall k :: 0 <= k < |rs| ==> o[k] == Offer(rs[k].prefix, rs[k].metric)
  {
    if rs == [] then [] else [Offer(rs[0].prefix, rs[0].metric)] + Offers(rs[1..])
  }

  /**
   * The records that follow the routing header, read one record size at a
   * time while the advertised count lasts and a whole record remains.
   */
  function ParseRecords(body: seq<byte>, count: nat, l: Layout): (o: seq<Offer>)
    requires ValidLayout(l)
    ensures |o| <= count
    decreases count
  {
    if count == 0 || |body| < l.recordSize then []
    else [Offer(body[..16], ReadBe32(body[32..36]))] + ParseRecords(body[l.recordSize..], count - 1, l)
  }

  /**
   * process_routing_packet's reading of a received buffer: nothing when it is
   * shorter than the headers plus one record, otherwise the records up to the
   * advertised count or the end of the buffer, whichever comes first.
   */
  function Advertised(pkt: seq<byte>, l: Layout): (o: seq<Offer>)
    requires ValidLayout(l)
    ensures o != [] ==> |pkt| >= RecordsOffset + l.recordSize && |o| <= ReadBe32(pkt[56..RecordsOffset])
  {
    if |pkt| < RecordsOffset + l.recordSize then []
    else ParseRecords(pkt[RecordsOffset..], ReadBe32(pkt[56..RecordsOffset]), l)
  }

  /**
   * The parse stops at the advertised count or when less than a record
   * remains, whichever comes first, which is the loop bound
   * `i < num_advertised && i < max_routes`; it never reads past the buffer.
   */
  lemma {:induction false} ParseRecordsCount(body: seq<byte>, count: nat, l: Layout)
    requires ValidLayout(l)
    ensures var k := |ParseRecords(body, count, l)|;
      && k <= count && Span(k, l.recordSize) <= |body|
      && (k == count || |body| - Span(k, l.recordSize) < l.recordSize)
    decreases count
  {
    if count > 0 && |body| >= l.recordSize {
      var rest := body[l.recordSize..];
      ParseRecordsCount(rest, count - 1, l);
    }
  }

  /** A slice of a suffix is a slice of the whole, shifted by where the suffix starts. */
  lemma SliceOfSuffix(s: seq<byte>, n: nat, a: nat, b: nat)
    requires a <= b && n + b <= |s|
    ensures s[n..][a..b] == s[n + a..n + b]
  {
  }

  /** The first record of a non-empty parse is read from the start of the buffer. */
  lemma ParseFirst(body: seq<byte>, count: nat, l: Layout)
    requires ValidLayout(l) && 0 < |ParseRecords(body, count, l)|
    ensures l.recordSize <= |body|
    ensures ParseRecords(body, count, l)[0] == Offer(body[0..16], ReadBe32(body[32..36]))
  {
  }

  /** Past the first i records, the parse goes on in the rest of the buffer with i records fewer to read. */
  lemma {:induction false} ParseDrop(body: seq<byte>, count: nat, l: Layout, i: nat)
    requires ValidLayout(l) && i <= |ParseRecords(body, count, l)|
    ensures i <= count && Span(i, l.recordSize) <= |body|
    ensures ParseRecords(body, count, l)[i..] == ParseRecords(body[Span(i, l.recordSize)..], count - i, l)
    decreases i
  {
    var n := l.recordSize;
    var o := ParseRecords(body, count, l);
    if i == 0 {
      assert o[0..] == o && body[0..] == body;
    } else {
      var j := Span(i - 1, n);
      ParseDrop(body, count, l, i - 1);
      var tail := body[j..];
      assert ParseRecords(tail, count - (i - 1), l) == [o[i - 1]] + o[i..] by {
        assert o[i - 1..] == [o[i - 1]] + o[i..];
      }
      assert o[i..] == ParseRecords(tail[n..], count - i, l);
      assert tail[n..] == body[Span(i, n)..];
    }
  }

  /** Record i of the parse is the one that starts i records into the buffer. */
  lemma ParseRecordAt(body: seq<byte>, count: nat, l: Layout, i: nat)
    requires ValidLayout(l) && i < |ParseRecords(body, count, l)|
    ensures Span(i + 1, l.recordSize) <= |body|
    ensures var at := Span(i, l.recordSize);
      ParseRecords(body, count, l)[i] == Offer(body[at..at + 16], ReadBe32(body[at + 32..at + 36]))
  {
    var at := Span(i, l.recordSize);
    var o := ParseRecords(body, count, l);
    ParseDrop(body, count, l, i);
    var rest := body[at..];
    assert o[i] == ParseRecords(rest, count - i, l)[0] by {
      assert o[i] == o[i..][0];
    }
    ParseFirst(rest, count - i, l);
    SliceOfSuffix(body, at, 0, 16);
    SliceOfSuffix(body, at, 32, 36);
  }

  /**
   * Parsing back what timer_thread wrote: the records of a non-empty
   * snapshot give its (prefix, metric) list, in order.
   */
  lemma AnnouncementRoundTrip(src: Address, rs: seq<Route>, l: Layout)
    requires ValidLayout(l) && 0 < |rs| < 0x1_0000_0000
    ensures Advertised(Announcement(src, rs, l), l) == Offers(rs)
  {
    var p := Announcement(src, rs, l);
    assert |p| >= RecordsOffset + l.recordSize by {
      assert Span(|rs|, l.recordSize) == Span(|rs| - 1, l.recordSize) + l.recordSize;
    }
    var count, body := ReadBe32(p[56..RecordsOffset]), p[RecordsOffset..];
    assert Advertised(p, l) == ParseRecords(body, count, l);
    assert count == |rs| && body == Records(rs, l) by {
      AnnouncementFields(src, rs, l);
    }
    assert ParseRecords(body, count, l) == Offers(rs) by {
      RecordsRoundTrip(rs, l);
    }
  }

  /** An empty snapshot yields a buffer too short to be processed: the receiver learns nothing. */
  lemma EmptyAnnouncementIgnored(src: Address, l: Layout)
    requires ValidLayout(l)
    ensures |Announcement(src, [], l)| == RecordsOffset
    ensures Advertised(Announcement(src, [], l), l) == []
  {
  }

  /** Reading one record off the front of the buffer. */
  lemma ParseCons(r: Route, rest: seq<byte>, count: nat, l: Layout)
    requires ValidLayout(l)
    ensures ParseRecords(RecordBytes(r, l) + rest, count + 1, l) == [Offer(r.prefix, r.metric)] + ParseRecords(rest, count, l)
  {
    var rb := RecordBytes(r, l);
    var b := rb + rest;
    assert b[..16] == rb[..16];
    assert b[32..36] == rb[32..36];
    assert b[l.recordSize..] == rest;
  }

  lemma {:induction false} RecordsRoundTrip(rs: seq<Route>, l: Layout)
    requires ValidLayout(l)
    ensures ParseRecords(Records(rs, l), |rs|, l) == Offers(rs)
    decreases |rs|
  {
    if rs != [] {
      var r, tail := rs[0], rs[1..];
      assert rs == [r] + tail;
      RecordsCons(r, tail, l);
      RecordsRoundTrip(tail, l);
      ParseCons(r, Records(tail, l), |tail|, l);
    }
  }
}
