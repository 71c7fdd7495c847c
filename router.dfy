/**
 * The packet path of router-01: data_handler classifies each packet that
 * SLIP delivers, process_routing_packet feeds an advertisement's records to
 * update_routing_table, forward_packet queues a hop-limit-decremented copy on
 * the arrival interface, and one round of timer_thread ages the table and
 * advertises it on every interface.
 */
module Router {
  import opened Bytes
  import opened Ipv6
  import opened RoutingTable
  import opened Advertisement
  import opened Scheduler
  import Slip

  /** What data_handler does with a packet. */
  datatype Verdict =
    | TooShort          // shorter than the IPv6 header: dropped
    | RoutingUpdate     // for this router, next header 2: processed as an advertisement
    | NotRouting        // for this router, any other protocol: dropped
    | HopLimitReached   // not for this router, hop limit 0 or 1: dropped
    | Forward(copy: seq<byte>)  // not for this router: this copy is queued on the arrival interface

  /** data_handler's decision, with forward_packet's hop-limit test and copy. */
  function Classify(pkt: seq<byte>, locals: seq<Address>): (v: Verdict)
    ensures v.Forward? ==> |pkt| >= HeaderSize && pkt[7] > 1 && v.copy == Decremented(pkt)
  {
    if |pkt| < HeaderSize then TooShort
    else if IsForRouter(Destination(pkt), locals) then
      if NextHeader(pkt) == RoutingProtocol then RoutingUpdate else NotRouting
    else if HopLimit(pkt) <= 1 then HopLimitReached
    else Forward(Decremented(pkt))
  }

  /**
   * A packet is forwarded exactly when it is a whole header, not addressed
   * to this router, and its hop limit is above 1; the copy then differs from
   * the packet in the hop limit alone, which is one less.
   */
  lemma ForwardCharacterised(pkt: seq<byte>, locals: seq<Address>)
    ensures Classify(pkt, locals).Forward? <==>
      |pkt| >= HeaderSize && !IsForRouter(pkt[24..40], locals) && pkt[7] > 1
    ensures Classify(pkt, locals).Forward? ==>
      var c := Classify(pkt, locals).copy;
      && |c| == |pkt| && c[7] == pkt[7] - 1
      && forall i :: 0 <= i < |pkt| && i != 7 ==> c[i] == pkt[i]
  {
  }

  /** Packets for this router are never forwarded; routing packets among them are processed. */
  lemma LocalPacketsStay(pkt: seq<byte>, locals: seq<Address>)
    requires |pkt| >= HeaderSize && (pkt[24..40] in locals || pkt[24..40] == AllNodes)
    ensures !Classify(pkt, locals).Forward?
    ensures Classify(pkt, locals) == RoutingUpdate <==> pkt[6] == RoutingProtocol
  {
  }

  /** A packet whose hop limit would reach zero is dropped, never forwarded (section 3 of RFC 8200). */
  lemma ExpiringPacketsDropped(pkt: seq<byte>, locals: seq<Address>)
    requires |pkt| >= HeaderSize && pkt[7] <= 1
    ensures !Classify(pkt, locals).Forward?
  {
  }

  // ---------------------------------------------------------------------------
  // Learning from an advertisement
  // ---------------------------------------------------------------------------

  /**
   * The table after process_routing_packet has called update_routing_table
   * for each offer in order: gateway the packet's source, metric the
   * advertised one plus one in uint32 arithmetic, learned (not direct).
   */
  function ApplyOffers(t: seq<Route>, offers: seq<Offer>, src: Address, now: int): (r: seq<Route>)
    ensures |t| <= |r|
    ensures |t| <= MaxRoutes ==> |r| <= MaxRoutes
  {
    if offers == [] then t
    else
      var o := offers[|offers| - 1];
      Updated(ApplyOffers(t, offers[..|offers| - 1], src, now), o.dest, src, Inc32(o.metric), false, now)
  }

  /** Applying the first i + 1 offers is applying the first i, then offer i. */
  lemma ApplyOffersStep(t: seq<Route>, offers: seq<Offer>, src: Address, now: int, i: nat)
    requires i < |offers|
    ensures ApplyOffers(t, offers[..i + 1], src, now)
      == Updated(ApplyOffers(t, offers[..i], src, now), offers[i].dest, src, Inc32(offers[i].metric), false, now)
  {
    assert offers[..i + 1][..i] == offers[..i];
  }

  lemma {:induction false} ApplyOffersPreservesWellFormed(t: seq<Route>, offers: seq<Offer>, src: Address, now: int)
    requires WellFormed(t)
    ensures WellFormed(ApplyOffers(t, offers, src, now))
    decreases |offers|
  {
    if offers != [] {
      var o := offers[|offers| - 1];
      ApplyOffersPreservesWellFormed(t, offers[..|offers| - 1], src, now);
      UpdatePreservesWellFormed(ApplyOffers(t, offers[..|offers| - 1], src, now), o.dest, src, Inc32(o.metric), false, now);
    }
  }

  /** `r` keeps every entry of `t` in its network with a metric no higher, and does not shrink. */
  ghost predicate NoWorse(t: seq<Route>, r: seq<Route>)
  {
    && |t| <= |r|
    && (forall k :: 0 <= k < |t| ==> SamePrefix(r[k].prefix, t[k].prefix))
    && forall k :: 0 <= k < |t| ==> r[k].metric <= t[k].metric
  }

  lemma NoWorseTransitive(a: seq<Route>, b: seq<Route>, c: seq<Route>)
    requires NoWorse(a, b) && NoWorse(b, c)
    ensures NoWorse(a, c)
  {
    forall k | 0 <= k < |a| ensures SamePrefix(c[k].prefix, a[k].prefix) {
      assert c[k].prefix[..PrefixBytes] == b[k].prefix[..PrefixBytes] == a[k].prefix[..PrefixBytes];
    }
  }

  /** An advertisement never removes a route, moves it to another network or raises its metric. */
  lemma {:induction false} ApplyOffersNeverWorsens(t: seq<Route>, offers: seq<Offer>, src: Address, now: int)
    ensures NoWorse(t, ApplyOffers(t, offers, src, now))
    decreases |offers|
  {
    if offers != [] {
      var o := offers[|offers| - 1];
      var mid := ApplyOffers(t, offers[..|offers| - 1], src, now);
      ApplyOffersNeverWorsens(t, offers[..|offers| - 1], src, now);
      UpdateNeverWorsens(mid, o.dest, src, Inc32(o.metric), false, now);
      NoWorseTransitive(t, mid, ApplyOffers(t, offers, src, now));
    } else {
      assert forall k :: 0 <= k < |t| ==> t[k].prefix[..PrefixBytes] == t[k].prefix[..PrefixBytes];
    }
  }

  /** The table has an entry in the network of `dest` whose metric is at most `m`. */
  ghost predicate HasRouteWithin(t: seq<Route>, dest: Address, m: int)
  {
    exists j :: 0 <= j < |t| && SamePrefix(t[j].prefix, dest) && t[j].metric <= m
  }

  /** After one update of a known network, or one with room to spare, the network has a route no worse than the offer. */
  lemma UpdateOffersRoute(t: seq<Route>, dest: Address, gateway: Address, metric: uint32, isDirect: bool, now: int)
    requires |t| < MaxRoutes || Find(t, Prefix(dest)) < |t|
    ensures HasRouteWithin(Updated(t, dest, gateway, metric, isDirect, now), dest, metric)
  {
    var p := Prefix(dest);
    var i := Find(t, p);
    var r := Updated(t, dest, gateway, metric, isDirect, now);
    PrefixSameNetwork(dest);
    if i < |t| {
      assert r[i].prefix[..PrefixBytes] == t[i].prefix[..PrefixBytes] == p[..PrefixBytes] == dest[..PrefixBytes];
      assert SamePrefix(r[i].prefix, dest) && r[i].metric <= metric;
    } else {
      assert r[|t|].prefix == p;
      assert SamePrefix(r[|t|].prefix, dest);
    }
  }

  /** A network in the table stays in it. */
  lemma FindKept(t: seq<Route>, r: seq<Route>, p: Address)
    requires Find(t, p) < |t| && NoWorse(t, r)
    ensures Find(r, p) < |r|
  {
    var j := Find(t, p);
    assert r[j].prefix[..PrefixBytes] == t[j].prefix[..PrefixBytes] == p[..PrefixBytes];
    assert SamePrefix(r[j].prefix, p);
  }

  lemma HasRouteWithinKept(t: seq<Route>, r: seq<Route>, dest: Address, m: int)
    requires HasRouteWithin(t, dest, m) && NoWorse(t, r)
    ensures HasRouteWithin(r, dest, m)
  {
    var j :| 0 <= j < |t| && SamePrefix(t[j].prefix, dest) && t[j].metric <= m;
    assert r[j].prefix[..PrefixBytes] == t[j].prefix[..PrefixBytes] == dest[..PrefixBytes];
  }

  /**
   * Distance-vector relaxation: when the offered network is already known,
   * or the table has room for every offer, after an advertisement the
   * network has a route whose metric is at most the advertised metric plus one.
   */
  lemma {:induction false} ApplyOffersRelaxes(t: seq<Route>, offers: seq<Offer>, src: Address, now: int, k: nat)
    requires k < |offers|
    requires |t| + |offers| <= MaxRoutes || Find(t, Prefix(offers[k].dest)) < |t|
    ensures HasRouteWithin(ApplyOffers(t, offers, src, now), offers[k].dest, Inc32(offers[k].metric))
    decreases |offers|
  {
    var front := offers[..|offers| - 1];
    var o := offers[|offers| - 1];
    var mid := ApplyOffers(t, front, src, now);
    ApplyOffersGrowth(t, front, src, now);
    if k == |offers| - 1 {
      if |t| + |offers| > MaxRoutes {
        ApplyOffersNeverWorsens(t, front, src, now);
        FindKept(t, mid, Prefix(o.dest));
      }
      UpdateOffersRoute(mid, o.dest, src, Inc32(o.metric), false, now);
    } else {
      ApplyOffersRelaxes(t, front, src, now, k);
      UpdateNeverWorsens(mid, o.dest, src, Inc32(o.metric), false, now);
      HasRouteWithinKept(mid, ApplyOffers(t, offers, src, now), offers[k].dest, Inc32(offers[k].metric));
    }
  }

  /** Each offer adds at most one entry. */
  lemma {:induction false} ApplyOffersGrowth(t: seq<Route>, offers: seq<Offer>, src: Address, now: int)
    ensures |ApplyOffers(t, offers, src, now)| <= |t| + |offers|
    decreases |offers|
  {
    if offers != [] {
      var o := offers[|offers| - 1];
      ApplyOffersGrowth(t, offers[..|offers| - 1], src, now);
      UpdateNeverWorsens(ApplyOffers(t, offers[..|offers| - 1], src, now), o.dest, src, Inc32(o.metric), false, now);
    }
  }

  /**
   * The uint32 wrap: a neighbour advertising metric 0xFFFFFFFF for a directly
   * connected network makes the offer metric 0, equal to the direct route's,
   * so the route keeps its age but becomes a learned route via the neighbour,
   * and once it is older than MaxAge the sweep removes it.
   */
  lemma WrappedMetricDemotesDirectRoute(t: seq<Route>, i: nat, dest: Address, src: Address, now: int, later: int)
    requires WellFormed(t) && i < |t| && t[i].isDirect && t[i].metric == 0
    requires SamePrefix(t[i].prefix, dest) && later - t[i].timestamp > MaxAge
    ensures var r := ApplyOffers(t, [Offer(dest, 0xFFFF_FFFF)], src, now);
      && |r| == |t| && !r[i].isDirect && r[i].gateway == src && r[i].timestamp == t[i].timestamp
      && r[i] !in Survivors(r, later)
  {
    var r := ApplyOffers(t, [Offer(dest, 0xFFFF_FFFF)], src, now);
    assert [Offer(dest, 0xFFFF_FFFF)][..0] == [];
    forall j | 0 <= j < i ensures !SamePrefix(t[j].prefix, dest) {
      assert t[j].prefix[..PrefixBytes] != t[i].prefix[..PrefixBytes];
    }
    UpdateKnownNetwork(t, dest, src, 0, false, now, i);
    SurvivorsAreUnexpired(r, later);
  }

  /**
   * The textbook exchange: a router with interfaces 2001:db8:1::1 and
   * 2001:db8:2::1 hears 2001:db8:1::2 advertise 2001:db8:3:: at metric 0,
   * and learns 2001:db8:3::/64 at metric 1 via 2001:db8:1::2.
   */
  lemma NeighbourAdvertisement(now: int, later: int)
    ensures var t := InitialRoutes([Net(1, 1), Net(2, 1)], now);
      ApplyOffers(t, [Offer(Net(3, 0), 0)], Net(1, 2), later)
        == t + [Route(Net(3, 0), Net(1, 2), 1, later, false)]
  {
    var t := InitialRoutes([Net(1, 1), Net(2, 1)], now);
    assert [Offer(Net(3, 0), 0)][..0] == [];
    forall j | 0 <= j < |t| ensures !SamePrefix(t[j].prefix, Net(3, 0)) {
      assert t[j].prefix[..PrefixBytes][5] != Net(3, 0)[..PrefixBytes][5];
    }
    UpdateUnknownNetwork(t, Net(3, 0), Net(1, 2), 1, false, later);
    assert Prefix(Net(3, 0)) == Net(3, 0);
  }

  /** 2001:db8:`net`::`host`, for the example above. */
  function Net(net: byte, host: byte): Address
  {
    [0x20, 0x01, 0x0d, 0xb8, 0, net, 0, 0, 0, 0, 0, 0, 0, 0, 0, host]
  }

  /** Multiplying by a positive record size keeps whole records apart. */
  lemma {:induction false} MulStrictlyMonotone(a: nat, b: nat, n: nat)
    ensures a < b ==> a * n + n <= b * n
    decreases b
  {
    if a < b {
      assert b * n == (b - 1) * n + n;
      if a < b - 1 {
        MulStrictlyMonotone(a, b - 1, n);
      }
    }
  }

  /** The quotient m / n is the k with k * n <= m < k * n + n. */
  lemma QuotientIs(m: nat, n: nat, k: nat)
    requires n > 0 && k * n <= m && m < k * n + n
    ensures m / n == k
  {
    var q := m / n;
    assert q * n <= m < q * n + n;
    MulStrictlyMonotone(q, k, n);
    MulStrictlyMonotone(k, q, n);
  }

  lemma QuotientAtLeast(m: nat, n: nat, k: nat)
    requires n > 0 && k * n <= m
    ensures k <= m / n
  {
    var q := m / n;
    assert m < q * n + n;
    MulStrictlyMonotone(q, k, n);
  }

  /**
   * The number of records process_routing_packet reads from a buffer of at
   * least one record: min(num_advertised, max_routes), with max_routes =
   * (numbytes - 60) / sizeof(struct route_entry); record i starts 60 + i * size
   * bytes in.
   */
  lemma AdvertisedLayout(pkt: seq<byte>, l: Layout)
    requires ValidLayout(l) && |pkt| >= RecordsOffset + l.recordSize
    ensures var num, maxRoutes := ReadBe32(pkt[56..RecordsOffset]), (|pkt| - RecordsOffset) / l.recordSize;
      |Advertised(pkt, l)| == if num < maxRoutes then num else maxRoutes
  {
    var body := pkt[RecordsOffset..];
    var num := ReadBe32(pkt[56..RecordsOffset]);
    var n := l.recordSize;
    var k := |ParseRecords(body, num, l)|;
    ParseRecordsCount(body, num, l);
    SpanIsProduct(k, n);
    QuotientAtLeast(|body|, n, k);
    if k < num {
      QuotientIs(|body|, n, k);
    }
  }

  /** Record i of an advertisement starts i records after the routing header. */
  lemma AdvertisedRecord(pkt: seq<byte>, l: Layout, i: nat)
    requires ValidLayout(l) && |pkt| >= RecordsOffset + l.recordSize && i < |Advertised(pkt, l)|
    ensures var at := RecordsOffset + Span(i, l.recordSize);
      && at + l.recordSize <= |pkt|
      && Advertised(pkt, l)[i] == Offer(pkt[at..at + 16], ReadBe32(pkt[at + 32..at + 36]))
  {
    var body := pkt[RecordsOffset..];
    ParseRecordAt(body, ReadBe32(pkt[56..RecordsOffset]), l, i);
    var j := Span(i, l.recordSize);
    assert body[j..j + 16] == pkt[RecordsOffset + j..RecordsOffset + j + 16];
    assert body[j + 32..j + 36] == pkt[RecordsOffset + j + 32..RecordsOffset + j + 36];
  }

  // ---------------------------------------------------------------------------
  // The router's state and its entry points
  // ---------------------------------------------------------------------------

  /** The globals of router-01: sim_addrs, the routing table and the send slots. */
  class Router {
    const locals: seq<Address>
    const layout: Layout
    const table: Table
    const slots: SendSlots

    ghost predicate Valid()
      reads this, table, slots
    {
      table.Valid() && slots.Valid() && |locals| <= Slip.MaxTtys && ValidLayout(layout)
    }

    /** Start-up: the table of direct routes (as many as fit) and all send slots idle. */
    constructor (addrs: seq<Address>, l: Layout, now: int)
      requires |addrs| <= Slip.MaxTtys && ValidLayout(l)
      ensures Valid() && locals == addrs && layout == l
      ensures fresh(table) && fresh(table.routes) && fresh(slots) && fresh(slots.slots)
      ensures table.Contents() == InitialRoutes(addrs, now)
      ensures forall fd :: 0 <= fd < slots.slots.Length ==> slots.slots[fd] == Idle
    {
      locals := addrs;
      layout := l;
      table := new Table(addrs, now);
      slots := new SendSlots();
    }

    /** process_routing_packet for a buffer `pkt` whose IPv6 source is `src`. */
    method ProcessRoutingPacket(pkt: seq<byte>, src: Address, now: int)
      requires Valid()
      modifies table, table.routes
      ensures Valid()
      ensures table.Contents() == ApplyOffers(old(table.Contents()), Advertised(pkt, layout), src, now)
    {
      if |pkt| < HeaderSize + RoutingHeaderSize + layout.recordSize {
        assert Advertised(pkt, layout) == [];
        return;
      }
      var numAdvertised := ReadBe32(pkt[56..RecordsOffset]);
      var maxRoutes := (|pkt| - HeaderSize - RoutingHeaderSize) / layout.recordSize;
      ghost var offers := Advertised(pkt, layout);
      ghost var t0 := table.Contents();
      assert |offers| == if numAdvertised < maxRoutes then numAdvertised else maxRoutes by {
        AdvertisedLayout(pkt, layout);
      }
      var i, at := 0, RecordsOffset;
      while i < numAdvertised && i < maxRoutes
        invariant Valid() && i <= |offers| && at == RecordsOffset + Span(i, layout.recordSize)
        invariant table.Contents() == ApplyOffers(t0, offers[..i], src, now)
      {
        LearnRecord(pkt, src, now, i, at, t0);
        i, at := i + 1, at + layout.recordSize;
      }
      assert i == |offers|;
      assert offers[..i] == offers;
    }

    /**
     * One pass of process_routing_packet's loop: the record at offset `at`,
     * advertised_routes[i], goes to update_routing_table.
     */
    method LearnRecord(pkt: seq<byte>, src: Address, now: int, i: nat, at: nat, ghost t0: seq<Route>)
      requires Valid() && |pkt| >= RecordsOffset + layout.recordSize && i < |Advertised(pkt, layout)|
      requires at == RecordsOffset + Span(i, layout.recordSize)
      requires table.Contents() == ApplyOffers(t0, Advertised(pkt, layout)[..i], src, now)
      modifies table, table.routes
      ensures Valid()
      ensures table.Contents() == ApplyOffers(t0, Advertised(pkt, layout)[..i + 1], src, now)
    {
      ghost var offers := Advertised(pkt, layout);
      assert at + layout.recordSize <= |pkt| && offers[i] == Offer(pkt[at..at + 16], ReadBe32(pkt[at + 32..at + 36])) by {
        AdvertisedRecord(pkt, layout, i);
      }
      var dest, metric := pkt[at..at + 16], ReadBe32(pkt[at + 32..at + 36]);
      ApplyOffersStep(t0, offers, src, now, i);
      table.Update(dest, src, Inc32(metric), false, now);
    }

    /** forward_packet: drop at hop limit 1 or less, otherwise queue the decremented copy on `tty`. */
    method ForwardPacket(pkt: Packet, tty: nat) returns (queued: bool)
      requires Valid() && tty < Slip.MaxTtys
      modifies slots.slots
      ensures Valid()
      ensures HopLimit(pkt) <= 1 ==> !queued && slots.slots[..] == old(slots.slots[..])
      ensures HopLimit(pkt) > 1 ==>
        var (s, ok) := Submit(old(slots.slots[tty]), Decremented(pkt));
        queued == ok && slots.slots[..] == old(slots.slots[..])[tty := s]
    {
      if HopLimit(pkt) <= 1 {
        return false;
      }
      var copy := WithHopLimit(pkt, HopLimit(pkt) - 1);
      queued := slots.QueueSend(tty, copy);
    }

    /** data_handler for a packet that SLIP delivered on `tty`. */
    method DataHandler(tty: nat, pkt: seq<byte>, now: int) returns (v: Verdict)
      requires Valid() && tty < Slip.MaxTtys
      modifies table, table.routes, slots.slots
      ensures Valid() && v == Classify(pkt, locals)
      ensures v == RoutingUpdate ==>
        table.Contents() == ApplyOffers(old(table.Contents()), Advertised(pkt, layout), pkt[8..24], now)
      ensures v != RoutingUpdate ==> table.Contents() == old(table.Contents())
      ensures v.Forward? ==> slots.slots[..] == old(slots.slots[..])[tty := Submit(old(slots.slots[tty]), v.copy).0]
      ensures !v.Forward? ==> slots.slots[..] == old(slots.slots[..])
    {
      if |pkt| < HeaderSize {
        return TooShort;
      }
      var src, dst := Source(pkt), Destination(pkt);
      if IsForRouter(dst, locals) {
        if NextHeader(pkt) == RoutingProtocol {
          ProcessRoutingPacket(pkt, src, now);
          return RoutingUpdate;
        }
        return NotRouting;
      }
      var queued := ForwardPacket(pkt, tty);
      if HopLimit(pkt) <= 1 {
        return HopLimitReached;
      }
      return Forward(Decremented(pkt));
    }

    /**
     * One round of timer_thread after its sleep: age the table, copy it, and
     * queue an advertisement of the copy on every interface.
     */
    method TimerRound(now: int)
      requires Valid()
      modifies table, table.routes, slots.slots
      ensures Valid()
      ensures table.Contents() == Survivors(old(table.Contents()), now)
      ensures forall fd :: 0 <= fd < |locals| ==>
        slots.slots[fd] == Submit(old(slots.slots[fd]), Announcement(locals[fd], table.Contents(), layout)).0
      ensures forall fd :: |locals| <= fd < slots.slots.Length ==> slots.slots[fd] == old(slots.slots[fd])
    {
      table.Age(now);
      var entries := table.Snapshot();
      var i := 0;
      while i < |locals|
        invariant Valid() && i <= |locals| && entries == table.Contents()
        invariant forall fd :: 0 <= fd < i ==>
          slots.slots[fd] == Submit(old(slots.slots[fd]), Announcement(locals[fd], entries, layout)).0
        invariant forall fd :: i <= fd < slots.slots.Length ==> slots.slots[fd] == old(slots.slots[fd])
      {
        var packet := BuildAnnouncement(locals[i], entries, layout);
        var accepted := slots.QueueSend(i, packet);
        i := i + 1;
      }
    }
  }
}
