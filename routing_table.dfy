/**
 * The distance-vector routing table of router-01: a fixed array of
 * MaxRoutes entries and a count, one entry per /64 network, updated by the
 * replace/refresh/ignore rule and aged out by a shift-down sweep.
 */
module RoutingTable {
  import opened Bytes
  import opened Ipv6
  import Slip

  /** Capacity of routing_table. */
  const MaxRoutes: nat := 29
  /** A learned route older than this many seconds is removed. */
  const MaxAge: int := 100

  /**
   * A `struct route_entry`: network prefix, next hop, metric, time of
   * creation or last improvement, and whether it is a direct route.
   */
  datatype Route = Route(prefix: Address, gateway: Address, metric: uint32, timestamp: int, isDirect: bool)

  // ---------------------------------------------------------------------------
  // The table as a value
  // ---------------------------------------------------------------------------

  /** Every stored prefix has a zero host part. */
  ghost predicate HostBitsZero(t: seq<Route>)
  {
    forall k :: 0 <= k < |t| ==> IsPrefix(t[k].prefix)
  }

  /** No two entries lie in the same network. */
  ghost predicate OnePerPrefix(t: seq<Route>)
  {
    forall j, k :: 0 <= j < k < |t| ==> !SamePrefix(t[j].prefix, t[k].prefix)
  }

  /** The invariant the table keeps: bounded, host bits zero, one entry per prefix. */
  ghost predicate WellFormed(t: seq<Route>)
  {
    |t| <= MaxRoutes && HostBitsZero(t) && OnePerPrefix(t)
  }

  /** The search of update_routing_table: the first entry in the network of `p`, or |t|. */
  function Find(t: seq<Route>, p: Address): (i: nat)
    ensures i <= |t|
    ensures forall j :: 0 <= j < i ==> !SamePrefix(t[j].prefix, p)
    ensures i < |t| ==> SamePrefix(t[i].prefix, p)
    decreases |t|
  {
    if t == [] then 0
    else if SamePrefix(t[0].prefix, p) then 0
    else 1 + Find(t[1..], p)
  }

  /**
   * update_routing_table on the table's contents: a strictly better metric
   * replaces the entry and restarts its age, an equal metric overwrites the
   * gateway and the direct flag but keeps the age, a worse one is ignored; an
   * unseen network is appended while there is room.
   */
  function Updated(t: seq<Route>, dest: Address, gateway: Address, metric: uint32, isDirect: bool, now: int): (r: seq<Route>)
    ensures |t| <= |r| <= |t| + 1
    ensures |r| == |t| + 1 ==> |r| <= MaxRoutes && r[..|t|] == t
    ensures |t| < MaxRoutes ==> Find(r, Prefix(dest)) < |r|
  {
    var p := Prefix(dest);
    var i := Find(t, p);
    if i < |t| then
      if metric < t[i].metric then
        var r := t[i := Route(p, gateway, metric, now, isDirect)];
        assert SamePrefix(r[i].prefix, p);
        r
      else if metric == t[i].metric then
        var r := t[i := t[i].(prefix := p, gateway := gateway, isDirect := isDirect)];
        assert SamePrefix(r[i].prefix, p);
        r
      else t
    else if |t| < MaxRoutes then
      var r := t + [Route(p, gateway, metric, now, isDirect)];
      assert SamePrefix(r[|t|].prefix, p);
      r
    else t
  }

  /** remove_expired_routes's test: a learned route whose age exceeds MaxAge. */
  predicate Expired(r: Route, now: int)
  {
    !r.isDirect && now - r.timestamp > MaxAge
  }

  /** The entries remove_expired_routes keeps, in their original order. */
  function Survivors(t: seq<Route>, now: int): (r: seq<Route>)
    ensures |r| <= |t|
    ensures forall k :: 0 <= k < |r| ==> !Expired(r[k], now)
    decreases |t|
  {
    if t == [] then []
    else Survivors(t[..|t| - 1], now) + (if Expired(t[|t| - 1], now) then [] else [t[|t| - 1]])
  }

  /** The direct route initialize_routing_table installs for a local address. */
  function DirectRoute(a: Address, now: int): Route
  {
    Route(Prefix(a), a, 0, now, true)
  }

  /**
   * initialize_routing_table with the capacity check it lacks: one direct
   * route per local address, in order, for as many addresses as fit.
   */
  function InitialRoutes(addrs: seq<Address>, now: int): (r: seq<Route>)
    ensures |r| == if |addrs| < MaxRoutes then |addrs| else MaxRoutes
    ensures forall k :: 0 <= k < |r| ==> r[k].isDirect && r[k].metric == 0 && r[k].gateway == addrs[k]
  {
    var n := if |addrs| < MaxRoutes then |addrs| else MaxRoutes;
    seq(n, k requires 0 <= k < n => DirectRoute(addrs[k], now))
  }

  /**
   * initialize_routing_table as written: the entries it stores, at indices
   * 0 .. |addrs| - 1 of the MaxRoutes-slot array, whatever |addrs| is.
   */
  function InitialWritesAsWritten(addrs: seq<Address>, now: int): (r: seq<Route>)
    ensures |r| == |addrs|
    ensures forall k :: 0 <= k < |r| ==> r[k].isDirect && r[k].metric == 0 && r[k].gateway == addrs[k]
  {
    seq(|addrs|, k requires 0 <= k < |addrs| => DirectRoute(addrs[k], now))
  }

  /** Local addresses lie in pairwise different networks. */
  ghost predicate DistinctNetworks(addrs: seq<Address>)
  {
    forall j, k :: 0 <= j < k < |addrs| ==> !SamePrefix(addrs[j], addrs[k])
  }

  // ---------------------------------------------------------------------------
  // Properties of the table operations
  // ---------------------------------------------------------------------------

  lemma FindIsFirstMatch(t: seq<Route>, p: Address, i: nat)
    requires i < |t| && SamePrefix(t[i].prefix, p)
    requires forall j :: 0 <= j < i ==> !SamePrefix(t[j].prefix, p)
    ensures Find(t, p) == i
  {
  }

  /**
   * An update for a network already in the table touches only that entry and
   * applies the replace / refresh / ignore rule to it.
   */
  lemma UpdateKnownNetwork(t: seq<Route>, dest: Address, gateway: Address, metric: uint32, isDirect: bool, now: int, i: nat)
    requires i < |t| && SamePrefix(t[i].prefix, dest)
    requires forall j :: 0 <= j < i ==> !SamePrefix(t[j].prefix, dest)
    ensures var r := Updated(t, dest, gateway, metric, isDirect, now);
      && |r| == |t|
      && (forall j :: 0 <= j < |t| && j != i ==> r[j] == t[j])
      && (metric < t[i].metric ==> r[i] == Route(Prefix(dest), gateway, metric, now, isDirect))
      && (metric == t[i].metric ==> r[i] == Route(Prefix(dest), gateway, metric, t[i].timestamp, isDirect))
      && (metric > t[i].metric ==> r == t)
  {
    FindIsFirstMatch(t, Prefix(dest), i);
  }

  /** An update for an unseen network appends a fresh entry, or is dropped when the table is full. */
  lemma UpdateUnknownNetwork(t: seq<Route>, dest: Address, gateway: Address, metric: uint32, isDirect: bool, now: int)
    requires forall j :: 0 <= j < |t| ==> !SamePrefix(t[j].prefix, dest)
    ensures |t| < MaxRoutes ==> Updated(t, dest, gateway, metric, isDirect, now) == t + [Route(Prefix(dest), gateway, metric, now, isDirect)]
    ensures |t| >= MaxRoutes ==> Updated(t, dest, gateway, metric, isDirect, now) == t
  {
    assert Find(t, Prefix(dest)) == |t|;
  }

  /**
   * No update removes an entry, moves it to another network, or raises its
   * metric; the table never shrinks.
   */
  lemma UpdateNeverWorsens(t: seq<Route>, dest: Address, gateway: Address, metric: uint32, isDirect: bool, now: int)
    ensures var r := Updated(t, dest, gateway, metric, isDirect, now);
      && |t| <= |r| <= |t| + 1
      && (forall k :: 0 <= k < |t| ==> SamePrefix(r[k].prefix, t[k].prefix))
      && forall k :: 0 <= k < |t| ==> r[k].metric <= t[k].metric
  {
    var p := Prefix(dest);
    var i := Find(t, p);
    if i < |t| {
      assert SamePrefix(p, t[i].prefix);
    }
  }

  lemma UpdatePreservesWellFormed(t: seq<Route>, dest: Address, gateway: Address, metric: uint32, isDirect: bool, now: int)
    requires WellFormed(t)
    ensures WellFormed(Updated(t, dest, gateway, metric, isDirect, now))
  {
    var p := Prefix(dest);
    var i := Find(t, p);
    var r := Updated(t, dest, gateway, metric, isDirect, now);
    PrefixSameNetwork(dest);
    if i < |t| {
      assert forall k :: 0 <= k < |r| ==> r[k].prefix[..PrefixBytes] == t[k].prefix[..PrefixBytes];
    } else if |t| < MaxRoutes {
      assert forall k :: 0 <= k < |t| ==> r[k] == t[k];
      assert r[|t|].prefix == p;
    }
  }

  /** remove_expired_routes keeps exactly the entries that have not expired. */
  lemma {:induction false} SurvivorsAreUnexpired(t: seq<Route>, now: int)
    ensures forall r :: r in Survivors(t, now) <==> r in t && !Expired(r, now)
    ensures |Survivors(t, now)| <= |t|
    decreases |t|
  {
    if t != [] {
      var q := t[..|t| - 1];
      SurvivorsAreUnexpired(q, now);
      assert t == q + [t[|t| - 1]];
    }
  }

  /** Survivors keep their relative order: the sweep distributes over concatenation. */
  lemma {:induction false} SurvivorsOfConcat(a: seq<Route>, b: seq<Route>, now: int)
    ensures Survivors(a + b, now) == Survivors(a, now) + Survivors(b, now)
    decreases |b|
  {
    if b == [] {
      assert a + b == a;
    } else {
      var b' := b[..|b| - 1];
      SurvivorsOfConcat(a, b', now);
      assert (a + b)[..|a + b| - 1] == a + b';
    }
  }

  lemma SurvivorsStep(t: seq<Route>, k: nat, now: int)
    requires k < |t|
    ensures Survivors(t[..k + 1], now) == Survivors(t[..k], now) + (if Expired(t[k], now) then [] else [t[k]])
  {
    assert t[..k + 1][..k] == t[..k];
  }

  /** The sweep removes nothing when no learned route is too old. */
  lemma {:induction false} SurvivorsWhenNoneExpired(t: seq<Route>, now: int)
    requires forall k :: 0 <= k < |t| ==> !Expired(t[k], now)
    ensures Survivors(t, now) == t
    decreases |t|
  {
    if t != [] {
      SurvivorsWhenNoneExpired(t[..|t| - 1], now);
    }
  }

  /** Direct routes are never aged out. */
  lemma DirectRoutesSurvive(t: seq<Route>, now: int, k: nat)
    requires k < |t| && t[k].isDirect
    ensures t[k] in Survivors(t, now)
  {
    SurvivorsAreUnexpired(t, now);
  }

  lemma {:induction false} SurvivorsPreserveWellFormed(t: seq<Route>, now: int)
    requires WellFormed(t)
    ensures WellFormed(Survivors(t, now))
    decreases |t|
  {
    if t != [] {
      var q, x := t[..|t| - 1], t[|t| - 1];
      SurvivorsPreserveWellFormed(q, now);
      var s := Survivors(q, now);
      if !Expired(x, now) {
        assert |s| < |t| && forall r :: r in s ==> r in q by {
          SurvivorsAreUnexpired(q, now);
        }
        forall k | 0 <= k < |s| ensures !SamePrefix(s[k].prefix, x.prefix) {
          assert s[k] in s;
          var j :| 0 <= j < |q| && q[j] == s[k];
          assert t[j] == s[k];
        }
        AppendWellFormed(s, x);
      }
    }
  }

  /** A route in a network the table does not hold yet can be appended to it. */
  lemma AppendWellFormed(s: seq<Route>, x: Route)
    requires WellFormed(s) && |s| < MaxRoutes && IsPrefix(x.prefix)
    requires forall k :: 0 <= k < |s| ==> !SamePrefix(s[k].prefix, x.prefix)
    ensures WellFormed(s + [x])
  {
  }

  /** With local addresses in distinct networks, the initial table is well formed and holds only direct routes of metric 0. */
  lemma InitialRoutesWellFormed(addrs: seq<Address>, now: int)
    requires DistinctNetworks(addrs)
    ensures WellFormed(InitialRoutes(addrs, now))
    ensures forall k :: 0 <= k < |InitialRoutes(addrs, now)| ==>
              var r := InitialRoutes(addrs, now)[k];
              r.isDirect && r.metric == 0 && r.gateway == addrs[k] && SamePrefix(r.prefix, addrs[k])
  {
    var t := InitialRoutes(addrs, now);
    forall k | 0 <= k < |t| ensures IsPrefix(t[k].prefix) && SamePrefix(t[k].prefix, addrs[k]) {
      PrefixSameNetwork(addrs[k]);
    }
  }

  /** Two local addresses in one network, both installed, give two entries for that network. */
  lemma InitialRoutesDuplicateNetwork(addrs: seq<Address>, now: int, j: nat, k: nat)
    requires j < k < |addrs| && k < MaxRoutes && SamePrefix(addrs[j], addrs[k])
    ensures !OnePerPrefix(InitialRoutes(addrs, now))
  {
    var t := InitialRoutes(addrs, now);
    assert t[j].prefix == Prefix(addrs[j]) && t[k].prefix == Prefix(addrs[k]);
    assert t[j].prefix[..PrefixBytes] == addrs[j][..PrefixBytes];
    assert t[k].prefix[..PrefixBytes] == addrs[k][..PrefixBytes];
  }

  /**
   * As written, initialize_routing_table stores one entry per address, and the
   * address count is bounded only by MAX_TTYS: any count above MaxRoutes
   * writes past the end of the table.
   */
  lemma StartupWritesPastTable(addrs: seq<Address>, now: int)
    requires MaxRoutes < |addrs| <= Slip.MaxTtys
    ensures |InitialWritesAsWritten(addrs, now)| - 1 >= MaxRoutes
    ensures InitialWritesAsWritten(addrs, now)[MaxRoutes] == DirectRoute(addrs[MaxRoutes], now)
    ensures |InitialRoutes(addrs, now)| == MaxRoutes
  {
  }

  // ---------------------------------------------------------------------------
  // The table as the router holds it
  // ---------------------------------------------------------------------------

  /** routing_table and num_routes. */
  class Table {
    const routes: array<Route>
    var count: nat

    ghost predicate Valid()
      reads this
    {
      routes.Length == MaxRoutes && count <= MaxRoutes
    }

    ghost function Contents(): seq<Route>
      reads this, routes
      requires Valid()
    {
      routes[..count]
    }

    /** initialize_routing_table, stopping when the table is full. */
    constructor (addrs: seq<Address>, now: int)
      ensures Valid() && fresh(routes) && Contents() == InitialRoutes(addrs, now)
    {
      routes := new Route[MaxRoutes](_ => DirectRoute(AllNodes, now));
      count := 0;
      new;
      var i := 0;
      while i < |addrs|
        invariant 0 <= i <= |addrs| && Valid()
        invariant count == if i < MaxRoutes then i else MaxRoutes
        invariant forall k :: 0 <= k < count ==> routes[k] == DirectRoute(addrs[k], now)
      {
        if count < MaxRoutes {
          routes[count] := DirectRoute(addrs[i], now);
          count := count + 1;
        }
        i := i + 1;
      }
    }

    /** update_routing_table. */
    method Update(dest: Address, gateway: Address, metric: uint32, isDirect: bool, now: int)
      requires Valid()
      modifies this, routes
      ensures Valid() && Contents() == Updated(old(Contents()), dest, gateway, metric, isDirect, now)
    {
      var p := Prefix(dest);
      var i := 0;
      while i < count
        invariant 0 <= i <= count
        invariant forall j :: 0 <= j < i ==> !SamePrefix(routes[j].prefix, p)
      {
        if routes[i].prefix[..PrefixBytes] == p[..PrefixBytes] {
          FindIsFirstMatch(routes[..count], p, i);
          if metric < routes[i].metric {
            routes[i] := Route(p, gateway, metric, now, isDirect);
          } else if metric == routes[i].metric {
            routes[i] := routes[i].(prefix := p, gateway := gateway, metric := metric, isDirect := isDirect);
          }
          return;
        }
        i := i + 1;
      }
      assert Find(routes[..count], p) == count;
      if count < MaxRoutes {
        routes[count] := Route(p, gateway, metric, now, isDirect);
        count := count + 1;
      }
    }

    /** The shift-down step of remove_expired_routes: entry `i` is overwritten by its successors. */
    method RemoveAt(i: nat)
      requires Valid() && i < count
      modifies this, routes
      ensures Valid() && count == old(count) - 1
      ensures Contents() == old(Contents())[..i] + old(Contents())[i + 1..]
    {
      ghost var before := routes[..count];
      var j := i;
      while j < count - 1
        invariant Valid() && count == |before| && i <= j <= count - 1
        invariant forall m :: 0 <= m < i ==> routes[m] == before[m]
        invariant forall m :: i <= m < j ==> routes[m] == before[m + 1]
        invariant forall m :: j <= m < count ==> routes[m] == before[m]
      {
        routes[j] := routes[j + 1];
        j := j + 1;
      }
      count := count - 1;
      assert Contents() == before[..i] + before[i + 1..];
    }

    /**
     * One pass of remove_expired_routes's loop, at position `i` with `k`
     * entries of the original table `t0` examined: the entry there is removed
     * or stepped over, and `done`, the survivors so far, grows accordingly.
     */
    method SweepStep(i: nat, now: int, ghost t0: seq<Route>, ghost k: nat, ghost done: seq<Route>)
      returns (removed: bool, ghost done': seq<Route>)
      requires Valid() && k < |t0| && |done| == i
      requires done == Survivors(t0[..k], now) && Contents() == done + t0[k..]
      modifies this, routes
      ensures Valid() && done' == Survivors(t0[..k + 1], now) && Contents() == done' + t0[k + 1..]
      ensures |done'| == if removed then i else i + 1
    {
      ghost var c := Contents();
      assert c[i] == t0[k];
      SurvivorsStep(t0, k, now);
      removed := !routes[i].isDirect && now - routes[i].timestamp > MaxAge;
      if removed {
        RemoveAt(i);
        assert c[..i] == done && c[i + 1..] == t0[k + 1..];
        done' := done;
      } else {
        done' := done + [t0[k]];
        assert t0[k..] == [t0[k]] + t0[k + 1..];
      }
    }

    /** remove_expired_routes: removes expired entries in place by shifting the rest down. */
    method Age(now: int)
      requires Valid()
      modifies this, routes
      ensures Valid() && Contents() == Survivors(old(Contents()), now)
    {
      ghost var t0 := Contents();
      ghost var k := 0;
      ghost var done := [];
      var i := 0;
      while i < count
        invariant Valid() && 0 <= k <= |t0| && |done| == i
        invariant done == Survivors(t0[..k], now) && Contents() == done + t0[k..]
        decreases |t0| - k
      {
        var removed;
        removed, done := SweepStep(i, now, t0, k, done);
        if !removed {
          i := i + 1;
        }
        k := k + 1;
      }
      assert t0[..k] == t0;
    }

    /** The copy timer_thread takes under the lock. */
    method Snapshot() returns (s: seq<Route>)
      requires Valid()
      ensures s == Contents()
    {
      s := routes[..count];
    }
  }
}
