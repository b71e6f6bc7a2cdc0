/** The UDP backend's route list and the lookup of a packet's next hop. */
module UdpRoutes {
  import opened Cidr
  import opened MapLog
  import opened Leases
  import opened Options

  datatype RouteEntry = RouteEntry(dst: Net, nextHop: Addr)

  // What events do to the list ------------------------------------------------------------------

  /** Every entry for `dst` pointed at `hop`. */
  function Redirected(routes: seq<RouteEntry>, dst: Net, hop: Addr): (r: seq<RouteEntry>)
    ensures |r| == |routes|
    ensures forall i :: 0 <= i < |r| ==> r[i] == if routes[i].dst == dst then RouteEntry(dst, hop) else routes[i]
  {
    seq(|routes|, i requires 0 <= i < |routes| => if routes[i].dst == dst then RouteEntry(dst, hop) else routes[i])
  }

  function Without(routes: seq<RouteEntry>, dst: Net): (r: seq<RouteEntry>)
    ensures forall x :: x in r <==> x in routes && x.dst != dst
  {
    if routes == [] then []
    else
      var n := |routes| - 1;
      Without(routes[..n], dst) + (if routes[n].dst != dst then [routes[n]] else [])
  }

  /** A put redirects the entries there are and appends one more; a delete drops them all. */
  function TableAfter(routes: seq<RouteEntry>, e: LeaseEvent): seq<RouteEntry> {
    var dst, hop := e.lease.subnet, e.lease.attrs.publicIp;
    match e.eventType
    case PutEvent => Redirected(routes, dst, hop) + [RouteEntry(dst, hop)]
    case DeleteEvent => Without(routes, dst)
  }

  function TableAfterAll(routes: seq<RouteEntry>, events: seq<LeaseEvent>): seq<RouteEntry> {
    if events == [] then routes
    else TableAfter(TableAfterAll(routes, events[..|events| - 1]), events[|events| - 1])
  }

  /** The routes of a running UDP network. */
  class UdpNetwork {
    var routes: seq<RouteEntry>

    constructor ()
      ensures routes == []
    {
      routes := [];
    }

    method HandleEvents(events: seq<LeaseEvent>)
      modifies this
      ensures routes == TableAfterAll(old(routes), events)
    {
      for n := 0 to |events|
        invariant routes == TableAfterAll(old(routes), events[..n])
      {
        assert events[..n + 1][..n] == events[..n];
        match events[n].eventType {
          case PutEvent => Put(events[n].lease);
          case DeleteEvent => Retain(events[n].lease.subnet);
        }
      }
      assert events[..|events|] == events;
    }

    method Put(lease: Lease)
      modifies this
      ensures routes == TableAfter(old(routes), LeaseEvent(PutEvent, lease))
    {
      ghost var before := routes;
      var dst, hop := lease.subnet, lease.attrs.publicIp;
      for i := 0 to |routes|
        invariant |routes| == |before|
        invariant forall j :: 0 <= j < i ==> routes[j] == Redirected(before, dst, hop)[j]
        invariant forall j :: i <= j < |routes| ==> routes[j] == before[j]
      {
        if routes[i].dst == dst {
          routes := routes[i := routes[i].(nextHop := hop)];
        }
      }
      assert routes == Redirected(before, dst, hop);
      routes := routes + [RouteEntry(dst, hop)];
    }

    method Retain(dst: Net)
      modifies this
      ensures routes == Without(old(routes), dst)
    {
      var kept := [];
      for i := 0 to |routes|
        invariant routes == old(routes)
        invariant kept == Without(routes[..i], dst)
      {
        assert routes[..i + 1][..i] == routes[..i];
        if routes[i].dst != dst { kept := kept + [routes[i]]; }
      }
      assert routes[..|routes|] == routes;
      routes := kept;
    }
  }

  predicate Matches(r: RouteEntry, a: Addr) {
    Floor(a, r.dst.prefix) == r.dst.ip
  }

  /** First entry whose destination is the packet's network at that prefix length. */
  function FindRoute(routes: seq<RouteEntry>, a: Addr): (r: Option<RouteEntry>)
    ensures r.Some? ==> r.value in routes && Matches(r.value, a)
    ensures r.None? ==> forall i :: 0 <= i < |routes| ==> !Matches(routes[i], a)
  {
    if routes == [] then None
    else if Matches(routes[0], a) then Some(routes[0])
    else FindRoute(routes[1..], a)
  }

  function NextHop(routes: seq<RouteEntry>, a: Addr): Option<Addr> {
    match FindRoute(routes, a)
    case Some(r) => Some(r.nextHop)
    case None => None
  }

  // The list behaves like a map -----------------------------------------------------------------

  /** Entries agree with the map, duplicates included, and every key of the map has one. */
  ghost predicate Refines(routes: seq<RouteEntry>, m: map<Net, Lease>) {
    && (forall i :: 0 <= i < |routes| ==>
          routes[i].dst in m && routes[i].nextHop == m[routes[i].dst].attrs.publicIp)
    && (forall k :: k in m ==> RouteEntry(k, m[k].attrs.publicIp) in routes)
  }

  lemma TableAfterRefines(routes: seq<RouteEntry>, m: map<Net, Lease>, e: LeaseEvent)
    requires Refines(routes, m)
    ensures Refines(TableAfter(routes, e), Apply(m, OpOf(e)))
  {
    var next, m' := TableAfter(routes, e), Apply(m, OpOf(e));
    var dst := e.lease.subnet;
    forall k | k in m' ensures RouteEntry(k, m'[k].attrs.publicIp) in next {
      if e.eventType.PutEvent? {
        if k == dst {
          assert next[|routes|] == RouteEntry(k, m'[k].attrs.publicIp);
        } else {
          var i :| 0 <= i < |routes| && routes[i] == RouteEntry(k, m[k].attrs.publicIp);
          assert next[i] == routes[i];
        }
      }
    }
    if e.eventType.DeleteEvent? {
      forall i | 0 <= i < |next| ensures next[i].dst in m' && next[i].nextHop == m'[next[i].dst].attrs.publicIp {
        assert next[i] in next;
      }
    }
  }

  /** After any events from the empty table the list is the map of last puts, with all duplicates agreeing. */
  lemma {:induction false} TableRefines(events: seq<LeaseEvent>)
    ensures Refines(TableAfterAll([], events), Replay(events))
  {
    if events != [] {
      var n := |events| - 1;
      TableRefines(events[..n]);
      TableAfterRefines(TableAfterAll([], events[..n]), Replay(events[..n]), events[n]);
      assert events == events[..n] + [events[n]];
      ReplayStep(events[..n], events[n]);
    }
  }

  // Which entries the list has, and in which order ------------------------------------------------

  function DestinationsOf(routes: seq<RouteEntry>): (r: seq<Net>)
    ensures |r| == |routes| && forall i :: 0 <= i < |r| ==> r[i] == routes[i].dst
  {
    seq(|routes|, i requires 0 <= i < |routes| => routes[i].dst)
  }

  predicate DeletedIn(events: seq<LeaseEvent>, sn: Net) {
    exists i :: 0 <= i < |events| && events[i].eventType.DeleteEvent? && events[i].lease.subnet == sn
  }

  /** The subnets put and not deleted since, one for every such put, in order. */
  function Surviving(events: seq<LeaseEvent>): seq<Net> {
    if events == [] then []
    else
      var e := events[0];
      (if e.eventType.PutEvent? && !DeletedIn(events[1..], e.lease.subnet) then [e.lease.subnet] else [])
      + Surviving(events[1..])
  }

  function Dropping(nets: seq<Net>, sn: Net): seq<Net> {
    if nets == [] then [] else (if nets[0] == sn then [] else [nets[0]]) + Dropping(nets[1..], sn)
  }

  lemma {:induction false} DroppingAppend(a: seq<Net>, b: seq<Net>, sn: Net)
    ensures Dropping(a + b, sn) == Dropping(a, sn) + Dropping(b, sn)
  {
    if a == [] {
      assert a + b == b;
    } else {
      assert (a + b)[1..] == a[1..] + b;
      DroppingAppend(a[1..], b, sn);
    }
  }

  lemma DestinationsAppend(a: seq<RouteEntry>, b: seq<RouteEntry>)
    ensures DestinationsOf(a + b) == DestinationsOf(a) + DestinationsOf(b)
  {}

  lemma DroppingOne(d: Net, sn: Net)
    ensures Dropping([d], sn) == if d == sn then [] else [d]
  {
    assert [d][1..] == [] && Dropping([], sn) == [];
  }

  lemma {:induction false} WithoutDestinations(routes: seq<RouteEntry>, dst: Net)
    ensures DestinationsOf(Without(routes, dst)) == Dropping(DestinationsOf(routes), dst)
  {
    if routes != [] {
      var n := |routes| - 1;
      var d := routes[n].dst;
      var last := if d != dst then [routes[n]] else [];
      WithoutDestinations(routes[..n], dst);
      assert routes == routes[..n] + [routes[n]];
      DestinationsAppend(routes[..n], [routes[n]]);
      assert DestinationsOf([routes[n]]) == [d];
      DroppingAppend(DestinationsOf(routes[..n]), [d], dst);
      DroppingOne(d, dst);
      DestinationsAppend(Without(routes[..n], dst), last);
      assert DestinationsOf(last) == Dropping([d], dst);
    }
  }

  lemma DeletedMore(events: seq<LeaseEvent>, e: LeaseEvent, sn: Net)
    ensures DeletedIn(events + [e], sn) <==>
              DeletedIn(events, sn) || (e.eventType.DeleteEvent? && e.lease.subnet == sn)
  {
    var more := events + [e];
    assert more[|events|] == e;
    if DeletedIn(events, sn) {
      var i :| 0 <= i < |events| && events[i].eventType.DeleteEvent? && events[i].lease.subnet == sn;
      assert more[i] == events[i];
    }
  }

  lemma {:induction false} SurvivingMore(events: seq<LeaseEvent>, e: LeaseEvent)
    ensures Surviving(events + [e]) ==
              match e.eventType
              case PutEvent => Surviving(events) + [e.lease.subnet]
              case DeleteEvent => Dropping(Surviving(events), e.lease.subnet)
  {
    if events == [] {
      assert [e][1..] == [] && [] + [e] == [e];
    } else {
      var first, rest := events[0], events[1..];
      assert (events + [e])[1..] == rest + [e];
      SurvivingMore(rest, e);
      DeletedMore(rest, e, first.lease.subnet);
      var kept := if first.eventType.PutEvent? && !DeletedIn(rest, first.lease.subnet)
                  then [first.lease.subnet] else [];
      DroppingAppend(kept, Surviving(rest), e.lease.subnet);
      if kept != [] { DroppingOne(first.lease.subnet, e.lease.subnet); }
      assert e.eventType.PutEvent? ==> kept + (Surviving(rest) + [e.lease.subnet])
                                       == (kept + Surviving(rest)) + [e.lease.subnet];
    }
  }

  lemma DestinationsAfter(routes: seq<RouteEntry>, e: LeaseEvent)
    ensures DestinationsOf(TableAfter(routes, e)) ==
              match e.eventType
              case PutEvent => DestinationsOf(routes) + [e.lease.subnet]
              case DeleteEvent => Dropping(DestinationsOf(routes), e.lease.subnet)
  {
    WithoutDestinations(routes, e.lease.subnet);
    if e.eventType.PutEvent? {
      assert DestinationsOf(TableAfter(routes, e)) == DestinationsOf(routes) + [e.lease.subnet];
    }
  }

  lemma TableMore(events: seq<LeaseEvent>, e: LeaseEvent)
    ensures TableAfterAll([], events + [e]) == TableAfter(TableAfterAll([], events), e)
  {
    assert (events + [e])[..|events|] == events;
  }

  lemma EntriesMore(events: seq<LeaseEvent>, e: LeaseEvent)
    requires DestinationsOf(TableAfterAll([], events)) == Surviving(events)
    ensures DestinationsOf(TableAfterAll([], events + [e])) == Surviving(events + [e])
  {
    TableMore(events, e);
    SurvivingMore(events, e);
    DestinationsAfter(TableAfterAll([], events), e);
  }

  /** The list has one entry for every put since the last delete of its subnet, in the order of the puts. */
  lemma {:induction false} EntriesSurvive(events: seq<LeaseEvent>)
    ensures DestinationsOf(TableAfterAll([], events)) == Surviving(events)
  {
    if events == [] {
      assert DestinationsOf([]) == [];
    } else {
      var rest, e := events[..|events| - 1], events[|events| - 1];
      EntriesSurvive(rest);
      EntriesMore(rest, e);
      assert events == rest + [e];
    }
  }

  // Lookup --------------------------------------------------------------------------------------

  /** Blocks written canonically, pairwise equal or disjoint. */
  ghost predicate DisjointBlocks(dsts: set<Net>) {
    && (forall d :: d in dsts ==> Canonical(d))
    && (forall d, e :: d in dsts && e in dsts && d != e ==> !Share(d, e))
  }

  ghost predicate Agree(routes: seq<RouteEntry>) {
    forall r, s :: r in routes && s in routes && r.dst == s.dst ==> r.nextHop == s.nextHop
  }

  function Destinations(routes: seq<RouteEntry>): set<Net> {
    set r | r in routes :: r.dst
  }

  /** All entries that match the address name one next hop. */
  ghost predicate AgreeAt(routes: seq<RouteEntry>, a: Addr) {
    forall r, s :: r in routes && s in routes && Matches(r, a) && Matches(s, a) ==> r.nextHop == s.nextHop
  }

  /** Canonically written entries, and any two of them that overlap name one next hop. */
  ghost predicate OverlapsAgree(routes: seq<RouteEntry>) {
    && (forall r :: r in routes ==> Canonical(r.dst))
    && (forall r, s :: r in routes && s in routes && Overlaps(r.dst, s.dst) ==> r.nextHop == s.nextHop)
  }

  ghost predicate SameEntries(routes: seq<RouteEntry>, shuffled: seq<RouteEntry>) {
    multiset(routes) == multiset(shuffled)
  }

  /** The next hop is the same in every order of the list. */
  ghost predicate OrderFree(routes: seq<RouteEntry>, a: Addr) {
    forall shuffled :: SameEntries(routes, shuffled) ==> NextHop(shuffled, a) == NextHop(routes, a)
  }

  lemma MoveToFront(routes: seq<RouteEntry>, r: RouteEntry) returns (shuffled: seq<RouteEntry>)
    requires r in routes
    ensures SameEntries(routes, shuffled) && shuffled != [] && shuffled[0] == r
  {
    var i :| 0 <= i < |routes| && routes[i] == r;
    shuffled := [r] + routes[..i] + routes[i + 1..];
    assert routes == routes[..i] + [r] + routes[i + 1..];
  }

  /** First match does not depend on the order of the list exactly when all entries matching the address agree. */
  lemma OrderFreeIff(routes: seq<RouteEntry>, a: Addr)
    ensures OrderFree(routes, a) <==> AgreeAt(routes, a)
  {
    if OrderFree(routes, a) {
      forall r | r in routes && Matches(r, a) ensures NextHop(routes, a) == Some(r.nextHop) {
        var shuffled := MoveToFront(routes, r);
        assert NextHop(shuffled, a) == Some(r.nextHop);
      }
    }
    if AgreeAt(routes, a) {
      forall shuffled | SameEntries(routes, shuffled) ensures NextHop(shuffled, a) == NextHop(routes, a) {
        forall r ensures r in routes <==> r in shuffled {
          assert r in multiset(routes) <==> r in multiset(shuffled);
        }
      }
    }
  }

  lemma OverlapsAgreeAt(routes: seq<RouteEntry>, a: Addr)
    requires OverlapsAgree(routes)
    ensures AgreeAt(routes, a)
  {
    forall r, s | r in routes && s in routes && Matches(r, a) && Matches(s, a) ensures r.nextHop == s.nextHop {
      assert Contains(r.dst, a) && Contains(s.dst, a);
      OverlapsIffShare(r.dst, s.dst);
    }
  }

  /** Over canonical blocks no lookup depends on the order exactly when overlapping entries agree. */
  lemma OrderFreeEverywhere(routes: seq<RouteEntry>)
    requires forall r :: r in routes ==> Canonical(r.dst)
    ensures (forall a: Addr :: OrderFree(routes, a)) <==> OverlapsAgree(routes)
  {
    if OverlapsAgree(routes) {
      forall a: Addr ensures OrderFree(routes, a) {
        OverlapsAgreeAt(routes, a);
        OrderFreeIff(routes, a);
      }
    }
    if forall a: Addr :: OrderFree(routes, a) {
      forall r, s | r in routes && s in routes && Overlaps(r.dst, s.dst) ensures r.nextHop == s.nextHop {
        OverlapsIffShare(r.dst, s.dst);
        var a: Addr :| Contains(r.dst, a) && Contains(s.dst, a);
        OrderFreeIff(routes, a);
        assert Matches(r, a) && Matches(s, a);
      }
    }
  }

  /** Disjoint blocks are the usual case: only entries for one destination overlap. */
  lemma DisjointOverlapsAgree(routes: seq<RouteEntry>)
    requires DisjointBlocks(Destinations(routes)) && Agree(routes)
    ensures OverlapsAgree(routes)
  {
    forall r | r in routes ensures Canonical(r.dst) {
      assert r.dst in Destinations(routes);
    }
    forall r, s | r in routes && s in routes && Overlaps(r.dst, s.dst) ensures r.nextHop == s.nextHop {
      assert r.dst in Destinations(routes) && s.dst in Destinations(routes);
      OverlapsIffShare(r.dst, s.dst);
    }
  }

  /** Over disjoint blocks first match does not depend on the order of the list. */
  lemma LookupPermutes(routes: seq<RouteEntry>, shuffled: seq<RouteEntry>, a: Addr)
    requires DisjointBlocks(Destinations(routes)) && Agree(routes)
    requires SameEntries(routes, shuffled)
    ensures NextHop(routes, a) == NextHop(shuffled, a)
  {
    DisjointOverlapsAgree(routes);
    OrderFreeEverywhere(routes);
    assert OrderFree(routes, a);
  }

  ghost predicate LongestMatch(routes: seq<RouteEntry>, a: Addr, r: RouteEntry) {
    r in routes && Contains(r.dst, a) && forall s :: s in routes && Contains(s.dst, a) ==> s.dst.prefix <= r.dst.prefix
  }

  lemma {:induction false} LongestMatchExists(routes: seq<RouteEntry>, a: Addr, s: RouteEntry) returns (r: RouteEntry)
    requires s in routes && Contains(s.dst, a)
    ensures LongestMatch(routes, a, r)
    decreases 32 - s.dst.prefix
  {
    if LongestMatch(routes, a, s) {
      r := s;
    } else {
      var t :| t in routes && Contains(t.dst, a) && t.dst.prefix > s.dst.prefix;
      r := LongestMatchExists(routes, a, t);
    }
  }

  /** Where overlapping entries agree, as over disjoint blocks, first match is longest-prefix match: both find
      nothing together, and name the same next hop. */
  lemma FirstMatchIsLongest(routes: seq<RouteEntry>, a: Addr)
    requires OverlapsAgree(routes)
    ensures NextHop(routes, a).None? <==> !exists r :: LongestMatch(routes, a, r)
    ensures forall r :: LongestMatch(routes, a, r) ==> NextHop(routes, a) == Some(r.nextHop)
  {
    var f := FindRoute(routes, a);
    OverlapsAgreeAt(routes, a);
    if f.Some? {
      var r := LongestMatchExists(routes, a, f.value);
    }
    forall r | LongestMatch(routes, a, r) ensures NextHop(routes, a) == Some(r.nextHop) {
      assert Matches(r, a);
    }
  }

  /** Where blocks nest, first match depends on the order: a packet for 10.1.0.1 under 10/8 and 10.1/16. */
  lemma NestedBlocksOrder()
    ensures var wide, narrow := RouteEntry(Net(0x0A00_0000, 8), 1), RouteEntry(Net(0x0A01_0000, 16), 2);
            && NextHop([wide, narrow], 0x0A01_0001) == Some(1)
            && NextHop([narrow, wide], 0x0A01_0001) == Some(2)
            && LongestMatch([wide, narrow], 0x0A01_0001, narrow)
  {
    var wide, narrow := RouteEntry(Net(0x0A00_0000, 8), 1), RouteEntry(Net(0x0A01_0000, 16), 2);
    var a := 0x0A01_0001;
    assert Aligned(0x0A_0000, 16) by { AlignedTimes256(0x0A, 0); AlignedTimes256(0x0A00, 8); }
    assert Aligned(0x0A01_0000, 16) by { AlignedTimes256(0x0A01, 0); AlignedTimes256(0x0A_0100, 8); }
    AlignedTimes256(0x0A_0000, 16);
    assert Pow2(8) == 256;
    assert Pow2(16) == 256 * Pow2(8);
    assert Pow2(24) == 256 * Pow2(16);
    ClearsTo(0x0A00_0000, a, 24);
    ClearsTo(0x0A01_0000, a, 16);
    assert Matches(wide, a) && Matches(narrow, a);
  }

  /** Lookup in a table that refines a map of disjoint blocks: the public IP of the lease whose block holds
      the address, or nothing when no block does. */
  lemma LookupInMap(routes: seq<RouteEntry>, m: map<Net, Lease>, a: Addr)
    requires Refines(routes, m) && DisjointBlocks(m.Keys)
    ensures forall k :: k in m && Contains(k, a) ==> NextHop(routes, a) == Some(m[k].attrs.publicIp)
    ensures (forall k :: k in m ==> !Contains(k, a)) ==> NextHop(routes, a) == None
  {
    var f := FindRoute(routes, a);
    if f.Some? { assert Contains(f.value.dst, a); }
    forall k | k in m && Contains(k, a) ensures NextHop(routes, a) == Some(m[k].attrs.publicIp) {
      var r := RouteEntry(k, m[k].attrs.publicIp);
      var i :| 0 <= i < |routes| && routes[i] == r;
      assert Matches(routes[i], a);
      assert f.value.dst == k;
    }
  }
}
