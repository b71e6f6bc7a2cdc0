/** The host-gw backend: watcher events turned into kernel routes.

The kernel is a table with at most one route per destination. It accepts an addition for a free
destination and a deletion that matches the installed route, and nobody else writes to it. */
module HostGw {
  import opened Cidr
  import opened MapLog
  import opened Leases
  import opened Options
  import Watcher

  datatype Route = Route(dst: Option<Net>, gw: Option<Addr>, linkIndex: nat, flags: nat)

  const ONLINK: nat := 4

  predicate RouteEqual(x: Route, y: Route) {
    x.dst.Some? && x.dst == y.dst && x.gw.Some? && x.gw == y.gw && x.linkIndex == y.linkIndex
  }

  type Table = map<Net, Route>

  predicate ValidTable(t: Table) {
    forall d :: d in t ==> t[d].dst == Some(d)
  }

  /** A deletion names a destination, and a gateway and link when it gives them. */
  predicate Deletable(t: Table, r: Route) {
    && r.dst.Some? && r.dst.value in t
    && (r.gw.Some? ==> r.gw == t[r.dst.value].gw)
    && (r.linkIndex != 0 ==> r.linkIndex == t[r.dst.value].linkIndex)
  }

  predicate Addable(t: Table, r: Route) {
    r.dst.Some? && r.dst.value !in t
  }

  class Kernel {
    var table: Table

    constructor (t: Table)
      ensures table == t
    {
      table := t;
    }

    function List(dst: Option<Net>): seq<Route>
      reads this
    {
      Listed(table, dst)
    }

    method Del(r: Route) returns (ok: bool)
      modifies this
      ensures ok == Deletable(old(table), r)
      ensures table == if ok then old(table) - {r.dst.value} else old(table)
    {
      ok := Deletable(table, r);
      if ok { table := table - {r.dst.value}; }
    }

    method Add(r: Route) returns (ok: bool)
      modifies this
      ensures ok == Addable(old(table), r)
      ensures table == if ok then old(table)[r.dst.value := r] else old(table)
    {
      ok := Addable(table, r);
      if ok { table := table[r.dst.value := r]; }
    }
  }

  function Listed(t: Table, dst: Option<Net>): seq<Route> {
    if dst.Some? && dst.value in t then [t[dst.value]] else []
  }

  // What events do to the routes and the kernel --------------------------------------------------

  function Retained(routes: seq<Route>, gone: Route): (r: seq<Route>)
    ensures forall x :: x in r <==> x in routes && !RouteEqual(x, gone)
  {
    if routes == [] then []
    else
      var n := |routes| - 1;
      Retained(routes[..n], gone) + (if RouteEqual(routes[n], gone) then [] else [routes[n]])
  }

  datatype State = State(routes: seq<Route>, kernel: Table, ok: bool)

  /** Recording a route: a different route on the destination goes first. */
  function Cleared(s: State, r: Route): State {
    var pushed := s.(routes := s.routes + [r]);
    if Listed(s.kernel, r.dst) == [] || RouteEqual(Listed(s.kernel, r.dst)[0], r) then pushed
    else
      var other := Listed(s.kernel, r.dst)[0];
      if Deletable(s.kernel, other)
      then State(Retained(pushed.routes, other), s.kernel - {other.dst.value}, s.ok)
      else pushed.(ok := false)
  }

  /** And installing it, unless it is there. */
  function RouteAdded(s: State, r: Route): State {
    var cleared := Cleared(s, r);
    if !cleared.ok then cleared
    else if Listed(cleared.kernel, r.dst) != [] && RouteEqual(Listed(cleared.kernel, r.dst)[0], r) then cleared
    else if Addable(cleared.kernel, r) then cleared.(kernel := cleared.kernel[r.dst.value := r])
    else cleared.(ok := false)
  }

  function RouteDeleted(s: State, r: Route): State {
    State(Retained(s.routes, r), if Deletable(s.kernel, r) then s.kernel - {r.dst.value} else s.kernel, s.ok)
  }

  function RouteOf(link: nat, lease: Lease): Route {
    Route(Some(lease.subnet), Some(lease.attrs.publicIp), link, ONLINK)
  }

  function EventHandled(link: nat, backend: string, s: State, e: LeaseEvent): State {
    if !s.ok || e.lease.attrs.backendType != Some(backend) then s
    else match e.eventType
      case PutEvent => RouteAdded(s, RouteOf(link, e.lease))
      case DeleteEvent => RouteDeleted(s, RouteOf(link, e.lease))
  }

  function AllHandled(link: nat, backend: string, s: State, events: seq<LeaseEvent>): State {
    if events == [] then s
    else EventHandled(link, backend, AllHandled(link, backend, s, events[..|events| - 1]), events[|events| - 1])
  }

  class RouterNetwork {
    var routes: seq<Route>
    const kernel: Kernel
    const linkIndex: nat
    const backendType: string

    constructor (kernel: Kernel, linkIndex: nat, backendType: string)
      ensures this.kernel == kernel && this.linkIndex == linkIndex && this.backendType == backendType
      ensures routes == []
    {
      this.kernel, this.linkIndex, this.backendType := kernel, linkIndex, backendType;
      routes := [];
    }

    method Retain(gone: Route)
      modifies this
      ensures routes == Retained(old(routes), gone)
    {
      var kept := [];
      for i := 0 to |routes|
        invariant routes == old(routes)
        invariant kept == Retained(routes[..i], gone)
      {
        assert routes[..i + 1][..i] == routes[..i];
        if !RouteEqual(routes[i], gone) { kept := kept + [routes[i]]; }
      }
      assert routes[..|routes|] == routes;
      routes := kept;
    }

    method RouteAdd(r: Route) returns (ok: bool)
      modifies this, kernel
      ensures State(routes, kernel.table, ok) == RouteAdded(State(old(routes), old(kernel.table), true), r)
    {
      routes := routes + [r];
      var list := kernel.List(r.dst);
      if list != [] && !RouteEqual(list[0], r) {
        ok := kernel.Del(list[0]);
        if !ok { return; }
        Retain(list[0]);
      }
      list := kernel.List(r.dst);
      if list != [] && RouteEqual(list[0], r) { return true; }
      ok := kernel.Add(r);
    }

    /** Handles a batch; a failed installation ends the run. */
    method HandleEvents(events: seq<LeaseEvent>) returns (ok: bool)
      modifies this, kernel
      ensures State(routes, kernel.table, ok)
              == AllHandled(linkIndex, backendType, State(old(routes), old(kernel.table), true), events)
    {
      ok := true;
      for n := 0 to |events|
        invariant State(routes, kernel.table, ok)
                  == AllHandled(linkIndex, backendType, State(old(routes), old(kernel.table), true), events[..n])
      {
        assert events[..n + 1][..n] == events[..n];
        if ok && events[n].lease.attrs.backendType == Some(backendType) {
          var route := RouteOf(linkIndex, events[n].lease);
          if events[n].eventType.PutEvent? {
            ok := RouteAdd(route);
          } else {
            Retain(route);
            var _ := kernel.Del(route);
          }
        }
      }
      assert events[..|events|] == events;
    }
  }

  // The kernel follows the leases ----------------------------------------------------------------

  /** The kernel's route for `r`'s destination is `r`, flags aside. */
  predicate Installed(t: Table, r: Route) {
    r.dst.Some? && r.dst.value in t && RouteEqual(t[r.dst.value], r)
  }

  /** The event's lease is of the backend's type. */
  predicate Ours(backend: string, e: LeaseEvent) {
    e.lease.attrs.backendType == Some(backend)
  }

  /** Position of the last event on `d` with a lease of the backend's type, or -1. */
  function LastOurs(backend: string, events: seq<LeaseEvent>, d: Net): (i: int)
    ensures -1 <= i < |events|
    ensures i >= 0 ==> events[i].lease.subnet == d && Ours(backend, events[i])
    ensures forall j :: i < j < |events| ==> !(events[j].lease.subnet == d && Ours(backend, events[j]))
  {
    if events == [] then -1
    else
      var n := |events| - 1;
      if events[n].lease.subnet == d && Ours(backend, events[n]) then n else LastOurs(backend, events[..n], d)
  }

  /** The kernel's entry for `d` is what the last such event asks for: the route it put, nothing after a delete,
      and what was there before if there has been none. */
  predicate TracksAt(link: nat, backend: string, before: Table, events: seq<LeaseEvent>, t: Table, d: Net) {
    var i := LastOurs(backend, events, d);
    if i < 0 then At(t, d) == At(before, d)
    else if events[i].eventType.PutEvent? then Installed(t, RouteOf(link, events[i].lease))
    else d !in t
  }

  /** The kernel's very entry for `d`: a put leaves a route by its gateway and link as it is, flags and all, and
      otherwise installs one that is on-link (flag 4); a delete leaves none. */
  function EntryAfter(link: nat, backend: string, before: Table, events: seq<LeaseEvent>, d: Net): Option<Route> {
    if events == [] then At(before, d)
    else
      var e, entry := events[|events| - 1], EntryAfter(link, backend, before, events[..|events| - 1], d);
      if e.lease.subnet != d || e.lease.attrs.backendType != Some(backend) then entry
      else match e.eventType
        case DeleteEvent => None
        case PutEvent =>
          var gw := Some(e.lease.attrs.publicIp);
          if entry.Some? && entry.value.gw == gw && entry.value.linkIndex == link then entry
          else Some(Route(Some(d), gw, link, 4))
  }

  /** The records for `d`: the route last put if the last event of the type on it is a put, and none else. */
  ghost predicate RecordedAt(link: nat, backend: string, events: seq<LeaseEvent>, routes: seq<Route>, d: Net) {
    var i := LastOurs(backend, events, d);
    if i >= 0 && events[i].eventType.PutEvent?
    then Route(Some(d), Some(events[i].lease.attrs.publicIp), link, 4) in routes
    else forall r :: r in routes ==> r.dst != Some(d)
  }

  ghost predicate Tracks(link: nat, backend: string, before: Table, events: seq<LeaseEvent>, s: State) {
    && s.ok
    && ValidTable(s.kernel)
    && (forall d :: TracksAt(link, backend, before, events, s.kernel, d))
    && (forall d :: At(s.kernel, d) == EntryAfter(link, backend, before, events, d))
    && (forall d :: RecordedAt(link, backend, events, s.routes, d))
    && (forall r :: r in s.routes ==> Installed(s.kernel, r))
  }

  /** A lease of the backend's type is known for `d`. */
  predicate KnownOurs(backend: string, events: seq<LeaseEvent>, d: Net) {
    d in Replay(events) && Replay(events)[d].attrs.backendType == Some(backend)
  }

  predicate Touched(backend: string, events: seq<LeaseEvent>, d: Net) {
    exists i :: 0 <= i < |events|
                && events[i].eventType.PutEvent? && events[i].lease.subnet == d && Ours(backend, events[i])
  }

  /** What the kernel should hold for `d`: the route of the known lease if it is of the backend's type, nothing
      if one was put and none is known any more, and what it held before if none was ever put. */
  predicate FollowsAt(link: nat, backend: string, before: Table, events: seq<LeaseEvent>, t: Table, d: Net) {
    if KnownOurs(backend, events, d) then Installed(t, RouteOf(link, Replay(events)[d]))
    else if Touched(backend, events, d) then d !in t
    else At(t, d) == At(before, d)
  }

  /** The last event of the backend's type put a route, and no lease of that type is known now. */
  predicate Stranded(backend: string, events: seq<LeaseEvent>, d: Net) {
    var i := LastOurs(backend, events, d);
    i >= 0 && events[i].eventType.PutEvent? && !KnownOurs(backend, events, d)
  }

  /** A known lease of the backend's type is the one last put. */
  lemma KnownIsLast(backend: string, events: seq<LeaseEvent>, d: Net)
    requires KnownOurs(backend, events, d)
    ensures var i := LastOurs(backend, events, d);
            i >= 0 && events[i] == LeaseEvent(PutEvent, Replay(events)[d])
  {
    FoldAt(map[], OpsOf(events), d);
    var i := LastOn(OpsOf(events), d);
    assert OpsOf(events)[i] == OpOf(events[i]);
    assert forall j :: i < j < |events| ==> OpsOf(events)[j] == OpOf(events[j]);
  }

  /** A delete of the backend's type is of a lease known as such. */
  lemma DeletesKnown(backend: string, events: seq<LeaseEvent>, i: nat)
    requires i < |events| && Watcher.CarriesAt(events, i)
    requires events[i].eventType.DeleteEvent? && Ours(backend, events[i])
    ensures var d := events[i].lease.subnet;
            KnownOurs(backend, events[..i], d) && Replay(events[..i])[d] == events[i].lease
  {}

  /** The kernel follows the leases at exactly the destinations that are not stranded. */
  lemma FollowsIff(link: nat, backend: string, before: Table, events: seq<LeaseEvent>, t: Table, d: Net)
    requires Watcher.CarriesHistory(events) && TracksAt(link, backend, before, events, t, d)
    ensures FollowsAt(link, backend, before, events, t, d) <==> !Stranded(backend, events, d)
  {
    var i := LastOurs(backend, events, d);
    if KnownOurs(backend, events, d) {
      KnownIsLast(backend, events, d);
    } else if i >= 0 && events[i].eventType.DeleteEvent? {
      assert Watcher.CarriesAt(events, i);
      DeletesKnown(backend, events, i);
      KnownIsLast(backend, events[..i], d);
      var j := LastOurs(backend, events[..i], d);
      assert events[j] == events[..i][j];
    }
  }

  lemma RetainedLast(routes: seq<Route>, r: Route, gone: Route)
    requires !RouteEqual(r, gone)
    ensures Retained(routes + [r], gone) == Retained(routes, gone) + [r]
  {
    assert (routes + [r])[..|routes|] == routes;
  }

  /** The route the kernel has instead of `r`, which installing `r` replaces. */
  function Replaced(t: Table, r: Route): Option<Route> {
    if r.dst.Some? && r.dst.value in t && !RouteEqual(t[r.dst.value], r) then Some(t[r.dst.value]) else None
  }

  /** Installing records the route last, after dropping the records of a different route it replaces. */
  lemma AddRecords(s: State, r: Route)
    requires ValidTable(s.kernel)
    ensures RouteAdded(s, r).routes ==
              (match Replaced(s.kernel, r)
               case Some(other) => Retained(s.routes, other)
               case None => s.routes) + [r]
  {
    ClearedRecords(s, r);
  }

  lemma ClearedRecords(s: State, r: Route)
    requires ValidTable(s.kernel)
    ensures Cleared(s, r).routes ==
              (match Replaced(s.kernel, r)
               case Some(other) => Retained(s.routes, other)
               case None => s.routes) + [r]
  {
    if Replaced(s.kernel, r).Some? { RetainedLast(s.routes, r, Replaced(s.kernel, r).value); }
  }

  /** It leaves the records of other destinations alone. */
  lemma AddKeepsRecords(s: State, r: Route)
    requires ValidTable(s.kernel)
    ensures var t := RouteAdded(s, r).routes;
            && r in t
            && (forall x :: x in s.routes && x.dst != r.dst ==> x in t)
            && (forall x :: x in t ==> x == r || x in s.routes)
  {
    AddRecords(s, r);
    var t := RouteAdded(s, r).routes;
    assert t[|t| - 1] == r;
  }

  /** A deletion drops the records of its route, keeps those of other destinations, and never ends the run. */
  lemma DeleteRecords(s: State, r: Route)
    ensures var t := RouteDeleted(s, r);
            && t.ok == s.ok
            && (forall x :: x in s.routes && x.dst != r.dst ==> x in t.routes)
            && (forall x :: x in t.routes ==> x in s.routes && !RouteEqual(x, r))
            && (forall d :: d in t.kernel ==> d in s.kernel && t.kernel[d] == s.kernel[d])
            && (forall d :: d in s.kernel && r.dst != Some(d) ==> d in t.kernel)
  {}

  /** Dropping keeps the order of what stays. */
  lemma {:induction false} RetainedAppend(a: seq<Route>, b: seq<Route>, gone: Route)
    ensures Retained(a + b, gone) == Retained(a, gone) + Retained(b, gone)
  {
    if b == [] {
      assert a + b == a;
    } else {
      assert (a + b)[..|a + b| - 1] == a + b[..|b| - 1];
      RetainedAppend(a, b[..|b| - 1], gone);
    }
  }

  /** Installing a lease's route over a valid kernel never fails, and changes that destination only. */
  lemma AddInstalls(s: State, r: Route)
    requires s.ok && ValidTable(s.kernel) && r.dst.Some? && r.gw.Some?
    requires forall x :: x in s.routes ==> Installed(s.kernel, x)
    ensures var t := RouteAdded(s, r);
            && t.ok && ValidTable(t.kernel) && Installed(t.kernel, r)
            && (forall d :: d != r.dst.value ==> At(t.kernel, d) == At(s.kernel, d))
            && (forall x :: x in t.routes ==> Installed(t.kernel, x))
  {}

  /** Deleting an installed route takes its destination, and every record of it, away. */
  lemma DeleteRemoves(s: State, r: Route)
    requires ValidTable(s.kernel) && Installed(s.kernel, r)
    requires forall x :: x in s.routes ==> Installed(s.kernel, x)
    ensures var t := RouteDeleted(s, r);
            && t.kernel == s.kernel - {r.dst.value} && ValidTable(t.kernel)
            && (forall x :: x in t.routes ==> Installed(t.kernel, x))
  {}

  /** Handling an event succeeds, keeps the records installed, and moves only its own destination. */
  lemma HandledLocal(link: nat, backend: string, s: State, e: LeaseEvent)
    requires s.ok && ValidTable(s.kernel) && forall x :: x in s.routes ==> Installed(s.kernel, x)
    requires e.eventType.DeleteEvent? && e.lease.attrs.backendType == Some(backend) ==>
               Installed(s.kernel, RouteOf(link, e.lease))
    ensures var t := EventHandled(link, backend, s, e);
            && t.ok && ValidTable(t.kernel) && (forall x :: x in t.routes ==> Installed(t.kernel, x))
            && (forall d :: d != e.lease.subnet ==> At(t.kernel, d) == At(s.kernel, d))
            && (if e.lease.attrs.backendType != Some(backend) then t.kernel == s.kernel
                else if e.eventType.PutEvent? then Installed(t.kernel, RouteOf(link, e.lease))
                else e.lease.subnet !in t.kernel)
            && At(t.kernel, e.lease.subnet) ==
                 (var entry, gw := At(s.kernel, e.lease.subnet), Some(e.lease.attrs.publicIp);
                  if e.lease.attrs.backendType != Some(backend) then entry
                  else if e.eventType.DeleteEvent? then None
                  else if entry.Some? && entry.value.gw == gw && entry.value.linkIndex == link then entry
                  else Some(Route(Some(e.lease.subnet), gw, link, 4)))
  {
    if e.lease.attrs.backendType == Some(backend) {
      if e.eventType.PutEvent? {
        AddInstalls(s, RouteOf(link, e.lease));
      } else {
        DeleteRemoves(s, RouteOf(link, e.lease));
      }
    }
  }

  /** The records after an event: its own route after a put, none for it after a delete, the others as before. */
  lemma HandledRecords(link: nat, backend: string, s: State, e: LeaseEvent)
    requires s.ok && ValidTable(s.kernel) && forall x :: x in s.routes ==> Installed(s.kernel, x)
    requires e.eventType.DeleteEvent? && e.lease.attrs.backendType == Some(backend) ==>
               Installed(s.kernel, RouteOf(link, e.lease))
    ensures var t, d := EventHandled(link, backend, s, e).routes, e.lease.subnet;
            && (forall x: Route :: x.dst != Some(d) ==> (x in t <==> x in s.routes))
            && (if e.lease.attrs.backendType != Some(backend) then t == s.routes
                else if e.eventType.PutEvent? then Route(Some(d), Some(e.lease.attrs.publicIp), link, 4) in t
                else forall x :: x in t ==> x.dst != Some(d))
  {
    if e.lease.attrs.backendType == Some(backend) {
      if e.eventType.PutEvent? {
        AddKeepsRecords(s, RouteOf(link, e.lease));
      } else {
        DeleteRecords(s, RouteOf(link, e.lease));
      }
    }
  }

  lemma RecordsTracked(link: nat, backend: string, events: seq<LeaseEvent>, e: LeaseEvent, s: State)
    requires s.ok && ValidTable(s.kernel) && forall x :: x in s.routes ==> Installed(s.kernel, x)
    requires e.eventType.DeleteEvent? && e.lease.attrs.backendType == Some(backend) ==>
               Installed(s.kernel, RouteOf(link, e.lease))
    requires forall d :: RecordedAt(link, backend, events, s.routes, d)
    ensures forall d :: RecordedAt(link, backend, events + [e], EventHandled(link, backend, s, e).routes, d)
  {
    HandledRecords(link, backend, s, e);
    assert (events + [e])[..|events|] == events;
    forall d ensures RecordedAt(link, backend, events + [e], EventHandled(link, backend, s, e).routes, d) {
      assert RecordedAt(link, backend, events, s.routes, d);
    }
  }

  lemma EntryTracked(link: nat, backend: string, before: Table, events: seq<LeaseEvent>, e: LeaseEvent, s: State)
    requires s.ok && ValidTable(s.kernel) && forall x :: x in s.routes ==> Installed(s.kernel, x)
    requires e.eventType.DeleteEvent? && e.lease.attrs.backendType == Some(backend) ==>
               Installed(s.kernel, RouteOf(link, e.lease))
    requires forall d :: At(s.kernel, d) == EntryAfter(link, backend, before, events, d)
    ensures forall d :: At(EventHandled(link, backend, s, e).kernel, d)
                        == EntryAfter(link, backend, before, events + [e], d)
  {
    HandledLocal(link, backend, s, e);
    assert (events + [e])[..|events|] == events;
  }

  lemma HandledTracks(link: nat, backend: string, before: Table, events: seq<LeaseEvent>, e: LeaseEvent, s: State)
    requires Tracks(link, backend, before, events, s) && Watcher.CarriesAt(events + [e], |events|)
    ensures Tracks(link, backend, before, events + [e], EventHandled(link, backend, s, e))
  {
    var more, t := events + [e], EventHandled(link, backend, s, e);
    assert more[..|events|] == events && more[|events|] == e;
    assert TracksAt(link, backend, before, events, s.kernel, e.lease.subnet);
    if e.eventType.DeleteEvent? && Ours(backend, e) {
      DeletesKnown(backend, more, |events|);
      KnownIsLast(backend, events, e.lease.subnet);
    }
    HandledLocal(link, backend, s, e);
    RecordsTracked(link, backend, events, e, s);
    EntryTracked(link, backend, before, events, e, s);
    forall d ensures TracksAt(link, backend, before, more, t.kernel, d) {
      assert TracksAt(link, backend, before, events, s.kernel, d);
      if d != e.lease.subnet { assert At(t.kernel, d) == At(s.kernel, d); }
    }
  }

  lemma CarriedBefore(events: seq<LeaseEvent>, n: nat)
    requires n <= |events| && Watcher.CarriesHistory(events)
    ensures Watcher.CarriesHistory(events[..n])
  {
    forall i | 0 <= i < n ensures Watcher.CarriesAt(events[..n], i) {
      assert Watcher.CarriesAt(events, i);
      assert events[..n][..i] == events[..i];
    }
  }

  lemma {:induction false} AllTracked(link: nat, backend: string, before: Table, events: seq<LeaseEvent>)
    requires ValidTable(before) && Watcher.CarriesHistory(events)
    ensures Tracks(link, backend, before, events, AllHandled(link, backend, State([], before, true), events))
  {
    if events != [] {
      var n := |events| - 1;
      CarriedBefore(events, n);
      AllTracked(link, backend, before, events[..n]);
      assert events == events[..n] + [events[n]];
      assert Watcher.CarriesAt(events, n);
      HandledTracks(link, backend, before, events[..n], events[n],
                    AllHandled(link, backend, State([], before, true), events[..n]));
    }
  }

  /** Where the kernel had nothing, every route there is on-link. */
  lemma {:induction false} NewRoutesOnLink(link: nat, backend: string, before: Table, events: seq<LeaseEvent>, d: Net)
    requires d !in before
    ensures var entry := EntryAfter(link, backend, before, events, d);
            entry.Some? ==> entry.value.flags == 4 && entry.value.dst == Some(d) && entry.value.linkIndex == link
  {
    if events != [] { NewRoutesOnLink(link, backend, before, events[..|events| - 1], d); }
  }

  /** Whatever the registry sends, nothing fails, the kernel tracks the events of the backend's own type and
      every record is installed; and it follows the leases at exactly the destinations that are not stranded. */
  lemma KernelFollowsLeases(link: nat, backend: string, before: Table,
                            own: Net, snapshot: seq<Lease>, events: seq<LeaseEvent>)
    requires ValidTable(before) && Distinct(snapshot) && Watcher.Tombstones(events)
    ensures var sent := Watcher.Watched(own, Watcher.Results(snapshot, events)).batch;
            var s := AllHandled(link, backend, State([], before, true), sent);
            && Tracks(link, backend, before, sent, s)
            && (forall d :: FollowsAt(link, backend, before, sent, s.kernel, d) <==> !Stranded(backend, sent, d))
  {
    var sent := Watcher.Watched(own, Watcher.Results(snapshot, events)).batch;
    var s := AllHandled(link, backend, State([], before, true), sent);
    Watcher.DeletesCarryHistory(own, snapshot, events);
    AllTracked(link, backend, before, sent);
    forall d ensures FollowsAt(link, backend, before, sent, s.kernel, d) <==> !Stranded(backend, sent, d) {
      FollowsIff(link, backend, before, sent, s.kernel, d);
    }
  }

  // When every subnet keeps its backend type -----------------------------------------------------

  /** Every put on a subnet names the backend type that subnet has. */
  predicate Typed(types: Net -> Option<string>, events: seq<LeaseEvent>) {
    forall i :: 0 <= i < |events| && events[i].eventType.PutEvent? ==>
      events[i].lease.attrs.backendType == types(events[i].lease.subnet)
  }

  /** Then no destination is stranded: a subnet of the type is known until a delete of the type. */
  lemma {:induction false} TypedNotStranded(types: Net -> Option<string>, backend: string,
                                            events: seq<LeaseEvent>, d: Net)
    requires Typed(types, events) && Watcher.CarriesHistory(events)
    ensures !Stranded(backend, events, d)
  {
    if events != [] {
      var n := |events| - 1;
      CarriedBefore(events, n);
      TypedNotStranded(types, backend, events[..n], d);
      assert events == events[..n] + [events[n]];
      ReplayStep(events[..n], events[n]);
      assert Watcher.CarriesAt(events, n);
      var i := LastOurs(backend, events, d);
      assert i >= 0 && events[i].eventType.PutEvent? ==> types(d) == Some(backend);
    }
  }

  lemma {:induction false} SentTyped(types: Net -> Option<string>, own: Net,
                                     snapshot: seq<Lease>, events: seq<LeaseEvent>)
    requires Distinct(snapshot) && Typed(types, events)
    requires forall i :: 0 <= i < |snapshot| ==> snapshot[i].attrs.backendType == types(snapshot[i].subnet)
    ensures Typed(types, Watcher.Onward(own, Watcher.Started(own, snapshot), events).batch)
  {
    if events == [] {
      Watcher.StartedPuts(own, snapshot);
      Watcher.MatchedPuts(own, [], snapshot);
    } else {
      SentTyped(types, own, snapshot, events[..|events| - 1]);
    }
  }

  /** Where every subnet keeps its backend type the kernel has exactly the routes of the known leases of the
      backend's type: deleted leases leave none, and destinations never put are as they were. */
  lemma TypedKernelFollows(types: Net -> Option<string>, link: nat, backend: string, before: Table,
                           own: Net, snapshot: seq<Lease>, events: seq<LeaseEvent>, d: Net)
    requires ValidTable(before) && Distinct(snapshot) && Watcher.Tombstones(events) && Typed(types, events)
    requires forall i :: 0 <= i < |snapshot| ==> snapshot[i].attrs.backendType == types(snapshot[i].subnet)
    ensures var sent := Watcher.Watched(own, Watcher.Results(snapshot, events)).batch;
            FollowsAt(link, backend, before, sent, AllHandled(link, backend, State([], before, true), sent).kernel, d)
  {
    KernelFollowsLeases(link, backend, before, own, snapshot, events);
    Watcher.DeletesCarryHistory(own, snapshot, events);
    Watcher.WatchedRun(own, snapshot, events);
    SentTyped(types, own, snapshot, events);
    TypedNotStranded(types, backend, Watcher.Watched(own, Watcher.Results(snapshot, events)).batch, d);
  }

  /** Why the backend type has to stay: a lease that turns from host-gw to udp before it goes leaves its route. */
  lemma TypeChangeLeavesRoute(link: nat, sn: Net, ip: Addr)
    ensures var gw := Lease(sn, LeaseAttrs(ip, Some("host-gw")), 0);
            var udp := Lease(sn, LeaseAttrs(ip, Some("udp")), 0);
            var sent := [LeaseEvent(PutEvent, gw), LeaseEvent(PutEvent, udp), LeaseEvent(DeleteEvent, udp)];
            && Watcher.CarriesHistory(sent) && sn !in Replay(sent) && Stranded("host-gw", sent, sn)
            && AllHandled(link, "host-gw", State([], map[], true), sent).kernel == map[sn := RouteOf(link, gw)]
  {
    var gw := Lease(sn, LeaseAttrs(ip, Some("host-gw")), 0);
    var udp := Lease(sn, LeaseAttrs(ip, Some("udp")), 0);
    var e0, e1, e2 := LeaseEvent(PutEvent, gw), LeaseEvent(PutEvent, udp), LeaseEvent(DeleteEvent, udp);
    var two := [e0, e1];
    var sent := [e0, e1, e2];
    assert two[..1] == [e0] && [e0][..0] == [] && sent[..2] == two;
    assert two == [e0] + [e1] && sent == two + [e2] && [e0] == [] + [e0];
    ReplayStep([], e0);
    ReplayStep([e0], e1);
    ReplayStep(two, e2);
    assert "udp"[0] != "host-gw"[0];
    var s0 := State([], map[], true);
    var s1 := EventHandled(link, "host-gw", s0, e0);
    assert AllHandled(link, "host-gw", s0, []) == s0;
    assert AllHandled(link, "host-gw", s0, [e0]) == s1;
    assert AllHandled(link, "host-gw", s0, two) == s1;
    assert AllHandled(link, "host-gw", s0, sent) == s1;
    assert map[][sn := RouteOf(link, gw)] == map[sn := RouteOf(link, gw)];
    assert LastOurs("host-gw", sent, sn) == 0;
  }
}
