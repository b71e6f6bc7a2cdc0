/** The registry as a node uses it: reading and writing leases, watching them, and acquiring one. */
module Registry {
  import opened Cidr
  import opened Allocator
  import opened MapLog
  import opened Leases
  import opened Options
  import opened Protocol
  import Watcher

  /** Asking etcd for what is left of a lease; an etcd lease that is gone answers -1. */
  datatype TtlLookup = Failed | Ttl(seconds: int)

  datatype Snapshot = Read(leases: seq<Lease>, cursor: nat) | TtlOverflow

  /** A lease as read from a key, with an expiration worked out from the clock and the remaining lifetime. */
  function LeaseOf(backends: Addr -> Option<string>, net: Net, owner: Addr, expiration: nat): Lease {
    Lease(net, LeaseAttrs(owner, backends(owner)), expiration)
  }

  function SeenAs(l: Lease): Seen {
    Seen(l.subnet, l.attrs.publicIp, l.expiration)
  }

  function SeenList(leases: seq<Lease>): (r: seq<Seen>)
    ensures |r| == |leases| && forall i :: 0 <= i < |r| ==> r[i] == SeenAs(leases[i])
  {
    seq(|leases|, i requires 0 <= i < |leases| => SeenAs(leases[i]))
  }

  /** What reading every key and its lifetime answers: the keys whose lookup succeeds, each once, with owner and
      expiration. Keys whose lookup fails are left out, a lifetime of -1 overflows the clock, and an empty range
      reports cursor 0. */
  ghost predicate ReadFrom(st: State, backends: Addr -> Option<string>, lookup: Net -> TtlLookup, s: Snapshot) {
    && (s.TtlOverflow? <==> exists k :: k in st.store && lookup(k).Ttl? && lookup(k).seconds < 0)
    && (s.Read? ==>
          && Distinct(s.leases) && s.cursor == (if st.store == map[] then 0 else |st.log|)
          && (forall k :: k in Subnets(s.leases) <==> k in st.store && lookup(k).Ttl?)
          && forall i :: 0 <= i < |s.leases| ==>
               var k := s.leases[i].subnet;
               && k in st.store && lookup(k).Ttl? && lookup(k).seconds >= 0
               && s.leases[i] == LeaseOf(backends, k, st.store[k].owner, st.now + lookup(k).seconds))
  }

  /** The etcd store behind the registry. `backends` gives the backend type each node writes. */
  class EtcdSubnetRegistry {
    var now: nat
    var store: Store
    var log: History
    const backends: Addr -> Option<string>

    constructor (backends: Addr -> Option<string>)
      ensures store == map[] && log == [] && this.backends == backends
    {
      this.backends := backends;
      now, store, log := 0, map[], [];
    }

    /** What a node sees of the world, alone and not yet started. */
    function Alone(): State
      reads this
    {
      State(now, store, log, map[], map[])
    }

    /** Reads every key under the subnets prefix and asks for its lifetime. */
    method GetSubnets(lookup: Net -> TtlLookup) returns (s: Snapshot)
      ensures ReadFrom(Alone(), backends, lookup, s)
      ensures s.Read? ==> SeenIn(store, SeenList(s.leases))
    {
      var rest := store.Keys;
      var leases := [];
      while rest != {}
        invariant rest <= store.Keys
        invariant Distinct(leases)
        invariant forall k :: k in Subnets(leases) <==> k in store && k !in rest && lookup(k).Ttl?
        invariant forall k :: k in store && k !in rest && lookup(k).Ttl? ==> lookup(k).seconds >= 0
        invariant forall i :: 0 <= i < |leases| ==>
                    var k := leases[i].subnet;
                    k in store && k !in rest && lookup(k).Ttl? && lookup(k).seconds >= 0
                    && leases[i] == LeaseOf(backends, k, store[k].owner, now + lookup(k).seconds)
      {
        var k :| k in rest;
        match lookup(k) {
          case Failed =>
          case Ttl(seconds) =>
            if seconds < 0 { return TtlOverflow; }
            ghost var before := leases;
            leases := leases + [LeaseOf(backends, k, store[k].owner, now + seconds)];
            assert Subnets(leases) == Subnets(before) + {k};
        }
        rest := rest - {k};
      }
      return Read(leases, if store == map[] then 0 else |log|);
    }

    /** Creates the key if there is none; answers the expiration, or nothing when the key exists. */
    method CreateSubnet(net: Net, owner: Addr, ttl: nat) returns (expiration: Option<nat>)
      modifies this`store, this`log
      ensures expiration == if net in old(store) then None else Some(now + ttl)
      ensures var entry := Entry(owner, now + ttl, |old(log)|);
              if net in old(store) then store == old(store) && log == old(log)
              else store == old(store)[net := entry] && log == old(log) + [Put(net, entry)]
    {
      if net in store { return None; }
      var entry := Entry(owner, now + ttl, |log|);
      store, log := store[net := entry], log + [Put(net, entry)];
      return Some(now + ttl);
    }

    /** Writes the key whether or not it exists, and whoever wrote it. */
    method UpdateSubnet(net: Net, owner: Addr, ttl: nat) returns (expiration: nat)
      modifies this`store, this`log
      ensures expiration == now + ttl
      ensures var entry := Entry(owner, now + ttl, |old(log)|);
              store == old(store)[net := entry] && log == old(log) + [Put(net, entry)]
    {
      var entry := Entry(owner, now + ttl, |log|);
      store, log := store[net := entry], log + [Put(net, entry)];
      return now + ttl;
    }
  }

  // The watch -----------------------------------------------------------------------------------

  /** The clock and the answer to the lifetime lookup when a log entry is parsed. */
  datatype Reading = Reading(clock: nat, lookup: TtlLookup)

  /** A put is passed on unless its etcd lease is gone; a delete is without a lookup. */
  predicate PassedOn(op: Op<Net, Entry>, r: Reading) {
    op.Del? || (r.lookup.Ttl? && r.lookup.seconds >= 0)
  }

  function Parse(backends: Addr -> Option<string>, op: Op<Net, Entry>, r: Reading): Option<LeaseEvent> {
    if !PassedOn(op, r) then None
    else match op
      case Put(net, entry) =>
        Some(LeaseEvent(PutEvent, LeaseOf(backends, net, entry.owner, r.clock + r.lookup.seconds)))
      case Del(net) => Some(LeaseEvent(DeleteEvent, Lease(net, DEFAULT_ATTRS, r.clock)))
  }

  function Parsed(backends: Addr -> Option<string>, entries: History, rs: seq<Reading>): seq<LeaseEvent>
    requires |rs| == |entries|
  {
    if entries == [] then []
    else
      var n := |entries| - 1;
      var last := Parse(backends, entries[n], rs[n]);
      Parsed(backends, entries[..n], rs[..n]) + (if last.Some? then [last.value] else [])
  }

  function Singles(events: seq<LeaseEvent>): seq<Watcher.WatchResult> {
    if events == [] then []
    else Singles(events[..|events| - 1]) + [Watcher.WatchResult([], [events[|events| - 1]])]
  }

  /** A part of the history as etcd delivers it, with what the lookups on its puts answer. */
  datatype Response = Response(entries: History, readings: seq<Reading>)
  {
    predicate Valid() {
      |readings| == |entries|
    }

    /** Every lookup answers; one that fails ends the watch. */
    predicate Sound() {
      Valid() && LookupsAnswer(entries, readings)
    }
  }

  function EntriesOf(responses: seq<Response>): History {
    if responses == [] then [] else EntriesOf(responses[..|responses| - 1]) + responses[|responses| - 1].entries
  }

  function ReadingsOf(responses: seq<Response>): (rs: seq<Reading>)
    requires AllValid(responses)
    ensures |rs| == |EntriesOf(responses)|
  {
    if responses == [] then []
    else
      var n := |responses| - 1;
      assert responses[n].Valid();
      ReadingsOf(responses[..n]) + responses[n].readings
  }

  /** How many responses the watch handles before one of their lookups fails. */
  function SoundCount(responses: seq<Response>): (k: nat)
    ensures k <= |responses| && forall i :: 0 <= i < k ==> responses[i].Sound()
    ensures k < |responses| ==> !responses[k].Sound()
  {
    if responses == [] then 0
    else
      var n := |responses| - 1;
      var k := SoundCount(responses[..n]);
      if k == n && responses[n].Sound() then n + 1 else k
  }

  function Parses(backends: Addr -> Option<string>, entries: History, rs: seq<Reading>)
    : (events: seq<Option<LeaseEvent>>)
    requires |rs| == |entries|
    ensures |events| == |entries|
    ensures forall i :: 0 <= i < |events| ==> events[i] == Parse(backends, entries[i], rs[i])
  {
    seq(|entries|, i requires 0 <= i < |entries| => Parse(backends, entries[i], rs[i]))
  }

  /** One watch result per event there is. */
  function OnePerEvent(events: seq<Option<LeaseEvent>>): seq<Watcher.WatchResult> {
    if events == [] then []
    else
      var n := |events| - 1;
      OnePerEvent(events[..n]) + (if events[n].Some? then [Watcher.WatchResult([], [events[n].value])] else [])
  }

  function ResultsOf(backends: Addr -> Option<string>, entries: History, rs: seq<Reading>): seq<Watcher.WatchResult>
    requires |rs| == |entries|
  {
    OnePerEvent(Parses(backends, entries, rs))
  }

  lemma {:induction false} ResultsAreSingles(backends: Addr -> Option<string>, entries: History, rs: seq<Reading>)
    requires |rs| == |entries|
    ensures ResultsOf(backends, entries, rs) == Singles(Parsed(backends, entries, rs))
  {
    if entries != [] {
      var n := |entries| - 1;
      ResultsAreSingles(backends, entries[..n], rs[..n]);
      assert Parses(backends, entries, rs)[..n] == Parses(backends, entries[..n], rs[..n]);
      var events, last := Parsed(backends, entries[..n], rs[..n]), Parse(backends, entries[n], rs[n]);
      if last.Some? {
        assert (events + [last.value])[..|events|] == events;
      } else {
        assert events + [] == events;
      }
    }
  }

  lemma {:induction false} OnePerEventAppend(a: seq<Option<LeaseEvent>>, b: seq<Option<LeaseEvent>>)
    ensures OnePerEvent(a + b) == OnePerEvent(a) + OnePerEvent(b)
  {
    if b == [] {
      assert a + b == a;
    } else {
      assert (a + b)[..|a + b| - 1] == a + b[..|b| - 1];
      OnePerEventAppend(a, b[..|b| - 1]);
    }
  }

  lemma ResultsAppend(backends: Addr -> Option<string>, a: History, ra: seq<Reading>, b: History, rb: seq<Reading>)
    requires |ra| == |a| && |rb| == |b|
    ensures ResultsOf(backends, a + b, ra + rb) == ResultsOf(backends, a, ra) + ResultsOf(backends, b, rb)
  {
    assert Parses(backends, a + b, ra + rb) == Parses(backends, a, ra) + Parses(backends, b, rb);
    OnePerEventAppend(Parses(backends, a, ra), Parses(backends, b, rb));
  }

  /** What one entry yields: a put whose lease has time left its lease, as it then stands; a put whose lease is
      gone nothing; a delete a tombstone. */
  lemma ResultOfEntry(backends: Addr -> Option<string>, op: Op<Net, Entry>, r: Reading)
    ensures ResultsOf(backends, [op], [r]) ==
              match op
              case Put(net, entry) =>
                if r.lookup.Ttl? && r.lookup.seconds >= 0
                then [Watcher.WatchResult([], [LeaseEvent(PutEvent,
                        Lease(net, LeaseAttrs(entry.owner, backends(entry.owner)), r.clock + r.lookup.seconds))])]
                else []
              case Del(net) =>
                [Watcher.WatchResult([], [LeaseEvent(DeleteEvent, Lease(net, LeaseAttrs(0, None), r.clock))])]
  {
    var events := Parses(backends, [op], [r]);
    assert events == [Parse(backends, op, r)] && events[..0] == [];
    OnePerEventNext(events, 0);
    assert events[..1] == events;
    assert OnePerEvent([]) == [];
  }

  lemma OnePerEventNext(events: seq<Option<LeaseEvent>>, i: nat)
    requires i < |events|
    ensures OnePerEvent(events[..i + 1])
            == if events[i].Some? then OnePerEvent(events[..i]) + [Watcher.WatchResult([], [events[i].value])]
               else OnePerEvent(events[..i])
  {
    assert events[..i + 1][..i] == events[..i];
  }

  /** Every lookup on a put answers. */
  predicate LookupsAnswer(entries: History, rs: seq<Reading>)
    requires |rs| == |entries|
  {
    forall i :: 0 <= i < |entries| && entries[i].Put? ==> rs[i].lookup.Ttl?
  }

  /** Parsing one entry: a failed lookup on a put is an error. */
  method ParseEntry(backends: Addr -> Option<string>, op: Op<Net, Entry>, r: Reading)
    returns (event: Option<LeaseEvent>, ok: bool)
    ensures ok <==> op.Put? ==> r.lookup.Ttl?
    ensures event == Parse(backends, op, r)
    ensures match op
            case Put(net, entry) =>
              if r.lookup.Ttl? && r.lookup.seconds >= 0
              then event == Some(LeaseEvent(PutEvent, Lease(net, LeaseAttrs(entry.owner, backends(entry.owner)),
                                                            r.clock + r.lookup.seconds)))
              else event.None?
            case Del(net) => event == Some(LeaseEvent(DeleteEvent, Lease(net, LeaseAttrs(0, None), r.clock)))
  {
    event := Parse(backends, op, r);
    ok := op.Del? || r.lookup.Ttl?;
  }

  /** The results of one response, unless a lookup fails: what came before it in the response is lost. */
  method ParseResponse(backends: Addr -> Option<string>, entries: History, rs: seq<Reading>)
    returns (results: seq<Watcher.WatchResult>, ok: bool)
    requires |rs| == |entries|
    ensures ok <==> LookupsAnswer(entries, rs)
    ensures results == if ok then ResultsOf(backends, entries, rs) else []
  {
    results := [];
    ghost var all := Parses(backends, entries, rs);
    for i := 0 to |entries|
      invariant forall j :: 0 <= j < i && entries[j].Put? ==> rs[j].lookup.Ttl?
      invariant results == OnePerEvent(all[..i])
    {
      var event, sound := ParseEntry(backends, entries[i], rs[i]);
      if !sound { return [], false; }
      OnePerEventNext(all, i);
      if event.Some? { results := results + [Watcher.WatchResult([], [event.value])]; }
    }
    assert all[..|entries|] == all;
    ok := true;
  }

  predicate AllValid(responses: seq<Response>) {
    forall i :: 0 <= i < |responses| ==> responses[i].Valid()
  }

  /** The results of everything a sequence of responses holds. */
  function AllResults(backends: Addr -> Option<string>, responses: seq<Response>): seq<Watcher.WatchResult>
    requires AllValid(responses)
  {
    ResultsOf(backends, EntriesOf(responses), ReadingsOf(responses))
  }

  lemma NextResponse(backends: Addr -> Option<string>, responses: seq<Response>, n: nat)
    requires AllValid(responses) && n < |responses|
    ensures AllResults(backends, responses[..n + 1])
            == AllResults(backends, responses[..n]) + ResultsOf(backends, responses[n].entries, responses[n].readings)
  {
    var more, r := responses[..n + 1], responses[n];
    assert more[..n] == responses[..n] && more[n] == r;
    assert EntriesOf(more) == EntriesOf(responses[..n]) + r.entries;
    assert ReadingsOf(more) == ReadingsOf(responses[..n]) + r.readings;
    ResultsAppend(backends, EntriesOf(responses[..n]), ReadingsOf(responses[..n]), r.entries, r.readings);
  }

  /** Turns the history from a cursor on into one watch result per event, until a lookup fails. */
  method WatchSubnets(backends: Addr -> Option<string>, responses: seq<Response>)
    returns (results: seq<Watcher.WatchResult>, ok: bool)
    requires AllValid(responses)
    ensures ok <==> forall i :: 0 <= i < |responses| ==> responses[i].Sound()
    ensures results == AllResults(backends, responses[..SoundCount(responses)])
  {
    results := [];
    for n := 0 to |responses|
      invariant SoundCount(responses) >= n
      invariant results == AllResults(backends, responses[..n])
    {
      NextResponse(backends, responses, n);
      var events, sound := ParseResponse(backends, responses[n].entries, responses[n].readings);
      if !sound { return results, false; }
      results := results + events;
    }
    ok := true;
  }

  /** A snapshot followed by the parsed watch is what the watcher is fed. */
  lemma {:induction false} FeedIs(snapshot: seq<Lease>, events: seq<LeaseEvent>)
    ensures [Watcher.WatchResult(snapshot, [])] + Singles(events) == Watcher.Results(snapshot, events)
  {
    if events != [] { FeedIs(snapshot, events[..|events| - 1]); }
  }

  /** The snapshot and the results of the responses handled are what the watcher is fed, event by event. */
  lemma WatchFeeds(backends: Addr -> Option<string>, snapshot: seq<Lease>, responses: seq<Response>)
    requires AllValid(responses)
    ensures [Watcher.WatchResult(snapshot, [])] + AllResults(backends, responses)
            == Watcher.Results(snapshot, Parsed(backends, EntriesOf(responses), ReadingsOf(responses)))
  {
    ResultsAreSingles(backends, EntriesOf(responses), ReadingsOf(responses));
    FeedIs(snapshot, Parsed(backends, EntriesOf(responses), ReadingsOf(responses)));
  }

  // Acquiring a lease ---------------------------------------------------------------------------

  datatype Acquired = Acquired(lease: Lease) | SnapshotFailed | NoSubnet | ScanFailed | Lost

  /** The node right before it writes: snapshot read, etcd lease granted. */
  function Prepared(st: State, n: Addr, seen: seq<Seen>): State {
    State(st.now, st.store, st.log, st.nodes[n := Ready(seen)], st.grants[n := st.now])
  }

  function Attempt(n: Addr, seen: seq<Seen>, last: Step): seq<Step> {
    [Step.Snapshot(n, seen), Grant(n), last]
  }

  lemma AttemptRuns(p: Params, st: State, n: Addr, seen: seq<Seen>, last: Step)
    requires st.nodes == map[] && SeenIn(st.store, seen) && Enabled(p, Prepared(st, n, seen), last)
    ensures Runs(p, st, Attempt(n, seen, last))
    ensures Final(p, st, Attempt(n, seen, last)) == After(p, Prepared(st, n, seen), last)
  {
    var read := Step.Snapshot(n, seen);
    RunOne(p, st, read);
    RunMore(p, st, [read], Grant(n));
    assert [read] + [Grant(n)] == [read, Grant(n)];
    RunMore(p, st, [read, Grant(n)], last);
    assert [read, Grant(n)] + [last] == Attempt(n, seen, last);
  }

  /** The run `steps` leads from `st` to the given store and history, with `n` holding `lease`. */
  ghost predicate LeadsTo(p: Params, st: State, steps: seq<Step>, n: Addr, store: Store, log: History, lease: Lease) {
    && Runs(p, st, steps)
    && var end := Final(p, st, steps);
       && end.store == store && end.log == log
       && NodeOf(end, n) == Holding(lease.subnet, lease.attrs.publicIp, lease.expiration)
  }

  /** The registry after node `n` has put `net` under a lease of `ttl` seconds. */
  predicate PutBy(st: State, n: Addr, net: Net, ttl: nat, store: Store, log: History) {
    var entry := Entry(n, st.now + ttl, |st.log|);
    store == st.store[net := entry] && log == st.log + [Put(net, entry)]
  }

  lemma ReuseLeads(p: Params, st: State, n: Addr, seen: seq<Seen>, lease: Lease, store: Store, log: History)
    requires st.nodes == map[] && SeenIn(st.store, seen) && p.ttl > 0
    requires OwnLease(p.window, n, seen) == Some(SeenAs(lease))
    requires PutBy(st, n, lease.subnet, p.ttl, store, log)
    ensures LeadsTo(p, st, Attempt(n, seen, Reuse(n)), n, store, log, lease)
  {
    AttemptRuns(p, st, n, seen, Reuse(n));
  }

  lemma CreateLeads(p: Params, st: State, n: Addr, seen: seq<Seen>, lease: Lease, store: Store, log: History)
    requires st.nodes == map[] && SeenIn(st.store, seen) && p.ttl > 0
    requires OwnLease(p.window, n, seen).None? && lease.subnet !in st.store
    requires lease.subnet.prefix == p.window.len && lease.subnet.ip in Candidates(p.window, NetsOf(seen))
    requires lease.attrs.publicIp == n && lease.expiration == st.now + p.ttl
    requires PutBy(st, n, lease.subnet, p.ttl, store, log)
    ensures LeadsTo(p, st, Attempt(n, seen, Create(n, lease.subnet, st.now)), n, store, log, lease)
  {
    AttemptRuns(p, st, n, seen, Create(n, lease.subnet, st.now));
  }

  /** Every lifetime lookup answers with time left. */
  ghost predicate AllRead(store: Store, lookup: Net -> TtlLookup) {
    forall k :: k in store ==> lookup(k).Ttl? && lookup(k).seconds >= 0
  }

  /** Some subnet of the window shares no address with any live key. */
  ghost predicate RoomLeft(w: Window, store: Store) {
    exists net :: w.IsSlot(net) && forall k :: k in store ==> !Share(net, k)
  }

  /** `seen` is the part of the store whose lookups succeeded, with the expirations they give. */
  ghost predicate ReadAs(st: State, lookup: Net -> TtlLookup, seen: seq<Seen>) {
    && SeenIn(st.store, seen)
    && (forall k :: k in st.store && lookup(k).Ttl? ==> k in NetsOf(seen))
    && forall i :: 0 <= i < |seen| ==>
         lookup(seen[i].net).Ttl? && seen[i].expiration == st.now + lookup(seen[i].net).seconds
  }

  /** What an attempt by a node without a lease to reuse may answer: what the scan says, a lost race only when a
      candidate it could pick is in the registry all the same, and otherwise a lease on a candidate whose key was
      absent, for the lifetime granted. */
  ghost predicate AllocationAnswer(p: Params, n: Addr, st: State, backends: Addr -> Option<string>,
                                   seen: seq<Seen>, r: Acquired) {
    var w, nets := p.window, NetsOf(seen);
    && !r.SnapshotFailed?
    && (r.ScanFailed? <==> ScanOverflows(w, nets))
    && (r.NoSubnet? <==> !ScanOverflows(w, nets) && FreeSlots(w, nets) == [])
    && (r.Lost? ==> exists x :: x in Candidates(w, nets) && Net(x, w.len) in st.store)
    && (r.Acquired? ==>
          && r.lease.subnet.prefix == w.len && r.lease.subnet.ip in Candidates(w, nets)
          && r.lease.subnet !in st.store
          && r.lease.attrs == LeaseAttrs(n, backends(n)) && r.lease.expiration == st.now + p.ttl)
  }

  /** The lease to reuse, as it was read. */
  ghost predicate ReuseAnswer(w: Window, n: Addr, backends: Addr -> Option<string>, seen: seq<Seen>, r: Acquired) {
    && r.Acquired? && r.lease.attrs == LeaseAttrs(n, backends(n))
    && exists i :: Reusable(w, n, seen, i) && r.lease.subnet == seen[i].net
                   && r.lease.expiration == seen[i].expiration
  }

  /** What an attempt may answer: a failed reading exactly when a lifetime is negative, the first lease under the
      own address, as read, when it fits the window, and the allocation's answer otherwise. */
  ghost predicate AttemptAnswer(p: Params, n: Addr, st: State, backends: Addr -> Option<string>,
                                lookup: Net -> TtlLookup, seen: seq<Seen>, r: Acquired) {
    if exists k :: k in st.store && lookup(k).Ttl? && lookup(k).seconds < 0 then r.SnapshotFailed?
    else
      && ReadAs(st, lookup, seen)
      && if exists i :: Reusable(p.window, n, seen, i)
         then ReuseAnswer(p.window, n, backends, seen, r)
         else AllocationAnswer(p, n, st, backends, seen, r)
  }

  /** A candidate is not in the registry when no key was left out of the reading. */
  lemma NoRaceLost(w: Window, st: State, lookup: Net -> TtlLookup, seen: seq<Seen>, x: Addr)
    requires w.Valid() && AllRead(st.store, lookup) && ReadAs(st, lookup, seen) && x in Candidates(w, NetsOf(seen))
    ensures Net(x, w.len) !in st.store
  {
    CandidateFree(w, NetsOf(seen), x);
    assert Contains(Net(x, w.len), x);
  }

  /** A subnet free of live keys is on the free list, whatever was left out of the reading. */
  lemma RoomIsFree(w: Window, store: Store, seen: seq<Seen>)
    requires w.Valid() && SeenIn(store, seen) && RoomLeft(w, store)
    ensures FreeSlots(w, NetsOf(seen)) != []
  {
    var net :| w.IsSlot(net) && forall k :: k in store ==> !Share(net, k);
    FreeExact(w, NetsOf(seen), w.min, net.ip);
  }

  /** When an undisturbed attempt succeeds. With every key read it does exactly when there is a lease to reuse, or
      the scan stays in the address space and finds a free subnet; that is so whenever room is left and the window
      ends before the last address. */
  lemma AttemptSucceeds(p: Params, n: Addr, st: State, backends: Addr -> Option<string>,
                        lookup: Net -> TtlLookup, seen: seq<Seen>, r: Acquired)
    requires p.window.Valid() && AttemptAnswer(p, n, st, backends, lookup, seen, r) && AllRead(st.store, lookup)
    ensures r.Acquired? <==>
              || (exists i :: Reusable(p.window, n, seen, i))
              || (!ScanOverflows(p.window, NetsOf(seen)) && FreeSlots(p.window, NetsOf(seen)) != [])
    ensures RoomLeft(p.window, st.store) && p.window.max + Size(p.window.len) < ADDRESSES ==> r.Acquired?
  {
    if r.Lost? {
      var x :| x in Candidates(p.window, NetsOf(seen)) && Net(x, p.window.len) in st.store;
      NoRaceLost(p.window, st, lookup, seen, x);
      assert false;
    }
    if RoomLeft(p.window, st.store) { RoomIsFree(p.window, st.store, seen); }
  }

  /** Whatever is in the registry, a lease acquired is of the window's length and between its bounds. */
  lemma AcquiredInWindow(p: Params, n: Addr, st: State, backends: Addr -> Option<string>,
                         lookup: Net -> TtlLookup, seen: seq<Seen>, r: Acquired)
    requires p.window.Valid() && AttemptAnswer(p, n, st, backends, lookup, seen, r) && r.Acquired?
    ensures r.lease.subnet.prefix == p.window.len && p.window.min <= r.lease.subnet.ip <= p.window.max
  {
    if !exists i :: Reusable(p.window, n, seen, i) {
      CandidateFree(p.window, NetsOf(seen), r.lease.subnet.ip);
    }
  }

  lemma AttemptOutcome(p: Params, n: Addr, st: State, backends: Addr -> Option<string>,
                       lookup: Net -> TtlLookup, seen: seq<Seen>, r: Acquired)
    requires p.window.Valid() && AttemptAnswer(p, n, st, backends, lookup, seen, r)
    ensures AllRead(st.store, lookup) && RoomLeft(p.window, st.store) && p.window.max + Size(p.window.len) < ADDRESSES
            ==> r.Acquired?
    ensures r.Acquired? ==> r.lease.subnet.prefix == p.window.len
                            && p.window.min <= r.lease.subnet.ip <= p.window.max
  {
    if AllRead(st.store, lookup) { AttemptSucceeds(p, n, st, backends, lookup, seen, r); }
    if r.Acquired? { AcquiredInWindow(p, n, st, backends, lookup, seen, r); }
  }

  lemma ReadingAs(st: State, backends: Addr -> Option<string>, lookup: Net -> TtlLookup, s: Snapshot)
    requires ReadFrom(st, backends, lookup, s) && s.Read?
    ensures ReadAs(st, lookup, SeenList(s.leases))
  {
    forall k | k in st.store && lookup(k).Ttl? ensures k in NetsOf(SeenList(s.leases)) {
      SubnetIff(s.leases, k);
      var i := IndexOf(s.leases, k);
      assert NetsOf(SeenList(s.leases))[i] == k;
    }
  }

  /** One undisturbed attempt: reuse the lease found under the own address, or allocate and create. What it
      does to the registry is what the protocol's steps do, and the lease it returns is what the node then
      holds; when it fails the registry is untouched. */
  method TryAcquireLease(reg: EtcdSubnetRegistry, p: Params, n: Addr, lookup: Net -> TtlLookup)
    returns (r: Acquired, ghost steps: seq<Step>, ghost seen: seq<Seen>)
    requires p.window.Valid() && p.ttl > 0
    modifies reg`store, reg`log
    ensures AttemptAnswer(p, n, old(reg.Alone()), reg.backends, lookup, seen, r)
    ensures r.Acquired? ==> r.lease.subnet.prefix == p.window.len
                            && p.window.min <= r.lease.subnet.ip <= p.window.max
    ensures r.Acquired? ==> PutBy(old(reg.Alone()), n, r.lease.subnet, p.ttl, reg.store, reg.log)
    ensures AllRead(old(reg.store), lookup) && RoomLeft(p.window, old(reg.store)) ==>
              p.window.max + Size(p.window.len) < ADDRESSES ==> r.Acquired?
    ensures !r.Acquired? ==> reg.store == old(reg.store) && reg.log == old(reg.log)
    ensures r.Acquired? ==> LeadsTo(p, old(reg.Alone()), steps, n, reg.store, reg.log, r.lease)
  {
    seen, steps := [], [];
    var s := reg.GetSubnets(lookup);
    if s.TtlOverflow? { return SnapshotFailed, [], []; }
    var leases := SeenList(s.leases);
    seen := leases;
    ReadingAs(reg.Alone(), reg.backends, lookup, s);
    OwnLeaseIff(p.window, n, leases);
    if OwnLease(p.window, n, leases).Some? {
      r, steps := ReuseOwn(reg, p, n, s.leases);
    } else {
      r, steps := AllocateAndCreate(reg, p, n, leases);
    }
    AttemptOutcome(p, n, old(reg.Alone()), reg.backends, lookup, seen, r);
  }

  /** Rewriting the lease found under the own address; it is answered as it was read. */
  method ReuseOwn(reg: EtcdSubnetRegistry, p: Params, n: Addr, leases: seq<Lease>)
    returns (r: Acquired, ghost steps: seq<Step>)
    requires p.ttl > 0 && SeenIn(reg.store, SeenList(leases)) && OwnLease(p.window, n, SeenList(leases)).Some?
    requires forall i :: 0 <= i < |leases| ==> leases[i].attrs.backendType == reg.backends(leases[i].attrs.publicIp)
    modifies reg`store, reg`log
    ensures r.Acquired? && LeadsTo(p, old(reg.Alone()), steps, n, reg.store, reg.log, r.lease)
    ensures r.lease in leases && ReuseAnswer(p.window, n, reg.backends, SeenList(leases), r)
    ensures PutBy(old(reg.Alone()), n, r.lease.subnet, p.ttl, reg.store, reg.log)
  {
    var own := OwnLease(p.window, n, SeenList(leases)).value;
    var i :| 0 <= i < |leases| && SeenAs(leases[i]) == own;
    var _ := reg.UpdateSubnet(own.net, n, p.ttl);
    OwnLeaseIff(p.window, n, SeenList(leases));
    ReuseLeads(p, old(reg.Alone()), n, SeenList(leases), leases[i], reg.store, reg.log);
    return Acquired(leases[i]), Attempt(n, SeenList(leases), Reuse(n));
  }

  /** The second half of an attempt, for a node without a lease to reuse. */
  method AllocateAndCreate(reg: EtcdSubnetRegistry, p: Params, n: Addr, seen: seq<Seen>)
    returns (r: Acquired, ghost steps: seq<Step>)
    requires p.window.Valid() && p.ttl > 0
    requires SeenIn(reg.store, seen) && OwnLease(p.window, n, seen).None?
    modifies reg`store, reg`log
    ensures !r.Acquired? ==> reg.store == old(reg.store) && reg.log == old(reg.log)
    ensures AllocationAnswer(p, n, old(reg.Alone()), reg.backends, seen, r)
    ensures r.Acquired? ==> PutBy(old(reg.Alone()), n, r.lease.subnet, p.ttl, reg.store, reg.log)
    ensures r.Acquired? ==> LeadsTo(p, old(reg.Alone()), steps, n, reg.store, reg.log, r.lease)
  {
    ghost var start := reg.Alone();
    var a := AllocateSubnet(p.window, NetsOf(seen));
    match a {
      case NoneAvailable => return NoSubnet, [];
      case Overflows => return ScanFailed, [];
      case Allocated(net) =>
        var created := reg.CreateSubnet(net, n, p.ttl);
        if created.None? { return Lost, []; }
        var lease := LeaseOf(reg.backends, net, n, created.value);
        CreateLeads(p, start, n, seen, lease, reg.store, reg.log);
        return Acquired(lease), Attempt(n, seen, Create(n, net, start.now));
    }
  }
}
