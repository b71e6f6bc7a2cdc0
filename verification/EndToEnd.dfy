/** From the registry's history to where a packet goes. */
module EndToEnd {
  import opened Cidr
  import opened Allocator
  import opened MapLog
  import opened Leases
  import opened Options
  import opened Protocol
  import opened Registry
  import opened UdpRoutes
  import HostGw
  import NetworkConfig
  import Renewal
  import Watcher

  /** An accepted configuration's window is one the allocator may work on. */
  lemma AcceptedWindowValid(s: NetworkConfig.Settings, r: NetworkConfig.Settings)
    requires NetworkConfig.Judges(s, r)
    ensures r.subnetMin.Some? && r.subnetMax.Some? && r.subnetLen <= 32
    ensures Window(r.subnetMin.value, r.subnetMax.value, r.subnetLen).Valid()
  {
    NetworkConfig.AcceptedWindow(s, r);
  }

  /** 255.255.255.0/24 split into /26 subnets up to the last address is accepted, and the scan for one of its
      three subnets steps past the end. */
  lemma LastWindowOverflows()
    ensures var s := NetworkConfig.Settings(true, false, Some(Net(0xFFFF_FF00, 24)), 26,
                                            Some(0xFFFF_FF40), Some(0xFFFF_FFC0));
            && NetworkConfig.Judges(s, s)
            && ScanOverflows(Window(0xFFFF_FF40, 0xFFFF_FFC0, 26), [])
  {
    var net, w := Net(0xFFFF_FF00, 24), Window(0xFFFF_FF40, 0xFFFF_FFC0, 26);
    LastBlocks();
    NetworkConfig.ExplicitBounds(NetworkConfig.Settings(true, false, Some(net), 26, Some(w.min), Some(w.max)),
                                 net, w.min, w.max);
    assert FreeFrom(w, [], 0x1_0000_0000) == [];
    assert |FreeFrom(w, [], 0xFFFF_FFC0)| <= 1;
    assert |FreeFrom(w, [], 0xFFFF_FF80)| <= 2;
    assert |FreeSlots(w, [])| <= 3;
  }

  /** Validation does not compare the bounds: 255.255.255.0/24 with length 26, minimum .192 and maximum .64 is
      accepted, and its window has no subnet. */
  lemma InvertedWindowAccepted()
    ensures var s := NetworkConfig.Settings(true, false, Some(Net(0xFFFF_FF00, 24)), 26,
                                            Some(0xFFFF_FFC0), Some(0xFFFF_FF40));
            && NetworkConfig.Judges(s, s)
            && Window(0xFFFF_FFC0, 0xFFFF_FF40, 26).Slots() == 0
  {
    LastBlocks();
    var lo, hi := 0xFFFF_FFC0, 0xFFFF_FF40;
    var net := Net(0xFFFF_FF00, 24);
    NetworkConfig.ExplicitBounds(NetworkConfig.Settings(true, false, Some(net), 26, Some(lo), Some(hi)), net, lo, hi);
  }

  /** A window has a subnet exactly when its bounds are in order, and with none allocation finds nothing. */
  lemma SlotsIffOrdered(w: Window, leases: seq<Net>)
    ensures w.Slots() >= 1 <==> w.min <= w.max
    ensures w.Slots() == 0 ==> FreeSlots(w, leases) == [] && !ScanOverflows(w, leases)
  {}

  lemma LastBlocks()
    ensures Size(26) == 64
    ensures Floor(0xFFFF_FF40, 26) == 0xFFFF_FF40 && Floor(0xFFFF_FFC0, 26) == 0xFFFF_FFC0
    ensures Contains(Net(0xFFFF_FF00, 24), 0xFFFF_FF40) && Contains(Net(0xFFFF_FF00, 24), 0xFFFF_FFC0)
  {
    assert Pow2(6) == 64 && Pow2(8) == 4 * Pow2(6);
    assert Aligned(0xFFFF_FF40, 6) && Aligned(0xFFFF_FFC0, 6) && Aligned(0xFFFF_FF00, 8);
    ClearsTo(0xFFFF_FF00, 0xFFFF_FF40, 8);
    ClearsTo(0xFFFF_FF00, 0xFFFF_FFC0, 8);
  }

  // Leases and registry entries by the address they name ------------------------------------------

  function HopOf(): Lease -> Addr {
    (l: Lease) => l.attrs.publicIp
  }

  function OwnerOf(): Entry -> Addr {
    (e: Entry) => e.owner
  }

  function Hops(m: map<Net, Lease>): map<Net, Addr> {
    MapValues(HopOf(), m)
  }

  function Owners(store: Store): map<Net, Addr> {
    MapValues(OwnerOf(), store)
  }

  function HopOps(events: seq<LeaseEvent>): seq<Op<Net, Addr>> {
    MapOps(HopOf(), OpsOf(events))
  }

  // What the watch knows ----------------------------------------------------------------------------

  /** A node's side of a watch: the subnets it read, the entry its watch starts at, and what the lookups on the
      entries it has handled answered. */
  datatype Client = Client(own: Net, snapshot: seq<Lease>, since: nat, readings: seq<Reading>)
  {
    /** The entry after the last one handled. */
    function Reached(): nat {
      since + |readings|
    }

    function HandledOf(log: History): History
      requires Reached() <= |log|
    {
      log[since..Reached()]
    }
  }

  function OwnerLog(log: History): seq<Op<Net, Addr>> {
    MapOps(OwnerOf(), log)
  }

  /** Which log entries the watch passes on. */
  function KeepFlags(entries: History, rs: seq<Reading>): (keep: seq<bool>)
    requires |rs| == |entries|
    ensures |keep| == |entries|
    ensures forall i :: 0 <= i < |keep| ==> keep[i] == PassedOn(entries[i], rs[i])
  {
    seq(|entries|, i requires 0 <= i < |entries| => PassedOn(entries[i], rs[i]))
  }

  lemma {:induction false} ParsedHops(backends: Addr -> Option<string>, entries: History, rs: seq<Reading>)
    requires |rs| == |entries|
    ensures HopOps(Parsed(backends, entries, rs)) == Kept(MapOps(OwnerOf(), entries), KeepFlags(entries, rs))
  {
    if entries != [] {
      var n := |entries| - 1;
      ParsedHops(backends, entries[..n], rs[..n]);
      assert MapOps(OwnerOf(), entries)[..n] == MapOps(OwnerOf(), entries[..n]);
      assert KeepFlags(entries, rs)[..n] == KeepFlags(entries[..n], rs[..n]);
    }
  }

  lemma {:induction false} ForeignHops(own: Net, events: seq<LeaseEvent>)
    ensures HopOps(Watcher.Foreign(own, events)) == ButKey(own, HopOps(events))
  {
    if events != [] {
      var n := |events| - 1;
      ForeignHops(own, events[..n]);
      assert HopOps(events)[..n] == HopOps(events[..n]);
    }
  }

  /** The key is live under the put with that revision. */
  predicate HangsOn(store: Store, k: Net, revision: nat) {
    k in store && store[k].revision == revision
  }

  /** After `m` entries the key of entry `i` no longer hangs on it: what a lookup made then answers with -1. */
  predicate GoneBy(log: History, i: nat, m: nat)
    requires i < |log| && m <= |log|
  {
    !HangsOn(Fold(map[], log[..m]), log[i].key, i)
  }

  /** Entry `i` is a delete, or a put whose lookup answered; and if it answered that the etcd lease was gone, then,
      the lookup coming some time after the put, the key had left it by that time. */
  ghost predicate SkippedIfGone(log: History, c: Client, i: nat)
    requires c.since <= i < c.Reached() <= |log|
  {
    log[i].Put? ==>
      var lookup := c.readings[i - c.since].lookup;
      lookup.Ttl? && (lookup.seconds < 0 ==> exists m :: i < m <= |log| && GoneBy(log, i, m))
  }

  /** The client has handled entries of the history, skipping only puts of leases that were gone by then. */
  ghost predicate Handles(end: State, c: Client) {
    c.Reached() <= |end.log| && forall i :: c.since <= i < c.Reached() ==> SkippedIfGone(end.log, c, i)
  }

  /** It has handled all of it. */
  ghost predicate CaughtUp(end: State, c: Client) {
    Handles(end, c) && c.Reached() == |end.log|
  }

  /** A key that has left a revision never returns to it. */
  lemma LeftForGood(p: Params, end: State, i: nat, m: nat)
    requires WellFormed(p, end) && i < m <= |end.log| && GoneBy(end.log, i, m)
    ensures !HangsOn(end.store, end.log[i].key, i)
  {
    var k := end.log[i].key;
    if HangsOn(end.store, k, i) {
      FoldAt(map[], end.log, k);
      assert LastOn(end.log, k) == i;
      assert forall j :: 0 <= j < m ==> end.log[..m][j] == end.log[j];
      LastOnUnique(end.log[..m], k, i);
      FoldAt(map[], end.log[..m], k);
    }
  }

  /** The last entry on a key, when it puts it, is the one the live key hangs on. */
  lemma LastIsLive(p: Params, end: State, k: Net)
    requires WellFormed(p, end) && LastOn(end.log, k) >= 0 && end.log[LastOn(end.log, k)].Put?
    ensures HangsOn(end.store, k, LastOn(end.log, k))
  {
    FoldAt(map[], end.log, k);
  }

  /** The entries the client has not handled. */
  function Missed(log: History, c: Client): History
    requires c.Reached() <= |log|
  {
    log[c.Reached()..]
  }

  /** Where nothing on the key was missed, the last entry handled on it is the last there is. */
  lemma LastHandled(log: History, c: Client, k: Net)
    requires c.Reached() <= |log| && LastOn(Missed(log, c), k) < 0
    ensures LastOn(log[c.since..], k) == LastOn(c.HandledOf(log), k)
  {
    assert log[c.since..] == c.HandledOf(log) + Missed(log, c);
    LastOnAppend(c.HandledOf(log), Missed(log, c), k);
  }

  lemma SkippedIsGone(p: Params, end: State, c: Client, i: nat)
    requires WellFormed(p, end) && Handles(end, c) && c.since <= i < c.Reached()
    requires !PassedOn(end.log[i], c.readings[i - c.since])
    ensures !HangsOn(end.store, end.log[i].key, i)
  {
    assert SkippedIfGone(end.log, c, i);
    var m :| i < m <= |end.log| && GoneBy(end.log, i, m);
    LeftForGood(p, end, i, m);
  }

  lemma LastOfAll(log: History, c: Client, k: Net)
    requires c.Reached() <= |log| && LastOn(Missed(log, c), k) < 0 && LastOn(c.HandledOf(log), k) >= 0
    ensures var i := c.since + LastOn(c.HandledOf(log), k);
            c.since <= i < c.Reached() && LastOn(log, k) == i && log[i].key == k
  {
    LastHandled(log, c, k);
    LastOnSuffix(log, c.since, k);
  }

  lemma LastIsPassedOn(p: Params, end: State, c: Client, i: nat)
    requires WellFormed(p, end) && Handles(end, c) && c.since <= i < c.Reached()
    requires LastOn(end.log, end.log[i].key) == i
    ensures PassedOn(end.log[i], c.readings[i - c.since])
  {
    if !PassedOn(end.log[i], c.readings[i - c.since]) {
      LastIsLive(p, end, end.log[i].key);
      SkippedIsGone(p, end, c, i);
    }
  }

  lemma KeptIfPassedOn(log: History, c: Client, k: Net)
    requires c.Reached() <= |log|
    requires var i := LastOn(c.HandledOf(log), k); i >= 0 ==> PassedOn(log[c.since + i], c.readings[i])
    ensures KeepsLast(c.HandledOf(log), KeepFlags(c.HandledOf(log), c.readings), k)
  {}

  /** The last entry on a key is always passed on, once nothing on it is missed. */
  lemma LastIsKept(p: Params, end: State, c: Client, k: Net)
    requires WellFormed(p, end) && Handles(end, c) && LastOn(Missed(end.log, c), k) < 0
    ensures KeepsLast(c.HandledOf(end.log), KeepFlags(c.HandledOf(end.log), c.readings), k)
  {
    var i := LastOn(c.HandledOf(end.log), k);
    if i >= 0 {
      LastOfAll(end.log, c, k);
      LastIsPassedOn(p, end, c, c.since + i);
    }
    KeptIfPassedOn(end.log, c, k);
  }

  /** The client read part of the registry after `taken` writes and watches from no later, or read nothing. */
  ghost predicate Reads(log: History, taken: nat, c: Client) {
    Distinct(c.snapshot) && Watches(Hops(View(c.snapshot)), OwnerLog(log), taken, c.since)
  }

  /** The client read the key, or it was written after the watch started. */
  predicate Informed(log: History, c: Client, k: Net)
    requires c.since <= |log|
  {
    Lookup(c.snapshot, k).Some? || LastOn(log[c.since..], k) >= 0
  }

  /** What the registry has for a client at a key: the owner if the key is live and the client was informed. */
  function Due(end: State, c: Client, k: Net): Option<Addr>
    requires c.since <= |end.log|
  {
    if k in end.store && Informed(end.log, c, k) then Some(end.store[k].owner) else None
  }

  /** The next hops a client knows: the snapshot's, and on top of them what was passed on. */
  function HopsKnown(backends: Addr -> Option<string>, log: History, c: Client): map<Net, Addr>
    requires c.Reached() <= |log|
  {
    Fold(Hops(View(c.snapshot)), HopOps(Parsed(backends, c.HandledOf(log), c.readings)))
  }

  /** What a write leaves at its key. */
  function Says(op: Op<Net, Entry>): Option<Addr> {
    match op
    case Put(_, entry) => Some(entry.owner)
    case Del(_) => None
  }

  /** What was skipped makes no difference at a key no entry was missed on. */
  lemma SkippingQuiet(p: Params, end: State, backends: Addr -> Option<string>, c: Client, k: Net)
    requires WellFormed(p, end) && Handles(end, c) && LastOn(Missed(end.log, c), k) < 0
    ensures At(HopsKnown(backends, end.log, c), k)
            == At(Fold(Hops(View(c.snapshot)), OwnerLog(c.HandledOf(end.log))), k)
  {
    var handled, part := c.HandledOf(end.log), Hops(View(c.snapshot));
    ParsedHops(backends, handled, c.readings);
    LastIsKept(p, end, c, k);
    KeepsLastMapped(OwnerOf(), handled, KeepFlags(handled, c.readings), k);
    KeptAt(part, OwnerLog(handled), KeepFlags(handled, c.readings), k);
  }

  /** Neither does what was missed. */
  lemma MissingQuiet(part: map<Net, Addr>, log: History, c: Client, k: Net)
    requires c.Reached() <= |log| && LastOn(Missed(log, c), k) < 0
    ensures At(Fold(part, OwnerLog(c.HandledOf(log))), k) == At(Fold(part, OwnerLog(log)[c.since..]), k)
  {
    var ops, rest := OwnerLog(c.HandledOf(log)), OwnerLog(Missed(log, c));
    assert OwnerLog(log)[c.since..] == ops + rest;
    FoldAppend(part, ops, rest);
    LastOnMapped(OwnerOf(), Missed(log, c), k);
    FoldAt(Fold(part, ops), rest, k);
  }

  /** A full replay over what was read yields what is due. */
  lemma RegistrySays(end: State, taken: nat, c: Client, k: Net)
    requires end.store == Fold(map[], end.log) && Reads(end.log, taken, c)
    ensures At(Fold(Hops(View(c.snapshot)), OwnerLog(end.log)[c.since..]), k) == Due(end, c, k)
  {
    WatchAt(Hops(View(c.snapshot)), OwnerLog(end.log), taken, c.since, k);
    FoldMapped(OwnerOf(), map[], end.log);
    assert Owners(map[]) == map[];
    assert OwnerLog(end.log)[c.since..] == OwnerLog(end.log[c.since..]);
    LastOnMapped(OwnerOf(), end.log[c.since..], k);
    ViewAt(c.snapshot, k);
  }

  /** Whatever was skipped and whatever the snapshot left out, the client knows what is due at a key no entry was
      missed on. */
  lemma KnowsQuiet(p: Params, end: State, backends: Addr -> Option<string>, taken: nat, c: Client, k: Net)
    requires WellFormed(p, end) && Handles(end, c) && Reads(end.log, taken, c)
    requires LastOn(Missed(end.log, c), k) < 0
    ensures At(HopsKnown(backends, end.log, c), k) == Due(end, c, k)
  {
    SkippingQuiet(p, end, backends, c, k);
    MissingQuiet(Hops(View(c.snapshot)), end.log, c, k);
    RegistrySays(end, taken, c, k);
  }

  /** The last entry missed on a key decides what is due there. */
  lemma MissedDecides(end: State, c: Client, k: Net)
    requires end.store == Fold(map[], end.log) && c.Reached() <= |end.log| && LastOn(Missed(end.log, c), k) >= 0
    ensures Due(end, c, k) == Says(Missed(end.log, c)[LastOn(Missed(end.log, c), k)])
  {
    var j := LastOn(Missed(end.log, c), k);
    LastOnSuffix(end.log, c.Reached(), k);
    FoldAt(map[], end.log, k);
    assert Missed(end.log, c)[j] == end.log[c.Reached() + j];
    assert end.log[c.since..][|c.readings| + j] == end.log[c.Reached() + j];
    assert LastOn(end.log[c.since..], k) >= 0;
  }

  /** Wherever the watch has stopped, what the client knows at a key is what is due exactly when no entry was
      missed on it, or the last one missed says the same. */
  lemma WatchKnowsIff(p: Params, end: State, backends: Addr -> Option<string>, taken: nat, c: Client, k: Net)
    requires WellFormed(p, end) && Handles(end, c) && Reads(end.log, taken, c)
    ensures var got, missed := At(HopsKnown(backends, end.log, c), k), Missed(end.log, c);
            got == Due(end, c, k) <==> LastOn(missed, k) < 0 || got == Says(missed[LastOn(missed, k)])
  {
    if LastOn(Missed(end.log, c), k) < 0 {
      KnowsQuiet(p, end, backends, taken, c, k);
    } else {
      MissedDecides(end, c, k);
    }
  }

  /** Whatever was skipped and whatever the snapshot left out: a client that is caught up knows the registry's
      owner of exactly the live keys it was informed about, and nothing else. */
  lemma WatchCatchesUp(p: Params, end: State, backends: Addr -> Option<string>, taken: nat, c: Client, k: Net)
    requires WellFormed(p, end) && CaughtUp(end, c) && Reads(end.log, taken, c)
    ensures At(HopsKnown(backends, end.log, c), k) == Due(end, c, k)
  {
    KnowsQuiet(p, end, backends, taken, c, k);
  }

  // From reading the registry to the watch ----------------------------------------------------------

  /** Where the watch starts: at the revision read, or wherever the log is when the range was empty. */
  predicate StartsAt(s: Snapshot, taken: nat, since: nat)
    requires s.Read?
  {
    if s.cursor == 0 then taken <= since else since == s.cursor - 1
  }

  lemma LiveKeyLogged(p: Params, st: State)
    requires WellFormed(p, st) && st.store != map[]
    ensures |st.log| >= 1
  {}

  lemma ReadIsPart(read: State, backends: Addr -> Option<string>, lookup: Net -> TtlLookup, s: Snapshot)
    requires ReadFrom(read, backends, lookup, s) && s.Read?
    ensures PartOf(Hops(View(s.leases)), Owners(read.store))
    ensures read.store == map[] ==> Hops(View(s.leases)) == map[]
  {
    var part := Hops(View(s.leases));
    forall k | k in part ensures k in Owners(read.store) && part[k] == Owners(read.store)[k] {
      ViewAt(s.leases, k);
    }
  }

  /** What a node reads is part of the registry at that point, and its watch starts in time for it: at the last write
      read, or, the range being empty, at some later one. */
  lemma ReadingBegins(p: Params, read: State, backends: Addr -> Option<string>, lookup: Net -> TtlLookup,
                      s: Snapshot, log: History, c: Client)
    requires WellFormed(p, read) && ReadFrom(read, backends, lookup, s) && s.Read? && read.log <= log
    requires c.snapshot == s.leases && StartsAt(s, |read.log|, c.since) && c.since <= |log|
    ensures Reads(log, |read.log|, c)
    ensures read.store != map[] ==> c.since == |read.log| - 1
    ensures forall k :: Lookup(c.snapshot, k).Some? <==> k in read.store && lookup(k).Ttl?
  {
    forall k ensures Lookup(c.snapshot, k).Some? <==> k in read.store && lookup(k).Ttl? {
      SubnetIff(c.snapshot, k);
    }
    ReadIsPart(read, backends, lookup, s);
    assert OwnerLog(log)[..|read.log|] == OwnerLog(read.log) by {
      assert log[..|read.log|] == read.log;
    }
    FoldMapped(OwnerOf(), map[], read.log);
    assert Owners(map[]) == map[];
    if read.store != map[] { LiveKeyLogged(p, read); }
  }

  // Where packets go --------------------------------------------------------------------------------

  /** What a node's consumers are sent once its watcher has been fed the snapshot and the parsed history. */
  function Sent(backends: Addr -> Option<string>, log: History, c: Client): seq<LeaseEvent>
    requires c.Reached() <= |log|
  {
    Watcher.Watched(c.own, Watcher.Results(c.snapshot, Parsed(backends, c.HandledOf(log), c.readings))).batch
  }

  lemma SentHops(own: Net, snapshot: seq<Lease>, events: seq<LeaseEvent>)
    requires Distinct(snapshot)
    ensures Hops(Replay(Watcher.Watched(own, Watcher.Results(snapshot, events)).batch))
            == Fold(Hops(View(snapshot)), HopOps(events)) - {own}
  {
    var known := View(snapshot);
    Watcher.WatcherRefinesMap(own, snapshot, events);
    FoldMapped(HopOf(), known - {own}, OpsOf(Watcher.Foreign(own, events)));
    ForeignHops(own, events);
    MapValuesBut(HopOf(), known, own);
    FoldButKey(own, Hops(known), HopOps(events));
  }

  /** The UDP routes of a node whose watcher was fed that. */
  function RoutesAfter(backends: Addr -> Option<string>, log: History, c: Client): seq<RouteEntry>
    requires c.Reached() <= |log|
  {
    TableAfterAll([], Sent(backends, log, c))
  }

  /** What a client knows it read or was passed on. */
  lemma KnownFrom(backends: Addr -> Option<string>, log: History, c: Client, k: Net)
    requires c.Reached() <= |log| && k in HopsKnown(backends, log, c) && k !in Hops(View(c.snapshot))
    ensures exists i :: c.since <= i < c.Reached() && log[i].key == k
  {
    var handled, part := c.HandledOf(log), Hops(View(c.snapshot));
    ParsedHops(backends, handled, c.readings);
    var i := KeptIsWritten(part, OwnerLog(handled), KeepFlags(handled, c.readings), k);
    assert handled[i] == log[c.since + i];
  }

  /** Clients only ever know slots of the window. */
  lemma KnownIsSlot(p: Params, end: State, backends: Addr -> Option<string>, taken: nat, c: Client, k: Net)
    requires WellFormed(p, end) && Handles(end, c) && Reads(end.log, taken, c) && k in HopsKnown(backends, end.log, c)
    ensures p.window.IsSlot(k)
  {
    if k in Hops(View(c.snapshot)) {
      var i := KnownIsWritten(OwnerLog(end.log)[..taken], k);
      assert OwnerLog(end.log)[..taken][i] == MapOp(OwnerOf(), end.log[i]);
    } else {
      KnownFrom(backends, end.log, c, k);
    }
  }

  lemma RoutesKnow(p: Params, end: State, backends: Addr -> Option<string>, taken: nat, c: Client)
    returns (known: map<Net, Lease>)
    requires WellFormed(p, end) && Handles(end, c) && Reads(end.log, taken, c)
    ensures known == Replay(Sent(backends, end.log, c))
    ensures Refines(RoutesAfter(backends, end.log, c), known)
    ensures Hops(known) == HopsKnown(backends, end.log, c) - {c.own}
    ensures DisjointBlocks(known.Keys) && forall k :: k in known ==> p.window.IsSlot(k)
  {
    known := Replay(Sent(backends, end.log, c));
    TableRefines(Sent(backends, end.log, c));
    SentHops(c.own, c.snapshot, Parsed(backends, c.HandledOf(end.log), c.readings));
    forall k | k in known ensures p.window.IsSlot(k) {
      assert k in Hops(known);
      KnownIsSlot(p, end, backends, taken, c, k);
    }
    forall a, b | a in known && b in known && a != b ensures !Share(a, b) {
      EqualLengthBlocks(a, b);
    }
  }

  /** What the routes answer for an address in a slot of the window: what the client knows there, and nothing for
      the own subnet. */
  lemma RoutesAnswer(p: Params, end: State, backends: Addr -> Option<string>, taken: nat, c: Client, k: Net, a: Addr)
    requires WellFormed(p, end) && Handles(end, c) && Reads(end.log, taken, c)
    requires p.window.IsSlot(k) && Contains(k, a)
    ensures NextHop(RoutesAfter(backends, end.log, c), a) ==
              if k == c.own then None else At(HopsKnown(backends, end.log, c), k)
  {
    var known := RoutesKnow(p, end, backends, taken, c);
    LookupInMap(RoutesAfter(backends, end.log, c), known, a);
    assert k in known <==> k in Hops(known);
    assert k in known ==> Hops(known)[k] == known[k].attrs.publicIp;
    forall other | other in known && Contains(other, a) ensures other == k {
      assert Share(other, k);
      EqualLengthBlocks(other, k);
    }
  }

  lemma OutsideUnrouted(p: Params, end: State, backends: Addr -> Option<string>, taken: nat, c: Client, a: Addr)
    requires WellFormed(p, end) && Handles(end, c) && Reads(end.log, taken, c)
    requires forall k :: p.window.IsSlot(k) ==> !Contains(k, a)
    ensures NextHop(RoutesAfter(backends, end.log, c), a) == None
  {
    var known := RoutesKnow(p, end, backends, taken, c);
    LookupInMap(RoutesAfter(backends, end.log, c), known, a);
  }

  /** The live keys a client routes: the foreign ones it was informed about. */
  predicate Routed(end: State, c: Client, k: Net)
    requires c.since <= |end.log|
  {
    k in end.store && k != c.own && Informed(end.log, c, k)
  }

  /** What the routes answer for an address: the owner of the routed key holding it, nothing otherwise. */
  ghost predicate SendsTo(routes: seq<RouteEntry>, end: State, c: Client, a: Addr)
    requires c.since <= |end.log|
  {
    && (forall k :: k in end.store && Contains(k, a) ==>
          NextHop(routes, a) == if Routed(end, c, k) then Some(end.store[k].owner) else None)
    && ((forall k :: k in end.store ==> !Contains(k, a)) ==> NextHop(routes, a) == None)
  }

  lemma RoutesSend(p: Params, end: State, backends: Addr -> Option<string>, taken: nat, c: Client, a: Addr)
    requires WellFormed(p, end) && CaughtUp(end, c) && Reads(end.log, taken, c)
    ensures SendsTo(RoutesAfter(backends, end.log, c), end, c, a)
  {
    forall k | p.window.IsSlot(k) && Contains(k, a)
      ensures NextHop(RoutesAfter(backends, end.log, c), a) == if k == c.own then None else Due(end, c, k) {
      RoutesAnswer(p, end, backends, taken, c, k, a);
      WatchCatchesUp(p, end, backends, taken, c, k);
    }
    if forall k :: p.window.IsSlot(k) ==> !Contains(k, a) {
      OutsideUnrouted(p, end, backends, taken, c, a);
    }
  }

  lemma {:induction false} LogOnlyGrows(p: Params, st: State, steps: seq<Step>)
    requires Runs(p, st, steps)
    ensures st.log <= Final(p, st, steps).log
  {
    if steps != [] {
      var before := steps[..|steps| - 1];
      LogOnlyGrows(p, st, before);
      WritesLogged(p, Final(p, st, before), steps[|steps| - 1]);
    }
  }

  lemma LedTo(p: Params, st: State, end: State)
    requires WellFormed(p, st) && RunLeads(p, st, end)
    ensures WellFormed(p, end) && st.log <= end.log
  {
    var steps :| Runs(p, st, steps) && Final(p, st, steps) == end;
    RunWellFormed(p, st, steps);
    LogOnlyGrows(p, st, steps);
  }

  lemma GuardedLedTo(p: Params, st: State, end: State)
    requires Exclusive(p, st) && GuardedRunLeads(p, st, end)
    ensures Exclusive(p, end) && RunLeads(p, st, end)
  {
    var steps :| Runs(p, st, steps) && Final(p, st, steps) == end && KeepsGuards(p, st, steps);
    RunExclusiveIff(p, st, steps);
  }

  /** The client read the registry in state `read`, whatever the lookups answered, and watches from there. */
  ghost predicate Began(read: State, backends: Addr -> Option<string>, lookup: Net -> TtlLookup,
                        s: Snapshot, c: Client) {
    ReadFrom(read, backends, lookup, s) && s.Read? && c.snapshot == s.leases && StartsAt(s, |read.log|, c.since)
  }

  /** In every run, a node that read the registry at some point, watched on from the cursor and has handled
      everything sends a packet to the public IP of the live lease whose block holds the destination exactly when
      that lease is not its own and was read or has been written since; any other packet has no route. */
  lemma PacketsFollowLeases(p: Params, start: State, read: State, end: State, backends: Addr -> Option<string>,
                            lookup: Net -> TtlLookup, s: Snapshot, c: Client, a: Addr)
    requires Resting(p, start) && RunLeads(p, start, read) && RunLeads(p, read, end)
    requires Began(read, backends, lookup, s, c) && CaughtUp(end, c)
    ensures SendsTo(RoutesAfter(backends, end.log, c), end, c, a)
  {
    LedTo(p, start, read);
    LedTo(p, read, end);
    ReadingBegins(p, read, backends, lookup, s, end.log, c);
    RoutesSend(p, end, backends, |read.log|, c, a);
  }

  /** The same wherever the watch has stopped, as when a lookup failed: the route for an address in a slot that is
      not the own subnet is the one due exactly when no entry was missed on the slot, or the last one missed says
      what the route does. */
  lemma StoppedPackets(p: Params, start: State, read: State, end: State, backends: Addr -> Option<string>,
                       lookup: Net -> TtlLookup, s: Snapshot, c: Client, k: Net, a: Addr)
    requires Resting(p, start) && RunLeads(p, start, read) && RunLeads(p, read, end)
    requires Began(read, backends, lookup, s, c) && Handles(end, c)
    requires p.window.IsSlot(k) && Contains(k, a) && k != c.own
    ensures var hop, missed := NextHop(RoutesAfter(backends, end.log, c), a), Missed(end.log, c);
            hop == Due(end, c, k) <==> LastOn(missed, k) < 0 || hop == Says(missed[LastOn(missed, k)])
  {
    LedTo(p, start, read);
    LedTo(p, read, end);
    ReadingBegins(p, read, backends, lookup, s, end.log, c);
    RoutesAnswer(p, end, backends, |read.log|, c, k, a);
    WatchKnowsIff(p, end, backends, |read.log|, c, k);
  }

  /** Nothing live was left out of the reading, and there was something to read. */
  ghost predicate CompleteRead(read: State, lookup: Net -> TtlLookup) {
    read.store != map[] && forall k :: k in read.store ==> lookup(k).Ttl?
  }

  lemma LiveSince(p: Params, read: State, end: State, since: nat, k: Net)
    requires WellFormed(p, read) && WellFormed(p, end) && read.log <= end.log
    requires since <= |read.log| && LastOn(end.log[since..], k) < 0 && k in end.store
    ensures k in read.store
  {
    QuietSince(end.log, |read.log|, since, k);
    assert end.log[..|read.log|] == read.log;
  }

  lemma CompleteInforms(p: Params, read: State, backends: Addr -> Option<string>, lookup: Net -> TtlLookup,
                        s: Snapshot, end: State, c: Client, k: Net)
    requires WellFormed(p, read) && WellFormed(p, end) && read.log <= end.log
    requires Began(read, backends, lookup, s, c) && c.since <= |end.log|
    requires CompleteRead(read, lookup) && k in end.store
    ensures Informed(end.log, c, k)
  {
    ReadingBegins(p, read, backends, lookup, s, end.log, c);
    LiveKeyLogged(p, read);
    if LastOn(end.log[c.since..], k) < 0 { LiveSince(p, read, end, c.since, k); }
  }

  /** After a complete reading every foreign live lease is routed. */
  lemma CompletePackets(p: Params, start: State, read: State, end: State, backends: Addr -> Option<string>,
                        lookup: Net -> TtlLookup, s: Snapshot, c: Client, a: Addr)
    requires Resting(p, start) && RunLeads(p, start, read) && RunLeads(p, read, end)
    requires Began(read, backends, lookup, s, c) && CompleteRead(read, lookup) && CaughtUp(end, c)
    ensures SendsTo(RoutesAfter(backends, end.log, c), end, c, a)
    ensures forall k :: Routed(end, c, k) <==> k in end.store && k != c.own
  {
    PacketsFollowLeases(p, start, read, end, backends, lookup, s, c, a);
    LedTo(p, start, read);
    LedTo(p, read, end);
    forall k | k in end.store ensures Informed(end.log, c, k) {
      CompleteInforms(p, read, backends, lookup, s, end, c, k);
    }
  }

  /** In every run that keeps the guards, such a node sends packets for a subnet some other node holds to that
      very node, if it was informed of the subnet, and nowhere if not. */
  lemma PacketsReachHolder(p: Params, start: State, read: State, end: State, backends: Addr -> Option<string>,
                           lookup: Net -> TtlLookup, s: Snapshot, c: Client, holder: Addr, held: Net, a: Addr)
    requires Start(p, start) && GuardedRunLeads(p, start, read) && GuardedRunLeads(p, read, end)
    requires Began(read, backends, lookup, s, c) && CaughtUp(end, c)
    requires Holds(p, end, holder, held) && held != c.own && Contains(held, a)
    ensures NextHop(RoutesAfter(backends, end.log, c), a) == if Informed(end.log, c, held) then Some(holder) else None
  {
    GuardedLedTo(p, start, read);
    GuardedLedTo(p, read, end);
    ExclusiveHolder(p, end, holder, held);
    PacketsFollowLeases(p, start, read, end, backends, lookup, s, c, a);
  }

  // Where the kernel sends them ---------------------------------------------------------------------

  predicate StampedLease(backends: Addr -> Option<string>, l: Lease) {
    l.attrs.backendType == backends(l.attrs.publicIp)
  }

  /** Every put names the backend type of the node it names. */
  predicate Stamped(backends: Addr -> Option<string>, events: seq<LeaseEvent>) {
    forall i :: 0 <= i < |events| && events[i].eventType.PutEvent? ==> StampedLease(backends, events[i].lease)
  }

  lemma {:induction false} ParsedStamped(backends: Addr -> Option<string>, entries: History, rs: seq<Reading>)
    requires |rs| == |entries|
    ensures Stamped(backends, Parsed(backends, entries, rs)) && Watcher.Tombstones(Parsed(backends, entries, rs))
  {
    if entries != [] { ParsedStamped(backends, entries[..|entries| - 1], rs[..|entries| - 1]); }
  }

  lemma {:induction false} OnwardStamped(backends: Addr -> Option<string>, own: Net,
                                         snapshot: seq<Lease>, events: seq<LeaseEvent>)
    requires Distinct(snapshot) && Stamped(backends, events) && forall l :: l in snapshot ==> StampedLease(backends, l)
    ensures Stamped(backends, Watcher.Onward(own, Watcher.Started(own, snapshot), events).batch)
  {
    if events == [] {
      Watcher.StartedPuts(own, snapshot);
      Watcher.MatchedPuts(own, [], snapshot);
    } else {
      OnwardStamped(backends, own, snapshot, events[..|events| - 1]);
    }
  }

  lemma SentStamped(backends: Addr -> Option<string>, log: History, c: Client)
    requires c.Reached() <= |log| && Distinct(c.snapshot)
    requires forall l :: l in c.snapshot ==> StampedLease(backends, l)
    ensures Stamped(backends, Sent(backends, log, c))
  {
    var events := Parsed(backends, c.HandledOf(log), c.readings);
    ParsedStamped(backends, c.HandledOf(log), c.readings);
    Watcher.WatchedRun(c.own, c.snapshot, events);
    OnwardStamped(backends, c.own, c.snapshot, events);
  }

  lemma KnownStamped(backends: Addr -> Option<string>, events: seq<LeaseEvent>, k: Net)
    requires Stamped(backends, events) && k in Replay(events)
    ensures Replay(events)[k].subnet == k && StampedLease(backends, Replay(events)[k])
  {
    FoldAt(map[], OpsOf(events), k);
    var i := LastOn(OpsOf(events), k);
    assert OpsOf(events)[i] == OpOf(events[i]);
  }

  /** The records and kernel of a host-gw node after everything sent. */
  function HostAfter(link: nat, backend: string, before: HostGw.Table, sent: seq<LeaseEvent>): HostGw.State {
    HostGw.AllHandled(link, backend, HostGw.State([], before, true), sent)
  }

  /** The node has recorded and installed the route to `k` by `hop`; it is on-link, flag 4, unless the kernel had a
      route by that gateway and link before the node started. */
  ghost predicate RoutesBy(s: HostGw.State, before: HostGw.Table, link: nat, k: Net, hop: Addr) {
    && HostGw.Route(Some(k), Some(hop), link, 4) in s.routes
    && k in s.kernel
    && s.kernel[k].dst == Some(k) && s.kernel[k].gw == Some(hop) && s.kernel[k].linkIndex == link
    && (k !in before ==> s.kernel[k].flags == 4)
  }

  /** Known leases of the backend's type have their routes in the kernel, whatever types other subnets change to. */
  lemma KnownInstalled(backends: Addr -> Option<string>, log: History, c: Client,
                       link: nat, backend: string, before: HostGw.Table, k: Net)
    requires c.Reached() <= |log| && Distinct(c.snapshot) && HostGw.ValidTable(before)
    requires forall l :: l in c.snapshot ==> StampedLease(backends, l)
    requires k in Replay(Sent(backends, log, c))
    requires backends(Replay(Sent(backends, log, c))[k].attrs.publicIp) == Some(backend)
    ensures var hop := Replay(Sent(backends, log, c))[k].attrs.publicIp;
            RoutesBy(HostAfter(link, backend, before, Sent(backends, log, c)), before, link, k, hop)
  {
    var events, sent := Parsed(backends, c.HandledOf(log), c.readings), Sent(backends, log, c);
    ParsedStamped(backends, c.HandledOf(log), c.readings);
    SentStamped(backends, log, c);
    KnownStamped(backends, sent, k);
    HostGw.KernelFollowsLeases(link, backend, before, c.own, c.snapshot, events);
    assert HostGw.KnownOurs(backend, sent, k) && !HostGw.Stranded(backend, sent, k);
    var s := HostAfter(link, backend, before, sent);
    assert HostGw.FollowsAt(link, backend, before, sent, s.kernel, k);
    HostGw.KnownIsLast(backend, sent, k);
    assert HostGw.RecordedAt(link, backend, sent, s.routes, k);
    if k !in before { HostGw.NewRoutesOnLink(link, backend, before, sent, k); }
    assert At(s.kernel, k) == HostGw.EntryAfter(link, backend, before, sent, k);
  }

  lemma RoutedKnown(p: Params, end: State, backends: Addr -> Option<string>, taken: nat, c: Client, k: Net)
    requires WellFormed(p, end) && CaughtUp(end, c) && Reads(end.log, taken, c) && Routed(end, c, k)
    ensures var known := Replay(Sent(backends, end.log, c));
            k in known && known[k].attrs.publicIp == end.store[k].owner
  {
    var known := RoutesKnow(p, end, backends, taken, c);
    WatchCatchesUp(p, end, backends, taken, c, k);
    assert k in Hops(known) && Hops(known)[k] == end.store[k].owner;
  }

  lemma ReadStamped(read: State, backends: Addr -> Option<string>, lookup: Net -> TtlLookup, s: Snapshot)
    requires ReadFrom(read, backends, lookup, s) && s.Read?
    ensures forall l :: l in s.leases ==> StampedLease(backends, l)
  {}

  /** In every run a caught-up host-gw node has recorded and installed the route of every routed key whose owner is
      a host-gw node, by its owner in the registry. */
  lemma KernelFollowsRegistry(p: Params, start: State, read: State, end: State, backends: Addr -> Option<string>,
                              lookup: Net -> TtlLookup, s: Snapshot, c: Client,
                              link: nat, backend: string, before: HostGw.Table, k: Net)
    requires Resting(p, start) && RunLeads(p, start, read) && RunLeads(p, read, end)
    requires Began(read, backends, lookup, s, c) && CaughtUp(end, c) && HostGw.ValidTable(before)
    requires Routed(end, c, k) && backends(end.store[k].owner) == Some(backend)
    ensures RoutesBy(HostAfter(link, backend, before, Sent(backends, end.log, c)), before, link, k, end.store[k].owner)
  {
    LedTo(p, start, read);
    LedTo(p, read, end);
    ReadingBegins(p, read, backends, lookup, s, end.log, c);
    RoutedKnown(p, end, backends, |read.log|, c, k);
    ReadStamped(read, backends, lookup, s);
    KnownInstalled(backends, end.log, c, link, backend, before, k);
  }

  // The watch, and how it may stop ------------------------------------------------------------------

  /** The responses deliver the history from the client's start on, and the client's readings are those of the
      responses before the first with a failed lookup. */
  ghost predicate Delivers(log: History, c: Client, responses: seq<Response>) {
    && AllValid(responses) && c.since <= |log|
    && EntriesOf(responses) <= log[c.since..]
    && c.readings == ReadingsOf(responses[..SoundCount(responses)])
  }

  lemma {:induction false} EntriesPrefix(responses: seq<Response>, n: nat)
    requires n <= |responses|
    ensures EntriesOf(responses[..n]) <= EntriesOf(responses)
  {
    if n == |responses| {
      assert responses[..n] == responses;
    } else {
      var m := |responses| - 1;
      assert responses[..m][..n] == responses[..n];
      EntriesPrefix(responses[..m], n);
    }
  }

  /** The entries handled are those of the responses before the first with a failed lookup. */
  lemma DeliveredEntries(log: History, c: Client, responses: seq<Response>)
    requires Delivers(log, c, responses)
    ensures c.Reached() <= |log| && c.HandledOf(log) == EntriesOf(responses[..SoundCount(responses)])
  {
    var handled := EntriesOf(responses[..SoundCount(responses)]);
    EntriesPrefix(responses, SoundCount(responses));
    assert |handled| == |c.readings|;
    assert handled == log[c.since..][..|handled|];
    assert log[c.since..][..|handled|] == c.HandledOf(log);
  }

  lemma {:induction false} AnswersOf(responses: seq<Response>)
    requires AllValid(responses) && forall i :: 0 <= i < |responses| ==> responses[i].Sound()
    ensures LookupsAnswer(EntriesOf(responses), ReadingsOf(responses))
  {
    if responses != [] {
      var n := |responses| - 1;
      AnswersOf(responses[..n]);
      assert responses[n].Sound();
    }
  }

  /** The UDP network's side of a watch, from the registry's responses to its routes. */
  method RunUdp(backends: Addr -> Option<string>, own: Net, snapshot: seq<Lease>, responses: seq<Response>,
                ghost log: History, ghost c: Client)
    returns (routes: seq<RouteEntry>, ok: bool)
    requires c.own == own && c.snapshot == snapshot && Delivers(log, c, responses)
    ensures c.Reached() <= |log| && routes == RoutesAfter(backends, log, c)
    ensures LookupsAnswer(c.HandledOf(log), c.readings)
    ensures ok <==> forall i :: 0 <= i < |responses| ==> responses[i].Sound()
  {
    DeliveredEntries(log, c, responses);
    AnswersOf(responses[..SoundCount(responses)]);
    WatchFeeds(backends, snapshot, responses[..SoundCount(responses)]);
    var results, sound := WatchSubnets(backends, responses);
    var _, sent := Watcher.WatchLeases(own, [Watcher.WatchResult(snapshot, [])] + results);
    var network := new UdpNetwork();
    network.HandleEvents(sent);
    return network.routes, sound;
  }

  /** Node 1 took the prize and has renewed it once. */
  const RENEWED := State(12, map[PRIZE := Entry(1, 15, 1)], [Put(PRIZE, Entry(1, 10, 0)), Put(PRIZE, Entry(1, 15, 1))],
                         map[1 := Holding(PRIZE, 1, 15)], map[])

  /** Node 1 took the prize five seconds ago and is about to renew it. */
  const RENEWING := State(5, map[PRIZE := Entry(1, 10, 0)], [Put(PRIZE, Entry(1, 10, 0))],
                          map[1 := Holding(PRIZE, 1, 10)], map[1 := 5])

  lemma Prepares() returns (steps: seq<Step>)
    ensures Reaches(TimelySteps, steps, RENEWING)
  {
    steps := Takes(TimelySteps, [], EMPTY_REGISTRY, 1, PRIZE);
    var taken := Taken(EMPTY_REGISTRY, 1, PRIZE);
    steps := Extend(TimelySteps, steps, taken, Tick(5));
    steps := Extend(TimelySteps, steps, taken.(now := 5), Grant(1));
    SameState(After(RACE, taken.(now := 5), Grant(1)), RENEWING);
  }

  lemma Renews() returns (steps: seq<Step>)
    ensures Reaches(TimelySteps, steps, RENEWED)
  {
    steps := Prepares();
    steps := Extend(TimelySteps, steps, RENEWING, Renew(1, 5));
    var renewed := After(RACE, RENEWING, Renew(1, 5));
    steps := Extend(TimelySteps, steps, renewed, Tick(7));
    SameState(After(RACE, renewed, Tick(7)), RENEWED);
  }

  /** It read nothing, found the lease of the first put gone, and its lookup on the second failed. */
  const STOPPED := Client(SECOND, [], 0, [Reading(12, Ttl(-1))])

  const STOPPED_RESPONSES := [Response([Put(PRIZE, Entry(1, 10, 0))], [Reading(12, Ttl(-1))]),
                              Response([Put(PRIZE, Entry(1, 15, 1))], [Reading(12, Failed)])]

  lemma StoppedDelivers()
    ensures Delivers(RENEWED.log, STOPPED, STOPPED_RESPONSES)
  {
    var first, second := STOPPED_RESPONSES[0], STOPPED_RESPONSES[1];
    assert STOPPED_RESPONSES[..1] == [first] && [first][..0] == [];
    assert EntriesOf([first]) == first.entries && ReadingsOf([first]) == first.readings;
    assert EntriesOf(STOPPED_RESPONSES) == first.entries + second.entries;
    assert first.Sound() && !second.Sound() by { assert second.entries[0].Put?; }
    assert SoundCount([first]) == 1;
    assert SoundCount(STOPPED_RESPONSES) == 1;
  }

  lemma StoppedHandles()
    ensures Handles(RENEWED, STOPPED) && Reads(RENEWED.log, 0, STOPPED)
    ensures HangsOn(Fold(map[], RENEWED.log[..1]), PRIZE, 0)
  {
    var log := RENEWED.log;
    assert log[..2] == log && log[..1] == [log[0]] && log[..0] == [] && [log[0]][..0] == [];
    assert Fold(map[], log[..1]) == Apply(map[], log[0]);
    assert Fold(map[], log) == Apply(Fold(map[], log[..1]), log[1]);
    assert GoneBy(log, 0, 2);
    assert View([]) == map[] && Hops(map[]) == map[];
    assert OwnerLog(log)[..0] == [];
  }

  /** What a failed lookup may cost: in a timely run a lease is live throughout, also at the moment the log held
      what was handled, but the put handled was superseded by the time its lookup was made, and the watch ended
      before the next. The node has no route for it. */
  lemma FailedLookupLosesLease(backends: Addr -> Option<string>) returns (steps: seq<Step>)
    ensures Reaches(TimelySteps, steps, RENEWED)
    ensures Handles(RENEWED, STOPPED) && Reads(RENEWED.log, 0, STOPPED)
    ensures Delivers(RENEWED.log, STOPPED, STOPPED_RESPONSES)
    ensures HangsOn(Fold(map[], RENEWED.log[..1]), PRIZE, 0) && Due(RENEWED, STOPPED, PRIZE) == Some(1)
    ensures RoutesAfter(backends, RENEWED.log, STOPPED) == []
  {
    steps := Renews();
    StoppedDelivers();
    StoppedHandles();
    var log, handled := RENEWED.log, STOPPED.HandledOf(RENEWED.log);
    assert log[0..] == log && handled == [log[0]] && handled[..0] == [];
    assert LastOn(log, PRIZE) == 1;
    assert Parsed(backends, handled, STOPPED.readings) == [];
    assert Watcher.Results([], []) == [Watcher.WatchResult([], [])];
    var results := Watcher.Results([], []);
    assert results[..0] == [];
    assert Watcher.Watched(SECOND, results) == Watcher.Outcome([], []);
  }

  // The renewal loop acts in time -------------------------------------------------------------------

  /** The node is in the renewal loop: it holds its lease until the expiration the loop waits for. */
  predicate InLoop(st: State, n: Addr, s: Renewal.Loop) {
    s.Waiting? && NodeOf(st, n).Holding? && NodeOf(st, n).expiration == s.expiration
  }

  /** Leases are granted for 24 hours, and the clock is read within three seconds of a grant. */
  predicate PromptClient(p: Params) {
    p.ttl == Renewal.SUBNET_TTL && p.slack < Renewal.RETRY_DELAY
  }

  /** When the timer of a well-behaved loop is due, a renewal is timely, and the node then holds its lease for
      as long as the loop goes on to assume. */
  lemma RenewalTimely(p: Params, st: State, n: Addr, now: nat, expiration: nat, minutes: nat,
                      es: seq<Renewal.Stimulus>)
    requires PromptClient(p) && 1 <= minutes <= 1440 && now + 60 * minutes <= expiration
    requires Renewal.WellBehaved(now, expiration, minutes, es)
    requires InLoop(st, n, Renewal.Renewing(now, expiration, minutes, es))
    requires st.now == Renewal.Renewing(now, expiration, minutes, es).due
    ensures Enabled(p, st, Grant(n))
    ensures var granted := After(p, st, Grant(n));
            && Enabled(p, granted, Renew(n, st.now)) && Timely(p, granted, Renew(n, st.now))
            && InLoop(After(p, granted, Renew(n, st.now)), n,
                      Renewal.Renewing(now, expiration, minutes, es + [Renewal.Wake(true)]))
  {
    Renewal.NeverExpires(now, expiration, minutes, es);
    assert (es + [Renewal.Wake(true)])[..|es|] == es;
  }

  /** While such a loop waits, adopting an event that leaves at least the margin is timely too. */
  lemma AdoptionTimely(p: Params, st: State, n: Addr, now: nat, expiration: nat, minutes: nat,
                       es: seq<Renewal.Stimulus>, i: nat, until: nat)
    requires PromptClient(p) && 1 <= minutes <= 1440 && now + 60 * minutes <= expiration
    requires Renewal.WellBehaved(now, expiration, minutes, es)
    requires var s := Renewal.Renewing(now, expiration, minutes, es);
             InLoop(st, n, s) && Renewal.Behaved(s, Renewal.PutSeen(st.now, until), minutes)
    requires Enabled(p, st, Adopt(n, i, until)) && Honest(p, st, Adopt(n, i, until))
    ensures Timely(p, st, Adopt(n, i, until))
    ensures InLoop(After(p, st, Adopt(n, i, until)), n,
                   Renewal.Renewing(now, expiration, minutes, es + [Renewal.PutSeen(st.now, until)]))
  {
    Renewal.NeverExpires(now, expiration, minutes, es);
    assert (es + [Renewal.PutSeen(st.now, until)])[..|es|] == es;
  }

  /** Reuse puts the key under a fresh lease but hands the loop the old expiration: with less than the margin left
      of it the loop underflows at once, although the key has just been extended. */
  lemma ReuseUnderflows(p: Params, st: State, n: Addr, minutes: nat)
    requires Enabled(p, st, Reuse(n))
    ensures var own, next := OwnLease(p.window, n, NodeOf(st, n).seen).value, After(p, st, Reuse(n));
            && Owns(next, n, own.net) && next.store[own.net].expiry == st.grants[n] + p.ttl > next.now
            && NodeOf(next, n).expiration == own.expiration
            && var loop := Renewal.Renewing(next.now, NodeOf(next, n).expiration, minutes, []);
               && (loop.Waiting? <==> st.now + 60 * minutes <= own.expiration)
               && (loop.Underflow? <==> st.now <= own.expiration < st.now + 60 * minutes)
  {
    Renewal.StartExact(st.now, OwnLease(p.window, n, NodeOf(st, n).seen).value.expiration, minutes);
  }

  /** Node 1 has restarted 23 hours into its lease and found it. */
  const RESTARTED := State(82800, map[PRIZE := Entry(1, 86400, 0)], [Put(PRIZE, Entry(1, 86400, 0))],
                           map[1 := Ready([Seen(PRIZE, 1, 86400)])], map[1 := 82800])

  /** With a margin of two hours it underflows, its key good for another day. */
  lemma RestartUnderflows()
    ensures var p := Params(RACE.window, Renewal.SUBNET_TTL, 0);
            && Enabled(p, RESTARTED, Reuse(1))
            && var next := After(p, RESTARTED, Reuse(1));
               && next.store[PRIZE].expiry == 169200
               && Renewal.Renewing(next.now, NodeOf(next, 1).expiration, 120, []).Underflow?
  {
    var p := Params(RACE.window, Renewal.SUBNET_TTL, 0);
    var seen := [Seen(PRIZE, 1, 86400)];
    assert FindOwn(1, seen) == Some(seen[0]);
    ReuseUnderflows(p, RESTARTED, 1, 120);
  }
}
