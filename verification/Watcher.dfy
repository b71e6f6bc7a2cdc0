/** The lease watcher: a snapshot and a stream of registry events in, a stream of consumer events out. */
module Watcher {
  import opened Cidr
  import opened MapLog
  import opened Leases
  import opened Options

  // What the operations do to the lease list ---------------------------------------------------

  function Added(leases: seq<Lease>, l: Lease): seq<Lease> {
    var i := IndexOf(leases, l.subnet);
    if i >= 0 then leases[i := l] else leases + [l]
  }

  function Removed(leases: seq<Lease>, sn: Net): seq<Lease> {
    var i := IndexOf(leases, sn);
    if i >= 0 then leases[..i] + leases[i + 1..] else leases
  }

  /** The lease a delete event goes out with: the one held, or the incoming one when none is. */
  function Departing(leases: seq<Lease>, l: Lease): Lease {
    var i := IndexOf(leases, l.subnet);
    if i >= 0 then leases[i] else l
  }

  datatype Outcome = Outcome(leases: seq<Lease>, batch: seq<LeaseEvent>)

  function Updated(own: Net, leases: seq<Lease>, events: seq<LeaseEvent>): Outcome {
    if events == [] then Outcome(leases, [])
    else
      var n := |events| - 1;
      Handled(own, Updated(own, leases, events[..n]), events[n])
  }

  function Handled(own: Net, o: Outcome, e: LeaseEvent): Outcome {
    if e.lease.subnet == own then o
    else match e.eventType
      case PutEvent => Outcome(Added(o.leases, e.lease), o.batch + [e])
      case DeleteEvent =>
        Outcome(Removed(o.leases, e.lease.subnet),
                o.batch + [LeaseEvent(DeleteEvent, Departing(o.leases, e.lease))])
  }

  /** The reset loop: known subnets leave the list, unknown ones go out as puts. */
  function Matched(own: Net, leases: seq<Lease>, snapshot: seq<Lease>): Outcome {
    if snapshot == [] then Outcome(leases, [])
    else
      var n := |snapshot| - 1;
      var o := Matched(own, leases, snapshot[..n]);
      var nl := snapshot[n];
      if nl.subnet == own then o
      else if IndexOf(o.leases, nl.subnet) >= 0 then o.(leases := Removed(o.leases, nl.subnet))
      else o.(batch := o.batch + [LeaseEvent(PutEvent, nl)])
  }

  function Deletes(leases: seq<Lease>): (d: seq<LeaseEvent>)
    ensures |d| == |leases| && forall i :: 0 <= i < |d| ==> d[i] == LeaseEvent(DeleteEvent, leases[i])
  {
    seq(|leases|, i requires 0 <= i < |leases| => LeaseEvent(DeleteEvent, leases[i]))
  }

  function WasReset(own: Net, leases: seq<Lease>, snapshot: seq<Lease>): Outcome {
    var o := Matched(own, leases, snapshot);
    Outcome(snapshot, o.batch + Deletes(o.leases))
  }

  datatype WatchResult = WatchResult(snapshot: seq<Lease>, events: seq<LeaseEvent>)

  function Fed(own: Net, o: Outcome, r: WatchResult): Outcome {
    var next :=
      if r.events != [] then Updated(own, o.leases, r.events)
      else if r.snapshot != [] then WasReset(own, o.leases, r.snapshot)
      else Outcome(o.leases, []);
    Outcome(next.leases, o.batch + next.batch)
  }

  /** A whole watch: the list at the end and everything sent on the way. */
  function Watched(own: Net, results: seq<WatchResult>): Outcome {
    if results == [] then Outcome([], [])
    else Fed(own, Watched(own, results[..|results| - 1]), results[|results| - 1])
  }

  class LeaseWatcher {
    const own: Net
    var leases: seq<Lease>

    constructor (own: Net)
      ensures this.own == own && leases == []
    {
      this.own := own;
      leases := [];
    }

    method Add(l: Lease) returns (e: LeaseEvent)
      modifies this`leases
      ensures leases == Added(old(leases), l) && e == LeaseEvent(PutEvent, l)
    {
      for i := 0 to |leases|
        invariant leases == old(leases)
        invariant forall j :: 0 <= j < i ==> leases[j].subnet != l.subnet
      {
        if leases[i].subnet == l.subnet {
          leases := leases[i := l];
          return LeaseEvent(PutEvent, l);
        }
      }
      leases := leases + [l];
      return LeaseEvent(PutEvent, l);
    }

    method Remove(l: Lease) returns (e: LeaseEvent)
      modifies this`leases
      ensures leases == Removed(old(leases), l.subnet)
      ensures e == LeaseEvent(DeleteEvent, Departing(old(leases), l))
    {
      var found := Find(l.subnet);
      if found.Some? {
        var gone := leases[found.value];
        leases := leases[..found.value] + leases[found.value + 1..];
        return LeaseEvent(DeleteEvent, gone);
      }
      return LeaseEvent(DeleteEvent, l);
    }

    method Find(sn: Net) returns (found: Option<nat>)
      ensures found == if IndexOf(leases, sn) >= 0 then Some(IndexOf(leases, sn)) else None
    {
      for i := 0 to |leases|
        invariant forall j :: 0 <= j < i ==> leases[j].subnet != sn
      {
        if leases[i].subnet == sn { return Some(i); }
      }
      return None;
    }

    method Update(events: seq<LeaseEvent>) returns (batch: seq<LeaseEvent>)
      modifies this`leases
      ensures Outcome(leases, batch) == Updated(own, old(leases), events)
    {
      batch := [];
      for i := 0 to |events|
        invariant Outcome(leases, batch) == Updated(own, old(leases), events[..i])
      {
        assert events[..i + 1][..i] == events[..i];
        if events[i].lease.subnet != own {
          var e;
          if events[i].eventType.PutEvent? {
            e := Add(events[i].lease);
          } else {
            e := Remove(events[i].lease);
          }
          batch := batch + [e];
        }
      }
      assert events[..|events|] == events;
    }

    method Reset(snapshot: seq<Lease>) returns (batch: seq<LeaseEvent>)
      modifies this`leases
      ensures Outcome(leases, batch) == WasReset(own, old(leases), snapshot)
    {
      batch := [];
      for i := 0 to |snapshot|
        invariant Outcome(leases, batch) == Matched(own, old(leases), snapshot[..i])
      {
        assert snapshot[..i + 1][..i] == snapshot[..i];
        if snapshot[i].subnet != own {
          var found := Find(snapshot[i].subnet);
          match found {
            case None => batch := batch + [LeaseEvent(PutEvent, snapshot[i])];
            case Some(idx) => leases := leases[..idx] + leases[idx + 1..];
          }
        }
      }
      assert snapshot[..|snapshot|] == snapshot;
      batch := batch + Deletes(leases);
      leases := snapshot;
    }
  }

  /** Driving the watcher with everything the registry sends; `sent` is what the consumer receives. */
  method WatchLeases(own: Net, results: seq<WatchResult>) returns (leases: seq<Lease>, sent: seq<LeaseEvent>)
    ensures Outcome(leases, sent) == Watched(own, results)
  {
    var watcher := new LeaseWatcher(own);
    sent := [];
    for i := 0 to |results|
      invariant watcher.own == own && fresh(watcher)
      invariant Outcome(watcher.leases, sent) == Watched(own, results[..i])
    {
      assert results[..i + 1][..i] == results[..i];
      var batch := [];
      if results[i].events != [] {
        batch := watcher.Update(results[i].events);
      } else if results[i].snapshot != [] {
        batch := watcher.Reset(results[i].snapshot);
      }
      if batch != [] { sent := sent + batch; }
    }
    assert results[..|results|] == results;
    leases := watcher.leases;
  }

  // The list stays a map ------------------------------------------------------------------------

  lemma AddedSame(leases: seq<Lease>, l: Lease)
    requires Distinct(leases)
    ensures Lookup(Added(leases, l), l.subnet) == Some(l)
  {
    var at := IndexOf(leases, l.subnet);
    AddedDistinct(leases, l);
    LookupOf(Added(leases, l), if at >= 0 then at else |leases|);
  }

  lemma AddedOther(leases: seq<Lease>, l: Lease, k: Net)
    requires Distinct(leases) && k != l.subnet
    ensures Lookup(Added(leases, l), k) == Lookup(leases, k)
  {
    var added, i := Added(leases, l), IndexOf(leases, k);
    AddedDistinct(leases, l);
    if i >= 0 {
      assert added[i] == leases[i];
      LookupOf(added, i);
    } else {
      forall j | 0 <= j < |added| ensures added[j].subnet != k {
        assert added[j] == l || (j < |leases| && added[j] == leases[j]);
      }
      LookupNone(added, k);
    }
  }

  lemma AddedLookup(leases: seq<Lease>, l: Lease, k: Net)
    requires Distinct(leases)
    ensures Lookup(Added(leases, l), k) == if k == l.subnet then Some(l) else Lookup(leases, k)
  {
    if k == l.subnet { AddedSame(leases, l); } else { AddedOther(leases, l, k); }
  }

  lemma AddedDistinct(leases: seq<Lease>, l: Lease)
    requires Distinct(leases)
    ensures Distinct(Added(leases, l))
  {}

  lemma RemovedDistinct(leases: seq<Lease>, sn: Net)
    requires Distinct(leases)
    ensures Distinct(Removed(leases, sn))
  {
    var removed, at := Removed(leases, sn), IndexOf(leases, sn);
    if at >= 0 {
      assert forall i :: 0 <= i < |removed| ==> removed[i] == leases[if i < at then i else i + 1];
    }
  }

  lemma RemovedLookup(leases: seq<Lease>, sn: Net, k: Net)
    requires Distinct(leases)
    ensures Lookup(Removed(leases, sn), k) == if k == sn then None else Lookup(leases, k)
  {
    var removed, at, i := Removed(leases, sn), IndexOf(leases, sn), IndexOf(leases, k);
    RemovedDistinct(leases, sn);
    if at >= 0 {
      assert forall j :: 0 <= j < |removed| ==> removed[j] == leases[if j < at then j else j + 1];
      if k == sn || i < 0 {
        LookupNone(removed, k);
      } else {
        LookupOf(removed, if i < at then i else i - 1);
      }
    }
  }

  /** Entries of the stream that are not about the own subnet. */
  function Foreign(own: Net, events: seq<LeaseEvent>): seq<LeaseEvent> {
    if events == [] then []
    else
      var n := |events| - 1;
      Foreign(own, events[..n]) + (if events[n].lease.subnet == own then [] else [events[n]])
  }

  function ButOwn(own: Net, sn: Net, found: Option<Lease>): Option<Lease> {
    if sn == own then None else found
  }

  /** What a consumer knows about `sn` is what the list holds, the own subnet aside. */
  ghost predicate KnowsAt(own: Net, o: Outcome, sn: Net) {
    At(Replay(o.batch), sn) == ButOwn(own, sn, Lookup(o.leases, sn))
  }

  ghost predicate InStep(own: Net, o: Outcome) {
    Distinct(o.leases) && forall sn :: KnowsAt(own, o, sn)
  }

  lemma HandledInStep(own: Net, o: Outcome, e: LeaseEvent)
    requires InStep(own, o)
    ensures InStep(own, Handled(own, o, e))
  {
    if e.lease.subnet != own {
      var next := Handled(own, o, e);
      AddedDistinct(o.leases, e.lease);
      RemovedDistinct(o.leases, e.lease.subnet);
      forall sn ensures KnowsAt(own, next, sn) {
        assert KnowsAt(own, o, sn);
        AddedLookup(o.leases, e.lease, sn);
        RemovedLookup(o.leases, e.lease.subnet, sn);
        ReplayStep(o.batch, e);
        ReplayStep(o.batch, LeaseEvent(DeleteEvent, Departing(o.leases, e.lease)));
      }
    }
  }

  /** Handling one event at a time on top of earlier output. */
  function Onward(own: Net, o: Outcome, events: seq<LeaseEvent>): Outcome {
    if events == [] then o
    else Handled(own, Onward(own, o, events[..|events| - 1]), events[|events| - 1])
  }

  lemma {:induction false} UpdatedOnward(own: Net, o: Outcome, events: seq<LeaseEvent>)
    ensures var u := Updated(own, o.leases, events);
            Onward(own, o, events) == Outcome(u.leases, o.batch + u.batch)
  {
    if events == [] {
      assert o.batch + [] == o.batch;
    } else {
      UpdatedOnward(own, o, events[..|events| - 1]);
    }
  }

  lemma {:induction false} OnwardInStep(own: Net, o: Outcome, events: seq<LeaseEvent>)
    requires InStep(own, o)
    ensures InStep(own, Onward(own, o, events))
  {
    if events != [] {
      OnwardInStep(own, o, events[..|events| - 1]);
      HandledInStep(own, Onward(own, o, events[..|events| - 1]), events[|events| - 1]);
    }
  }

  // Reset is a diff ---------------------------------------------------------------------------

  /** A snapshot subnet the reset has to report or recognise. */
  predicate Relevant(own: Net, snapshot: seq<Lease>, sn: Net) {
    sn != own && Lookup(snapshot, sn).Some?
  }

  lemma {:induction false} MatchedDistinct(own: Net, leases: seq<Lease>, snapshot: seq<Lease>)
    requires Distinct(leases)
    ensures Distinct(Matched(own, leases, snapshot).leases)
  {
    if snapshot != [] {
      var n := |snapshot| - 1;
      MatchedDistinct(own, leases, snapshot[..n]);
      RemovedDistinct(Matched(own, leases, snapshot[..n]).leases, snapshot[n].subnet);
    }
  }

  /** After the reset loop the list has lost exactly the relevant subnets. */
  lemma {:induction false} MatchedRest(own: Net, leases: seq<Lease>, snapshot: seq<Lease>, sn: Net)
    requires Distinct(leases) && Distinct(snapshot)
    ensures Lookup(Matched(own, leases, snapshot).leases, sn)
            == if Relevant(own, snapshot, sn) then None else Lookup(leases, sn)
  {
    if snapshot != [] {
      var n := |snapshot| - 1;
      var o := Matched(own, leases, snapshot[..n]);
      MatchedRest(own, leases, snapshot[..n], sn);
      MatchedDistinct(own, leases, snapshot[..n]);
      RemovedLookup(o.leases, snapshot[n].subnet, sn);
      LookupLast(snapshot, sn);
    }
  }

  /** The next snapshot subnet is put out exactly when it is foreign and the old list does not hold it. */
  lemma MatchedNext(own: Net, leases: seq<Lease>, snapshot: seq<Lease>)
    requires Distinct(leases) && Distinct(snapshot) && snapshot != []
    ensures var n := |snapshot| - 1;
            var prev := Matched(own, leases, snapshot[..n]).batch;
            Matched(own, leases, snapshot).batch ==
              if snapshot[n].subnet != own && Lookup(leases, snapshot[n].subnet).None?
              then prev + [LeaseEvent(PutEvent, snapshot[n])] else prev
  {
    var n := |snapshot| - 1;
    LookupLast(snapshot, snapshot[n].subnet);
    MatchedRest(own, leases, snapshot[..n], snapshot[n].subnet);
  }

  /** What the puts of the reset loop do to a consumer holding `m`. */
  lemma {:induction false} MatchedFold(own: Net, leases: seq<Lease>, snapshot: seq<Lease>, m: map<Net, Lease>, sn: Net)
    requires Distinct(leases) && Distinct(snapshot)
    ensures At(Fold(m, OpsOf(Matched(own, leases, snapshot).batch)), sn)
            == if Relevant(own, snapshot, sn) && Lookup(leases, sn).None? then Lookup(snapshot, sn) else At(m, sn)
  {
    if snapshot != [] {
      var n := |snapshot| - 1;
      var prev := Matched(own, leases, snapshot[..n]).batch;
      MatchedFold(own, leases, snapshot[..n], m, sn);
      MatchedNext(own, leases, snapshot);
      LookupLast(snapshot, sn);
      FoldEvent(m, prev, LeaseEvent(PutEvent, snapshot[n]));
    }
  }

  lemma {:induction false} DeletesAt(leases: seq<Lease>, m: map<Net, Lease>, sn: Net)
    ensures At(Fold(m, OpsOf(Deletes(leases))), sn) == if Lookup(leases, sn).Some? then None else At(m, sn)
  {
    if leases != [] {
      var n := |leases| - 1;
      DeletesAt(leases[..n], m, sn);
      assert OpsOf(Deletes(leases))[..n] == OpsOf(Deletes(leases[..n]));
    }
  }

  /** A consumer holding `m` after a reset from `leases` to `snapshot`. */
  lemma ResetAt(own: Net, leases: seq<Lease>, snapshot: seq<Lease>, m: map<Net, Lease>, sn: Net)
    requires Distinct(leases) && Distinct(snapshot)
    ensures At(Fold(m, OpsOf(WasReset(own, leases, snapshot).batch)), sn) ==
              if Relevant(own, snapshot, sn) then
                if Lookup(leases, sn).Some? then At(m, sn) else Lookup(snapshot, sn)
              else if Lookup(leases, sn).Some? then None else At(m, sn)
  {
    var o := Matched(own, leases, snapshot);
    MatchedFold(own, leases, snapshot, m, sn);
    MatchedRest(own, leases, snapshot, sn);
    DeletesAt(o.leases, Fold(m, OpsOf(o.batch)), sn);
    FoldEvents(m, o.batch, Deletes(o.leases));
  }

  ghost predicate Unchanged(own: Net, leases: seq<Lease>, snapshot: seq<Lease>, sn: Net) {
    sn in Subnets(leases) && sn in Subnets(snapshot) && sn != own ==> Lookup(leases, sn) == Lookup(snapshot, sn)
  }

  lemma ResetDiffAt(own: Net, leases: seq<Lease>, snapshot: seq<Lease>, sn: Net)
    requires Distinct(leases) && Distinct(snapshot)
    ensures var after := Fold(View(leases), OpsOf(WasReset(own, leases, snapshot).batch));
            && (sn in after <==> sn in Subnets(snapshot) && sn != own)
            && (SameAt(after, View(snapshot) - {own}, sn) <==> Unchanged(own, leases, snapshot, sn))
  {
    ResetAt(own, leases, snapshot, View(leases), sn);
    ViewAt(leases, sn);
    ViewAt(snapshot, sn);
    SubnetIff(leases, sn);
    SubnetIff(snapshot, sn);
  }

  /** A reset turns the old set of subnets into the snapshot's, own subnet aside. The leases themselves are
      refreshed exactly when no subnet known before has changed its lease. */
  lemma ResetDiff(own: Net, leases: seq<Lease>, snapshot: seq<Lease>)
    requires Distinct(leases) && Distinct(snapshot)
    ensures var after := Fold(View(leases), OpsOf(WasReset(own, leases, snapshot).batch));
            && after.Keys == Subnets(snapshot) - {own}
            && (after == View(snapshot) - {own} <==> forall sn :: Unchanged(own, leases, snapshot, sn))
  {
    var after, want := Fold(View(leases), OpsOf(WasReset(own, leases, snapshot).batch)), View(snapshot) - {own};
    assert after.Keys == Subnets(snapshot) - {own} by {
      forall sn ensures sn in after.Keys <==> sn in Subnets(snapshot) - {own} {
        ResetDiffAt(own, leases, snapshot, sn);
      }
    }
    if forall sn :: Unchanged(own, leases, snapshot, sn) {
      forall sn ensures SameAt(after, want, sn) { ResetDiffAt(own, leases, snapshot, sn); }
      SameEverywhere(after, want);
    } else {
      var sn :| !Unchanged(own, leases, snapshot, sn);
      ResetDiffAt(own, leases, snapshot, sn);
    }
  }

  /** Why a reset does not refresh: 10.0.1.0/24 passes from address 1 to address 2, and nothing is sent. */
  lemma ResetMissesChange()
    ensures var own, sn := Net(0x0A00_0200, 24), Net(0x0A00_0100, 24);
            var before, after := Lease(sn, LeaseAttrs(1, None), 0), Lease(sn, LeaseAttrs(2, None), 0);
            && WasReset(own, [before], [after]) == Outcome([after], [])
            && View([before]) == map[sn := before] != View([after]) - {own}
  {
    var own, sn := Net(0x0A00_0200, 24), Net(0x0A00_0100, 24);
    var before, after := Lease(sn, LeaseAttrs(1, None), 0), Lease(sn, LeaseAttrs(2, None), 0);
    assert [before][..0] == [] && [after][..0] == [];
    assert IndexOf([before], sn) == 0;
    assert Matched(own, [before], []) == Outcome([before], []);
    assert View([]) == map[];
    assert View([before]) == map[sn := before] && View([after]) == map[sn := after];
    assert (View([after]) - {own})[sn] == after;
  }

  predicate NamedOnce(batch: seq<LeaseEvent>) {
    forall i, j :: 0 <= i < j < |batch| ==> batch[i].lease.subnet != batch[j].lease.subnet
  }

  predicate AllPuts(batch: seq<LeaseEvent>, own: Net, leases: seq<Lease>, snapshot: seq<Lease>) {
    forall i :: 0 <= i < |batch| ==>
      batch[i].eventType.PutEvent? && batch[i].lease in snapshot
      && batch[i].lease.subnet != own && Lookup(leases, batch[i].lease.subnet).None?
  }

  lemma {:induction false} MatchedPuts(own: Net, leases: seq<Lease>, snapshot: seq<Lease>)
    requires Distinct(leases) && Distinct(snapshot)
    ensures AllPuts(Matched(own, leases, snapshot).batch, own, leases, snapshot)
    ensures NamedOnce(Matched(own, leases, snapshot).batch)
  {
    if snapshot != [] {
      var n := |snapshot| - 1;
      MatchedPuts(own, leases, snapshot[..n]);
      MatchedNext(own, leases, snapshot);
      var prev := Matched(own, leases, snapshot[..n]).batch;
      forall i | 0 <= i < |prev| ensures prev[i].lease.subnet != snapshot[n].subnet && prev[i].lease in snapshot {
        var j :| 0 <= j < n && snapshot[..n][j] == prev[i].lease;
        assert snapshot[j] == prev[i].lease;
      }
    }
  }

  /** The subnets the two sides of a reset do not share, own subnet counted on the old side only. */
  function Differing(own: Net, leases: seq<Lease>, snapshot: seq<Lease>): set<Net> {
    var news, olds := Subnets(snapshot) - {own}, Subnets(leases);
    (news - olds) + (olds - news)
  }

  lemma ResetCovers(own: Net, leases: seq<Lease>, snapshot: seq<Lease>, sn: Net)
    requires Distinct(leases) && Distinct(snapshot) && sn in Differing(own, leases, snapshot)
    ensures exists i :: 0 <= i < |WasReset(own, leases, snapshot).batch|
                        && WasReset(own, leases, snapshot).batch[i].lease.subnet == sn
  {
    var b := WasReset(own, leases, snapshot).batch;
    var m := View(leases);
    SubnetIff(leases, sn);
    SubnetIff(snapshot, sn);
    ViewAt(leases, sn);
    ResetAt(own, leases, snapshot, m, sn);
    var i := ChangedIsTouched(m, OpsOf(b), sn);
    assert OpsOf(b)[i] == OpOf(b[i]);
  }

  lemma ResetSound(own: Net, leases: seq<Lease>, snapshot: seq<Lease>, i: nat)
    requires Distinct(leases) && Distinct(snapshot) && i < |WasReset(own, leases, snapshot).batch|
    ensures var e := WasReset(own, leases, snapshot).batch[i];
            e.lease in (if e.eventType.PutEvent? then snapshot else leases)
            && e.lease.subnet in Differing(own, leases, snapshot)
    ensures WasReset(own, leases, snapshot).batch[i].eventType.PutEvent? <==>
              i < |Matched(own, leases, snapshot).batch|
    ensures WasReset(own, leases, snapshot).batch[i].eventType.PutEvent? <==>
              Relevant(own, snapshot, WasReset(own, leases, snapshot).batch[i].lease.subnet)
  {
    var o := Matched(own, leases, snapshot);
    var e := WasReset(own, leases, snapshot).batch[i];
    MatchedPuts(own, leases, snapshot);
    MatchedRest(own, leases, snapshot, e.lease.subnet);
    MatchedDistinct(own, leases, snapshot);
    SubnetIff(leases, e.lease.subnet);
    SubnetIff(snapshot, e.lease.subnet);
    if i >= |o.batch| {
      MatchedMembers(own, leases, snapshot);
      LookupOf(o.leases, i - |o.batch|);
    }
  }

  /** A reset names each subnet at most once, and exactly the differing ones: puts carry the snapshot's
      leases, deletes the old ones. It names the own subnet exactly when the old list holds it. */
  lemma ResetNames(own: Net, leases: seq<Lease>, snapshot: seq<Lease>)
    requires Distinct(leases) && Distinct(snapshot)
    ensures var b := WasReset(own, leases, snapshot).batch;
            && NamedOnce(b)
            && (forall i :: 0 <= i < |b| ==> b[i].lease in (if b[i].eventType.PutEvent? then snapshot else leases))
            && Subnets(seq(|b|, i requires 0 <= i < |b| => b[i].lease)) == Differing(own, leases, snapshot)
  {
    var b := WasReset(own, leases, snapshot).batch;
    var o := Matched(own, leases, snapshot);
    MatchedPuts(own, leases, snapshot);
    MatchedDistinct(own, leases, snapshot);
    forall i, j | 0 <= i < j < |b| ensures b[i].lease.subnet != b[j].lease.subnet {
      ResetSound(own, leases, snapshot, i);
      ResetSound(own, leases, snapshot, j);
    }
    var named := seq(|b|, i requires 0 <= i < |b| => b[i].lease);
    forall i | 0 <= i < |b| ensures b[i].lease in (if b[i].eventType.PutEvent? then snapshot else leases)
                                    && b[i].lease.subnet in Differing(own, leases, snapshot) {
      ResetSound(own, leases, snapshot, i);
    }
    forall sn | sn in Differing(own, leases, snapshot) ensures sn in Subnets(named) {
      ResetCovers(own, leases, snapshot, sn);
      var i :| 0 <= i < |b| && b[i].lease.subnet == sn;
      assert named[i] == b[i].lease;
    }
  }

  lemma {:induction false} MatchedMembers(own: Net, leases: seq<Lease>, snapshot: seq<Lease>)
    ensures |Matched(own, leases, snapshot).leases| <= |leases|
    ensures forall l :: l in Matched(own, leases, snapshot).leases ==> l in leases
  {
    if snapshot != [] { MatchedMembers(own, leases, snapshot[..|snapshot| - 1]); }
  }

  // Whole watches -----------------------------------------------------------------------------

  /** What the registry sends: one snapshot, then one result per event. */
  function Results(snapshot: seq<Lease>, events: seq<LeaseEvent>): seq<WatchResult> {
    if events == [] then [WatchResult(snapshot, [])]
    else Results(snapshot, events[..|events| - 1]) + [WatchResult([], [events[|events| - 1]])]
  }

  function Started(own: Net, snapshot: seq<Lease>): Outcome {
    WasReset(own, [], snapshot)
  }

  lemma {:induction false} WatchedRun(own: Net, snapshot: seq<Lease>, events: seq<LeaseEvent>)
    ensures Watched(own, Results(snapshot, events)) == Onward(own, Started(own, snapshot), events)
  {
    var results := Results(snapshot, events);
    if events == [] {
      assert results[..0] == [];
      assert Watched(own, results) == Fed(own, Outcome([], []), WatchResult(snapshot, []));
      assert [] + Started(own, snapshot).batch == Started(own, snapshot).batch;
    } else {
      var n := |events| - 1;
      WatchedRun(own, snapshot, events[..n]);
      assert results[..|results| - 1] == Results(snapshot, events[..n]);
      var o := Onward(own, Started(own, snapshot), events[..n]);
      UpdatedOnward(own, o, [events[n]]);
      assert [events[n]][..0] == [];
      assert Onward(own, o, [events[n]]) == Handled(own, o, events[n]);
    }
  }

  lemma StartedInStep(own: Net, snapshot: seq<Lease>)
    requires Distinct(snapshot)
    ensures InStep(own, Started(own, snapshot))
  {
    var o := Started(own, snapshot);
    forall sn ensures KnowsAt(own, o, sn) {
      ResetAt(own, [], snapshot, map[], sn);
    }
  }

  lemma InStepView(own: Net, o: Outcome)
    requires InStep(own, o)
    ensures Replay(o.batch) == View(o.leases) - {own}
  {
    forall sn ensures SameAt(Replay(o.batch), View(o.leases) - {own}, sn) {
      assert KnowsAt(own, o, sn);
      ViewAt(o.leases, sn);
    }
    SameEverywhere(Replay(o.batch), View(o.leases) - {own});
  }

  /** What handling events leaves in the list: the map they fold to, own entries left out. */
  lemma {:induction false} OnwardView(own: Net, o: Outcome, events: seq<LeaseEvent>)
    requires Distinct(o.leases)
    ensures Distinct(Onward(own, o, events).leases)
    ensures View(Onward(own, o, events).leases) == Fold(View(o.leases), OpsOf(Foreign(own, events)))
  {
    if events != [] {
      var n := |events| - 1;
      OnwardView(own, o, events[..n]);
      var prev, e, f := Onward(own, o, events[..n]), events[n], Foreign(own, events[..n]);
      if e.lease.subnet == own {
        assert f + [] == f;
      } else {
        FoldEvent(View(o.leases), f, e);
        HandledView(own, prev, e);
      }
    }
  }

  lemma AddedView(leases: seq<Lease>, l: Lease)
    requires Distinct(leases)
    ensures View(Added(leases, l)) == View(leases)[l.subnet := l]
  {
    var got, want := View(Added(leases, l)), View(leases)[l.subnet := l];
    AddedDistinct(leases, l);
    forall k ensures SameAt(got, want, k) {
      ViewAt(leases, k);
      ViewAt(Added(leases, l), k);
      AddedLookup(leases, l, k);
    }
    SameEverywhere(got, want);
  }

  lemma RemovedView(leases: seq<Lease>, sn: Net)
    requires Distinct(leases)
    ensures View(Removed(leases, sn)) == View(leases) - {sn}
  {
    var got, want := View(Removed(leases, sn)), View(leases) - {sn};
    RemovedDistinct(leases, sn);
    forall k ensures SameAt(got, want, k) {
      ViewAt(leases, k);
      ViewAt(Removed(leases, sn), k);
      RemovedLookup(leases, sn, k);
    }
    SameEverywhere(got, want);
  }

  lemma HandledView(own: Net, o: Outcome, e: LeaseEvent)
    requires Distinct(o.leases) && e.lease.subnet != own
    ensures Distinct(Handled(own, o, e).leases)
    ensures View(Handled(own, o, e).leases) == Apply(View(o.leases), OpOf(e))
  {
    match e.eventType {
      case PutEvent =>
        AddedDistinct(o.leases, e.lease);
        AddedView(o.leases, e.lease);
      case DeleteEvent =>
        RemovedDistinct(o.leases, e.lease.subnet);
        RemovedView(o.leases, e.lease.subnet);
    }
  }

  /** What goes out for entry `i`: a put as it is, a delete with the lease held for the subnet by then, in a list
      that began as `m`, or as it is when none was. */
  predicate SentFor(m: map<Net, Lease>, foreign: seq<LeaseEvent>, i: nat, out: LeaseEvent)
    requires i < |foreign|
  {
    var held := At(Fold(m, OpsOf(foreign[..i])), foreign[i].lease.subnet);
    out == if foreign[i].eventType.PutEvent? || held.None? then foreign[i] else LeaseEvent(DeleteEvent, held.value)
  }

  predicate SentForEach(m: map<Net, Lease>, foreign: seq<LeaseEvent>, sent: seq<LeaseEvent>) {
    |sent| == |foreign| && forall i :: 0 <= i < |sent| ==> SentFor(m, foreign, i, sent[i])
  }

  lemma SentForMore(m: map<Net, Lease>, foreign: seq<LeaseEvent>, sent: seq<LeaseEvent>, e: LeaseEvent, out: LeaseEvent)
    requires SentForEach(m, foreign, sent) && SentFor(m, foreign + [e], |foreign|, out)
    ensures SentForEach(m, foreign + [e], sent + [out])
  {
    forall i | 0 <= i < |sent| ensures SentFor(m, foreign + [e], i, (sent + [out])[i]) {
      assert SentFor(m, foreign, i, sent[i]);
      assert (foreign + [e])[..i] == foreign[..i];
    }
  }

  lemma HandledSends(own: Net, m: map<Net, Lease>, foreign: seq<LeaseEvent>, prev: Outcome, e: LeaseEvent)
    returns (out: LeaseEvent)
    requires Distinct(prev.leases) && View(prev.leases) == Fold(m, OpsOf(foreign)) && e.lease.subnet != own
    ensures Handled(own, prev, e).batch == prev.batch + [out] && SentFor(m, foreign + [e], |foreign|, out)
  {
    assert (foreign + [e])[..|foreign|] == foreign;
    ViewAt(prev.leases, e.lease.subnet);
    out := if e.eventType.PutEvent? then e else LeaseEvent(DeleteEvent, Departing(prev.leases, e.lease));
  }

  /** One event goes out for every event that is not about the own subnet, in order. */
  lemma {:induction false} OneOutPerEvent(own: Net, o: Outcome, events: seq<LeaseEvent>) returns (sent: seq<LeaseEvent>)
    requires Distinct(o.leases)
    ensures Onward(own, o, events).batch == o.batch + sent
    ensures SentForEach(View(o.leases), Foreign(own, events), sent)
  {
    if events == [] {
      sent := [];
      assert o.batch + [] == o.batch;
    } else {
      var n := |events| - 1;
      var e, f := events[n], Foreign(own, events[..n]);
      sent := OneOutPerEvent(own, o, events[..n]);
      if e.lease.subnet == own {
        assert f + [] == f;
      } else {
        OnwardView(own, o, events[..n]);
        var out := HandledSends(own, View(o.leases), f, Onward(own, o, events[..n]), e);
        SentForMore(View(o.leases), f, sent, e, out);
        assert o.batch + (sent + [out]) == (o.batch + sent) + [out];
        sent := sent + [out];
      }
    }
  }

  /** A result with events is handled by them alone, its snapshot ignored; one with neither changes nothing. */
  lemma EventsFirst(own: Net, o: Outcome, r: WatchResult)
    ensures r.events != [] ==> Fed(own, o, r) == Onward(own, o, r.events)
    ensures r.events == [] && r.snapshot == [] ==> Fed(own, o, r) == o
    ensures r.events == [] && r.snapshot != [] ==> Fed(own, o, r).leases == r.snapshot
  {
    UpdatedOnward(own, o, r.events);
    assert o.batch + [] == o.batch;
  }

  /** The watcher's list stays a map, and what the consumer has replayed is that map without the own subnet. */
  lemma WatcherRefinesMap(own: Net, snapshot: seq<Lease>, events: seq<LeaseEvent>)
    requires Distinct(snapshot)
    ensures var o := Watched(own, Results(snapshot, events));
            && Distinct(o.leases)
            && View(o.leases) == Fold(View(snapshot), OpsOf(Foreign(own, events)))
            && Replay(o.batch) == View(o.leases) - {own}
            && Replay(o.batch) == Fold(View(snapshot) - {own}, OpsOf(Foreign(own, events)))
  {
    var started := Started(own, snapshot);
    WatchedRun(own, snapshot, events);
    StartedInStep(own, snapshot);
    InStepView(own, started);
    OnwardInStep(own, started, events);
    InStepView(own, Onward(own, started, events));
    OnwardReplay(own, started, events);
    OnwardView(own, started, events);
  }

  lemma {:induction false} OnwardReplay(own: Net, o: Outcome, events: seq<LeaseEvent>)
    ensures Replay(Onward(own, o, events).batch) == Fold(Replay(o.batch), OpsOf(Foreign(own, events)))
  {
    if events != [] {
      var n := |events| - 1;
      OnwardReplay(own, o, events[..n]);
      var prev, e, f := Onward(own, o, events[..n]), events[n], Foreign(own, events[..n]);
      if e.lease.subnet == own {
        assert f + [] == f;
      } else {
        FoldEvent(Replay(o.batch), f, e);
        ReplayStep(prev.batch, e);
        ReplayStep(prev.batch, LeaseEvent(DeleteEvent, Departing(prev.leases, e.lease)));
      }
    }
  }

  // Deletes carry history ---------------------------------------------------------------------

  /** Watch deletes come in as tombstones with default attributes. */
  predicate Tombstones(events: seq<LeaseEvent>) {
    forall i :: 0 <= i < |events| && events[i].eventType.DeleteEvent? ==> events[i].lease.attrs == DEFAULT_ATTRS
  }

  predicate CarriesAt(sent: seq<LeaseEvent>, i: nat)
    requires i < |sent|
  {
    sent[i].eventType.DeleteEvent? ==>
      match At(Replay(sent[..i]), sent[i].lease.subnet)
      case Some(last) => sent[i].lease == last
      case None => sent[i].lease.attrs == DEFAULT_ATTRS
  }

  /** Each delete of a subnet the consumer knows carries the lease last put for it; any other is a tombstone. */
  predicate CarriesHistory(sent: seq<LeaseEvent>) {
    forall i :: 0 <= i < |sent| ==> CarriesAt(sent, i)
  }

  lemma CarriesMore(sent: seq<LeaseEvent>, e: LeaseEvent)
    requires CarriesHistory(sent) && CarriesAt(sent + [e], |sent|)
    ensures CarriesHistory(sent + [e])
  {
    forall i | 0 <= i < |sent| ensures CarriesAt(sent + [e], i) {
      assert CarriesAt(sent, i);
      assert (sent + [e])[..i] == sent[..i];
    }
  }

  lemma {:induction false} OnwardCarries(own: Net, o: Outcome, events: seq<LeaseEvent>)
    requires InStep(own, o) && CarriesHistory(o.batch) && Tombstones(events)
    ensures CarriesHistory(Onward(own, o, events).batch)
  {
    if events != [] {
      var n := |events| - 1;
      var e, prev := events[n], Onward(own, o, events[..n]);
      OnwardCarries(own, o, events[..n]);
      OnwardInStep(own, o, events[..n]);
      if e.lease.subnet != own {
        var out := if e.eventType.PutEvent? then e else LeaseEvent(DeleteEvent, Departing(prev.leases, e.lease));
        assert KnowsAt(own, prev, e.lease.subnet);
        assert (prev.batch + [out])[..|prev.batch|] == prev.batch;
        CarriesMore(prev.batch, out);
      }
    }
  }

  lemma StartedPuts(own: Net, snapshot: seq<Lease>)
    ensures Started(own, snapshot).batch == Matched(own, [], snapshot).batch
  {
    MatchedMembers(own, [], snapshot);
    var o := Matched(own, [], snapshot);
    assert o.batch + Deletes([]) == o.batch;
  }

  lemma StartedCarries(own: Net, snapshot: seq<Lease>)
    requires Distinct(snapshot)
    ensures CarriesHistory(Started(own, snapshot).batch)
  {
    StartedPuts(own, snapshot);
    MatchedPuts(own, [], snapshot);
  }

  /** Every delete a consumer receives during a watch lets it rebuild what it installed. */
  lemma DeletesCarryHistory(own: Net, snapshot: seq<Lease>, events: seq<LeaseEvent>)
    requires Distinct(snapshot) && Tombstones(events)
    ensures CarriesHistory(Watched(own, Results(snapshot, events)).batch)
  {
    WatchedRun(own, snapshot, events);
    StartedInStep(own, snapshot);
    StartedCarries(own, snapshot);
    OnwardCarries(own, Started(own, snapshot), events);
  }
}
