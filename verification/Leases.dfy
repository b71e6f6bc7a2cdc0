/** Leases, the events that carry them, and the lease list read as a map. */
module Leases {
  import opened Cidr
  import opened MapLog
  import opened Options

  datatype LeaseAttrs = LeaseAttrs(publicIp: Addr, backendType: Option<string>)

  const DEFAULT_ATTRS := LeaseAttrs(0, None)

  datatype Lease = Lease(subnet: Net, attrs: LeaseAttrs, expiration: nat)

  datatype EventType = PutEvent | DeleteEvent

  datatype LeaseEvent = LeaseEvent(eventType: EventType, lease: Lease)

  function OpOf(e: LeaseEvent): Op<Net, Lease> {
    match e.eventType
    case PutEvent => Put(e.lease.subnet, e.lease)
    case DeleteEvent => Del(e.lease.subnet)
  }

  function OpsOf(events: seq<LeaseEvent>): (ops: seq<Op<Net, Lease>>)
    ensures |ops| == |events|
    ensures forall i :: 0 <= i < |ops| ==> ops[i] == OpOf(events[i])
  {
    seq(|events|, i requires 0 <= i < |events| => OpOf(events[i]))
  }

  /** What a consumer that starts empty knows after a stream of events. */
  function Replay(events: seq<LeaseEvent>): map<Net, Lease> {
    Fold(map[], OpsOf(events))
  }

  lemma FoldEvent(m: map<Net, Lease>, events: seq<LeaseEvent>, e: LeaseEvent)
    ensures Fold(m, OpsOf(events + [e])) == Apply(Fold(m, OpsOf(events)), OpOf(e))
  {
    assert OpsOf(events + [e])[..|events|] == OpsOf(events);
  }

  lemma FoldEvents(m: map<Net, Lease>, a: seq<LeaseEvent>, b: seq<LeaseEvent>)
    ensures Fold(m, OpsOf(a + b)) == Fold(Fold(m, OpsOf(a)), OpsOf(b))
  {
    assert OpsOf(a + b) == OpsOf(a) + OpsOf(b);
    FoldAppend(m, OpsOf(a), OpsOf(b));
  }

  lemma ReplayStep(events: seq<LeaseEvent>, e: LeaseEvent)
    ensures Replay(events + [e]) == Apply(Replay(events), OpOf(e))
  {
    FoldEvent(map[], events, e);
  }

  // Lease lists -------------------------------------------------------------------------------

  /** Position of the first lease on `sn`, or -1. */
  function IndexOf(leases: seq<Lease>, sn: Net): (i: int)
    ensures -1 <= i < |leases|
    ensures i >= 0 ==> leases[i].subnet == sn && forall j :: 0 <= j < i ==> leases[j].subnet != sn
    ensures i < 0 ==> forall j :: 0 <= j < |leases| ==> leases[j].subnet != sn
  {
    if leases == [] then -1
    else
      var i := IndexOf(leases[..|leases| - 1], sn);
      if i >= 0 then i
      else if leases[|leases| - 1].subnet == sn then |leases| - 1
      else -1
  }

  predicate Distinct(leases: seq<Lease>) {
    forall i, j :: 0 <= i < j < |leases| ==> leases[i].subnet != leases[j].subnet
  }

  function Lookup(leases: seq<Lease>, sn: Net): Option<Lease> {
    var i := IndexOf(leases, sn);
    if i >= 0 then Some(leases[i]) else None
  }

  lemma LookupOf(leases: seq<Lease>, i: int)
    requires Distinct(leases) && 0 <= i < |leases|
    ensures IndexOf(leases, leases[i].subnet) == i
    ensures Lookup(leases, leases[i].subnet) == Some(leases[i])
  {}

  lemma LookupNone(leases: seq<Lease>, sn: Net)
    requires forall i :: 0 <= i < |leases| ==> leases[i].subnet != sn
    ensures Lookup(leases, sn) == None
  {}

  /** Looking up in a non-empty list: the last entry, or the rest. */
  lemma LookupLast(leases: seq<Lease>, sn: Net)
    requires Distinct(leases) && leases != []
    ensures var n := |leases| - 1;
            Lookup(leases, sn) == if sn == leases[n].subnet then Some(leases[n]) else Lookup(leases[..n], sn)
    ensures Lookup(leases[..|leases| - 1], leases[|leases| - 1].subnet).None?
  {
    LookupOf(leases, |leases| - 1);
    LookupNone(leases[..|leases| - 1], leases[|leases| - 1].subnet);
  }

  /** The lease list as a map from subnet to lease. */
  function View(leases: seq<Lease>): map<Net, Lease> {
    if leases == [] then map[]
    else View(leases[..|leases| - 1])[leases[|leases| - 1].subnet := leases[|leases| - 1]]
  }

  lemma {:induction false} ViewAt(leases: seq<Lease>, sn: Net)
    requires Distinct(leases)
    ensures At(View(leases), sn) == Lookup(leases, sn)
  {
    if leases != [] {
      var n := |leases| - 1;
      ViewAt(leases[..n], sn);
      LookupOf(leases, n);
    }
  }

  function Subnets(leases: seq<Lease>): set<Net> {
    set l | l in leases :: l.subnet
  }

  lemma SubnetIff(leases: seq<Lease>, sn: Net)
    ensures sn in Subnets(leases) <==> Lookup(leases, sn).Some?
  {}
}
