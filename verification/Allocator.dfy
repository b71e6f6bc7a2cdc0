/** The search for a free subnet: scan the window, keep the first hundred free slots, pick one of them. */
module Allocator {
  import opened Cidr

  const MAX_CANDIDATES: nat := 100

  /** The validated allocation window: subnets of length `len` from `min` to `max`. */
  datatype Window = Window(min: Addr, max: Addr, len: Prefix)
  {
    predicate Valid() {
      2 <= len <= 30 && Floor(min, len) == min && Floor(max, len) == max
    }

    predicate IsSlot(net: Net) {
      net.prefix == len && min <= net.ip <= max && Canonical(net)
    }

    function Slots(): nat {
      SlotCount(min, max, Size(len))
    }
  }

  predicate Busy(net: Net, leases: seq<Net>) {
    exists i :: 0 <= i < |leases| && Overlaps(net, leases[i])
  }

  /** The free slots at or after `ip`, in ascending order. */
  function FreeFrom(w: Window, leases: seq<Net>, ip: nat): seq<Addr>
    decreases if w.max < ip then 0 else w.max - ip + 1
  {
    if w.max < ip then []
    else (if Busy(Net(ip, w.len), leases) then [] else [ip]) + FreeFrom(w, leases, ip + Size(w.len))
  }

  function FreeSlots(w: Window, leases: seq<Net>): seq<Addr> {
    FreeFrom(w, leases, w.min)
  }

  function Candidates(w: Window, leases: seq<Net>): (c: seq<Addr>)
    ensures c <= FreeSlots(w, leases)
    ensures |c| == if |FreeSlots(w, leases)| < 100 then |FreeSlots(w, leases)| else 100
  {
    var free := FreeSlots(w, leases);
    if |free| <= MAX_CANDIDATES then free else free[..MAX_CANDIDATES]
  }

  datatype Allocation = Allocated(net: Net) | NoneAvailable | Overflows

  /** The scan steps past the end of the address space: the window ends there and too few slots are free
      before its last one. */
  predicate ScanOverflows(w: Window, leases: seq<Net>) {
    && w.min <= w.max
    && w.max + Size(w.len) == ADDRESSES
    && |FreeSlots(w, leases)| - (if Busy(Net(w.max, w.len), leases) then 0 else 1) < MAX_CANDIDATES
  }

  /** Leases no larger than a subnet, and fewer of them than slots. */
  predicate Roomy(w: Window, leases: seq<Net>) {
    (forall i :: 0 <= i < |leases| ==> w.len <= leases[i].prefix) && |leases| < w.Slots()
  }

  lemma AlignedGap(a: Addr, b: Addr, len: Prefix)
    requires Floor(a, len) == a && Floor(b, len) == b && a < b
    ensures a + Size(len) <= b
  {
    ClearsTo(a, b, 32 - len);
  }

  lemma NextAligned(a: nat, len: Prefix)
    requires Aligned(a, 32 - len)
    ensures Aligned(a + Size(len), 32 - len)
  {
    AlignedPow2(32 - len, 32 - len);
    AlignedSum(a, Size(len), 32 - len);
  }

  lemma {:induction false} LastSlotCounted(w: Window, leases: seq<Net>, ip: Addr)
    requires w.Valid() && Floor(ip, w.len) == ip && ip <= w.max
    ensures !Busy(Net(w.max, w.len), leases) ==> |FreeFrom(w, leases, ip)| >= 1
    decreases w.max - ip
  {
    if ip < w.max {
      AlignedGap(ip, w.max, w.len);
      NextAligned(ip, w.len);
      LastSlotCounted(w, leases, ip + Size(w.len));
    }
  }

  method OverlapsAny(sn: Net, leases: seq<Net>) returns (overlap: bool)
    ensures overlap <==> Busy(sn, leases)
  {
    overlap := false;
    for i := 0 to |leases|
      invariant !overlap
      invariant forall j :: 0 <= j < i ==> !Overlaps(sn, leases[j])
    {
      if Overlaps(sn, leases[i]) {
        overlap := true;
        break;
      }
    }
  }

  /** What the scan still has to do from an aligned `ip`: it stays in the window or the window leaves room. */
  ghost predicate OnTrack(w: Window, ip: Addr) {
    Floor(ip, w.len) == ip && (ip <= w.max || w.max < w.min || w.max + Size(w.len) < ADDRESSES)
  }

  lemma ScanStep(w: Window, ip: Addr)
    requires w.Valid() && OnTrack(w, ip) && ip <= w.max && w.min <= w.max
    ensures ip + Size(w.len) < ADDRESSES ==> OnTrack(w, ip + Size(w.len))
    ensures ip + Size(w.len) >= ADDRESSES ==> ip == w.max && w.max + Size(w.len) == ADDRESSES
  {
    BlockEnds(w.max, w.len);
    if ip < w.max { AlignedGap(ip, w.max, w.len); }
    NextAligned(ip, w.len);
  }

  /** The scan of everything before `ip` kept `available`, and has not filled up before reaching it. */
  ghost predicate Scanned(w: Window, leases: seq<Net>, available: seq<Addr>, ip: Addr) {
    && w.min <= ip && OnTrack(w, ip) && |available| <= MAX_CANDIDATES
    && available + FreeFrom(w, leases, ip) == FreeSlots(w, leases)
  }

  lemma ScanStops(w: Window, leases: seq<Net>, available: seq<Addr>, ip: Addr)
    requires w.Valid() && Scanned(w, leases, available, ip)
    requires w.max < ip || |available| == MAX_CANDIDATES
    ensures available == Candidates(w, leases) && !ScanOverflows(w, leases)
  {
    if ip <= w.max { LastSlotCounted(w, leases, ip); }
  }

  lemma ScanMoves(w: Window, leases: seq<Net>, available: seq<Addr>, ip: Addr, next: seq<Addr>)
    requires w.Valid() && Scanned(w, leases, available, ip)
    requires ip <= w.max && |available| < MAX_CANDIDATES
    requires next == if Busy(Net(ip, w.len), leases) then available else available + [ip]
    ensures ip + Size(w.len) < ADDRESSES ==> Scanned(w, leases, next, ip + Size(w.len))
    ensures ip + Size(w.len) >= ADDRESSES ==> ScanOverflows(w, leases)
  {
    ScanStep(w, ip);
    var rest := FreeFrom(w, leases, ip + Size(w.len));
    assert (available + [ip]) + rest == available + ([ip] + rest);
    assert next + rest == available + FreeFrom(w, leases, ip);
    if ip + Size(w.len) >= ADDRESSES { assert rest == []; }
  }

  method AllocateSubnet(w: Window, leases: seq<Net>) returns (r: Allocation)
    requires w.Valid()
    ensures r.Overflows? <==> ScanOverflows(w, leases)
    ensures r.NoneAvailable? <==> !ScanOverflows(w, leases) && FreeSlots(w, leases) == []
    ensures r.Allocated? ==> r.net.prefix == w.len && r.net.ip in Candidates(w, leases)
    ensures Roomy(w, leases) && !ScanOverflows(w, leases) ==> r.Allocated?
  {
    if Roomy(w, leases) { Pigeonhole(w, leases); }
    var available: seq<Addr> := [];
    var sn := Net(w.min, w.len);
    while sn.ip <= w.max && |available| < MAX_CANDIDATES
      invariant sn.prefix == w.len && Scanned(w, leases, available, sn.ip)
      decreases ADDRESSES - sn.ip
    {
      ghost var before := available;
      var overlap := OverlapsAny(sn, leases);
      if !overlap { available := available + [sn.ip]; }
      ScanMoves(w, leases, before, sn.ip, available);
      var next := NextNetwork(sn);
      if next.Overflow? { return Overflows; }
      sn := next.net;
    }
    ScanStops(w, leases, available, sn.ip);
    if available == [] { return NoneAvailable; }
    var i :| 0 <= i < |available|;
    return Allocated(Net(available[i], w.len));
  }

  lemma {:induction false} FreeAscending(w: Window, leases: seq<Net>, ip: nat)
    ensures forall i :: 0 <= i < |FreeFrom(w, leases, ip)| ==> ip <= FreeFrom(w, leases, ip)[i]
    ensures forall i, j :: 0 <= i < j < |FreeFrom(w, leases, ip)| ==>
              FreeFrom(w, leases, ip)[i] < FreeFrom(w, leases, ip)[j]
    decreases if w.max < ip then 0 else w.max - ip + 1
  {
    if ip <= w.max { FreeAscending(w, leases, ip + Size(w.len)); }
  }

  /** The free list is exactly the slots of the window sharing no address with any lease. */
  lemma {:induction false} FreeExact(w: Window, leases: seq<Net>, ip: nat, x: Addr)
    requires w.Valid() && Aligned(ip, 32 - w.len)
    ensures x in FreeFrom(w, leases, ip) <==>
              ip <= x && x <= w.max && Floor(x, w.len) == x
              && forall i :: 0 <= i < |leases| ==> !Share(Net(x, w.len), leases[i])
    decreases if w.max < ip then 0 else w.max - ip + 1
  {
    if ip <= w.max {
      NextAligned(ip, w.len);
      FreeExact(w, leases, ip + Size(w.len), x);
      forall i | 0 <= i < |leases| ensures Overlaps(Net(x, w.len), leases[i]) <==> Share(Net(x, w.len), leases[i]) {
        OverlapsIffShare(Net(x, w.len), leases[i]);
      }
      if ip < x && Floor(x, w.len) == x { AlignedGap(ip, x, w.len); }
    }
  }

  /** Every candidate is a slot of the window and shares no address with any lease, whatever its length. */
  lemma CandidateFree(w: Window, leases: seq<Net>, x: Addr)
    requires w.Valid() && x in Candidates(w, leases)
    ensures w.IsSlot(Net(x, w.len))
    ensures forall i, a: Addr :: 0 <= i < |leases| && Contains(Net(x, w.len), a) ==> !Contains(leases[i], a)
  {
    FreeExact(w, leases, w.min, x);
  }

  /** A slot is the window's first address plus a whole number of subnets. */
  lemma SlotIndex(w: Window, net: Net) returns (k: nat)
    requires w.Valid() && w.IsSlot(net)
    ensures net.ip == w.min + k * Size(w.len)
  {
    AlignedSum(w.min, net.ip - w.min, 32 - w.len);
    k := AlignedMultiple(net.ip - w.min, 32 - w.len);
  }

  lemma {:induction false} AlignedMultiple(d: nat, k: nat) returns (q: nat)
    requires Aligned(d, k)
    ensures d == q * Pow2(k)
  {
    if k == 0 {
      q := d;
    } else {
      q := AlignedMultiple(d / 2, k - 1);
      Associate(q, 2, Pow2(k - 1));
    }
  }

  /** Allocation finds nothing exactly when every slot shares an address with some lease. */
  lemma NothingFreeIff(w: Window, leases: seq<Net>)
    requires w.Valid()
    ensures FreeSlots(w, leases) == [] <==>
              forall net :: w.IsSlot(net) ==> exists i :: 0 <= i < |leases| && Share(net, leases[i])
  {
    if FreeSlots(w, leases) == [] {
      forall net | w.IsSlot(net) ensures exists i :: 0 <= i < |leases| && Share(net, leases[i]) {
        FreeExact(w, leases, w.min, net.ip);
      }
    } else {
      var x := FreeSlots(w, leases)[0];
      FreeExact(w, leases, w.min, x);
      assert w.IsSlot(Net(x, w.len));
    }
  }

  /** Fewer than a hundred candidates means none was left out; otherwise no smaller free slot was. */
  lemma CandidatesAreFirst(w: Window, leases: seq<Net>, x: Addr, y: Addr)
    requires w.Valid() && x in Candidates(w, leases)
    requires y in FreeSlots(w, leases) && (y <= x || |Candidates(w, leases)| < 100)
    ensures y in Candidates(w, leases)
  {
    var free, c := FreeSlots(w, leases), Candidates(w, leases);
    FreeAscending(w, leases, w.min);
    var i :| 0 <= i < |c| && c[i] == x;
    var j :| 0 <= j < |free| && free[j] == y;
    assert |c| < MAX_CANDIDATES || j <= i;
    assert c[j] == y;
  }

  // Pigeonhole --------------------------------------------------------------------------------

  /** A lease no larger than a slot overlaps at most the slot it lies in. */
  lemma OneSlotPerLease(ip: Addr, len: Prefix, l: Net)
    requires len <= l.prefix && Overlaps(Net(ip, len), l)
    ensures Floor(l.ip, len) == Floor(ip, len)
  {
    OverlapsIffShare(Net(ip, len), l);
    var x: Addr :| Contains(Net(ip, len), x) && Contains(l, x);
    ClearLowCoarser(x, l.ip, 32 - l.prefix, 32 - len);
  }

  lemma BusyMore(net: Net, leases: seq<Net>, l: Net)
    ensures Busy(net, leases + [l]) <==> Busy(net, leases) || Overlaps(net, l)
  {
    var more := leases + [l];
    assert more[|leases|] == l;
    if Busy(net, leases) {
      var i :| 0 <= i < |leases| && Overlaps(net, leases[i]);
      assert more[i] == leases[i];
    }
  }

  /** The free slots when nothing is leased: all of them. */
  function AllSlots(w: Window): seq<Addr> {
    FreeSlots(w, [])
  }

  function FreeOf(slots: seq<Addr>, len: Prefix, leases: seq<Net>): seq<Addr> {
    if slots == [] then []
    else (if Busy(Net(slots[0], len), leases) then [] else [slots[0]]) + FreeOf(slots[1..], len, leases)
  }

  lemma {:induction false} FreeFromSlots(w: Window, leases: seq<Net>, ip: nat)
    ensures FreeFrom(w, leases, ip) == FreeOf(FreeFrom(w, [], ip), w.len, leases)
    decreases if w.max < ip then 0 else w.max - ip + 1
  {
    if ip <= w.max { FreeFromSlots(w, leases, ip + Size(w.len)); }
  }

  /** Adding a lease that keeps all slots but `taken` free takes at most that one off the free list. */
  lemma {:induction false} OneFewer(slots: seq<Addr>, len: Prefix, leases: seq<Net>, more: seq<Net>, taken: Addr)
    requires forall i, j :: 0 <= i < j < |slots| ==> slots[i] != slots[j]
    requires forall x :: x in slots && x != taken && Busy(Net(x, len), more) ==> Busy(Net(x, len), leases)
    ensures |FreeOf(slots, len, more)| >= |FreeOf(slots, len, leases)| - (if taken in slots then 1 else 0)
  {
    if slots != [] { OneFewer(slots[1..], len, leases, more, taken); }
  }

  lemma {:induction false} FreeCount(w: Window, leases: seq<Net>)
    requires w.Valid() && forall i :: 0 <= i < |leases| ==> w.len <= leases[i].prefix
    ensures |FreeOf(AllSlots(w), w.len, leases)| + |leases| >= |AllSlots(w)|
  {
    var slots := AllSlots(w);
    if leases == [] {
      FreeFromSlots(w, [], w.min);
    } else {
      var n := |leases| - 1;
      FreeCount(w, leases[..n]);
      FreeAscending(w, [], w.min);
      assert leases == leases[..n] + [leases[n]];
      var taken := Floor(leases[n].ip, w.len);
      forall x | x in slots && x != taken && Busy(Net(x, w.len), leases) ensures Busy(Net(x, w.len), leases[..n]) {
        FreeExact(w, [], w.min, x);
        BusyMore(Net(x, w.len), leases[..n], leases[n]);
        if Overlaps(Net(x, w.len), leases[n]) { OneSlotPerLease(x, w.len, leases[n]); }
      }
      OneFewer(slots, w.len, leases[..n], leases, taken);
    }
  }

  lemma {:induction false} AllFree(w: Window, ip: nat)
    ensures |FreeFrom(w, [], ip)| == SlotCount(ip, w.max, Size(w.len))
    decreases if w.max < ip then 0 else w.max - ip + 1
  {
    if ip <= w.max { AllFree(w, ip + Size(w.len)); }
  }

  /** In a roomy window a slot is free. */
  lemma Pigeonhole(w: Window, leases: seq<Net>)
    requires w.Valid() && Roomy(w, leases)
    ensures Candidates(w, leases) != []
  {
    FreeCount(w, leases);
    AllFree(w, w.min);
    FreeFromSlots(w, leases, w.min);
  }
}
