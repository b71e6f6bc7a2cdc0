/** Validation of the network configuration: choosing the subnet length and the allocation window. */
module NetworkConfig {
  import opened Cidr
  import opened Options

  type Byte = b: int | 0 <= b < 256

  datatype Settings = Settings(
    enableIpv4: bool,
    enableIpv6: bool,
    network: Option<Net>,
    subnetLen: Byte,
    subnetMin: Option<Addr>,
    subnetMax: Option<Addr>)

  datatype Reason =
    | NoNetwork
    | LengthTooLong
    | TooFewSubnets
    | NetworkTooSmall
    | MinOutside
    | MaxOutside
    | MinUnaligned
    | MaxUnaligned

  /** `Overflows` is a u32 overflow (a panic in a checked build), `Unimplemented` the IPv6 stub. */
  datatype Verdict = Accepted | Rejected(reason: Reason) | Overflows | Unimplemented

  /** The subnet length a request of `len` (0 meaning unset) yields in a network of length `prefix`. */
  function ChooseLength(len: Byte, prefix: Prefix): (r: (Byte, Verdict))
    ensures r.1.Accepted? <==> (prefix + 2 <= len <= 30) || (len == 0 && prefix <= 28)
    ensures r.1.Accepted? ==> r.0 == if len != 0 then len else if prefix + 2 <= 24 then 24 else prefix + 2
  {
    if len > 0 then
      if len > 30 then (len, Rejected(LengthTooLong))
      else if len < prefix + 2 then (len, Rejected(TooFewSubnets))
      else (len, Accepted)
    else if prefix > 28 then (len, Rejected(NetworkTooSmall))
    else if prefix <= 22 then (24, Accepted)
    else (prefix + 2, Accepted)
  }

  function ChooseMin(given: Option<Addr>, net: Net, size: nat): (Option<Addr>, Verdict) {
    match given
    case None => if net.ip + size >= ADDRESSES then (None, Overflows) else (Some(net.ip + size), Accepted)
    case Some(m) => (given, if Contains(net, m) then Accepted else Rejected(MinOutside))
  }

  function ChooseMax(given: Option<Addr>, net: Net, size: nat): (Option<Addr>, Verdict) {
    match given
    case None =>
      (match NextNetwork(net)
       case Next(n) => if n.ip < size then (None, Overflows) else (Some(n.ip - size), Accepted)
       case _ => (None, Overflows))
    case Some(m) => (given, if Contains(net, m) then Accepted else Rejected(MaxOutside))
  }

  function CheckAlignment(lo: Addr, hi: Addr, len: Prefix): Verdict {
    if Floor(lo, len) != lo then Rejected(MinUnaligned)
    else if Floor(hi, len) != hi then Rejected(MaxUnaligned)
    else Accepted
  }

  /** What validation leaves in the settings and what it answers; a failure keeps the fields filled so far. */
  function Judged(s: Settings): (Settings, Verdict) {
    if !s.enableIpv4 then (s, Ipv6Verdict(s))
    else if s.network.None? then (s, Rejected(NoNetwork))
    else
      var (len, verdict) := ChooseLength(s.subnetLen, s.network.value.prefix);
      if verdict.Accepted? then JudgedWindow(s.(subnetLen := len), s.network.value) else (s, verdict)
  }

  function JudgedWindow(s: Settings, net: Net): (Settings, Verdict)
    requires s.subnetLen <= 32
  {
    var (lo, minVerdict) := ChooseMin(s.subnetMin, net, Size(s.subnetLen));
    if !minVerdict.Accepted? then (s, minVerdict) else
    var s1 := s.(subnetMin := lo);
    var (hi, maxVerdict) := ChooseMax(s1.subnetMax, net, Size(s.subnetLen));
    if !maxVerdict.Accepted? then (s1, maxVerdict) else
    var s2 := s1.(subnetMax := hi);
    var aligned := CheckAlignment(lo.value, hi.value, s.subnetLen);
    (s2, if aligned.Accepted? then Ipv6Verdict(s2) else aligned)
  }

  function Ipv6Verdict(s: Settings): Verdict {
    if s.enableIpv6 then Unimplemented else Accepted
  }

  /** The configuration object the validation fills in place. */
  class Config {
    var enableIpv4: bool
    var enableIpv6: bool
    var network: Option<Net>
    var subnetLen: Byte
    var subnetMin: Option<Addr>
    var subnetMax: Option<Addr>

    constructor (s: Settings)
      ensures Value() == s
    {
      enableIpv4, enableIpv6, network := s.enableIpv4, s.enableIpv6, s.network;
      subnetLen, subnetMin, subnetMax := s.subnetLen, s.subnetMin, s.subnetMax;
    }

    function Value(): Settings
      reads this
    {
      Settings(enableIpv4, enableIpv6, network, subnetLen, subnetMin, subnetMax)
    }

    method Check() returns (v: Verdict)
      modifies this
      ensures (Value(), v) == Judged(old(Value()))
    {
      if enableIpv4 {
        if network.None? { return Rejected(NoNetwork); }
        var net := network.value;
        if subnetLen > 0 {
          if subnetLen > 30 { return Rejected(LengthTooLong); }
          if subnetLen < net.prefix + 2 { return Rejected(TooFewSubnets); }
        } else if net.prefix > 28 {
          return Rejected(NetworkTooSmall);
        } else if net.prefix <= 22 {
          subnetLen := 24;
        } else {
          subnetLen := net.prefix + 2;
        }
        v := CheckWindow(net);
        return;
      }
      if enableIpv6 { return Unimplemented; }
      return Accepted;
    }

    method CheckWindow(net: Net) returns (v: Verdict)
      requires subnetLen <= 32
      modifies this
      ensures (Value(), v) == JudgedWindow(old(Value()), net)
    {
      var size := Size(subnetLen);
      if subnetMin.None? {
        if net.ip + size >= ADDRESSES { return Overflows; }
        subnetMin := Some(net.ip + size);
      } else if !Contains(net, subnetMin.value) {
        return Rejected(MinOutside);
      }
      if subnetMax.None? {
        var next := NextNetwork(net);
        if !next.Next? || next.net.ip < size { return Overflows; }
        subnetMax := Some(next.net.ip - size);
      } else if !Contains(net, subnetMax.value) {
        return Rejected(MaxOutside);
      }
      if Floor(subnetMin.value, subnetLen) != subnetMin.value { return Rejected(MinUnaligned); }
      if Floor(subnetMax.value, subnetLen) != subnetMax.value { return Rejected(MaxUnaligned); }
      if enableIpv6 { return Unimplemented; }
      return Accepted;
    }
  }

  lemma ShiftedOnes(s: nat)
    requires 1 <= s <= 0x8000_0000
    ensures ((ADDRESSES - 1) * s) % ADDRESSES == ADDRESSES - s
  {
    assert (ADDRESSES - 1) * s == (s - 1) * ADDRESSES + (ADDRESSES - s);
  }

  /** The alignment test is the program's test against the shifted all-ones mask. */
  lemma AlignedByMask(x: Addr, len: Prefix)
    requires 1 <= len
    ensures Floor(x, len) == x <==> BitAnd(x, ((ADDRESSES - 1) * Size(len)) % ADDRESSES) == x
  {
    Pow2Of32();
    Pow2Le(32 - len, 31);
    ShiftedOnes(Size(len));
    MaskedBits(Net(x, len));
  }

  predicate Judges(s: Settings, r: Settings) {
    s.enableIpv4 && Judged(s) == (r, Accepted)
  }

  /** Whole block inside the network. */
  predicate BlockInside(net: Net, ip: Addr, len: Prefix) {
    forall a: Addr :: Contains(Net(ip, len), a) ==> Contains(net, a)
  }

  /** An aligned block of a longer prefix is inside a network exactly when its first address is. */
  lemma InsideByFirst(net: Net, ip: Addr, len: Prefix)
    requires net.prefix <= len && Floor(ip, len) == ip
    ensures BlockInside(net, ip, len) <==> Contains(net, ip)
  {
    assert Contains(Net(ip, len), ip);
    if Contains(net, ip) { NestedOrDisjoint(net, Net(ip, len), ip); }
  }

  /** Both default bounds are aligned exactly when the address they are counted from is. */
  lemma DefaultsAligned(ip: Addr, prefix: Prefix, len: Prefix)
    requires prefix <= len
    ensures Aligned(ip + Size(len), 32 - len) <==> Floor(ip, len) == ip
    ensures Size(prefix) >= Size(len)
    ensures Aligned(ip + Size(prefix) - Size(len), 32 - len) <==> Floor(ip, len) == ip
  {
    var k := 32 - len;
    Pow2Le(k, 32 - prefix);
    AlignedPow2(k, k);
    AlignedPow2(32 - prefix, k);
    AlignedSum(Size(len), ip, k);
    AlignedSum(Size(prefix), ip, k);
    AlignedSum(Size(len), ip + Size(prefix) - Size(len), k);
  }

  /** An aligned number below one subnet's size is zero. */
  lemma SmallAligned(d: nat, k: nat)
    requires Aligned(d, k) && d < Pow2(k)
    ensures d == 0
  {
    ZeroAligned(k);
    ClearsTo(0, d, k);
  }

  /** How far an aligned address lies into a network of shorter prefix is aligned too. */
  lemma OffsetAligned(net: Net, len: Prefix)
    requires net.prefix <= len && Floor(net.ip, len) == net.ip
    ensures Aligned(net.ip - Network(net), 32 - len)
  {
    ClearLowBounds(net.ip, 32 - net.prefix);
    AlignedFiner(Network(net), 32 - len, 32 - net.prefix);
    AlignedSum(Network(net), net.ip - Network(net), 32 - len);
  }

  /** The default upper bound lands inside the network only when the network was written canonically. */
  lemma DefaultMaxInside(net: Net, len: Prefix, hi: Addr)
    requires net.prefix <= len && hi == net.ip + Size(net.prefix) - Size(len)
    requires Floor(hi, len) == hi
    ensures Contains(net, hi) <==> Canonical(net)
  {
    ContainsInterval(net, hi);
    DefaultsAligned(net.ip, net.prefix, len);
    OffsetAligned(net, len);
    if net.ip - Network(net) < Size(len) { SmallAligned(net.ip - Network(net), 32 - len); }
  }

  lemma {:induction false} ZeroAligned(k: nat)
    ensures Aligned(0, k)
  {
    if k > 0 { ZeroAligned(k - 1); }
  }

  /** Exactly when the window an accepted configuration ends up with lies inside its network. */
  lemma AcceptedWindow(s: Settings, r: Settings)
    requires Judges(s, r)
    ensures r.network == s.network && r.network.Some? && r.subnetMin.Some? && r.subnetMax.Some?
    ensures r.network.value.prefix + 2 <= r.subnetLen <= 30
    ensures Floor(r.subnetMin.value, r.subnetLen) == r.subnetMin.value
    ensures Floor(r.subnetMax.value, r.subnetLen) == r.subnetMax.value
    ensures BlockInside(r.network.value, r.subnetMin.value, r.subnetLen) <==>
              s.subnetMin.Some? || s.network.value.ip + Size(r.subnetLen) <= Broadcast(s.network.value)
    ensures BlockInside(r.network.value, r.subnetMax.value, r.subnetLen) <==>
              s.subnetMax.Some? || Canonical(s.network.value)
  {
    var net := s.network.value;
    InsideByFirst(net, r.subnetMin.value, r.subnetLen);
    InsideByFirst(net, r.subnetMax.value, r.subnetLen);
    ContainsInterval(net, r.subnetMin.value);
    if s.subnetMax.None? { DefaultMaxInside(net, r.subnetLen, r.subnetMax.value); }
  }

  lemma SmallerBlock(coarse: Prefix, fine: Prefix)
    requires coarse + 2 <= fine
    ensures Size(coarse) >= 4 * Size(fine)
  {
    assert Pow2(34 - fine) == 4 * Size(fine);
    Pow2Le(34 - fine, 32 - coarse);
  }

  /** For canonically written networks both boundary subnets lie wholly inside the network. */
  lemma CanonicalWindow(s: Settings, r: Settings)
    requires Judges(s, r) && Canonical(s.network.value)
    ensures BlockInside(r.network.value, r.subnetMin.value, r.subnetLen)
    ensures BlockInside(r.network.value, r.subnetMax.value, r.subnetLen)
  {
    AcceptedWindow(s, r);
    SmallerBlock(r.network.value.prefix, r.subnetLen);
  }

  /** A given bound has to be aligned and in the network; a defaulted one needs an aligned network address and
      room for the addition of `offset` to it. */
  predicate BoundFits(given: Option<Addr>, net: Net, len: Prefix, offset: nat) {
    match given
    case Some(b) => Contains(net, b) && Floor(b, len) == b
    case None => net.ip + offset < ADDRESSES && Floor(net.ip, len) == net.ip
  }

  /** The first u32 addition past the end: for a defaulted lower bound, else for a defaulted upper one. */
  predicate BoundsOverflow(s: Settings, net: Net, len: Prefix) {
    match s.subnetMin
    case None => net.ip + Size(len) >= ADDRESSES || (s.subnetMax.None? && net.ip + Size(net.prefix) >= ADDRESSES)
    case Some(m) => Contains(net, m) && s.subnetMax.None? && net.ip + Size(net.prefix) >= ADDRESSES
  }

  /** A bound that passes its own check and the alignment check. */
  predicate Passes(bound: (Option<Addr>, Verdict), len: Prefix) {
    bound.1.Accepted? && bound.0.Some? && Floor(bound.0.value, len) == bound.0.value
  }

  lemma MinJudged(given: Option<Addr>, net: Net, len: Prefix)
    requires net.prefix <= len
    ensures Passes(ChooseMin(given, net, Size(len)), len) <==> BoundFits(given, net, len, Size(len))
  {
    DefaultsAligned(net.ip, net.prefix, len);
  }

  lemma MaxJudged(given: Option<Addr>, net: Net, len: Prefix)
    requires net.prefix < len
    ensures ChooseMax(given, net, Size(len)).1.Overflows? <==> given.None? && net.ip + Size(net.prefix) >= ADDRESSES
    ensures Passes(ChooseMax(given, net, Size(len)), len) <==> BoundFits(given, net, len, Size(net.prefix))
  {
    DefaultsAligned(net.ip, net.prefix, len);
    MaxDefault(net, Size(len));
  }

  /** The one case that is not an addition, the shift of a /0, has no room either. */
  lemma MaxDefault(net: Net, size: nat)
    requires net.prefix < 32 && size <= Size(net.prefix)
    ensures ChooseMax(None, net, size) ==
              if net.ip + Size(net.prefix) >= ADDRESSES then (None, Overflows)
              else (Some(net.ip + Size(net.prefix) - size), Accepted)
  {
    Pow2Of32();
  }

  lemma WindowJudged(s: Settings, net: Net)
    requires net.prefix + 2 <= s.subnetLen <= 30
    ensures JudgedWindow(s, net).1.Overflows? <==> BoundsOverflow(s, net, s.subnetLen)
    ensures JudgedWindow(s, net).1.Accepted? <==>
              && !s.enableIpv6
              && BoundFits(s.subnetMin, net, s.subnetLen, Size(s.subnetLen))
              && BoundFits(s.subnetMax, net, s.subnetLen, Size(net.prefix))
  {
    MinJudged(s.subnetMin, net, s.subnetLen);
    MaxJudged(s.subnetMax, net, s.subnetLen);
    var lo, hi := ChooseMin(s.subnetMin, net, Size(s.subnetLen)), ChooseMax(s.subnetMax, net, Size(s.subnetLen));
    assert JudgedWindow(s, net).1.Accepted? <==> !s.enableIpv6 && Passes(lo, s.subnetLen) && Passes(hi, s.subnetLen);
  }

  /** Settings are accepted exactly when IPv6 is off and, with IPv4 on, there is a network, the length fits and
      both bounds do. */
  lemma AcceptedIff(s: Settings)
    ensures Judged(s).1.Accepted? <==>
              && !s.enableIpv6
              && (s.enableIpv4 ==>
                    && s.network.Some?
                    && var net := s.network.value;
                       var (len, fits) := ChooseLength(s.subnetLen, net.prefix);
                       && fits.Accepted?
                       && BoundFits(s.subnetMin, net, len, Size(len))
                       && BoundFits(s.subnetMax, net, len, Size(net.prefix)))
  {
    if s.enableIpv4 && s.network.Some? {
      var (len, fits) := ChooseLength(s.subnetLen, s.network.value.prefix);
      if fits.Accepted? { WindowJudged(s.(subnetLen := len), s.network.value); }
    }
  }

  /** Validation overflows u32 exactly when it gets as far as defaulting a bound that has no room. */
  lemma OverflowsIff(s: Settings)
    ensures Judged(s).1.Overflows? <==>
              && s.enableIpv4 && s.network.Some?
              && var net := s.network.value;
                 var (len, fits) := ChooseLength(s.subnetLen, net.prefix);
                 fits.Accepted? && BoundsOverflow(s, net, len)
  {
    if s.enableIpv4 && s.network.Some? {
      var (len, fits) := ChooseLength(s.subnetLen, s.network.value.prefix);
      if fits.Accepted? { WindowJudged(s.(subnetLen := len), s.network.value); }
    }
  }

  /** The length settings call for fits the network. */
  predicate LengthFits(s: Settings, net: Net) {
    if s.subnetLen > 0 then net.prefix + 2 <= s.subnetLen <= 30 else net.prefix <= 28
  }

  /** The length chosen: the one asked for, else 24, or two more than the network's where that is longer. */
  function LengthFor(s: Settings, net: Net): nat {
    if s.subnetLen > 0 then s.subnetLen else if net.prefix + 2 > 24 then net.prefix + 2 else 24
  }

  /** A given bound is in the network; a defaulted one has room. */
  predicate BoundPasses(given: Option<Addr>, net: Net, offset: nat) {
    match given
    case Some(b) => Contains(net, b)
    case None => net.ip + offset < ADDRESSES
  }

  /** Which reason a rejection carries, for any settings: exactly the first test in order that fails. First those
      about the network and the length. */
  lemma ReasonIff(s: Settings)
    ensures Judged(s).1 == Rejected(NoNetwork) <==> s.enableIpv4 && s.network.None?
    ensures !s.enableIpv4 ==> Judged(s) == (s, if s.enableIpv6 then Unimplemented else Accepted)
    ensures s.enableIpv4 && s.network.Some? ==>
              var net := s.network.value;
              && (Judged(s).1 == Rejected(LengthTooLong) <==> s.subnetLen > 30)
              && (Judged(s).1 == Rejected(TooFewSubnets) <==> 0 < s.subnetLen <= 30 && s.subnetLen < net.prefix + 2)
              && (Judged(s).1 == Rejected(NetworkTooSmall) <==> s.subnetLen == 0 && net.prefix > 28)
  {
    if s.enableIpv4 && s.network.Some? {
      if LengthFits(s, s.network.value) {
        WindowReason(s.(subnetLen := LengthFor(s, s.network.value)), s.network.value);
      } else {
        LengthReason(s);
      }
    }
  }

  lemma WindowReason(s: Settings, net: Net)
    requires s.subnetLen <= 32
    ensures var v := JudgedWindow(s, net).1;
            v.Rejected? ==>
              v.reason.MinOutside? || v.reason.MaxOutside? || v.reason.MinUnaligned? || v.reason.MaxUnaligned?
  {}

  lemma LengthReason(s: Settings)
    requires s.enableIpv4 && s.network.Some? && !LengthFits(s, s.network.value)
    ensures Judged(s) == (s, Rejected(if s.subnetLen > 30 then LengthTooLong
                                      else if s.subnetLen > 0 then TooFewSubnets
                                      else NetworkTooSmall))
  {}

  /** The lower bound's reason, once the length fits. */
  lemma MinReasonIff(s: Settings)
    requires s.enableIpv4 && s.network.Some? && LengthFits(s, s.network.value)
    ensures Judged(s).1 == Rejected(MinOutside) <==>
              s.subnetMin.Some? && !Contains(s.network.value, s.subnetMin.value)
  {}

  /** The bounds a window gets: those given, else a subnet past the network's address and a subnet before the end
      of a block from it. */
  function MinFor(s: Settings, net: Net, len: Prefix): Addr
    requires BoundPasses(s.subnetMin, net, Size(len))
  {
    match s.subnetMin
    case Some(m) => m
    case None => net.ip + Size(len)
  }

  function MaxFor(s: Settings, net: Net, len: Prefix): Addr
    requires BoundPasses(s.subnetMax, net, Size(net.prefix)) && Size(len) <= Size(net.prefix)
  {
    match s.subnetMax
    case Some(m) => m
    case None => net.ip + Size(net.prefix) - Size(len)
  }

  lemma WindowByBounds(s: Settings, net: Net)
    requires net.prefix + 2 <= s.subnetLen <= 30
    requires BoundPasses(s.subnetMin, net, Size(s.subnetLen)) && BoundPasses(s.subnetMax, net, Size(net.prefix))
    ensures Size(s.subnetLen) <= Size(net.prefix)
    ensures var min, max := MinFor(s, net, s.subnetLen), MaxFor(s, net, s.subnetLen);
            JudgedWindow(s, net) == (s.(subnetMin := Some(min), subnetMax := Some(max)),
                                     if Floor(min, s.subnetLen) != min then Rejected(MinUnaligned)
                                     else if Floor(max, s.subnetLen) != max then Rejected(MaxUnaligned)
                                     else if s.enableIpv6 then Unimplemented else Accepted)
  {
    SmallerBlock(net.prefix, s.subnetLen);
    MaxDefault(net, Size(s.subnetLen));
  }

  /** The upper bound's reason, once the length and the lower bound are past their tests. */
  lemma MaxReasonIff(s: Settings)
    requires s.enableIpv4 && s.network.Some? && LengthFits(s, s.network.value)
    requires BoundPasses(s.subnetMin, s.network.value, Size(LengthFor(s, s.network.value)))
    ensures Judged(s).1 == Rejected(MaxOutside) <==>
              s.subnetMax.Some? && !Contains(s.network.value, s.subnetMax.value)
  {}

  /** Past all bound tests: the settings are filled in, and what is left is the alignment, lower bound first. */
  lemma FilledIn(s: Settings)
    requires s.enableIpv4 && s.network.Some? && LengthFits(s, s.network.value)
    requires BoundPasses(s.subnetMin, s.network.value, Size(LengthFor(s, s.network.value)))
    requires BoundPasses(s.subnetMax, s.network.value, Size(s.network.value.prefix))
    ensures var net, len := s.network.value, LengthFor(s, s.network.value);
            && Size(len) <= Size(net.prefix)
            && var min, max := MinFor(s, net, len), MaxFor(s, net, len);
               Judged(s) == (s.(subnetLen := len, subnetMin := Some(min), subnetMax := Some(max)),
                             if Floor(min, len) != min then Rejected(MinUnaligned)
                             else if Floor(max, len) != max then Rejected(MaxUnaligned)
                             else if s.enableIpv6 then Unimplemented else Accepted)
  {
    WindowByBounds(s.(subnetLen := LengthFor(s, s.network.value)), s.network.value);
  }

  /** What a failure leaves filled in: nothing before the length is chosen, then the length, and the lower bound
      once past its test. */
  lemma FailureLeaves(s: Settings)
    requires s.enableIpv4 && s.network.Some?
    ensures var net, len := s.network.value, LengthFor(s, s.network.value);
            && (!LengthFits(s, net) ==> Judged(s).0 == s)
            && (LengthFits(s, net) && !BoundPasses(s.subnetMin, net, Size(len)) ==>
                  Judged(s).0 == s.(subnetLen := len))
            && (LengthFits(s, net) && BoundPasses(s.subnetMin, net, Size(len))
                && !BoundPasses(s.subnetMax, net, Size(net.prefix)) ==>
                  Judged(s).0 == s.(subnetLen := len, subnetMin :=
                    Some(if s.subnetMin.Some? then s.subnetMin.value else net.ip + Size(len))))
  {
    var net, len := s.network.value, LengthFor(s, s.network.value);
    if LengthFits(s, net) {
      SmallerBlock(net.prefix, len);
      MaxDefault(net, Size(len));
    }
  }

  /** With both bounds left to default, a canonical network is accepted exactly when the block after it is
      representable. */
  lemma DefaultsAccepted(s: Settings)
    requires s.enableIpv4 && !s.enableIpv6 && s.network.Some? && Canonical(s.network.value)
    requires s.subnetMin.None? && s.subnetMax.None?
    requires ChooseLength(s.subnetLen, s.network.value.prefix).1.Accepted?
    ensures Judged(s).1 == if NextNetwork(s.network.value).Next? then Accepted else Overflows
  {
    var net := s.network.value;
    var len: Prefix := ChooseLength(s.subnetLen, net.prefix).0;
    AcceptedIff(s);
    OverflowsIff(s);
    SmallerBlock(net.prefix, len);
    Pow2Of32();
    AlignedFiner(net.ip, 32 - len, 32 - net.prefix);
    BlockEnds(net.ip, net.prefix);
  }

  lemma JudgedByWindow(s: Settings, r: Settings)
    requires Judges(s, r)
    ensures s.network.Some? && s.network.value.prefix + 2 <= r.subnetLen <= 30
    ensures JudgedWindow(s.(subnetLen := r.subnetLen), s.network.value) == (r, Accepted)
  {}

  lemma DefaultBounds(s: Settings, r: Settings)
    requires Judges(s, r) && s.subnetMin.None? && s.subnetMax.None?
    ensures s.network.Some? && s.network.value.prefix + 2 <= r.subnetLen <= 30
    ensures var net := s.network.value;
            && Size(net.prefix) >= Size(r.subnetLen)
            && r.subnetMin == Some(net.ip + Size(r.subnetLen))
            && r.subnetMax == Some(net.ip + Size(net.prefix) - Size(r.subnetLen))
  {
    JudgedByWindow(s, r);
    var net := s.network.value;
    SmallerBlock(net.prefix, r.subnetLen);
    MaxDefault(net, Size(r.subnetLen));
    assert ChooseMin(None, net, Size(r.subnetLen)).0 == r.subnetMin;
    assert ChooseMax(None, net, Size(r.subnetLen)).0 == r.subnetMax;
  }

  /** A window with both bounds defaulted holds every subnet of a block of the network's size but one. */
  lemma DefaultSlots(s: Settings, r: Settings)
    requires Judges(s, r) && s.subnetMin.None? && s.subnetMax.None?
    ensures r.subnetMin.Some? && r.subnetMax.Some? && s.network.value.prefix + 2 <= r.subnetLen <= 30
    ensures SlotCount(r.subnetMin.value, r.subnetMax.value, Size(r.subnetLen))
            == Pow2(r.subnetLen - s.network.value.prefix) - 1 >= 3
  {
    DefaultBounds(s, r);
    DefaultSlotCount(s.network.value, r.subnetLen);
  }

  /** 255.0.0.0/8 with nothing else set overflows; with the upper bound given it does not. */
  lemma LastNetworkOverflows()
    ensures var s := Settings(true, false, Some(Net(0xFF00_0000, 8)), 0, None, None);
            && Judged(s).1.Overflows?
            && Judged(s.(subnetMax := Some(0xFF00_0100))).1.Accepted?
  {
    var s := Settings(true, false, Some(Net(0xFF00_0000, 8)), 0, None, None);
    assert Pow2(8) == 256;
    assert Pow2(16) == 256 * Pow2(8);
    assert Pow2(24) == 256 * Pow2(16);
    assert Size(24) == 256 && Size(8) == 0x100_0000;
    OverflowsIff(s);
    AcceptedIff(s.(subnetMax := Some(0xFF00_0100)));
    assert Aligned(0xFF_0000, 16) by { AlignedTimes256(0xFF00, 8); AlignedTimes256(0xFF, 0); }
    AlignedTimes256(0xFF_0000, 16);
    AlignedFiner(0xFF00_0000, 8, 24);
    AlignedTimes256(0xFF_0001, 0);
    ClearsTo(0xFF00_0000, 0xFF00_0100, 24);
  }

  lemma SizeRatio(coarse: Prefix, fine: Prefix)
    requires coarse <= fine
    ensures Size(coarse) == Pow2(fine - coarse) * Size(fine)
  {
    Pow2Sum(fine - coarse, 32 - fine);
  }

  lemma DefaultSlotCount(net: Net, len: Prefix)
    requires net.prefix + 2 <= len
    ensures net.ip + Size(net.prefix) >= Size(len)
    ensures SlotCount(net.ip + Size(len), net.ip + Size(net.prefix) - Size(len), Size(len))
            == Pow2(len - net.prefix) - 1 >= 3
  {
    var k, z := Pow2(len - net.prefix), Size(len);
    SizeRatio(net.prefix, len);
    assert k >= 4 by {
      assert Pow2(2) == 4;
      Pow2Le(2, len - net.prefix);
    }
    MulLe(k - 2, k - 1, z);
    MulLe(k - 1, k, z);
    SlotCountOf(net.ip + z, z, k - 2);
  }

  /** With both bounds given, acceptance is exactly: a fitting length, and aligned bounds in the network. */
  lemma ExplicitBounds(s: Settings, net: Net, lo: Addr, hi: Addr)
    requires s.enableIpv4 && !s.enableIpv6
    requires s.network == Some(net) && s.subnetMin == Some(lo) && s.subnetMax == Some(hi)
    ensures var (len, verdict) := ChooseLength(s.subnetLen, net.prefix);
            Judged(s).1.Accepted? <==>
              && verdict.Accepted?
              && Contains(net, lo) && Contains(net, hi)
              && Floor(lo, len) == lo && Floor(hi, len) == hi
    ensures Judged(s).1.Accepted? ==> Judged(s).0 == s.(subnetLen := ChooseLength(s.subnetLen, net.prefix).0)
  {}

  /** Validating an accepted configuration again leaves it as it is exactly when its bounds are in the network. */
  lemma RecheckIff(s: Settings, r: Settings)
    requires Judges(s, r)
    ensures Judged(r) == (r, Accepted) <==>
              Contains(r.network.value, r.subnetMin.value) && Contains(r.network.value, r.subnetMax.value)
  {
    AcceptedWindow(s, r);
  }

  lemma CanonicalRecheck(s: Settings, r: Settings)
    requires Judges(s, r) && Canonical(s.network.value)
    ensures Judged(r) == (r, Accepted)
  {
    CanonicalWindow(s, r);
    RecheckIff(s, r);
    InsideByFirst(r.network.value, r.subnetMin.value, r.subnetLen);
    InsideByFirst(r.network.value, r.subnetMax.value, r.subnetLen);
  }

  /** 10.0.5.0/8 with nothing else set is accepted with an upper bound, 11.0.4.0, outside the network. */
  lemma NonCanonicalEscapes()
    ensures var s := Settings(true, false, Some(Net(0x0A00_0500, 8)), 0, None, None);
            var r := s.(subnetLen := 24, subnetMin := Some(0x0A00_0600), subnetMax := Some(0x0B00_0400));
            Judged(s) == (r, Accepted) && !Contains(Net(0x0A00_0500, 8), 0x0B00_0400)
  {
    assert Pow2(8) == 256;
    assert Pow2(16) == 256 * Pow2(8);
    assert Pow2(24) == 256 * Pow2(16);
    assert Size(24) == 256 && Size(8) == 0x100_0000;
    assert Aligned(0x0A00_0600, 8) && Aligned(0x0B00_0400, 8);
    assert Aligned(0x0A00, 8) && Aligned(0x0A_0000, 16) by { AlignedTimes256(0x0A00, 8); }
    AlignedTimes256(0x0A_0000, 16);
    ClearsTo(0x0A00_0000, 0x0A00_0500, 24);
    ClearsTo(0x0A00_0000, 0x0B00_0400, 24);
  }
}
