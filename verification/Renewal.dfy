/** The renewal loop: a timer set a margin before expiration, retried every three seconds on failure.

Times are in seconds. Calls take no time, so a wake-up happens at the moment the timer is due. */
module Renewal {
  import opened Options

  const SUBNET_TTL: nat := 24 * 60 * 60
  const RETRY_DELAY: nat := 3

  /** Waiting for `due` with a lease until `expiration`; `failures` counts the failed renewals since the timer
      was last computed from the expiration. The other three are the ways the loop ends. */
  datatype Loop =
    | Waiting(now: nat, expiration: nat, due: nat, failures: nat)
    | Expired
    | Underflow
    | LeaseDeleted

  /** What happens to the loop: the timer fires, or the watch on the own subnet delivers an event. */
  datatype Stimulus = Wake(renewed: bool) | PutSeen(at: nat, expiration: nat) | DeleteSeen(at: nat)

  /** Setting the timer at `now`: an expired lease is an error, less than the margin left underflows. */
  function SetTimer(now: nat, expiration: nat, margin: nat): Loop {
    if expiration < now then Expired
    else if expiration - now < margin then Underflow
    else Waiting(now, expiration, now + (expiration - now - margin), 0)
  }

  function Next(s: Loop, e: Stimulus, margin: nat): Loop {
    if !s.Waiting? then s
    else match e
      case Wake(true) => SetTimer(s.due, s.due + SUBNET_TTL, margin)
      case Wake(false) => Waiting(s.due, s.expiration, s.due + RETRY_DELAY, s.failures + 1)
      case PutSeen(at, expiration) => SetTimer(at, expiration, margin)
      case DeleteSeen(at) => LeaseDeleted
  }

  function Run(s: Loop, es: seq<Stimulus>, margin: nat): Loop {
    if es == [] then s else Next(Run(s, es[..|es| - 1], margin), es[|es| - 1], margin)
  }

  /** The loop on a lease valid until `expiration`, with a margin of `minutes`. */
  function Renewing(now: nat, expiration: nat, minutes: nat, es: seq<Stimulus>): Loop {
    Run(SetTimer(now, expiration, 60 * minutes), es, 60 * minutes)
  }

  method RenewLeaseIfNeeded(now: nat, expiration: nat, minutes: nat, es: seq<Stimulus>) returns (s: Loop)
    ensures s == Renewing(now, expiration, minutes, es)
  {
    var margin := 60 * minutes;
    var clock: nat, lease: nat, failures: nat := now, expiration, 0;
    ghost var start := SetTimer(now, expiration, margin);
    EndedStays(start, es, 0, margin);
    if lease < clock { return Expired; }
    if lease - clock < margin { return Underflow; }
    var dur: nat := lease - clock - margin;
    for i := 0 to |es|
      invariant Run(start, es[..i], margin) == Waiting(clock, lease, clock + dur, failures)
    {
      assert es[..i + 1][..i] == es[..i];
      EndedStays(start, es, i + 1, margin);
      match es[i] {
        case Wake(renewed) =>
          clock := clock + dur;
          if !renewed {
            dur, failures := RETRY_DELAY, failures + 1;
            continue;
          }
          lease := clock + SUBNET_TTL;
        case PutSeen(at, until) =>
          clock, lease := at, until;
        case DeleteSeen(_) =>
          return LeaseDeleted;
      }
      if lease < clock { return Expired; }
      if lease - clock < margin { return Underflow; }
      dur, failures := lease - clock - margin, 0;
    }
    assert es[..|es|] == es;
    s := Waiting(clock, lease, clock + dur, failures);
  }

  lemma {:induction false} EndedStays(s: Loop, es: seq<Stimulus>, i: nat, margin: nat)
    requires i <= |es|
    ensures !Run(s, es[..i], margin).Waiting? ==> Run(s, es, margin) == Run(s, es[..i], margin)
    decreases |es|
  {
    if i == |es| {
      assert es[..i] == es;
    } else {
      var n := |es| - 1;
      assert es[..n][..i] == es[..i];
      EndedStays(s, es[..n], i, margin);
    }
  }

  // How a loop ends --------------------------------------------------------------------------------

  /** How a stimulus ends a waiting loop, if it does: a deletion, a lease seen that has run out or leaves less than
      the margin, or a renewal for 24 hours under a margin of more. */
  function Ending(e: Stimulus, minutes: nat): Option<Loop> {
    match e
    case DeleteSeen(_) => Some(LeaseDeleted)
    case PutSeen(at, until) =>
      if until < at then Some(Expired) else if until < at + 60 * minutes then Some(Underflow) else None
    case Wake(renewed) => if renewed && minutes > 24 * 60 then Some(Underflow) else None
  }

  /** Stimulus `i` is the first that ends a loop. */
  predicate EndsFirst(es: seq<Stimulus>, i: int, minutes: nat) {
    0 <= i < |es| && Ending(es[i], minutes).Some? && forall j :: 0 <= j < i ==> Ending(es[j], minutes).None?
  }

  /** A loop that begins waiting waits on exactly until the first stimulus that ends one, and ends as that does. */
  lemma {:induction false} EndsAtFirst(now: nat, expiration: nat, minutes: nat, es: seq<Stimulus>)
    requires now + 60 * minutes <= expiration
    ensures var s := Renewing(now, expiration, minutes, es);
            && (s.Waiting? <==> !exists i :: EndsFirst(es, i, minutes))
            && forall i :: EndsFirst(es, i, minutes) ==> Some(s) == Ending(es[i], minutes)
  {
    if es != [] {
      var n := |es| - 1;
      EndsAtFirst(now, expiration, minutes, es[..n]);
      var s := Renewing(now, expiration, minutes, es[..n]);
      assert forall i :: 0 <= i < n ==> es[..n][i] == es[i];
      assert forall i :: 0 <= i < n ==> (EndsFirst(es[..n], i, minutes) <==> EndsFirst(es, i, minutes));
      if s.Waiting? {
        NoneEnds(es[..n], minutes);
        assert Ending(es[n], minutes).Some? ==> EndsFirst(es, n, minutes);
      } else {
        var i :| EndsFirst(es[..n], i, minutes);
        assert EndsFirst(es, i, minutes);
      }
    }
  }

  lemma {:induction false} NoneEnds(es: seq<Stimulus>, minutes: nat)
    requires !exists i :: EndsFirst(es, i, minutes)
    ensures forall i :: 0 <= i < |es| ==> Ending(es[i], minutes).None?
  {
    for i := 0 to |es|
      invariant forall j :: 0 <= j < i ==> Ending(es[j], minutes).None?
    {
      assert !EndsFirst(es, i, minutes);
    }
  }

  /** One that does not begin waiting has ended for good: on a lease that ran out, or one without the margin left. */
  lemma {:induction false} NeverBegun(now: nat, expiration: nat, minutes: nat, es: seq<Stimulus>)
    requires expiration < now + 60 * minutes
    ensures Renewing(now, expiration, minutes, es) == if expiration < now then Expired else Underflow
  {
    if es != [] { NeverBegun(now, expiration, minutes, es[..|es| - 1]); }
  }

  /** What each stimulus leaves a loop that goes on waiting for: a renewal 24 hours, a failure three more seconds,
      a lease seen its expiration; the timer is due the margin before it. */
  lemma GoesOn(now: nat, expiration: nat, minutes: nat, es: seq<Stimulus>, e: Stimulus)
    requires Renewing(now, expiration, minutes, es).Waiting? && Ending(e, minutes).None?
    ensures var s, t := Renewing(now, expiration, minutes, es), Renewing(now, expiration, minutes, es + [e]);
            && t.Waiting?
            && match e
               case Wake(true) =>
                 && t.now == s.due && t.expiration == s.due + 86400
                 && t.due + 60 * minutes == t.expiration && t.failures == 0
               case Wake(false) =>
                 && t.now == s.due && t.expiration == s.expiration
                 && t.due == s.due + 3 && t.failures == s.failures + 1
               case PutSeen(at, until) =>
                 t.now == at && t.expiration == until && t.due + 60 * minutes == until && t.failures == 0
               case DeleteSeen(_) => false
  {
    assert (es + [e])[..|es|] == es;
  }

  /** One stimulus of a well-behaved run: fewer than 20 failures per margin minute in a row, and events that
      arrive while the loop waits and leave at least the margin. */
  predicate Behaved(s: Loop, e: Stimulus, minutes: nat) {
    s.Waiting? ==>
      match e
      case Wake(renewed) => !renewed ==> s.failures + 1 < 20 * minutes
      case PutSeen(at, expiration) => s.now <= at <= s.due && at + 60 * minutes <= expiration
      case DeleteSeen(at) => s.now <= at <= s.due
  }

  predicate WellBehaved(now: nat, expiration: nat, minutes: nat, es: seq<Stimulus>) {
    forall i :: 0 <= i < |es| ==> Behaved(Renewing(now, expiration, minutes, es[..i]), es[i], minutes)
  }

  /** In every well-behaved run the next wake-up comes at least a retry's delay before expiration, so the lease
      outlives every instant the loop waits through, and the timer never underflows: the loop ends only when
      the lease is deleted. */
  lemma {:induction false} NeverExpires(now: nat, expiration: nat, minutes: nat, es: seq<Stimulus>)
    requires 1 <= minutes <= 1440
    requires now + 60 * minutes <= expiration && WellBehaved(now, expiration, minutes, es)
    ensures var s := Renewing(now, expiration, minutes, es);
            if s.Waiting?
            then s.now <= s.due && s.due + RETRY_DELAY <= s.expiration
                 && s.due == s.expiration - 60 * minutes + RETRY_DELAY * s.failures
            else s.LeaseDeleted?
  {
    if es != [] {
      var n := |es| - 1;
      assert WellBehaved(now, expiration, minutes, es[..n]) by {
        forall i | 0 <= i < n ensures Behaved(Renewing(now, expiration, minutes, es[..n][..i]), es[..n][i], minutes) {
          assert es[..n][..i] == es[..i];
        }
      }
      NeverExpires(now, expiration, minutes, es[..n]);
      assert Behaved(Renewing(now, expiration, minutes, es[..n]), es[n], minutes);
    }
  }

  /** A well-behaved loop ends exactly when a deletion is seen. */
  lemma DeletedIff(now: nat, expiration: nat, minutes: nat, es: seq<Stimulus>)
    requires 1 <= minutes <= 1440
    requires now + 60 * minutes <= expiration && WellBehaved(now, expiration, minutes, es)
    ensures Renewing(now, expiration, minutes, es).LeaseDeleted? <==> exists i :: 0 <= i < |es| && es[i].DeleteSeen?
  {
    NeverExpires(now, expiration, minutes, es);
    EndsAtFirst(now, expiration, minutes, es);
    if Renewing(now, expiration, minutes, es).LeaseDeleted? {
      var i :| EndsFirst(es, i, minutes);
      BehavedEnds(now, expiration, minutes, es, i);
    } else {
      NoneEnds(es, minutes);
      assert forall i :: 0 <= i < |es| ==> Ending(es[i], minutes).None?;
    }
  }

  /** The first stimulus to end a well-behaved loop is a deletion. */
  lemma BehavedEnds(now: nat, expiration: nat, minutes: nat, es: seq<Stimulus>, i: nat)
    requires 1 <= minutes <= 1440
    requires now + 60 * minutes <= expiration && WellBehaved(now, expiration, minutes, es)
    requires EndsFirst(es, i, minutes)
    ensures es[i].DeleteSeen?
  {
    EndsAtFirst(now, expiration, minutes, es[..i]);
    assert Behaved(Renewing(now, expiration, minutes, es[..i]), es[i], minutes);
  }

  function Failures(k: nat): seq<Stimulus> {
    seq(k, _ => Wake(false))
  }

  /** The bound is exact: k failures in a row leave the next attempt before expiration just when k < 20m. */
  lemma {:induction false} StreakExact(now: nat, expiration: nat, minutes: nat, k: nat)
    requires now + 60 * minutes <= expiration
    ensures var s := Renewing(now, expiration, minutes, Failures(k));
            && s.Waiting? && s.expiration == expiration && s.due == expiration - 60 * minutes + RETRY_DELAY * k
            && (s.due < expiration <==> k < 20 * minutes)
  {
    if k > 0 {
      assert Failures(k)[..k - 1] == Failures(k - 1);
      StreakExact(now, expiration, minutes, k - 1);
    }
  }

  /** A renewal survives setting its timer exactly when the margin is at most the 24 hours granted. */
  lemma MarginExact(s: Loop, minutes: nat)
    requires s.Waiting?
    ensures Next(s, Wake(true), 60 * minutes).Waiting? <==> minutes <= 1440
    ensures Next(s, Wake(true), 60 * minutes).Underflow? <==> minutes > 1440
  {}

  /** The bound on the margin is exact: no well-behaved run underflows just when the margin is at most 24 hours. */
  lemma MarginBound(now: nat, expiration: nat, minutes: nat)
    requires 1 <= minutes && now + 60 * minutes <= expiration
    ensures (forall es :: WellBehaved(now, expiration, minutes, es) ==>
               !Renewing(now, expiration, minutes, es).Underflow?) <==> minutes <= 1440
  {
    if minutes <= 1440 {
      forall es | WellBehaved(now, expiration, minutes, es) ensures !Renewing(now, expiration, minutes, es).Underflow? {
        NeverExpires(now, expiration, minutes, es);
      }
    } else {
      var start, renewal := SetTimer(now, expiration, 60 * minutes), [Wake(true)];
      assert renewal[..0] == [];
      assert WellBehaved(now, expiration, minutes, renewal);
      MarginExact(start, minutes);
      assert Renewing(now, expiration, minutes, renewal) == Next(start, Wake(true), 60 * minutes);
    }
  }

  /** A loop begins waiting exactly when at least the margin is left; with less it underflows at once. */
  lemma StartExact(now: nat, expiration: nat, minutes: nat)
    ensures Renewing(now, expiration, minutes, []).Waiting? <==> now + 60 * minutes <= expiration
    ensures Renewing(now, expiration, minutes, []).Underflow? <==> now <= expiration < now + 60 * minutes
  {}
}
