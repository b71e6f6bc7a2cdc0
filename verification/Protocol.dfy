/** Lease acquisition as a protocol: any number of nodes racing leases into one registry.

The registry is an atomic keyed store with a history. A key holds the public IP written under it and lives
until the etcd lease it was put with runs out. Each node is known by its public IP and runs the client side:
read a snapshot, allocate and create, or reuse the lease found, then renew it, follow the watch on it, or crash.
Reading the snapshot, obtaining an etcd lease and writing are separate steps, so everything may be stale. */
module Protocol {
  import opened Cidr
  import opened Allocator
  import opened MapLog
  import opened Options

  /** `ttl` is the lifetime granted; `slack` bounds how far a client's own reading of an expiration may lie
      beyond the store's, which is the time from the grant to the client's look at the clock. */
  datatype Params = Params(window: Window, ttl: nat, slack: nat)

  /** A live key: who wrote it, when its etcd lease runs out, and which put wrote it. */
  datatype Entry = Entry(owner: Addr, expiry: nat, revision: nat)

  type Store = map<Net, Entry>

  type History = seq<Op<Net, Entry>>

  /** A lease as a client reads it in a snapshot. */
  datatype Seen = Seen(net: Net, owner: Addr, expiration: nat)

  datatype Node =
    | Idle
    | Ready(seen: seq<Seen>)
    | Holding(net: Net, publicIp: Addr, expiration: nat)

  datatype State = State(now: nat, store: Store, log: History, nodes: map<Addr, Node>, grants: map<Addr, nat>)

  datatype Step =
    | Tick(seconds: nat)
    | Expire(net: Net)
    | Snapshot(node: Addr, seen: seq<Seen>)
    | Grant(node: Addr)
    | Create(node: Addr, net: Net, recorded: nat)
    | Reuse(node: Addr)
    | Renew(node: Addr, recorded: nat)
    | Adopt(node: Addr, index: nat, expiration: nat)
    | Crash(node: Addr)

  function NodeOf(st: State, n: Addr): Node {
    if n in st.nodes then st.nodes[n] else Idle
  }

  function FindOwn(n: Addr, seen: seq<Seen>): (r: Option<Seen>)
    ensures r.Some? ==> r.value in seen && r.value.owner == n
    ensures r.None? ==> forall s :: s in seen ==> s.owner != n
  {
    if seen == [] then None else if seen[0].owner == n then Some(seen[0]) else FindOwn(n, seen[1..])
  }

  /** The lease to reuse: the first one under the own public IP, provided it fits the window. */
  function OwnLease(w: Window, n: Addr, seen: seq<Seen>): (r: Option<Seen>)
    ensures r.Some? ==> r.value in seen && r.value.owner == n
  {
    match FindOwn(n, seen)
    case Some(s) => if w.min <= s.net.ip <= w.max && s.net.prefix == w.len then Some(s) else None
    case None => None
  }

  /** Entry `i` is the first lease under the own address, of the window's length and between its bounds. */
  predicate Reusable(w: Window, n: Addr, seen: seq<Seen>, i: int) {
    && 0 <= i < |seen| && seen[i].owner == n && (forall j :: 0 <= j < i ==> seen[j].owner != n)
    && seen[i].net.prefix == w.len && w.min <= seen[i].net.ip && seen[i].net.ip <= w.max
  }

  lemma {:induction false} FirstOwn(n: Addr, seen: seq<Seen>) returns (i: nat)
    requires FindOwn(n, seen).Some?
    ensures i < |seen| && seen[i] == FindOwn(n, seen).value && forall j :: 0 <= j < i ==> seen[j].owner != n
  {
    if seen[0].owner == n {
      i := 0;
    } else {
      i := FirstOwn(n, seen[1..]);
      i := i + 1;
      assert forall j :: 0 < j < i ==> seen[j] == seen[1..][j - 1];
    }
  }

  /** A lease is reused exactly when the first one under the own address fits the window. */
  lemma OwnLeaseIff(w: Window, n: Addr, seen: seq<Seen>)
    ensures OwnLease(w, n, seen).Some? <==> exists i :: Reusable(w, n, seen, i)
    ensures forall i :: Reusable(w, n, seen, i) ==> OwnLease(w, n, seen) == Some(seen[i])
  {
    if FindOwn(n, seen).Some? {
      var first := FirstOwn(n, seen);
      assert OwnLease(w, n, seen).Some? ==> Reusable(w, n, seen, first);
      forall i | Reusable(w, n, seen, i) ensures i == first {
        assert seen[first].owner == n;
      }
    }
  }

  function NetsOf(seen: seq<Seen>): seq<Net> {
    seq(|seen|, i requires 0 <= i < |seen| => seen[i].net)
  }

  /** A snapshot names live keys with their owners; it may leave keys out. */
  predicate SeenIn(store: Store, seen: seq<Seen>) {
    forall i :: 0 <= i < |seen| ==> seen[i].net in store && seen[i].owner == store[seen[i].net].owner
  }

  /** The node has an etcd lease at hand that has not run out. */
  predicate Granted(p: Params, st: State, n: Addr) {
    n in st.grants && st.now < st.grants[n] + p.ttl
  }

  predicate Enabled(p: Params, st: State, step: Step) {
    match step
    case Tick(_) => true
    case Expire(net) => net in st.store && st.store[net].expiry <= st.now
    case Snapshot(n, seen) => NodeOf(st, n).Idle? && SeenIn(st.store, seen)
    case Grant(n) => !NodeOf(st, n).Idle?
    case Create(n, net, recorded) =>
      && NodeOf(st, n).Ready? && Granted(p, st, n) && st.now <= recorded
      && OwnLease(p.window, n, NodeOf(st, n).seen).None?
      && net.prefix == p.window.len && net.ip in Candidates(p.window, NetsOf(NodeOf(st, n).seen))
    case Reuse(n) =>
      && NodeOf(st, n).Ready? && Granted(p, st, n)
      && OwnLease(p.window, n, NodeOf(st, n).seen).Some?
    case Renew(n, recorded) => NodeOf(st, n).Holding? && Granted(p, st, n) && st.now <= recorded
    case Adopt(n, i, expiration) =>
      && NodeOf(st, n).Holding? && i < |st.log| && st.log[i].Put? && st.log[i].key == NodeOf(st, n).net
      && st.now <= expiration
    case Crash(_) => true
  }

  function Become(st: State, n: Addr, node: Node): State {
    st.(nodes := st.nodes[n := node])
  }

  /** A put under the etcd lease the node was last granted, which it uses up. */
  function Written(p: Params, st: State, n: Addr, net: Net, owner: Addr): State
    requires n in st.grants
  {
    var entry := Entry(owner, st.grants[n] + p.ttl, |st.log|);
    st.(store := st.store[net := entry], log := st.log + [Put(net, entry)], grants := st.grants - {n})
  }

  function After(p: Params, st: State, step: Step): State
    requires Enabled(p, st, step)
  {
    match step
    case Tick(d) => st.(now := st.now + d)
    case Expire(net) => st.(store := st.store - {net}, log := st.log + [Del(net)])
    case Snapshot(n, seen) => Become(st, n, Ready(seen))
    case Grant(n) => st.(grants := st.grants[n := st.now])
    case Create(n, net, recorded) =>
      if net in st.store then Become(st.(grants := st.grants - {n}), n, Idle)
      else Become(Written(p, st, n, net, n), n, Holding(net, n, recorded + p.ttl))
    case Reuse(n) =>
      var s := OwnLease(p.window, n, NodeOf(st, n).seen).value;
      Become(Written(p, st, n, s.net, n), n, Holding(s.net, s.owner, s.expiration))
    case Renew(n, recorded) =>
      var h := NodeOf(st, n);
      Become(Written(p, st, n, h.net, h.publicIp), n, h.(expiration := recorded + p.ttl))
    case Adopt(n, i, expiration) =>
      Become(st, n, Holding(NodeOf(st, n).net, st.log[i].value.owner, expiration))
    case Crash(n) => Become(st.(grants := st.grants - {n}), n, Idle)
  }

  predicate Runs(p: Params, st: State, steps: seq<Step>)
    decreases |steps|, 0
  {
    steps == [] ||
    (Runs(p, st, steps[..|steps| - 1]) && Enabled(p, Final(p, st, steps[..|steps| - 1]), steps[|steps| - 1]))
  }

  /** The state a run ends in. */
  function Final(p: Params, st: State, steps: seq<Step>): State
    requires Runs(p, st, steps)
    decreases |steps|, 1
  {
    if steps == [] then st else After(p, Final(p, st, steps[..|steps| - 1]), steps[|steps| - 1])
  }

  /** What a step leaves its own node doing; all others go on as they were. */
  lemma NodesAfter(p: Params, st: State, step: Step, n: Addr)
    requires Enabled(p, st, step)
    ensures var was, now := NodeOf(st, n), NodeOf(After(p, st, step), n);
            match step
            case Snapshot(m, seen) => now == if m == n then Ready(seen) else was
            case Create(m, net, recorded) =>
              now == if m != n then was else if net in st.store then Idle else Holding(net, n, recorded + p.ttl)
            case Reuse(m) =>
              m != n ==> now == was
            case Renew(m, recorded) => now == if m == n then Holding(was.net, was.publicIp, recorded + p.ttl) else was
            case Adopt(m, i, expiration) =>
              now == if m == n then Holding(was.net, st.log[i].value.owner, expiration) else was
            case Crash(m) => now == if m == n then Idle else was
            case _ => now == was
    ensures step == Reuse(n) ==>
              exists i :: Reusable(p.window, n, NodeOf(st, n).seen, i)
                          && var s := NodeOf(st, n).seen[i];
                             NodeOf(After(p, st, step), n) == Holding(s.net, n, s.expiration)
  {
    if step == Reuse(n) { OwnLeaseIff(p.window, n, NodeOf(st, n).seen); }
  }

  /** An etcd lease is gained by a grant, and used up by a write, revoked after a lost race, or lost in a crash. */
  lemma GrantsAfter(p: Params, st: State, step: Step, n: Addr)
    requires Enabled(p, st, step)
    ensures var granted := After(p, st, step).grants;
            match step
            case Grant(m) => granted == st.grants[m := st.now]
            case Create(m, _, _) => granted == st.grants - {m}
            case Reuse(m) => granted == st.grants - {m}
            case Renew(m, _) => granted == st.grants - {m}
            case Crash(m) => granted == st.grants - {m}
            case _ => granted == st.grants
    ensures After(p, st, step).now == if step.Tick? then st.now + step.seconds else st.now
  {}

  /** Whether a node may create, reuse or renew does not depend on what the registry holds: a create finds out only
      when it is made, and nothing is compared before the other two. */
  lemma WritesUnchecked(p: Params, st: State, other: State, step: Step)
    requires other == st.(store := other.store, log := other.log)
    requires step.Create? || step.Reuse? || step.Renew?
    ensures Enabled(p, st, step) <==> Enabled(p, other, step)
  {}

  lemma RunOne(p: Params, st: State, step: Step)
    requires Enabled(p, st, step)
    ensures Runs(p, st, [step]) && Final(p, st, [step]) == After(p, st, step)
  {
    assert [step][..|[step]| - 1] == [];
    assert Runs(p, st, []) && Final(p, st, []) == st;
  }

  lemma RunMore(p: Params, st: State, steps: seq<Step>, step: Step)
    requires Runs(p, st, steps) && Enabled(p, Final(p, st, steps), step)
    ensures Runs(p, st, steps + [step]) && Final(p, st, steps + [step]) == After(p, Final(p, st, steps), step)
  {
    assert (steps + [step])[..|steps|] == steps;
  }

  // The registry stays disjoint, whatever the timing ---------------------------------------------

  predicate NodeInWindow(w: Window, node: Node) {
    match node
    case Idle => true
    case Ready(seen) => forall i :: 0 <= i < |seen| ==> w.IsSlot(seen[i].net)
    case Holding(net, _, _) => w.IsSlot(net)
  }

  /** The store is what its history says; the history wrote only slots of the window and numbers its puts. */
  ghost predicate HistoryOk(p: Params, st: State) {
    && st.store == Fold(map[], st.log)
    && (forall i :: 0 <= i < |st.log| ==>
          p.window.IsSlot(st.log[i].key) && (st.log[i].Put? ==> st.log[i].value.revision == i))
    && (forall net :: net in st.store ==> p.window.IsSlot(net))
  }

  /** Only slots of the window were ever written, read or held. */
  ghost predicate WellFormed(p: Params, st: State) {
    && p.window.Valid()
    && HistoryOk(p, st)
    && (forall n: Addr :: NodeInWindow(p.window, NodeOf(st, n)))
  }

  lemma LogGrows(log: History, op: Op<Net, Entry>)
    ensures Fold(map[], log + [op]) == Apply(Fold(map[], log), op)
  {
    assert (log + [op])[..|log|] == log;
  }

  lemma NodesStayInWindow(p: Params, st: State, step: Step, n: Addr)
    requires WellFormed(p, st) && Enabled(p, st, step)
    ensures NodeInWindow(p.window, NodeOf(After(p, st, step), n))
  {
    assert NodeInWindow(p.window, NodeOf(st, n));
    if step.Create? { CandidateFree(p.window, NetsOf(NodeOf(st, step.node).seen), step.net.ip); }
  }

  /** The write a step makes to the registry. */
  function WriteOf(p: Params, st: State, step: Step): Option<Op<Net, Entry>>
    requires Enabled(p, st, step)
  {
    match step
    case Expire(net) => Some(Del(net))
    case Create(n, net, _) =>
      if net in st.store then None else Some(Put(net, Entry(n, st.grants[n] + p.ttl, |st.log|)))
    case Reuse(n) =>
      Some(Put(OwnLease(p.window, n, NodeOf(st, n).seen).value.net, Entry(n, st.grants[n] + p.ttl, |st.log|)))
    case Renew(n, _) =>
      Some(Put(NodeOf(st, n).net, Entry(NodeOf(st, n).publicIp, st.grants[n] + p.ttl, |st.log|)))
    case _ => None
  }

  lemma WritesLogged(p: Params, st: State, step: Step)
    requires Enabled(p, st, step)
    ensures var next, w := After(p, st, step), WriteOf(p, st, step);
            if w.Some? then next.log == st.log + [w.value] && next.store == Apply(st.store, w.value)
            else next.log == st.log && next.store == st.store
  {}

  lemma WritesSlots(p: Params, st: State, step: Step)
    requires WellFormed(p, st) && Enabled(p, st, step) && WriteOf(p, st, step).Some?
    ensures var w := WriteOf(p, st, step).value;
            p.window.IsSlot(w.key) && (w.Put? ==> w.value.revision == |st.log|)
  {
    match step {
      case Create(n, net, _) => CandidateFree(p.window, NetsOf(NodeOf(st, n).seen), net.ip);
      case Reuse(n) => assert NodeInWindow(p.window, NodeOf(st, n));
      case Renew(n, _) => assert NodeInWindow(p.window, NodeOf(st, n));
      case _ =>
    }
  }

  lemma HistoryStays(p: Params, st: State, step: Step)
    requires WellFormed(p, st) && Enabled(p, st, step)
    ensures HistoryOk(p, After(p, st, step))
  {
    var w := WriteOf(p, st, step);
    WritesLogged(p, st, step);
    if w.Some? {
      LogGrows(st.log, w.value);
      WritesSlots(p, st, step);
    }
  }

  lemma StepWellFormed(p: Params, st: State, step: Step)
    requires WellFormed(p, st) && Enabled(p, st, step)
    ensures WellFormed(p, After(p, st, step))
  {
    HistoryStays(p, st, step);
    forall n: Addr ensures NodeInWindow(p.window, NodeOf(After(p, st, step), n)) {
      NodesStayInWindow(p, st, step, n);
    }
  }

  /** A registry at rest: no node has started, and its history wrote only slots of the window. */
  ghost predicate Resting(p: Params, st: State) {
    WellFormed(p, st) && st.nodes == map[] && st.grants == map[]
  }

  lemma {:induction false} RunWellFormed(p: Params, st: State, steps: seq<Step>)
    requires WellFormed(p, st) && Runs(p, st, steps)
    ensures WellFormed(p, Final(p, st, steps))
  {
    if steps != [] {
      RunWellFormed(p, st, steps[..|steps| - 1]);
      StepWellFormed(p, Final(p, st, steps[..|steps| - 1]), steps[|steps| - 1]);
    }
  }

  /** In every run from a registry at rest, with snapshots however stale or incomplete and writes however
      late, live keys are slots of the window and no two of them share an address. */
  lemma RegistryDisjoint(p: Params, st: State, steps: seq<Step>, a: Net, b: Net)
    requires Resting(p, st) && Runs(p, st, steps)
    requires a in Final(p, st, steps).store && b in Final(p, st, steps).store
    ensures p.window.IsSlot(a) && p.window.IsSlot(b)
    ensures a != b ==> !Share(a, b)
  {
    RunWellFormed(p, st, steps);
    EqualLengthBlocks(a, b);
  }

  // Rules a run may keep ---------------------------------------------------------------------------

  /** Clients read expirations no more than `slack` beyond the store's. */
  predicate Honest(p: Params, st: State, step: Step)
    requires Enabled(p, st, step)
  {
    match step
    case Snapshot(n, seen) =>
      forall i :: 0 <= i < |seen| ==> seen[i].expiration <= st.store[seen[i].net].expiry + p.slack
    case Create(n, _, recorded) => recorded <= st.grants[n] + p.slack
    case Renew(n, recorded) => recorded <= st.grants[n] + p.slack
    case Adopt(n, i, expiration) => expiration <= st.log[i].value.expiry + p.slack
    case _ => true
  }

  /** The key is absent, has run out, or is the writer's. */
  predicate FreeFor(st: State, net: Net, n: Addr) {
    net in st.store ==> st.store[net].expiry <= st.now || st.store[net].owner == n
  }

  /** What a compare on the key would check before the puts the program makes without one. */
  predicate Guarded(p: Params, st: State, step: Step)
    requires Enabled(p, st, step)
  {
    match step
    case Reuse(n) => FreeFor(st, OwnLease(p.window, n, NodeOf(st, n).seen).value.net, n)
    case Renew(n, _) => FreeFor(st, NodeOf(st, n).net, n)
    case _ => true
  }

  /** A watch event a node adopts is about a write under its own address. */
  predicate AdoptsOwn(p: Params, st: State, step: Step)
    requires Enabled(p, st, step)
  {
    step.Adopt? ==> st.log[step.index].value.owner == step.node
  }

  /** Honest readings, and a node reuses, renews or adopts only while its record, and the one it adopts, is
      surely unexpired. */
  predicate Timely(p: Params, st: State, step: Step)
    requires Enabled(p, st, step)
  {
    Honest(p, st, step)
    && match step
       case Reuse(n) => st.now + p.slack < OwnLease(p.window, n, NodeOf(st, n).seen).value.expiration
       case Renew(n, _) => st.now + p.slack < NodeOf(st, n).expiration
       case Adopt(n, _, expiration) => st.now + p.slack < NodeOf(st, n).expiration && st.now + p.slack < expiration
       case _ => true
  }

  /** A node's snapshot does not leave out a live key under its own address. */
  predicate ShowsOwn(p: Params, st: State, step: Step)
    requires Enabled(p, st, step)
  {
    step.Snapshot? ==>
      forall net :: net in st.store && Owns(st, step.node, net) ==>
        exists i :: 0 <= i < |step.seen| && step.seen[i].net == net
  }

  predicate Owns(st: State, n: Addr, net: Net) {
    net in st.store && st.store[net].owner == n
  }

  /** The node holds `net` with an expiration surely ahead. */
  predicate Holds(p: Params, st: State, n: Addr, net: Net) {
    NodeOf(st, n).Holding? && NodeOf(st, n).net == net && st.now + p.slack < NodeOf(st, n).expiration
  }

  /** Writing `owner` under the key takes it from nobody who surely holds it, the writer `n` aside. */
  predicate Spares(p: Params, st: State, net: Net, n: Addr, owner: Addr) {
    net in st.store && st.store[net].owner != n && st.store[net].owner != owner ==>
      !Holds(p, st, st.store[net].owner, net)
  }

  /** No sure holder loses its key, and nobody comes to hold surely what is not its own. */
  predicate Harmless(p: Params, st: State, step: Step)
    requires Enabled(p, st, step)
  {
    match step
    case Expire(net) => !Holds(p, st, st.store[net].owner, net)
    case Reuse(n) => Spares(p, st, OwnLease(p.window, n, NodeOf(st, n).seen).value.net, n, n)
    case Renew(n, recorded) =>
      var h := NodeOf(st, n);
      Spares(p, st, h.net, n, h.publicIp) && (h.publicIp == n || recorded + p.ttl <= st.now + p.slack)
    case Adopt(n, _, expiration) => Owns(st, n, NodeOf(st, n).net) || expiration <= st.now + p.slack
    case _ => true
  }

  /** The address written under a key has no other live one. */
  predicate SingleKey(p: Params, st: State, step: Step)
    requires Enabled(p, st, step)
  {
    match WriteOf(p, st, step)
    case Some(Put(net, entry)) => forall k :: k in st.store && Owns(st, entry.owner, k) ==> k == net
    case _ => true
  }

  datatype Rule =
    | HonestClocks
    | GuardedPuts
    | OwnAdoptions
    | TimelySteps
    | HarmlessSteps
    | OwnKeysShown
    | SingleKeys

  predicate Meets(rule: Rule, p: Params, st: State, step: Step)
    requires Enabled(p, st, step)
  {
    match rule
    case HonestClocks => Honest(p, st, step)
    case GuardedPuts => Guarded(p, st, step)
    case OwnAdoptions => AdoptsOwn(p, st, step)
    case TimelySteps => Timely(p, st, step)
    case HarmlessSteps => Harmless(p, st, step)
    case OwnKeysShown => ShowsOwn(p, st, step)
    case SingleKeys => SingleKey(p, st, step)
  }

  /** Every step of the run meets the rule. */
  predicate Throughout(rule: Rule, p: Params, st: State, steps: seq<Step>)
    requires Runs(p, st, steps)
  {
    steps == [] ||
    (Throughout(rule, p, st, steps[..|steps| - 1])
     && Meets(rule, p, Final(p, st, steps[..|steps| - 1]), steps[|steps| - 1]))
  }

  lemma ThroughoutMore(rule: Rule, p: Params, st: State, steps: seq<Step>, mid: State, step: Step)
    requires Runs(p, st, steps) && Throughout(rule, p, st, steps) && Final(p, st, steps) == mid
    requires Enabled(p, mid, step) && Meets(rule, p, mid, step)
    ensures Runs(p, st, steps + [step]) && Throughout(rule, p, st, steps + [step])
    ensures Final(p, st, steps + [step]) == After(p, mid, step)
  {
    assert (steps + [step])[..|steps|] == steps;
  }

  // What runs may keep safe ------------------------------------------------------------------------

  /** Every sure holder is its key's owner. */
  ghost predicate HoldersOwn(p: Params, st: State) {
    forall n: Addr, a :: Holds(p, st, n, a) ==> Owns(st, n, a)
  }

  ghost predicate AtMostOne(st: State, n: Addr) {
    forall a, b :: Owns(st, n, a) && Owns(st, n, b) ==> a == b
  }

  /** No address has two live keys. */
  ghost predicate OneKeyEach(st: State) {
    forall n: Addr :: AtMostOne(st, n)
  }

  /** The first and the third are what the program is for; the others are invariants that imply them. */
  datatype Safety = HoldersSafe | RecordsBacked | KeysSingle | NodesCommitted

  ghost predicate SafeIn(safety: Safety, p: Params, st: State) {
    match safety
    case HoldersSafe => HoldersOwn(p, st)
    case RecordsBacked => Exclusive(p, st)
    case KeysSingle => OneKeyEach(st)
    case NodesCommitted => Settled(p, st)
  }

  /** The state is safe at the end of the run and at every point before. */
  ghost predicate StaysSafe(safety: Safety, p: Params, st: State, steps: seq<Step>)
    requires Runs(p, st, steps)
  {
    SafeIn(safety, p, Final(p, st, steps)) && (steps == [] || StaysSafe(safety, p, st, steps[..|steps| - 1]))
  }

  // Exclusive ownership ----------------------------------------------------------------------------

  /** Sure holders that own what they hold have no address in common. */
  lemma OwnersApart(p: Params, st: State, n: Addr, a: Net)
    requires WellFormed(p, st) && HoldersOwn(p, st) && Holds(p, st, n, a)
    ensures forall m: Addr, b :: m != n && Holds(p, st, m, b) ==> !Share(a, b)
  {
    assert NodeInWindow(p.window, NodeOf(st, n));
    forall m: Addr, b | m != n && Holds(p, st, m, b) ensures !Share(a, b) {
      assert Owns(st, n, a) && Owns(st, m, b);
      EqualLengthBlocks(a, b);
    }
  }

  /** A step that does not take a held key from its owner leaves no other way to harm. */
  lemma HarmlessOwn(p: Params, st: State, step: Step, n: Addr, a: Net)
    requires HoldersOwn(p, st) && Enabled(p, st, step) && Harmless(p, st, step)
    requires Holds(p, After(p, st, step), n, a)
    ensures Owns(After(p, st, step), n, a)
  {
    if NodeOf(After(p, st, step), n) == NodeOf(st, n) { assert Holds(p, st, n, a); }
  }

  /** The node a harmful step wrongs: the holder whose key goes, or the one that comes to hold another's. */
  lemma HarmfulVictim(p: Params, st: State, step: Step) returns (n: Addr, a: Net)
    requires HoldersOwn(p, st) && Enabled(p, st, step) && !Harmless(p, st, step)
    ensures Holds(p, After(p, st, step), n, a) && !Owns(After(p, st, step), n, a)
  {
    match step {
      case Expire(net) => n, a := st.store[net].owner, net;
      case Reuse(m) =>
        a := OwnLease(p.window, m, NodeOf(st, m).seen).value.net;
        n := st.store[a].owner;
      case Renew(m, _) =>
        a := NodeOf(st, m).net;
        n := if Spares(p, st, a, m, NodeOf(st, m).publicIp) then m else st.store[a].owner;
      case Adopt(m, _, _) => n, a := m, NodeOf(st, m).net;
    }
  }

  /** From any state in which sure holders own what they hold, a step keeps it so exactly when it is harmless. */
  lemma StepHarmlessIff(p: Params, st: State, step: Step)
    requires HoldersOwn(p, st) && Enabled(p, st, step)
    ensures HoldersOwn(p, After(p, st, step)) <==> Harmless(p, st, step)
  {
    if Harmless(p, st, step) {
      forall n: Addr, a | Holds(p, After(p, st, step), n, a) ensures Owns(After(p, st, step), n, a) {
        HarmlessOwn(p, st, step, n, a);
      }
    } else {
      var n, a := HarmfulVictim(p, st, step);
    }
  }

  /** Over runs: at every point sure holders own what they hold exactly when every step is harmless. */
  lemma {:induction false} RunHarmlessIff(p: Params, st: State, steps: seq<Step>)
    requires HoldersOwn(p, st) && Runs(p, st, steps)
    ensures StaysSafe(HoldersSafe, p, st, steps) <==> Throughout(HarmlessSteps, p, st, steps)
  {
    if steps != [] {
      var before := steps[..|steps| - 1];
      RunHarmlessIff(p, st, before);
      if StaysSafe(HoldersSafe, p, st, before) {
        StepHarmlessIff(p, Final(p, st, before), steps[|steps| - 1]);
      }
    }
  }

  /** Somebody's record that `net` is `owner`'s until `expiration`: true of the store while surely unexpired. */
  predicate Backed(p: Params, st: State, net: Net, owner: Addr, expiration: nat) {
    st.now + p.slack < expiration ==>
      net in st.store && st.store[net].owner == owner && expiration <= st.store[net].expiry + p.slack
  }

  predicate NodeBacked(p: Params, st: State, n: Addr, node: Node) {
    match node
    case Idle => true
    case Ready(seen) => forall i :: 0 <= i < |seen| ==> Backed(p, st, seen[i].net, seen[i].owner, seen[i].expiration)
    case Holding(net, publicIp, expiration) => publicIp == n && Backed(p, st, net, n, expiration)
  }

  predicate LogBacked(p: Params, st: State, op: Op<Net, Entry>) {
    op.Put? ==> Backed(p, st, op.key, op.value.owner, op.value.expiry + p.slack)
  }

  /** Grants lie in the past, and no key of a node outlives what its next write will give it. */
  predicate GrantsInOrder(p: Params, st: State) {
    && (forall net :: net in st.store ==> st.store[net].expiry <= st.now + p.ttl)
    && (forall n :: n in st.grants ==> st.grants[n] <= st.now)
    && (forall n, net :: n in st.grants && net in st.store && st.store[net].owner == n ==>
          st.store[net].expiry <= st.grants[n] + p.ttl)
  }

  ghost predicate Exclusive(p: Params, st: State) {
    && WellFormed(p, st)
    && GrantsInOrder(p, st)
    && (forall i :: 0 <= i < |st.log| ==> LogBacked(p, st, st.log[i]))
    && (forall n: Addr :: NodeBacked(p, st, n, NodeOf(st, n)))
  }

  /** Keys change hands only through expiration: each one has run out, or is still its owner's with a lifetime
      no shorter. */
  predicate Progresses(st: State, next: State) {
    && st.now <= next.now
    && forall net :: net in st.store ==>
         st.store[net].expiry <= next.now ||
         (net in next.store && next.store[net].owner == st.store[net].owner
          && st.store[net].expiry <= next.store[net].expiry)
  }

  lemma BackedStays(p: Params, st: State, next: State, net: Net, owner: Addr, expiration: nat)
    requires Progresses(st, next) && Backed(p, st, net, owner, expiration)
    ensures Backed(p, next, net, owner, expiration)
  {}

  /** A guarded put prolongs a key its writer owns or takes over one that is gone. */
  lemma GuardedProgresses(p: Params, st: State, step: Step)
    requires Exclusive(p, st) && Enabled(p, st, step) && Guarded(p, st, step)
    ensures Progresses(st, After(p, st, step))
  {
    if step.Renew? { assert NodeBacked(p, st, step.node, NodeOf(st, step.node)); }
  }

  lemma GrantsStayInOrder(p: Params, st: State, step: Step)
    requires Exclusive(p, st) && Enabled(p, st, step)
    ensures GrantsInOrder(p, After(p, st, step))
  {
    if step.Renew? { assert NodeBacked(p, st, step.node, NodeOf(st, step.node)); }
  }

  /** What the acting node records afterwards is backed. */
  lemma ActorBacked(p: Params, st: State, step: Step, n: Addr)
    requires Exclusive(p, st) && Enabled(p, st, step)
    requires Honest(p, st, step) && Guarded(p, st, step) && AdoptsOwn(p, st, step)
    requires NodeOf(After(p, st, step), n) != NodeOf(st, n)
    ensures NodeBacked(p, After(p, st, step), n, NodeOf(After(p, st, step), n))
  {
    var next := After(p, st, step);
    assert NodeBacked(p, st, n, NodeOf(st, n));
    GuardedProgresses(p, st, step);
    match step {
      case Reuse(_) =>
        var s := OwnLease(p.window, n, NodeOf(st, n).seen).value;
        BackedStays(p, st, next, s.net, n, s.expiration);
      case Adopt(_, i, expiration) =>
        assert LogBacked(p, st, st.log[i]);
      case _ =>
    }
  }

  lemma NodeStaysBacked(p: Params, st: State, next: State, n: Addr)
    requires Progresses(st, next) && NodeOf(next, n) == NodeOf(st, n)
    requires NodeBacked(p, st, n, NodeOf(st, n))
    ensures NodeBacked(p, next, n, NodeOf(next, n))
  {}

  lemma LogStaysBacked(p: Params, st: State, step: Step)
    requires Exclusive(p, st) && Enabled(p, st, step) && Progresses(st, After(p, st, step))
    ensures var next := After(p, st, step);
            forall i :: 0 <= i < |next.log| ==> LogBacked(p, next, next.log[i])
  {
    var next := After(p, st, step);
    WritesLogged(p, st, step);
    forall i | 0 <= i < |next.log| ensures LogBacked(p, next, next.log[i]) {
      if i < |st.log| {
        assert LogBacked(p, st, st.log[i]);
        if st.log[i].Put? {
          BackedStays(p, st, next, st.log[i].key, st.log[i].value.owner, st.log[i].value.expiry + p.slack);
        }
      }
    }
  }

  lemma StepExclusive(p: Params, st: State, step: Step)
    requires Exclusive(p, st) && Enabled(p, st, step)
    requires Honest(p, st, step) && Guarded(p, st, step) && AdoptsOwn(p, st, step)
    ensures Exclusive(p, After(p, st, step))
  {
    var next := After(p, st, step);
    StepWellFormed(p, st, step);
    GuardedProgresses(p, st, step);
    GrantsStayInOrder(p, st, step);
    LogStaysBacked(p, st, step);
    forall n: Addr ensures NodeBacked(p, next, n, NodeOf(next, n)) {
      if NodeOf(next, n) != NodeOf(st, n) {
        ActorBacked(p, st, step, n);
      } else {
        NodeStaysBacked(p, st, next, n);
      }
    }
  }

  /** Overwriting somebody else's live key leaves its last put without backing. */
  lemma UnguardedBreaks(p: Params, st: State, step: Step)
    requires Exclusive(p, st) && Enabled(p, st, step) && !Guarded(p, st, step)
    ensures !Exclusive(p, After(p, st, step))
  {
    var next, w := After(p, st, step), WriteOf(p, st, step).value;
    WritesLogged(p, st, step);
    assert NodeBacked(p, st, step.node, NodeOf(st, step.node));
    FoldAt(map[], st.log, w.key);
    var i := LastOn(st.log, w.key);
    assert next.log[i] == st.log[i];
    assert !LogBacked(p, next, next.log[i]);
  }

  /** From an exclusive state and with honest readings a step keeps every record backed exactly when the put it
      makes without a compare goes to a key that is absent, run out or the writer's own, and the event it
      adopts is about its own write. */
  lemma StepExclusiveIff(p: Params, st: State, step: Step)
    requires Exclusive(p, st) && Enabled(p, st, step) && Honest(p, st, step)
    ensures Exclusive(p, After(p, st, step)) <==> Guarded(p, st, step) && AdoptsOwn(p, st, step)
  {
    if !Guarded(p, st, step) {
      UnguardedBreaks(p, st, step);
    } else if AdoptsOwn(p, st, step) {
      StepExclusive(p, st, step);
    } else {
      var next := After(p, st, step);
      assert !NodeBacked(p, next, step.node, NodeOf(next, step.node));
    }
  }

  /** The same over whole runs. */
  lemma {:induction false} RunExclusiveIff(p: Params, st: State, steps: seq<Step>)
    requires Exclusive(p, st) && Runs(p, st, steps) && Throughout(HonestClocks, p, st, steps)
    ensures StaysSafe(RecordsBacked, p, st, steps) <==>
              Throughout(GuardedPuts, p, st, steps) && Throughout(OwnAdoptions, p, st, steps)
  {
    if steps != [] {
      var before := steps[..|steps| - 1];
      RunExclusiveIff(p, st, before);
      if StaysSafe(RecordsBacked, p, st, before) {
        StepExclusiveIff(p, Final(p, st, before), steps[|steps| - 1]);
      }
    }
  }

  /** The guards, loosened where nobody is harmed: a live key of somebody who no longer surely holds it may be
      overwritten, and another's write adopted when it is not surely unexpired. */
  predicate Tolerable(p: Params, st: State, step: Step)
    requires Enabled(p, st, step)
  {
    match step
    case Reuse(n) =>
      var k := OwnLease(p.window, n, NodeOf(st, n).seen).value.net;
      FreeFor(st, k, n) || !Holds(p, st, st.store[k].owner, k)
    case Renew(n, _) =>
      var k := NodeOf(st, n).net;
      FreeFor(st, k, n) || !Holds(p, st, st.store[k].owner, k)
    case Adopt(n, i, expiration) => st.log[i].value.owner == n || expiration <= st.now + p.slack
    case _ => true
  }

  lemma HarmlessIffTolerable(p: Params, st: State, step: Step)
    requires Exclusive(p, st) && Enabled(p, st, step) && Honest(p, st, step)
    ensures Harmless(p, st, step) <==> Tolerable(p, st, step)
  {
    match step {
      case Expire(net) => assert NodeBacked(p, st, st.store[net].owner, NodeOf(st, st.store[net].owner));
      case Reuse(n) =>
        var k := OwnLease(p.window, n, NodeOf(st, n).seen).value.net;
        if k in st.store { assert NodeBacked(p, st, st.store[k].owner, NodeOf(st, st.store[k].owner)); }
      case Renew(n, _) =>
        assert NodeBacked(p, st, n, NodeOf(st, n));
        var k := NodeOf(st, n).net;
        if k in st.store { assert NodeBacked(p, st, st.store[k].owner, NodeOf(st, st.store[k].owner)); }
      case Adopt(n, i, _) => assert LogBacked(p, st, st.log[i]);
      case _ =>
    }
  }

  lemma ExclusiveHoldersOwn(p: Params, st: State)
    requires Exclusive(p, st)
    ensures HoldersOwn(p, st)
  {
    forall n: Addr, a | Holds(p, st, n, a) ensures Owns(st, n, a) {
      assert NodeBacked(p, st, n, NodeOf(st, n));
    }
  }

  /** From an exclusive state and with honest readings, every sure holder still owns what it holds after a step
      exactly when the step is tolerable. */
  lemma StepHoldersIff(p: Params, st: State, step: Step)
    requires Exclusive(p, st) && Enabled(p, st, step) && Honest(p, st, step)
    ensures HoldersOwn(p, After(p, st, step)) <==> Tolerable(p, st, step)
  {
    ExclusiveHoldersOwn(p, st);
    StepHarmlessIff(p, st, step);
    HarmlessIffTolerable(p, st, step);
  }

  /** A resting registry whose history is consistent with the clock: no key outlives a fresh grant, and each
      put still running is the one its key holds. */
  ghost predicate Start(p: Params, st: State) {
    && Resting(p, st) && GrantsInOrder(p, st)
    && forall i :: 0 <= i < |st.log| ==> LogBacked(p, st, st.log[i])
  }

  /** The run keeps the rules exclusive ownership depends on. */
  predicate KeepsGuards(p: Params, st: State, steps: seq<Step>)
    requires Runs(p, st, steps)
  {
    && Throughout(HonestClocks, p, st, steps)
    && Throughout(GuardedPuts, p, st, steps)
    && Throughout(OwnAdoptions, p, st, steps)
  }

  /** Some run leads from one state to the other; some run that keeps the guards does. */
  ghost predicate RunLeads(p: Params, st: State, end: State) {
    exists steps :: Runs(p, st, steps) && Final(p, st, steps) == end
  }

  ghost predicate GuardedRunLeads(p: Params, st: State, end: State) {
    exists steps :: Runs(p, st, steps) && Final(p, st, steps) == end && KeepsGuards(p, st, steps)
  }

  lemma ExclusiveHolder(p: Params, st: State, n: Addr, a: Net)
    requires Exclusive(p, st) && Holds(p, st, n, a)
    ensures a in st.store && st.store[a].owner == n
    ensures forall m: Addr, b :: m != n && Holds(p, st, m, b) ==> !Share(a, b)
  {
    ExclusiveHoldersOwn(p, st);
    OwnersApart(p, st, n, a);
  }

  /** In every run of any number of nodes that keeps the guards, what a node holds unexpired is its own in the
      registry, and no two nodes hold an address in common. */
  lemma ExclusiveOwnership(p: Params, st: State, steps: seq<Step>, n: Addr, a: Net)
    requires Start(p, st) && Runs(p, st, steps) && KeepsGuards(p, st, steps)
    requires Holds(p, Final(p, st, steps), n, a)
    ensures a in Final(p, st, steps).store && Final(p, st, steps).store[a].owner == n
    ensures forall m: Addr, b :: m != n && Holds(p, Final(p, st, steps), m, b) ==> !Share(a, b)
  {
    RunExclusiveIff(p, st, steps);
    ExclusiveHolder(p, Final(p, st, steps), n, a);
  }

  // Acting in time is enough -------------------------------------------------------------------------

  /** A timely put goes to a key its writer still owns, and a timely adoption is of the holder's own write. */
  lemma TimelyGuarded(p: Params, st: State, step: Step)
    requires Exclusive(p, st) && Enabled(p, st, step) && Timely(p, st, step)
    ensures Guarded(p, st, step) && AdoptsOwn(p, st, step)
  {
    match step {
      case Reuse(n) => assert NodeBacked(p, st, n, NodeOf(st, n));
      case Renew(n, _) => assert NodeBacked(p, st, n, NodeOf(st, n));
      case Adopt(n, i, _) =>
        assert NodeBacked(p, st, n, NodeOf(st, n));
        assert LogBacked(p, st, st.log[i]);
      case _ =>
    }
  }

  /** A run in which every node acts in time keeps the guards. */
  lemma {:induction false} TimelyRun(p: Params, st: State, steps: seq<Step>)
    requires Exclusive(p, st) && Runs(p, st, steps) && Throughout(TimelySteps, p, st, steps)
    ensures KeepsGuards(p, st, steps)
  {
    if steps != [] {
      var before := steps[..|steps| - 1];
      TimelyRun(p, st, before);
      RunExclusiveIff(p, st, before);
      TimelyGuarded(p, Final(p, st, before), steps[|steps| - 1]);
    }
  }

  /** In every timely run, likewise, what a node holds unexpired is its own and nobody else's. */
  lemma TimelyOwnership(p: Params, st: State, steps: seq<Step>, n: Addr, a: Net)
    requires Start(p, st) && Runs(p, st, steps) && Throughout(TimelySteps, p, st, steps)
    requires Holds(p, Final(p, st, steps), n, a)
    ensures a in Final(p, st, steps).store && Final(p, st, steps).store[a].owner == n
    ensures forall m: Addr, b :: m != n && Holds(p, Final(p, st, steps), m, b) ==> !Share(a, b)
  {
    TimelyRun(p, st, steps);
    ExclusiveOwnership(p, st, steps, n, a);
  }

  // A race in which one node renews after its lease ran out: ten-second leases, two subnets to choose from.
  const RACE := Params(Window(0x0A00_0100, 0x0A00_0200, 24), 10, 0)
  const PRIZE := Net(0x0A00_0100, 24)
  const SECOND := Net(0x0A00_0200, 24)
  const EMPTY_REGISTRY := State(0, map[], [], map[], map[])

  /** Node 1 let its lease run out. */
  const LAPSED := State(10, map[], [Put(PRIZE, Entry(1, 10, 0)), Del(PRIZE)], map[1 := Holding(PRIZE, 1, 10)], map[])

  /** Node 2 took the subnet, and node 1 is about to renew. */
  const CONTESTED := State(10, map[PRIZE := Entry(2, 20, 2)], LAPSED.log + [Put(PRIZE, Entry(2, 20, 2))],
                           map[1 := Holding(PRIZE, 1, 10), 2 := Holding(PRIZE, 2, 20)], map[1 := 10])

  /** Node 1 has renewed over node 2's key and node 2 has adopted that write. */
  const OVERTAKEN := State(10, map[PRIZE := Entry(1, 20, 3)], CONTESTED.log + [Put(PRIZE, Entry(1, 20, 3))],
                           map[1 := Holding(PRIZE, 1, 20), 2 := Holding(PRIZE, 1, 20)], map[])

  /** Node 1 is gone, and so is the key. */
  const VACATED := State(20, map[], OVERTAKEN.log + [Del(PRIZE)], map[1 := Idle, 2 := Holding(PRIZE, 1, 20)], map[])

  lemma BothAreFree()
    ensures RACE.window.Valid()
    ensures PRIZE.ip in Candidates(RACE.window, NetsOf([])) && SECOND.ip in Candidates(RACE.window, NetsOf([]))
  {
    assert Aligned(0x0A00_0100, 8) && Aligned(0x0A00_0200, 8);
    assert Pow2(8) == 256;
    assert NetsOf([]) == [];
    assert !Busy(PRIZE, []) && !Busy(SECOND, []);
    assert FreeFrom(RACE.window, [], 0x0A00_0300) == [];
    assert FreeFrom(RACE.window, [], SECOND.ip) == [SECOND.ip];
    assert FreeSlots(RACE.window, []) == [PRIZE.ip, SECOND.ip];
  }

  /** Node `n` about to create a key, having read nothing. */
  function Racing(st: State, n: Addr): State {
    st.(nodes := st.nodes[n := Ready([])], grants := st.grants[n := st.now])
  }

  /** From the empty registry `steps` lead to `st`, keeping the rule. */
  ghost predicate Reaches(rule: Rule, steps: seq<Step>, st: State) {
    Runs(RACE, EMPTY_REGISTRY, steps) && Throughout(rule, RACE, EMPTY_REGISTRY, steps)
    && Final(RACE, EMPTY_REGISTRY, steps) == st
  }

  lemma Extend(rule: Rule, steps: seq<Step>, st: State, step: Step) returns (more: seq<Step>)
    requires Reaches(rule, steps, st) && Enabled(RACE, st, step) && Meets(rule, RACE, st, step)
    ensures Reaches(rule, more, After(RACE, st, step))
  {
    ThroughoutMore(rule, RACE, EMPTY_REGISTRY, steps, st, step);
    more := steps + [step];
  }

  predicate MayTake(rule: Rule, st: State, n: Addr, net: Net) {
    && (net == PRIZE || net == SECOND) && net !in st.store && NodeOf(st, n).Idle?
    && (rule == TimelySteps || (rule == OwnKeysShown && st.store == map[]))
  }

  /** Node `n` has created the key. */
  function Taken(st: State, n: Addr, net: Net): State {
    var entry := Entry(n, st.now + 10, |st.log|);
    State(st.now, st.store[net := entry], st.log + [Put(net, entry)], st.nodes[n := Holding(net, n, st.now + 10)],
          st.grants - {n})
  }

  /** Node `n`, idle, reads nothing and is about to create one of the two keys. */
  lemma Races(rule: Rule, steps: seq<Step>, st: State, n: Addr, net: Net) returns (more: seq<Step>)
    requires Reaches(rule, steps, st) && MayTake(rule, st, n, net)
    ensures Reaches(rule, more, Racing(st, n))
  {
    more := Extend(rule, steps, st, Snapshot(n, []));
    more := Extend(rule, more, Become(st, n, Ready([])), Grant(n));
  }

  lemma MayCreate(rule: Rule, st: State, n: Addr, net: Net)
    requires MayTake(rule, st, n, net)
    ensures Enabled(RACE, Racing(st, n), Create(n, net, st.now))
    ensures Meets(rule, RACE, Racing(st, n), Create(n, net, st.now))
  {
    BothAreFree();
  }

  lemma CreateTakes(rule: Rule, st: State, n: Addr, net: Net)
    requires MayTake(rule, st, n, net) && Enabled(RACE, Racing(st, n), Create(n, net, st.now))
    ensures After(RACE, Racing(st, n), Create(n, net, st.now)) == Taken(st, n, net)
  {
    var held := Holding(net, n, st.now + 10);
    assert st.nodes[n := Ready([])][n := held] == st.nodes[n := held];
    assert st.grants[n := st.now] - {n} == st.grants - {n};
    SameState(After(RACE, Racing(st, n), Create(n, net, st.now)), Taken(st, n, net));
  }

  lemma Takes(rule: Rule, steps: seq<Step>, st: State, n: Addr, net: Net) returns (more: seq<Step>)
    requires Reaches(rule, steps, st) && MayTake(rule, st, n, net)
    ensures Reaches(rule, more, Taken(st, n, net))
  {
    MayCreate(rule, st, n, net);
    CreateTakes(rule, st, n, net);
    more := Races(rule, steps, st, n, net);
    more := Extend(rule, more, Racing(st, n), Create(n, net, st.now));
  }

  lemma SameState(a: State, b: State)
    requires a.now == b.now && a.store == b.store && a.log == b.log && a.nodes == b.nodes && a.grants == b.grants
    ensures a == b
  {}

  lemma Lapse(rule: Rule) returns (steps: seq<Step>)
    requires rule == TimelySteps || rule == OwnKeysShown
    ensures Reaches(rule, steps, LAPSED)
  {
    steps := Takes(rule, [], EMPTY_REGISTRY, 1, PRIZE);
    var first := Taken(EMPTY_REGISTRY, 1, PRIZE);
    steps := Extend(rule, steps, first, Tick(10));
    steps := Extend(rule, steps, first.(now := 10), Expire(PRIZE));
    SameState(After(RACE, first.(now := 10), Expire(PRIZE)), LAPSED);
  }

  lemma Contest(rule: Rule) returns (steps: seq<Step>)
    requires rule == TimelySteps || rule == OwnKeysShown
    ensures Reaches(rule, steps, CONTESTED)
  {
    steps := Lapse(rule);
    steps := Takes(rule, steps, LAPSED, 2, PRIZE);
    var second := Taken(LAPSED, 2, PRIZE);
    steps := Extend(rule, steps, second, Grant(1));
    SameState(After(RACE, second, Grant(1)), CONTESTED);
  }

  /** A race is lost without a trace: the key stays as it is, and the node gives up. */
  lemma LostRace(st: State, n: Addr)
    requires PRIZE in st.store
    ensures Enabled(RACE, Racing(st, n), Create(n, PRIZE, st.now))
    ensures var next := After(RACE, Racing(st, n), Create(n, PRIZE, st.now));
            next.store == st.store && next.log == st.log && NodeOf(next, n) == Idle && n !in next.grants
  {
    BothAreFree();
  }

  /** Why the guard matters: one late renewal, honest but of a key that is live and not the writer's, and two
      nodes hold the same subnet unexpired. */
  lemma LateRenewalSharesSubnet() returns (steps: seq<Step>)
    ensures Reaches(TimelySteps, steps, CONTESTED)
    ensures var late := Renew(1, 10);
            && Enabled(RACE, CONTESTED, late) && Honest(RACE, CONTESTED, late) && !Guarded(RACE, CONTESTED, late)
            && Holds(RACE, After(RACE, CONTESTED, late), 1, PRIZE)
            && Holds(RACE, After(RACE, CONTESTED, late), 2, PRIZE)
  {
    steps := Contest(TimelySteps);
  }

  /** The guard is more than ownership needs at once: had node 2 crashed, the same renewal would harm nobody,
      although node 2's record in the history is no longer backed. */
  lemma UnguardedButHarmless() returns (steps: seq<Step>, st: State)
    ensures Reaches(TimelySteps, steps, st)
    ensures var late := Renew(1, 10);
            && Enabled(RACE, st, late) && Honest(RACE, st, late) && !Guarded(RACE, st, late)
            && HoldersOwn(RACE, After(RACE, st, late)) && !Exclusive(RACE, After(RACE, st, late))
  {
    steps := Contest(TimelySteps);
    steps := Extend(TimelySteps, steps, CONTESTED, Crash(2));
    st := After(RACE, CONTESTED, Crash(2));
    RaceExclusive(steps, st);
    StepHoldersIff(RACE, st, Renew(1, 10));
    UnguardedBreaks(RACE, st, Renew(1, 10));
  }

  /** Timely runs of the race stay exclusive. */
  lemma RaceExclusive(steps: seq<Step>, st: State)
    requires Reaches(TimelySteps, steps, st)
    ensures Exclusive(RACE, st)
  {
    BothAreFree();
    assert Fold(map[], EMPTY_REGISTRY.log) == EMPTY_REGISTRY.store;
    TimelyRun(RACE, EMPTY_REGISTRY, steps);
    RunExclusiveIff(RACE, EMPTY_REGISTRY, steps);
  }

  // One lease per node -------------------------------------------------------------------------------

  /** From any state in which no address has two live keys, a step keeps it so exactly when the address it
      writes under a key has no other. */
  lemma StepSingleIff(p: Params, st: State, step: Step)
    requires OneKeyEach(st) && Enabled(p, st, step)
    ensures OneKeyEach(After(p, st, step)) <==> SingleKey(p, st, step)
  {
    var next := After(p, st, step);
    WritesLogged(p, st, step);
    match WriteOf(p, st, step) {
      case Some(Put(net, entry)) =>
        assert Owns(next, entry.owner, net);
        if SingleKey(p, st, step) {
          forall n: Addr ensures AtMostOne(next, n) {
            assert AtMostOne(st, n);
            assert forall k :: Owns(next, n, k) ==> (k == net && n == entry.owner) || Owns(st, n, k);
          }
        } else {
          var k :| k in st.store && Owns(st, entry.owner, k) && k != net;
          assert Owns(next, entry.owner, k);
          assert !AtMostOne(next, entry.owner);
        }
      case _ =>
        forall n: Addr ensures AtMostOne(next, n) {
          assert AtMostOne(st, n);
          assert forall k :: Owns(next, n, k) ==> Owns(st, n, k);
        }
    }
  }

  /** Over runs: no address ever has two live keys exactly when every step meets that guard. */
  lemma {:induction false} RunSingleIff(p: Params, st: State, steps: seq<Step>)
    requires OneKeyEach(st) && Runs(p, st, steps)
    ensures StaysSafe(KeysSingle, p, st, steps) <==> Throughout(SingleKeys, p, st, steps)
  {
    if steps != [] {
      var before := steps[..|steps| - 1];
      RunSingleIff(p, st, before);
      if StaysSafe(KeysSingle, p, st, before) {
        StepSingleIff(p, Final(p, st, before), steps[|steps| - 1]);
      }
    }
  }

  /** The only key a node may have in the registry, given what it is doing. */
  ghost predicate Committed(p: Params, st: State, n: Addr) {
    match NodeOf(st, n)
    case Idle => AtMostOne(st, n)
    case Ready(seen) =>
      (match OwnLease(p.window, n, seen)
       case Some(s) => forall net :: Owns(st, n, net) ==> net == s.net
       case None => forall net :: !Owns(st, n, net))
    case Holding(net, publicIp, _) => publicIp == n && forall other :: Owns(st, n, other) ==> other == net
  }

  ghost predicate Settled(p: Params, st: State) {
    WellFormed(p, st) && forall n: Addr :: Committed(p, st, n)
  }

  /** A snapshot that shows the own key finds it when there is one, and nothing of its own otherwise; one that
      leaves it out leads the node to create a second. */
  lemma SnapshotFinds(p: Params, st: State, n: Addr, seen: seq<Seen>)
    requires WellFormed(p, st) && AtMostOne(st, n) && Enabled(p, st, Snapshot(n, seen))
    ensures Committed(p, Become(st, n, Ready(seen)), n) <==> ShowsOwn(p, st, Snapshot(n, seen))
    ensures ShowsOwn(p, st, Snapshot(n, seen)) ==> forall net :: Owns(st, n, net) ==>
              OwnLease(p.window, n, seen).Some? && OwnLease(p.window, n, seen).value.net == net
  {
    var own, next := FindOwn(n, seen), Become(st, n, Ready(seen));
    assert forall net :: Owns(next, n, net) <==> Owns(st, n, net);
    if own.Some? {
      var i :| 0 <= i < |seen| && seen[i] == own.value;
      assert Owns(st, n, seen[i].net);
      assert p.window.IsSlot(seen[i].net);
    }
    if ShowsOwn(p, st, Snapshot(n, seen)) {
      forall net | Owns(st, n, net) ensures own.Some? && own.value.net == net {
        var i :| 0 <= i < |seen| && seen[i].net == net;
        assert seen[i] in seen;
      }
    }
  }

  /** The node writes its own address under the key. */
  ghost predicate ActsOn(p: Params, st: State, step: Step, n: Addr, net: Net) {
    match step
    case Create(m, k, _) => m == n && k == net && net !in st.store
    case Reuse(m) => m == n && NodeOf(st, n).Ready? && OwnLease(p.window, n, NodeOf(st, n).seen).Some?
                     && OwnLease(p.window, n, NodeOf(st, n).seen).value.net == net
    case Renew(m, _) => m == n && NodeOf(st, n).Holding? && NodeOf(st, n).net == net
    case _ => false
  }

  /** No step gives a node a key but the node's own. */
  lemma OwnsOnlyByActing(p: Params, st: State, step: Step, n: Addr, net: Net)
    requires Settled(p, st) && Enabled(p, st, step) && Owns(After(p, st, step), n, net) && !Owns(st, n, net)
    ensures ActsOn(p, st, step, n, net)
  {
    if step.Renew? { assert Committed(p, st, step.node); }
  }

  /** A node that gains no key and does not change stays committed. */
  lemma BystanderStays(p: Params, st: State, next: State, n: Addr)
    requires Committed(p, st, n) && NodeOf(next, n) == NodeOf(st, n)
    requires forall net :: Owns(next, n, net) ==> Owns(st, n, net)
    ensures Committed(p, next, n)
  {}

  lemma CommittedStays(p: Params, st: State, step: Step, n: Addr)
    requires WellFormed(p, st) && Committed(p, st, n) && Enabled(p, st, step)
    requires !step.Snapshot? || step.node != n
    requires AdoptsOwn(p, st, step)
    requires forall net :: Owns(After(p, st, step), n, net) && !Owns(st, n, net) ==> ActsOn(p, st, step, n, net)
    ensures Committed(p, After(p, st, step), n)
  {
    if step.Tick? || step.Expire? || step.node != n {
      assert NodeOf(After(p, st, step), n) == NodeOf(st, n);
      BystanderStays(p, st, After(p, st, step), n);
    }
  }

  /** Committed nodes have one key each, and no single step changes that. */
  lemma SettledSingle(p: Params, st: State, step: Step)
    requires Settled(p, st) && Enabled(p, st, step)
    ensures OneKeyEach(st) && OneKeyEach(After(p, st, step))
  {
    forall n: Addr ensures AtMostOne(st, n) { assert Committed(p, st, n); }
    assert SingleKey(p, st, step) by {
      if step.Create? || step.Reuse? || step.Renew? { assert Committed(p, st, step.node); }
    }
    StepSingleIff(p, st, step);
  }

  /** A step keeps every node committed to one key exactly when the snapshot it takes shows the node's own key
      and the event it adopts is about the node's own write. */
  lemma StepSettledIff(p: Params, st: State, step: Step)
    requires Settled(p, st) && Enabled(p, st, step)
    ensures Settled(p, After(p, st, step)) <==> ShowsOwn(p, st, step) && AdoptsOwn(p, st, step)
  {
    var next := After(p, st, step);
    StepWellFormed(p, st, step);
    if step.Snapshot? {
      assert Committed(p, st, step.node);
      SnapshotFinds(p, st, step.node, step.seen);
    }
    if !AdoptsOwn(p, st, step) {
      assert !Committed(p, next, step.node);
    } else {
      forall n: Addr | !step.Snapshot? || step.node != n ensures Committed(p, next, n) {
        assert Committed(p, st, n);
        forall net | Owns(next, n, net) && !Owns(st, n, net) ensures ActsOn(p, st, step, n, net) {
          OwnsOnlyByActing(p, st, step, n, net);
        }
        CommittedStays(p, st, step, n);
      }
    }
  }

  /** Over runs: nodes stay committed exactly when every step meets these rules. */
  lemma {:induction false} RunSettledIff(p: Params, st: State, steps: seq<Step>)
    requires Settled(p, st) && Runs(p, st, steps)
    ensures StaysSafe(NodesCommitted, p, st, steps) <==>
              Throughout(OwnKeysShown, p, st, steps) && Throughout(OwnAdoptions, p, st, steps)
  {
    if steps != [] {
      var before := steps[..|steps| - 1];
      RunSettledIff(p, st, before);
      if StaysSafe(NodesCommitted, p, st, before) {
        StepSettledIff(p, Final(p, st, before), steps[|steps| - 1]);
      }
    }
  }

  /** A registry at rest in which no address has more than one key. */
  ghost predicate RestingOnce(p: Params, st: State) {
    Resting(p, st) && OneKeyEach(st)
  }

  /** `a` is all the node has in the registry, and what it holds or is about to reuse. */
  ghost predicate OnlyLease(p: Params, st: State, n: Addr, a: Net) {
    && (forall b :: Owns(st, n, b) ==> b == a)
    && (NodeOf(st, n).Holding? ==> NodeOf(st, n).net == a)
    && (NodeOf(st, n).Ready? ==>
          var own := OwnLease(p.window, n, NodeOf(st, n).seen);
          own.Some? && own.value.net == a)
  }

  /** When snapshots show a node's own key and nodes adopt only their own writes, no public IP ever has two live
      leases however late the writes; and a node that holds a lease while a key of its own is live holds that
      one, across any crashes and restarts. */
  lemma RestartStability(p: Params, st: State, steps: seq<Step>, n: Addr, a: Net)
    requires RestingOnce(p, st) && Runs(p, st, steps)
    requires Throughout(OwnKeysShown, p, st, steps) && Throughout(OwnAdoptions, p, st, steps)
    requires Owns(Final(p, st, steps), n, a)
    ensures OnlyLease(p, Final(p, st, steps), n, a)
  {
    RunSettledIff(p, st, steps);
    assert Committed(p, Final(p, st, steps), n);
  }

  /** In timely runs nothing needs to be asked of adoptions. */
  lemma TimelyStability(p: Params, st: State, steps: seq<Step>, n: Addr, a: Net)
    requires Start(p, st) && RestingOnce(p, st) && Runs(p, st, steps)
    requires Throughout(TimelySteps, p, st, steps) && Throughout(OwnKeysShown, p, st, steps)
    requires Owns(Final(p, st, steps), n, a)
    ensures OnlyLease(p, Final(p, st, steps), n, a)
  {
    TimelyRun(p, st, steps);
    RestartStability(p, st, steps, n, a);
  }

  /** Why snapshots have to show the own key: a timely run in which a restarted node is not shown its lease and
      takes a second. */
  lemma OmissionDuplicates() returns (steps: seq<Step>, end: State)
    ensures Reaches(TimelySteps, steps, end) && Owns(end, 1, PRIZE) && Owns(end, 1, SECOND)
  {
    steps := Takes(TimelySteps, [], EMPTY_REGISTRY, 1, PRIZE);
    var held := Taken(EMPTY_REGISTRY, 1, PRIZE);
    steps := Extend(TimelySteps, steps, held, Crash(1));
    var crashed := After(RACE, held, Crash(1));
    steps := Takes(TimelySteps, steps, crashed, 1, SECOND);
    end := Taken(crashed, 1, SECOND);
  }

  lemma Overtake() returns (steps: seq<Step>)
    ensures Reaches(OwnKeysShown, steps, OVERTAKEN)
  {
    steps := Contest(OwnKeysShown);
    steps := Extend(OwnKeysShown, steps, CONTESTED, Renew(1, 10));
    var renewed := After(RACE, CONTESTED, Renew(1, 10));
    steps := Extend(OwnKeysShown, steps, renewed, Adopt(2, 3, 20));
    SameState(After(RACE, renewed, Adopt(2, 3, 20)), OVERTAKEN);
  }

  lemma Vacate() returns (steps: seq<Step>)
    ensures Reaches(OwnKeysShown, steps, VACATED)
  {
    steps := Overtake();
    steps := Extend(OwnKeysShown, steps, OVERTAKEN, Crash(1));
    var crashed := After(RACE, OVERTAKEN, Crash(1));
    steps := Extend(OwnKeysShown, steps, crashed, Tick(10));
    steps := Extend(OwnKeysShown, steps, crashed.(now := 20), Expire(PRIZE));
    SameState(After(RACE, crashed.(now := 20), Expire(PRIZE)), VACATED);
  }

  /** Why adoptions have to be of own writes: snapshots show everything, but node 2 adopts node 1's late renewal
      and later renews under node 1's address, which by then has another subnet. */
  lemma AdoptionDuplicates() returns (steps: seq<Step>, end: State)
    ensures Reaches(OwnKeysShown, steps, end) && Owns(end, 1, PRIZE) && Owns(end, 1, SECOND)
  {
    steps := Vacate();
    steps := Takes(OwnKeysShown, steps, VACATED, 1, SECOND);
    var back := Taken(VACATED, 1, SECOND);
    steps := Extend(OwnKeysShown, steps, back, Grant(2));
    var granted := After(RACE, back, Grant(2));
    steps := Extend(OwnKeysShown, steps, granted, Renew(2, 20));
    end := After(RACE, granted, Renew(2, 20));
  }
}
