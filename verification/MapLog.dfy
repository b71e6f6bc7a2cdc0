/** Logs of puts and deletes on a keyed map, and what replaying them gives.

The registry's history, the watcher's batches and the consumers' tables are all read through it. */
module MapLog {
  import opened Options

  datatype Op<K, V> = Put(key: K, value: V) | Del(key: K)

  function Apply<K, V>(m: map<K, V>, op: Op<K, V>): map<K, V> {
    match op
    case Put(k, v) => m[k := v]
    case Del(k) => m - {k}
  }

  function Fold<K, V>(m: map<K, V>, ops: seq<Op<K, V>>): map<K, V> {
    if ops == [] then m else Apply(Fold(m, ops[..|ops| - 1]), ops[|ops| - 1])
  }

  lemma {:induction false} FoldAppend<K, V>(m: map<K, V>, a: seq<Op<K, V>>, b: seq<Op<K, V>>)
    ensures Fold(m, a + b) == Fold(Fold(m, a), b)
  {
    if b == [] {
      assert a + b == a;
    } else {
      var n := |b| - 1;
      assert (a + b)[..|a + b| - 1] == a + b[..n];
      FoldAppend(m, a, b[..n]);
    }
  }

  /** Position of the last entry on `k`, or -1. */
  function LastOn<K(==), V>(ops: seq<Op<K, V>>, k: K): (i: int)
    ensures -1 <= i < |ops|
    ensures i >= 0 ==> ops[i].key == k
    ensures forall j :: i < j < |ops| ==> ops[j].key != k
  {
    if ops == [] then -1
    else if ops[|ops| - 1].key == k then |ops| - 1
    else LastOn(ops[..|ops| - 1], k)
  }

  /** What the map holds at `k`: decided by the last entry on `k`, else left as it was. */
  lemma {:induction false} FoldAt<K, V>(m: map<K, V>, ops: seq<Op<K, V>>, k: K)
    ensures LastOn(ops, k) < 0 ==> (k in Fold(m, ops) <==> k in m) && (k in m ==> Fold(m, ops)[k] == m[k])
    ensures LastOn(ops, k) >= 0 ==> (k in Fold(m, ops) <==> ops[LastOn(ops, k)].Put?)
    ensures LastOn(ops, k) >= 0 && k in Fold(m, ops) ==> Fold(m, ops)[k] == ops[LastOn(ops, k)].value
  {
    if ops != [] {
      FoldAt(m, ops[..|ops| - 1], k);
    }
  }

  /** A key whose value changed was touched. */
  lemma ChangedIsTouched<K, V>(m: map<K, V>, ops: seq<Op<K, V>>, k: K) returns (i: nat)
    requires At(Fold(m, ops), k) != At(m, k)
    ensures i < |ops| && ops[i].key == k
  {
    FoldAt(m, ops, k);
    i := LastOn(ops, k);
  }

  /** Looking a key up. */
  function At<K, V>(m: map<K, V>, k: K): Option<V> {
    if k in m then Some(m[k]) else None
  }

  predicate SameAt<K, V(==)>(m: map<K, V>, n: map<K, V>, k: K) {
    (k in m <==> k in n) && (k in m ==> m[k] == n[k])
  }

  lemma SameEverywhere<K(!new), V>(m: map<K, V>, n: map<K, V>)
    requires forall k :: SameAt(m, n, k)
    ensures m == n
  {
    assert forall k :: k in m ==> SameAt(m, n, k);
    assert forall k :: k in n ==> SameAt(m, n, k);
  }

  /** A suffix that starts inside what was already replayed changes nothing but what is new:
      a snapshot taken after `taken` entries plus the log from any earlier entry gives the whole log. */
  lemma OverlapLosesNothing<K(!new), V>(m: map<K, V>, log: seq<Op<K, V>>, taken: nat, since: nat)
    requires since <= taken <= |log|
    ensures Fold(Fold(m, log[..taken]), log[since..]) == Fold(m, log)
  {
    var snap := Fold(m, log[..taken]);
    forall k ensures SameAt(Fold(snap, log[since..]), Fold(m, log), k) {
      FoldAt(snap, log[since..], k);
      FoldAt(m, log[..taken], k);
      FoldAt(m, log, k);
      var i := LastOn(log, k);
      if i >= since {
        assert log[since..][i - since] == log[i];
        assert forall j :: i - since < j < |log[since..]| ==> log[since..][j] == log[since + j];
      } else {
        assert forall j :: 0 <= j < |log[since..]| ==> log[since..][j] == log[since + j];
        assert i >= 0 ==> log[..taken][i] == log[i];
        assert forall j :: i < j < taken ==> log[..taken][j] == log[j];
      }
      LastOnUnique(log[since..], k, if i >= since then i - since else -1);
      if i < since { LastOnUnique(log[..taken], k, i); }
    }
    SameEverywhere(Fold(snap, log[since..]), Fold(m, log));
  }

  lemma LastOnUnique<K, V>(ops: seq<Op<K, V>>, k: K, i: int)
    requires -1 <= i < |ops| && (i >= 0 ==> ops[i].key == k)
    requires forall j :: i < j < |ops| ==> ops[j].key != k
    ensures LastOn(ops, k) == i
  {
    var l := LastOn(ops, k);
    assert l >= 0 ==> ops[l].key == k;
  }

  lemma LastOnAppend<K, V>(a: seq<Op<K, V>>, b: seq<Op<K, V>>, k: K)
    requires LastOn(b, k) < 0
    ensures LastOn(a + b, k) == LastOn(a, k)
  {
    LastOnUnique(a + b, k, LastOn(a, k));
  }

  /** A key the log leaves with a value was written by one of its entries. */
  lemma KnownIsWritten<K, V>(log: seq<Op<K, V>>, k: K) returns (i: nat)
    requires k in Fold(map[], log)
    ensures i < |log| && log[i].key == k
  {
    FoldAt(map[], log, k);
    i := LastOn(log, k);
  }

  /** The entries of `ops` whose flag is set. */
  function Kept<K, V>(ops: seq<Op<K, V>>, keep: seq<bool>): seq<Op<K, V>>
    requires |keep| == |ops|
  {
    if ops == [] then []
    else
      var n := |ops| - 1;
      Kept(ops[..n], keep[..n]) + (if keep[n] then [ops[n]] else [])
  }

  predicate KeepsLast<K(==, !new), V>(ops: seq<Op<K, V>>, keep: seq<bool>, k: K)
    requires |keep| == |ops|
  {
    LastOn(ops, k) >= 0 ==> keep[LastOn(ops, k)]
  }

  lemma {:induction false} KeptAt<K(!new), V>(m: map<K, V>, ops: seq<Op<K, V>>, keep: seq<bool>, k: K)
    requires |keep| == |ops| && KeepsLast(ops, keep, k)
    ensures SameAt(Fold(m, Kept(ops, keep)), Fold(m, ops), k)
  {
    if ops != [] {
      var n := |ops| - 1;
      var rest := Kept(ops[..n], keep[..n]);
      if keep[n] {
        assert (rest + [ops[n]])[..|rest|] == rest;
      } else {
        assert rest + [] == rest;
      }
      if ops[n].key != k {
        assert LastOn(ops, k) == LastOn(ops[..n], k);
        KeptAt(m, ops[..n], keep[..n], k);
      }
    }
  }

  /** A key that comes up in a replay of kept entries is the key of an entry. */
  lemma {:induction false} KeptIsWritten<K, V>(m: map<K, V>, ops: seq<Op<K, V>>, keep: seq<bool>, k: K)
    returns (i: nat)
    requires |keep| == |ops| && k in Fold(m, Kept(ops, keep)) && k !in m
    ensures i < |ops| && ops[i].key == k
  {
    var n := |ops| - 1;
    if ops[n].key == k {
      i := n;
    } else {
      var rest := Kept(ops[..n], keep[..n]);
      if keep[n] {
        assert (rest + [ops[n]])[..|rest|] == rest;
      } else {
        assert rest + [] == rest;
      }
      i := KeptIsWritten(m, ops[..n], keep[..n], k);
    }
  }

  /** Dropping entries is harmless when each dropped entry is followed by a kept one on the same key. */
  lemma SkippingSuperseded<K(!new), V>(m: map<K, V>, ops: seq<Op<K, V>>, keep: seq<bool>)
    requires |keep| == |ops|
    requires forall i :: 0 <= i < |ops| && !keep[i] ==>
               exists j :: i < j < |ops| && keep[j] && ops[j].key == ops[i].key
    ensures Fold(m, Kept(ops, keep)) == Fold(m, ops)
  {
    forall k ensures SameAt(Fold(m, Kept(ops, keep)), Fold(m, ops), k) {
      KeptAt(m, ops, keep, k);
    }
    SameEverywhere(Fold(m, Kept(ops, keep)), Fold(m, ops));
  }

  // Watching from what was read ----------------------------------------------------------------

  /** `part` names keys of `m`, with what they hold there. */
  ghost predicate PartOf<K(!new), V(!new)>(part: map<K, V>, m: map<K, V>) {
    forall k :: k in part ==> k in m && part[k] == m[k]
  }

  /** `part` was read after `taken` entries and may leave keys out; the watch over it starts at entry `since`,
      which is no later, or anywhere when nothing was read. */
  ghost predicate Watches<K(!new), V(!new)>(part: map<K, V>, log: seq<Op<K, V>>, taken: nat, since: nat) {
    && taken <= |log| && since <= |log|
    && PartOf(part, Fold(map[], log[..taken]))
    && (since <= taken || part == map[])
  }

  /** The key was read, or is written after the watch started. */
  predicate Told<K(==), V>(part: map<K, V>, log: seq<Op<K, V>>, since: nat, k: K)
    requires since <= |log|
  {
    k in part || LastOn(log[since..], k) >= 0
  }

  /** A key not written since holds what it held. */
  lemma QuietSince<K(!new), V(!new)>(log: seq<Op<K, V>>, taken: nat, since: nat, k: K)
    requires since <= taken <= |log| && LastOn(log[since..], k) < 0
    ensures At(Fold(map[], log[..taken]), k) == At(Fold(map[], log), k)
  {
    var i := LastOn(log, k);
    assert forall j :: since <= j < |log| ==> log[j] == log[since..][j - since];
    assert i < since;
    assert i >= 0 ==> log[..taken][i] == log[i];
    LastOnUnique(log[..taken], k, i);
    FoldAt(map[], log[..taken], k);
    FoldAt(map[], log, k);
  }

  /** The watch knows what the log holds at a key it was told about, and nothing at any other. */
  lemma WatchAt<K(!new), V(!new)>(part: map<K, V>, log: seq<Op<K, V>>, taken: nat, since: nat, k: K)
    requires Watches(part, log, taken, since)
    ensures At(Fold(part, log[since..]), k) == if Told(part, log, since, k) then At(Fold(map[], log), k) else None
  {
    FoldAt(part, log[since..], k);
    if LastOn(log[since..], k) >= 0 {
      LastOnSuffix(log, since, k);
      FoldAt(map[], log, k);
    } else if k in part {
      QuietSince(log, taken, since, k);
    }
  }

  /** A watch yields the map exactly when every key live in the end was read or is written after it started. */
  lemma GapExact<K(!new), V(!new)>(part: map<K, V>, log: seq<Op<K, V>>, taken: nat, since: nat)
    requires Watches(part, log, taken, since)
    ensures Fold(part, log[since..]) == Fold(map[], log) <==>
              forall k :: k in Fold(map[], log) ==> Told(part, log, since, k)
  {
    var got, want := Fold(part, log[since..]), Fold(map[], log);
    forall k ensures At(got, k) == if Told(part, log, since, k) then At(want, k) else None {
      WatchAt(part, log, taken, since, k);
    }
    if got == want {
      forall k | k in want ensures Told(part, log, since, k) {
        assert At(got, k) == At(want, k);
      }
    }
    if forall k :: k in want ==> Told(part, log, since, k) {
      forall k ensures SameAt(got, want, k) {
        assert At(got, k) == At(want, k);
      }
      SameEverywhere(got, want);
    }
  }

  /** Why an empty reading is dangerous: one put, watched from after it. */
  lemma LateWatchMisses<K(!new), V(!new)>(k: K, v: V)
    ensures var log := [Put(k, v)];
            && Watches(map[], log, 0, 1)
            && Fold(map[], log) == map[k := v] && Fold(map[], log[1..]) == map[]
  {
    var log: seq<Op<K, V>>, none: map<K, V> := [Put(k, v)], map[];
    assert log[..0] == [] && log[1..] == [];
    assert Fold(none, []) == none;
    assert none[k := v] == map[k := v];
  }

  // Looking at part of the value, or at all keys but one ------------------------------------------

  function MapValues<K, V, W>(f: V -> W, m: map<K, V>): map<K, W> {
    map k | k in m :: f(m[k])
  }

  function MapOp<K, V, W>(f: V -> W, op: Op<K, V>): Op<K, W> {
    match op
    case Put(k, v) => Put(k, f(v))
    case Del(k) => Del(k)
  }

  function MapOps<K, V, W>(f: V -> W, ops: seq<Op<K, V>>): (r: seq<Op<K, W>>)
    ensures |r| == |ops| && forall i :: 0 <= i < |r| ==> r[i] == MapOp(f, ops[i])
  {
    seq(|ops|, i requires 0 <= i < |ops| => MapOp(f, ops[i]))
  }

  lemma {:induction false} FoldMapped<K, V, W>(f: V -> W, m: map<K, V>, ops: seq<Op<K, V>>)
    ensures MapValues(f, Fold(m, ops)) == Fold(MapValues(f, m), MapOps(f, ops))
  {
    if ops != [] {
      var n := |ops| - 1;
      FoldMapped(f, m, ops[..n]);
      assert MapOps(f, ops)[..n] == MapOps(f, ops[..n]);
    }
  }

  lemma MapValuesBut<K, V, W>(f: V -> W, m: map<K, V>, key: K)
    ensures MapValues(f, m - {key}) == MapValues(f, m) - {key}
  {}

  lemma {:induction false} LastOnMapped<K, V, W>(f: V -> W, ops: seq<Op<K, V>>, k: K)
    ensures LastOn(MapOps(f, ops), k) == LastOn(ops, k)
  {
    if ops != [] {
      assert MapOps(f, ops)[..|ops| - 1] == MapOps(f, ops[..|ops| - 1]);
      LastOnMapped(f, ops[..|ops| - 1], k);
    }
  }

  lemma KeepsLastMapped<K(!new), V, W>(f: V -> W, ops: seq<Op<K, V>>, keep: seq<bool>, k: K)
    requires |keep| == |ops| && KeepsLast(ops, keep, k)
    ensures KeepsLast(MapOps(f, ops), keep, k)
  {
    LastOnMapped(f, ops, k);
  }

  lemma LastOnSuffix<K, V>(log: seq<Op<K, V>>, since: nat, k: K)
    requires since <= |log| && LastOn(log[since..], k) >= 0
    ensures LastOn(log, k) == since + LastOn(log[since..], k)
  {
    var i := LastOn(log[since..], k);
    assert log[since..][i] == log[since + i];
    forall j | since + i < j < |log| ensures log[j].key != k {
      assert log[since..][j - since] == log[j];
    }
    LastOnUnique(log, k, since + i);
  }

  function ButKey<K(==), V>(key: K, ops: seq<Op<K, V>>): seq<Op<K, V>> {
    if ops == [] then []
    else
      var n := |ops| - 1;
      ButKey(key, ops[..n]) + (if ops[n].key == key then [] else [ops[n]])
  }

  lemma ApplyBut<K, V>(key: K, m: map<K, V>, op: Op<K, V>)
    ensures Apply(m, op) - {key} == if op.key == key then m - {key} else Apply(m - {key}, op)
  {}

  lemma {:induction false} FoldButKey<K, V>(key: K, m: map<K, V>, ops: seq<Op<K, V>>)
    ensures Fold(m - {key}, ButKey(key, ops)) == Fold(m, ops) - {key}
  {
    if ops != [] {
      var n := |ops| - 1;
      var rest := ButKey(key, ops[..n]);
      FoldButKey(key, m, ops[..n]);
      ApplyBut(key, Fold(m, ops[..n]), ops[n]);
      if ops[n].key == key {
        assert rest + [] == rest;
      } else {
        assert (rest + [ops[n]])[..|rest|] == rest;
      }
    }
  }
}
