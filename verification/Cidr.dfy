/** IPv4 addresses, CIDR blocks and the block arithmetic the subnet allocator relies on.

An address is its u32 value. A block `Net(ip, prefix)` keeps the address it was written with,
exactly as the network type used by the program does: `ip` need not be the first address of the
block. Blocks are cut out of the address space by clearing low bits; `ClearLowFloors` gives the
div-and-mod reading and `MaskedBits` the bit masks. */
module Cidr {
  const ADDRESSES: nat := 0x1_0000_0000

  type Addr = a: int | 0 <= a < 0x1_0000_0000

  type Prefix = p: int | 0 <= p <= 32

  datatype Net = Net(ip: Addr, prefix: Prefix)

  function Pow2(n: nat): (r: nat)
    ensures r >= 1
  {
    if n == 0 then 1 else 2 * Pow2(n - 1)
  }

  lemma {:induction false} Pow2Le(a: nat, b: nat)
    requires a <= b
    ensures Pow2(a) <= Pow2(b)
    decreases b
  {
    if a < b { Pow2Le(a, b - 1); }
  }

  lemma {:induction false} Pow2Sum(a: nat, b: nat)
    ensures Pow2(a + b) == Pow2(a) * Pow2(b)
    decreases a
  {
    if a > 0 {
      Pow2Sum(a - 1, b);
      Associate(2, Pow2(a - 1), Pow2(b));
    }
  }

  lemma Associate(x: nat, y: nat, z: nat)
    ensures x * (y * z) == (x * y) * z
  {}

  lemma Pow2Of32()
    ensures Pow2(16) == 0x1_0000 && Pow2(32) == ADDRESSES
  {
    assert Pow2(8) == 256;
    assert Pow2(16) == 256 * Pow2(8);
    assert Pow2(24) == 256 * Pow2(16);
    assert Pow2(32) == 256 * Pow2(24);
  }

  // Clearing low bits -------------------------------------------------------------------------

  /** `x` with its `k` low bits cleared. */
  function ClearLow(x: nat, k: nat): nat {
    if k == 0 then x else 2 * ClearLow(x / 2, k - 1)
  }

  predicate Aligned(x: nat, k: nat) {
    ClearLow(x, k) == x
  }

  lemma {:induction false} ClearLowBounds(x: nat, k: nat)
    ensures ClearLow(x, k) <= x < ClearLow(x, k) + Pow2(k)
    ensures Aligned(ClearLow(x, k), k)
  {
    if k > 0 { ClearLowBounds(x / 2, k - 1); }
  }

  /** An aligned interval is the set of numbers that clear to its start. */
  lemma {:induction false} ClearsTo(lo: nat, a: nat, k: nat)
    requires Aligned(lo, k)
    ensures ClearLow(a, k) == lo <==> lo <= a < lo + Pow2(k)
  {
    if k > 0 { ClearsTo(lo / 2, a / 2, k - 1); }
  }

  lemma {:induction false} ClearLowEnds(x: nat, k: nat, n: nat)
    requires k <= n && x < Pow2(n)
    ensures ClearLow(x, k) + Pow2(k) <= Pow2(n)
  {
    if k > 0 { ClearLowEnds(x / 2, k - 1, n - 1); } else { ClearLowBounds(x, k); }
  }

  lemma {:induction false} ClearLowCoarser(x: nat, y: nat, j: nat, k: nat)
    requires j <= k && ClearLow(x, j) == ClearLow(y, j)
    ensures ClearLow(x, k) == ClearLow(y, k)
  {
    if j > 0 { ClearLowCoarser(x / 2, y / 2, j - 1, k - 1); }
  }

  lemma {:induction false} AlignedFiner(x: nat, j: nat, k: nat)
    requires j <= k && Aligned(x, k)
    ensures Aligned(x, j)
  {
    if j > 0 { AlignedFiner(x / 2, j - 1, k - 1); }
  }

  lemma {:induction false} AlignedSum(x: nat, y: nat, k: nat)
    requires Aligned(x, k)
    ensures Aligned(y, k) <==> Aligned(x + y, k)
  {
    if k > 0 && (y % 2 == 0) {
      assert (x + y) / 2 == x / 2 + y / 2;
      AlignedSum(x / 2, y / 2, k - 1);
    }
  }

  lemma {:induction false} AlignedPow2(j: nat, k: nat)
    requires k <= j
    ensures Aligned(Pow2(j), k)
  {
    if k > 0 { AlignedPow2(j - 1, k - 1); }
  }

  lemma AlignedTimes256(x: nat, k: nat)
    requires Aligned(x, k)
    ensures Aligned(256 * x, k + 8)
  {
    assert ClearLow(4 * x, k + 2) == 4 * x;
    assert ClearLow(16 * x, k + 4) == 16 * x;
    assert ClearLow(64 * x, k + 6) == 64 * x;
  }

  /** The div-and-mod reading of clearing low bits. */
  lemma {:induction false} ClearLowFloors(x: nat, k: nat)
    ensures ClearLow(x, k) == x - x % Pow2(k)
  {
    if k > 0 {
      ClearLowFloors(x / 2, k - 1);
      HalfMod(x, Pow2(k - 1));
    }
  }

  lemma HalfMod(x: nat, s: nat)
    requires s > 0
    ensures x - x % (2 * s) == 2 * (x / 2 - x / 2 % s)
  {
    var q, r := x / 2 / s, x / 2 % s;
    assert x / 2 == q * s + r;
    var t := 2 * r + x % 2;
    assert x == q * (2 * s) + t && t < 2 * s;
    RemainderUnique(x, q, 2 * s, t);
  }

  lemma RemainderUnique(x: nat, q: nat, s: nat, r: nat)
    requires r < s && x == q * s + r
    ensures x % s == r
  {
    var d := x / s;
    assert x == d * s + x % s;
    if d < q {
      MulLe(d + 1, q, s);
      assert false;
    } else if d > q {
      MulLe(q + 1, d, s);
      assert false;
    }
  }

  lemma MulLe(a: nat, b: nat, s: nat)
    requires a <= b
    ensures a * s <= b * s
    ensures (a + 1) * s == a * s + s
  {}

  // Blocks ------------------------------------------------------------------------------------

  /** Number of addresses in a block of the given prefix length. */
  function Size(prefix: Prefix): (r: nat)
    ensures 1 <= r <= ADDRESSES
  {
    Pow2Le(32 - prefix, 32);
    Pow2Of32();
    Pow2(32 - prefix)
  }

  /** First address of the block of length `prefix` around `ip`. */
  function Floor(ip: Addr, prefix: Prefix): (r: Addr)
    ensures r <= ip < r + Size(prefix)
  {
    ClearLowBounds(ip, 32 - prefix);
    ClearLow(ip, 32 - prefix)
  }

  predicate Canonical(n: Net) {
    n.ip == Floor(n.ip, n.prefix)
  }

  function Network(n: Net): Addr {
    Floor(n.ip, n.prefix)
  }

  function Broadcast(n: Net): (r: Addr)
    ensures r == Network(n) + Size(n.prefix) - 1
  {
    BlockEnds(n.ip, n.prefix);
    Network(n) + Size(n.prefix) - 1
  }

  predicate Contains(n: Net, a: Addr) {
    Floor(a, n.prefix) == Network(n)
  }

  predicate Overlaps(a: Net, b: Net) {
    Contains(b, a.ip) || Contains(b, Broadcast(a)) || Contains(a, b.ip) || Contains(a, Broadcast(b))
  }

  /** No block reaches past the last address. */
  lemma BlockEnds(ip: Addr, prefix: Prefix)
    ensures Floor(ip, prefix) + Size(prefix) <= ADDRESSES
  {
    Pow2Of32();
    ClearLowEnds(ip, 32 - prefix, 32);
  }

  lemma ContainsInterval(n: Net, a: Addr)
    ensures Contains(n, a) <==> Network(n) <= a < Network(n) + Size(n.prefix)
  {
    ClearLowBounds(n.ip, 32 - n.prefix);
    ClearsTo(Network(n), a, 32 - n.prefix);
  }

  /** CIDR blocks are nested or disjoint (section 3.1 of RFC 4632). */
  lemma NestedOrDisjoint(a: Net, b: Net, x: Addr)
    requires a.prefix <= b.prefix
    requires Contains(a, x) && Contains(b, x)
    ensures forall y: Addr :: Contains(b, y) ==> Contains(a, y)
  {
    forall y: Addr | Contains(b, y) ensures Contains(a, y) {
      ClearLowCoarser(x, y, 32 - b.prefix, 32 - a.prefix);
    }
  }

  predicate Share(a: Net, b: Net) {
    exists x: Addr :: Contains(a, x) && Contains(b, x)
  }

  /** The four-way containment test decides exactly whether two blocks share an address. */
  lemma OverlapsIffShare(a: Net, b: Net)
    ensures Overlaps(a, b) <==> Share(a, b)
  {
    ContainsInterval(a, Broadcast(a));
    ContainsInterval(b, Broadcast(b));
    assert Contains(a, a.ip) && Contains(b, b.ip);
    if Share(a, b) {
      var x: Addr :| Contains(a, x) && Contains(b, x);
      if a.prefix <= b.prefix { NestedOrDisjoint(a, b, x); } else { NestedOrDisjoint(b, a, x); }
    }
  }

  /** Two canonical blocks of one length are the same block or share nothing. */
  lemma EqualLengthBlocks(a: Net, b: Net)
    requires Canonical(a) && Canonical(b) && a.prefix == b.prefix
    ensures Share(a, b) <==> a == b
  {
    assert Contains(a, a.ip);
  }

  datatype Stepped = NoNext | Overflow | Next(net: Net)

  /** The block right after `n`; the u32 shift of a /0 and an address past the end both overflow. */
  function NextNetwork(n: Net): (r: Stepped)
    ensures r.Next? ==> r.net.prefix == n.prefix && r.net.ip == n.ip + Size(n.prefix)
    ensures r.Overflow? <==> n.prefix < 32 && n.ip + Size(n.prefix) >= ADDRESSES
  {
    Pow2Of32();
    if n.prefix >= 32 then NoNext
    else if n.prefix == 0 || n.ip + Size(n.prefix) >= ADDRESSES then Overflow
    else Next(Net(n.ip + Size(n.prefix), n.prefix))
  }

  /** Number of subnets of `size` addresses starting at `lo`, `lo + size`, ... and not after `hi`. */
  function SlotCount(lo: nat, hi: nat, size: nat): nat
    requires size > 0
    decreases if hi < lo then 0 else hi - lo + 1
  {
    if hi < lo then 0 else 1 + SlotCount(lo + size, hi, size)
  }

  lemma {:induction false} SlotCountOf(lo: nat, size: nat, n: nat)
    requires size > 0
    ensures SlotCount(lo, lo + n * size, size) == n + 1
    decreases n
  {
    if n == 0 {
      assert SlotCount(lo + size, lo, size) == 0;
    } else {
      MulLe(n - 1, n, size);
      SlotCountOf(lo + size, size, n - 1);
    }
  }

  // Bit masks ---------------------------------------------------------------------------------

  function BitAnd(a: nat, b: nat): nat {
    if a == 0 || b == 0 then 0
    else 2 * BitAnd(a / 2, b / 2) + (if a % 2 == 1 && b % 2 == 1 then 1 else 0)
  }

  function BitOr(a: nat, b: nat): nat {
    if a == 0 then b else if b == 0 then a
    else 2 * BitOr(a / 2, b / 2) + (if a % 2 == 1 || b % 2 == 1 then 1 else 0)
  }

  /** The 32-bit mask with `prefix` leading ones. */
  function Mask(prefix: Prefix): nat {
    ADDRESSES - Size(prefix)
  }

  lemma {:induction false} AndLowOnes(x: nat, n: nat)
    requires x < Pow2(n)
    ensures BitAnd(x, Pow2(n) - 1) == x
  {
    if n > 0 {
      assert (Pow2(n) - 1) / 2 == Pow2(n - 1) - 1;
      AndLowOnes(x / 2, n - 1);
    }
  }

  lemma AndHalves(a: nat, b: nat)
    requires b % 2 == 0
    ensures BitAnd(a, b) == 2 * BitAnd(a / 2, b / 2)
  {}

  lemma {:induction false} AndMask(x: nat, n: nat, k: nat)
    requires x < Pow2(n) && k <= n
    ensures Pow2(k) <= Pow2(n)
    ensures BitAnd(x, Pow2(n) - Pow2(k)) == ClearLow(x, k)
  {
    Pow2Le(k, n);
    if k == 0 {
      AndLowOnes(x, n);
    } else {
      Pow2Le(k - 1, n - 1);
      var y, z := Pow2(n) - Pow2(k), Pow2(n - 1) - Pow2(k - 1);
      assert y == 2 * z && y / 2 == z && y % 2 == 0;
      AndMask(x / 2, n - 1, k - 1);
      AndHalves(x, y);
    }
  }

  lemma {:induction false} OrLowOnes(x: nat, k: nat)
    ensures BitOr(x, Pow2(k) - 1) == ClearLow(x, k) + Pow2(k) - 1
  {
    if x == 0 {
      ClearLowBounds(x, k);
    } else if k > 0 {
      var y := Pow2(k) - 1;
      assert y / 2 == Pow2(k - 1) - 1 && y % 2 == 1 && y > 0;
      OrLowOnes(x / 2, k - 1);
      assert BitOr(x, y) == 2 * BitOr(x / 2, y / 2) + 1;
    }
  }

  lemma MaskAnd(ip: Addr, k: nat, mask: nat)
    requires k <= 32 && mask == ADDRESSES - Pow2(k)
    ensures BitAnd(ip, mask) == ClearLow(ip, k)
  {
    Pow2Of32();
    AndMask(ip, 32, k);
  }

  /** The bridge: masking with u32 bit operations is the floor, or-ing the complement the broadcast. */
  lemma MaskedBits(n: Net)
    ensures BitAnd(n.ip, Mask(n.prefix)) == Network(n)
    ensures BitOr(n.ip, ADDRESSES - 1 - Mask(n.prefix)) == Broadcast(n)
  {
    MaskAnd(n.ip, 32 - n.prefix, Mask(n.prefix));
    OrLowOnes(n.ip, 32 - n.prefix);
  }
}
