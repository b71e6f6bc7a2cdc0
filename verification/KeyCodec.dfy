/** Registry keys: formatting a subnet under the store prefix, and recovering it with the key pattern

      (\d+\.\d+.\d+.\d+)-(\d+)(?:&([a-f\d:]+)-(\d+))?$

searched leftmost and greedily. Its unescaped dots match any character but a line break, and its digits
include the non-ASCII ones, of which `wide` is the set; every result is for any such set. */
module KeyCodec {
  import opened Cidr
  import opened Options

  // Formatting ----------------------------------------------------------------------------------

  function DigitChar(d: nat): char
    requires d < 10
  {
    '0' + d as char
  }

  function Dec(n: nat): string {
    if n < 10 then [DigitChar(n)] else Dec(n / 10) + [DigitChar(n % 10)]
  }

  function Octet(ip: Addr, i: nat): (o: nat)
    requires i < 4
    ensures o < 256
  {
    if i == 0 then ip / 256 / 256 / 256
    else if i == 1 then ip / 256 / 256 % 256
    else if i == 2 then ip / 256 % 256
    else ip % 256
  }

  function FormatIp(ip: Addr): string {
    Dec(Octet(ip, 0)) + "." + (Dec(Octet(ip, 1)) + "." + (Dec(Octet(ip, 2)) + "." + Dec(Octet(ip, 3))))
  }

  function FormatSubnet(net: Net): string {
    FormatIp(net.ip) + "-" + Dec(net.prefix)
  }

  /** Appending a relative segment to a path. */
  function Join(path: string, segment: string): string {
    path + (if path == "" || path[|path| - 1] == '/' then "" else "/") + segment
  }

  function SubnetsDir(storePrefix: string): string {
    Join(storePrefix, "subnets")
  }

  function Key(storePrefix: string, net: Net): string {
    Join(SubnetsDir(storePrefix), FormatSubnet(net))
  }

  // The pattern ---------------------------------------------------------------------------------

  datatype Class = Digit | AnyChar | Hex | Literal(c: char)

  predicate AsciiDigit(c: char) {
    '0' <= c <= '9'
  }

  predicate AnyDigit(c: char, wide: set<char>) {
    AsciiDigit(c) || (c as int >= 128 && c in wide)
  }

  predicate InClass(k: Class, c: char, wide: set<char>) {
    match k
    case Digit => AnyDigit(c, wide)
    case AnyChar => c != '\n'
    case Hex => 'a' <= c <= 'f' || c == ':' || AnyDigit(c, wide)
    case Literal(l) => c == l
  }

  datatype Item = One(k: Class) | Plus(k: Class) | V6Group

  const V6_ITEMS: seq<Item> := [One(Literal('&')), Plus(Hex), One(Literal('-')), Plus(Digit)]

  const PATTERN: seq<Item> :=
    [Plus(Digit), One(Literal('.')), Plus(Digit), One(AnyChar), Plus(Digit), One(AnyChar), Plus(Digit),
     One(Literal('-')), Plus(Digit), V6Group]

  function Cost(items: seq<Item>): nat {
    if items == [] then 0 else (if items[0].V6Group? then 6 else 1) + Cost(items[1..])
  }

  /** End of the longest run of characters of class `k` from `i`. */
  function RunEnd(k: Class, s: string, i: nat, wide: set<char>): (e: nat)
    requires i <= |s|
    ensures i <= e <= |s|
    ensures forall j :: i <= j < e ==> InClass(k, s[j], wide)
    ensures e < |s| ==> !InClass(k, s[e], wide)
    decreases |s| - i
  {
    if i < |s| && InClass(k, s[i], wide) then RunEnd(k, s, i + 1, wide) else i
  }

  /** Backtracking match of `items` from `i` to the end of `s`, greedy first: the position after each item
      matched. */
  function Match(items: seq<Item>, s: string, i: nat, wide: set<char>): Option<seq<nat>>
    requires i <= |s|
    decreases Cost(items), 0
  {
    if items == [] then if i == |s| then Some([]) else None
    else match items[0]
      case One(k) =>
        if i < |s| && InClass(k, s[i], wide) then Prepend(i + 1, Match(items[1..], s, i + 1, wide)) else None
      case Plus(k) => MatchRun(items[1..], s, i, RunEnd(k, s, i, wide), wide)
      case V6Group =>
        assert Cost(V6_ITEMS) == 4 by { CostOfGroup(); }
        var withGroup := Match(V6_ITEMS, s, i, wide);
        if items[1..] == [] && withGroup.Some? then withGroup else Match(items[1..], s, i, wide)
  }

  /** Trying the ends of a run from the longest down to a single character. */
  function MatchRun(rest: seq<Item>, s: string, i: nat, e: nat, wide: set<char>): Option<seq<nat>>
    requires i <= e <= |s|
    decreases Cost(rest), e - i + 1
  {
    if e == i then None
    else
      var here := Match(rest, s, e, wide);
      if here.Some? then Prepend(e, here) else MatchRun(rest, s, i, e - 1, wide)
  }

  function Prepend(i: nat, m: Option<seq<nat>>): Option<seq<nat>> {
    match m
    case Some(ps) => Some([i] + ps)
    case None => None
  }

  lemma CostOfGroup()
    ensures Cost(V6_ITEMS) == 4
  {
    assert V6_ITEMS[1..][1..][1..][1..] == [];
    assert Cost(V6_ITEMS[1..][1..][1..]) == 1;
    assert Cost(V6_ITEMS[1..][1..]) == 2;
    assert Cost(V6_ITEMS[1..]) == 3;
  }

  /** Leftmost match at or after `i`. */
  function Search(s: string, i: nat, wide: set<char>): Option<(nat, seq<nat>)>
    requires i <= |s|
    decreases |s| - i
  {
    match Match(PATTERN, s, i, wide)
    case Some(ps) => Some((i, ps))
    case None => if i < |s| then Search(s, i + 1, wide) else None
  }

  // Parsing -------------------------------------------------------------------------------------

  predicate AllDigits(s: string) {
    forall i :: 0 <= i < |s| ==> AsciiDigit(s[i])
  }

  function ParseNat(s: string): nat
    requires AllDigits(s)
  {
    if s == "" then 0 else 10 * ParseNat(s[..|s| - 1]) + (s[|s| - 1] - '0') as nat
  }

  /** An address octet: one to three digits, no leading zero, at most 255. */
  function ParseOctet(s: string): Option<nat> {
    if 1 <= |s| <= 3 && AllDigits(s) && (|s| == 1 || s[0] != '0') && ParseNat(s) < 256
    then Some(ParseNat(s)) else None
  }

  function Split(s: string, sep: char): (parts: seq<string>)
    ensures parts != []
  {
    if s == "" then [""]
    else
      var rest := Split(s[1..], sep);
      if s[0] == sep then [""] + rest else [[s[0]] + rest[0]] + rest[1..]
  }

  function ParseIp(s: string): Option<Addr> {
    var parts := Split(s, '.');
    if |parts| != 4 then None
    else
      var a, b, c, d := ParseOctet(parts[0]), ParseOctet(parts[1]), ParseOctet(parts[2]), ParseOctet(parts[3]);
      if a.None? || b.None? || c.None? || d.None? then None
      else
        var ip := a.value * 0x100_0000 + b.value * 0x1_0000 + c.value * 0x100 + d.value;
        if ip < ADDRESSES then Some(ip) else None
  }

  /** A prefix length: a u8 in decimal, leading zeros allowed, at most 32. */
  function ParseLength(s: string): Option<Prefix> {
    if s != "" && AllDigits(s) && ParseNat(s) <= 32 then Some(ParseNat(s)) else None
  }

  function ParseNet(ip: string, len: string): Option<Net> {
    var a, l := ParseIp(ip), ParseLength(len);
    if a.Some? && l.Some? then Some(Net(a.value, l.value)) else None
  }

  datatype KeyParts = KeyParts(net: Net, hasV6: bool)

  /** The end a successful run settled on. */
  lemma {:induction false} RunTaken(rest: seq<Item>, s: string, i: nat, e: nat, wide: set<char>) returns (taken: nat)
    requires i <= e <= |s| && MatchRun(rest, s, i, e, wide).Some?
    ensures i < taken <= e && Match(rest, s, taken, wide).Some?
    ensures MatchRun(rest, s, i, e, wide) == Prepend(taken, Match(rest, s, taken, wide))
    decreases e
  {
    if Match(rest, s, e, wide).Some? { taken := e; } else { taken := RunTaken(rest, s, i, e - 1, wide); }
  }

  /** The subnet named by a key: the text up to the dash, and the digits after it. A match has nine positions,
      or thirteen with the IPv6 group, whose text is not looked into. */
  function Extract(key: string, wide: set<char>): Option<KeyParts> {
    match Search(key, 0, wide)
    case None => None
    case Some((i, ps)) =>
      if 9 <= |ps| && i <= ps[6] <= |key| && ps[7] <= ps[8] <= |key| then
        match ParseNet(key[i..ps[6]], key[ps[7]..ps[8]])
        case Some(net) => Some(KeyParts(net, |ps| == 13))
        case None => None
      else None
  }

  // Round trip ----------------------------------------------------------------------------------

  lemma {:induction false} DecParses(n: nat)
    ensures Dec(n) != "" && AllDigits(Dec(n)) && ParseNat(Dec(n)) == n
  {
    if n < 10 {
      assert Dec(n)[..0] == "";
    } else {
      DecParses(n / 10);
      assert Dec(n)[..|Dec(n)| - 1] == Dec(n / 10);
    }
  }

  lemma OctetParses(n: nat)
    requires n < 256
    ensures ParseOctet(Dec(n)) == Some(n)
  {
    DecParses(n);
    if n >= 10 { assert Dec(n / 10)[0] != '0'; }
  }

  lemma {:induction false} SplitFirst(a: string, rest: string, sep: char)
    requires sep !in a
    ensures Split(a + [sep] + rest, sep) == [a] + Split(rest, sep)
  {
    if a == "" {
      assert ([sep] + rest)[1..] == rest;
    } else {
      SplitFirst(a[1..], rest, sep);
      assert (a + [sep] + rest)[1..] == a[1..] + [sep] + rest;
      assert [a[0]] + a[1..] == a;
    }
  }

  lemma {:induction false} SplitNone(a: string, sep: char)
    requires sep !in a
    ensures Split(a, sep) == [a]
  {
    if a != "" {
      SplitNone(a[1..], sep);
      assert [a[0]] + a[1..] == a;
    }
  }

  lemma DecChars(n: nat, c: char)
    requires !AsciiDigit(c)
    ensures c !in Dec(n)
  {
    DecParses(n);
  }

  lemma OctetsRebuild(ip: Addr)
    ensures Octet(ip, 0) * 0x100_0000 + Octet(ip, 1) * 0x1_0000 + Octet(ip, 2) * 0x100 + Octet(ip, 3) == ip
  {}

  lemma SplitQuad(a: string, b: string, c: string, d: string)
    requires '.' !in a && '.' !in b && '.' !in c && '.' !in d
    ensures Split(a + "." + (b + "." + (c + "." + d)), '.') == [a, b, c, d]
  {
    SplitFirst(a, b + "." + (c + "." + d), '.');
    SplitFirst(b, c + "." + d, '.');
    SplitFirst(c, d, '.');
    SplitNone(d, '.');
  }

  lemma IpParses(ip: Addr)
    ensures ParseIp(FormatIp(ip)) == Some(ip)
  {
    DecChars(Octet(ip, 0), '.');
    DecChars(Octet(ip, 1), '.');
    DecChars(Octet(ip, 2), '.');
    DecChars(Octet(ip, 3), '.');
    SplitQuad(Dec(Octet(ip, 0)), Dec(Octet(ip, 1)), Dec(Octet(ip, 2)), Dec(Octet(ip, 3)));
    OctetParses(Octet(ip, 0));
    OctetParses(Octet(ip, 1));
    OctetParses(Octet(ip, 2));
    OctetParses(Octet(ip, 3));
    OctetsRebuild(ip);
  }

  lemma NetParses(net: Net)
    ensures ParseNet(FormatIp(net.ip), Dec(net.prefix)) == Some(net)
  {
    IpParses(net.ip);
    DecParses(net.prefix);
  }

  // Finding the subnet in its key -----------------------------------------------------------------

  /** What is left to match of a formatted subnet: a run of digits and then `after`. */
  predicate DigitsThen(s: string, i: nat, e: nat, wide: set<char>) {
    i < e <= |s| && (forall j :: i <= j < e ==> AnyDigit(s[j], wide))
    && (e < |s| ==> s[e] as int < 128 && !AsciiDigit(s[e]))
  }

  lemma {:induction false} RunEndIs(k: Class, s: string, i: nat, e: nat, wide: set<char>)
    requires i <= e <= |s| && (forall j :: i <= j < e ==> InClass(k, s[j], wide))
    requires e < |s| ==> !InClass(k, s[e], wide)
    ensures RunEnd(k, s, i, wide) == e
    decreases e - i
  {
    if i < e { RunEndIs(k, s, i + 1, e, wide); }
  }

  /** Greedy matching takes the whole run when the rest then matches. */
  lemma MatchDigits(rest: seq<Item>, s: string, i: nat, e: nat, wide: set<char>, ps: seq<nat>)
    requires DigitsThen(s, i, e, wide) && Match(rest, s, e, wide) == Some(ps)
    ensures Match([Plus(Digit)] + rest, s, i, wide) == Some([e] + ps)
  {
    assert ([Plus(Digit)] + rest)[1..] == rest;
    RunEndIs(Digit, s, i, e, wide);
  }

  lemma MatchOne(k: Class, rest: seq<Item>, s: string, i: nat, wide: set<char>, ps: seq<nat>)
    requires i < |s| && InClass(k, s[i], wide) && Match(rest, s, i + 1, wide) == Some(ps)
    ensures Match([One(k)] + rest, s, i, wide) == Some([i + 1] + ps)
  {
    assert ([One(k)] + rest)[1..] == rest;
  }

  /** A run of digits and its separator. */
  lemma MatchField(k: Class, rest: seq<Item>, s: string, i: nat, e: nat, wide: set<char>, ps: seq<nat>)
    requires DigitsThen(s, i, e, wide) && e < |s| && InClass(k, s[e], wide) && Match(rest, s, e + 1, wide) == Some(ps)
    ensures Match([Plus(Digit), One(k)] + rest, s, i, wide) == Some([e, e + 1] + ps)
  {
    MatchOne(k, rest, s, e, wide, ps);
    MatchDigits([One(k)] + rest, s, i, e, wide, [e + 1] + ps);
    assert [Plus(Digit), One(k)] + rest == [Plus(Digit)] + ([One(k)] + rest);
    assert [e, e + 1] + ps == [e] + ([e + 1] + ps);
  }

  /** The pattern for runs of digits separated by characters of the given classes. */
  function FieldItems(seps: seq<Class>): seq<Item> {
    if seps == [] then [Plus(Digit), V6Group] else [Plus(Digit), One(seps[0])] + FieldItems(seps[1..])
  }

  /** `s` from `i` on is such runs, ending at `ends`. */
  predicate FieldsAt(s: string, i: nat, seps: seq<Class>, ends: seq<nat>, wide: set<char>)
    requires |ends| == |seps| + 1
    decreases |seps|
  {
    && DigitsThen(s, i, ends[0], wide)
    && (seps != [] ==>
          && ends[0] < |s| && InClass(seps[0], s[ends[0]], wide)
          && FieldsAt(s, ends[0] + 1, seps[1..], ends[1..], wide))
  }

  function Positions(ends: seq<nat>): seq<nat>
    requires ends != []
  {
    if |ends| == 1 then ends else [ends[0], ends[0] + 1] + Positions(ends[1..])
  }

  /** Fields and then what the group makes of the rest. */
  lemma {:induction false} MatchFields(s: string, i: nat, seps: seq<Class>, ends: seq<nat>,
                                       wide: set<char>, ps: seq<nat>)
    requires |ends| == |seps| + 1 && FieldsAt(s, i, seps, ends, wide)
    requires ends[|seps|] <= |s| && Match([V6Group], s, ends[|seps|], wide) == Some(ps)
    ensures Match(FieldItems(seps), s, i, wide) == Some(Positions(ends) + ps)
    decreases |seps|
  {
    if seps == [] {
      MatchDigits([V6Group], s, i, ends[0], wide, ps);
      assert [Plus(Digit)] + [V6Group] == [Plus(Digit), V6Group];
      assert Positions(ends) == [ends[0]];
    } else {
      var rest := Positions(ends[1..]);
      MatchFields(s, ends[0] + 1, seps[1..], ends[1..], wide, ps);
      MatchField(seps[0], FieldItems(seps[1..]), s, i, ends[0], wide, rest + ps);
      assert [ends[0], ends[0] + 1] + (rest + ps) == ([ends[0], ends[0] + 1] + rest) + ps;
    }
  }

  /** What may follow a subnet in a key: nothing, or an ampersand, hexadecimal text, a dash and digits. */
  datatype Tail = NoTail | V6Tail(address: string, length: string)

  predicate ValidTail(t: Tail, wide: set<char>) {
    t.V6Tail? ==>
      && t.address != "" && (forall j :: 0 <= j < |t.address| ==> InClass(Hex, t.address[j], wide))
      && t.length != "" && (forall j :: 0 <= j < |t.length| ==> AnyDigit(t.length[j], wide))
  }

  function TailText(t: Tail): string {
    match t
    case NoTail => ""
    case V6Tail(address, length) => "&" + address + "-" + length
  }

  function TailEnds(t: Tail, at: nat): seq<nat> {
    match t
    case NoTail => []
    case V6Tail(address, length) =>
      var e := at + 1 + |address|;
      [at + 1, e, e + 1, e + 1 + |length|]
  }

  lemma MatchNoTail(s: string, wide: set<char>)
    ensures Match([V6Group], s, |s|, wide) == Some([])
  {
    assert [V6Group][1..] == [];
    assert Match(V6_ITEMS, s, |s|, wide) == None;
  }

  lemma MatchHex(rest: seq<Item>, s: string, i: nat, e: nat, wide: set<char>, ps: seq<nat>)
    requires i < e < |s| && (forall j :: i <= j < e ==> InClass(Hex, s[j], wide)) && s[e] == '-'
    requires Match(rest, s, e, wide) == Some(ps)
    ensures Match([Plus(Hex)] + rest, s, i, wide) == Some([e] + ps)
  {
    assert ([Plus(Hex)] + rest)[1..] == rest;
    RunEndIs(Hex, s, i, e, wide);
  }

  lemma MatchDashDigits(s: string, e: nat, wide: set<char>)
    requires e + 1 < |s| && s[e] == '-' && forall j :: e < j < |s| ==> AnyDigit(s[j], wide)
    ensures Match([One(Literal('-')), Plus(Digit)], s, e, wide) == Some([e + 1, |s|])
  {
    var none: seq<nat> := [];
    assert Match([], s, |s|, wide) == Some(none);
    MatchDigits([], s, e + 1, |s|, wide, none);
    assert [Plus(Digit)] + [] == [Plus(Digit)] && [|s|] + none == [|s|];
    MatchOne(Literal('-'), [Plus(Digit)], s, e, wide, [|s|]);
    assert [One(Literal('-'))] + [Plus(Digit)] == [One(Literal('-')), Plus(Digit)];
    assert [e + 1] + [|s|] == [e + 1, |s|];
  }

  lemma MatchV6Items(s: string, at: nat, e: nat, wide: set<char>)
    requires at + 1 < e && e + 1 < |s| && s[at] == '&' && s[e] == '-'
    requires forall j :: at < j < e ==> InClass(Hex, s[j], wide)
    requires forall j :: e < j < |s| ==> AnyDigit(s[j], wide)
    ensures Match(V6_ITEMS, s, at, wide) == Some([at + 1, e, e + 1, |s|])
  {
    var rest := [One(Literal('-')), Plus(Digit)];
    MatchDashDigits(s, e, wide);
    MatchHex(rest, s, at + 1, e, wide, [e + 1, |s|]);
    assert [e] + [e + 1, |s|] == [e, e + 1, |s|];
    MatchOne(Literal('&'), [Plus(Hex)] + rest, s, at, wide, [e, e + 1, |s|]);
    assert [One(Literal('&'))] + ([Plus(Hex)] + rest) == V6_ITEMS;
    assert [at + 1] + [e, e + 1, |s|] == [at + 1, e, e + 1, |s|];
  }

  /** From `at` on, `s` is an ampersand, hexadecimal text up to a dash at `e`, and digits. */
  predicate TailAt(s: string, at: nat, e: nat, wide: set<char>) {
    && at + 1 < e && e + 1 < |s| && s[at] == '&' && s[e] == '-'
    && (forall j :: at < j < e ==> InClass(Hex, s[j], wide))
    && (forall j :: e < j < |s| ==> AnyDigit(s[j], wide))
  }

  lemma TailChars(s: string, before: string, t: Tail, wide: set<char>)
    requires t.V6Tail? && ValidTail(t, wide) && s == before + TailText(t)
    ensures |s| == |before| + 2 + |t.address| + |t.length|
    ensures TailAt(s, |before|, |before| + 1 + |t.address|, wide)
  {
    var at, e := |before|, |before| + 1 + |t.address|;
    forall j | at < j < e ensures InClass(Hex, s[j], wide) { assert s[j] == t.address[j - at - 1]; }
    forall j | e < j < |s| ensures AnyDigit(s[j], wide) { assert s[j] == t.length[j - e - 1]; }
  }

  lemma MatchGroup(s: string, at: nat, wide: set<char>)
    requires at <= |s| && Match(V6_ITEMS, s, at, wide).Some?
    ensures Match([V6Group], s, at, wide) == Match(V6_ITEMS, s, at, wide)
  {
    assert [V6Group][1..] == [];
  }

  lemma GroupMatches(s: string, at: nat, e: nat, wide: set<char>)
    requires TailAt(s, at, e, wide)
    ensures Match([V6Group], s, at, wide) == Some([at + 1, e, e + 1, |s|])
  {
    MatchV6Items(s, at, e, wide);
    MatchGroup(s, at, wide);
  }

  lemma TailEndsAre(t: Tail, at: nat, end: nat)
    requires t.V6Tail? && end == at + 2 + |t.address| + |t.length|
    ensures TailEnds(t, at) == [at + 1, at + 1 + |t.address|, at + 2 + |t.address|, end]
  {}

  lemma MatchTailAt(s: string, at: nat, t: Tail, wide: set<char>)
    requires t.V6Tail? && |s| == at + 2 + |t.address| + |t.length| && TailAt(s, at, at + 1 + |t.address|, wide)
    ensures Match([V6Group], s, at, wide) == Some(TailEnds(t, at))
  {
    GroupMatches(s, at, at + 1 + |t.address|, wide);
    TailEndsAre(t, at, |s|);
  }

  lemma MatchV6Tail(s: string, before: string, t: Tail, wide: set<char>)
    requires t.V6Tail? && ValidTail(t, wide) && s == before + TailText(t)
    ensures Match([V6Group], s, |before|, wide) == Some(TailEnds(t, |before|))
  {
    TailChars(s, before, t, wide);
    MatchTailAt(s, |before|, t, wide);
  }

  lemma MatchTail(s: string, before: string, t: Tail, wide: set<char>)
    requires ValidTail(t, wide) && s == before + TailText(t)
    ensures Match([V6Group], s, |before|, wide) == Some(TailEnds(t, |before|))
  {
    if t.V6Tail? { MatchV6Tail(s, before, t, wide); } else { MatchNoTail(s, wide); }
  }

  const SEPARATORS: seq<Class> := [Literal('.'), AnyChar, AnyChar, Literal('-')]

  lemma PatternIsFields()
    ensures PATTERN == FieldItems(SEPARATORS)
  {
    var f4 := FieldItems([]);
    var f3 := FieldItems([Literal('-')]);
    assert [Literal('-')][1..] == [];
    assert f3 == [Plus(Digit), One(Literal('-'))] + f4;
    var f2 := FieldItems([AnyChar, Literal('-')]);
    assert [AnyChar, Literal('-')][1..] == [Literal('-')];
    var f1 := FieldItems([AnyChar, AnyChar, Literal('-')]);
    assert [AnyChar, AnyChar, Literal('-')][1..] == [AnyChar, Literal('-')];
    assert SEPARATORS[1..] == [AnyChar, AnyChar, Literal('-')];
  }

  /** Wildcards are followed by digits, runs are of digits or hex digits, and the group comes last. */
  predicate GuardedAt(items: seq<Item>, j: nat)
    requires j < |items|
  {
    match items[j]
    case One(AnyChar) => j + 1 < |items| && items[j + 1] == Plus(Digit)
    case One(Literal(c)) => c != 's'
    case One(_) => false
    case Plus(k) => k.Digit? || k.Hex?
    case V6Group => j == |items| - 1
  }

  predicate Guarded(items: seq<Item>) {
    forall j :: 0 <= j < |items| ==> GuardedAt(items, j)
  }

  lemma GuardedRest(items: seq<Item>)
    requires Guarded(items) && items != []
    ensures GuardedAt(items, 0) && Guarded(items[1..])
  {
    forall j | 0 <= j < |items[1..]| ensures GuardedAt(items[1..], j) {
      assert GuardedAt(items, j + 1);
    }
  }

  lemma FirstIsDigit(rest: seq<Item>, s: string, i: nat, wide: set<char>)
    requires i <= |s| && rest != [] && rest[0] == Plus(Digit) && Match(rest, s, i, wide).Some?
    ensures i < |s| && InClass(Digit, s[i], wide)
  {
    var e := RunEnd(Digit, s, i, wide);
  }

  /** No match reaches over the letters "su". */
  lemma {:induction false} NoMatchOverLetters(items: seq<Item>, s: string, i: nat, k: nat, wide: set<char>)
    requires Guarded(items) && i <= k && k + 1 < |s| && s[k] == 's' && s[k + 1] == 'u'
    ensures Match(items, s, i, wide) == None
    decreases Cost(items)
  {
    if items != [] && Match(items, s, i, wide).Some? {
      GuardedRest(items);
      match items[0] {
        case One(c) =>
          if i == k {
            FirstIsDigit(items[1..], s, i + 1, wide);
          } else {
            NoMatchOverLetters(items[1..], s, i + 1, k, wide);
          }
        case Plus(c) =>
          var e := RunTaken(items[1..], s, i, RunEnd(c, s, i, wide), wide);
          assert !InClass(c, s[k], wide);
          assert e <= k;
          NoMatchOverLetters(items[1..], s, e, k, wide);
        case V6Group =>
          CostOfGroup();
          NoMatchOverLetters(V6_ITEMS, s, i, k, wide);
          NoMatchOverLetters(items[1..], s, i, k, wide);
      }
    }
  }

  lemma NoMatchOffDigit(s: string, i: nat, wide: set<char>)
    requires i < |s| && !InClass(Digit, s[i], wide)
    ensures Match(PATTERN, s, i, wide) == None
  {
    assert RunEnd(Digit, s, i, wide) == i;
  }

  lemma {:induction false} SearchFinds(s: string, i: nat, at: nat, wide: set<char>)
    requires i <= at <= |s| && Match(PATTERN, s, at, wide).Some?
    requires forall j :: i <= j < at ==> Match(PATTERN, s, j, wide) == None
    ensures Search(s, i, wide) == Some((at, Match(PATTERN, s, at, wide).value))
    decreases at - i
  {
    if i < at { SearchFinds(s, i + 1, at, wide); }
  }

  // The formatted key -----------------------------------------------------------------------------

  predicate Numeral(d: string) {
    d != "" && AllDigits(d)
  }

  /** A run of digits as the pattern sees it. */
  predicate DigitRun(d: string, wide: set<char>) {
    d != "" && forall j :: 0 <= j < |d| ==> AnyDigit(d[j], wide)
  }

  /** A run of digits inside a longer string. */
  lemma DigitRunAt(s: string, before: string, d: string, after: string, wide: set<char>)
    requires s == before + d + after
    requires DigitRun(d, wide) && (after != "" ==> after[0] as int < 128 && !AsciiDigit(after[0]))
    ensures DigitsThen(s, |before|, |before| + |d|, wide)
    ensures after != "" ==> |before| + |d| < |s| && s[|before| + |d|] == after[0]
  {
    forall j | |before| <= j < |before| + |d| ensures AnyDigit(s[j], wide) {
      assert s[j] == d[j - |before|];
    }
  }

  /** Runs of digits with separators between them. */
  function JoinFields(fields: seq<string>, cs: string): string
    requires |fields| == |cs| + 1
    decreases |cs|
  {
    if cs == "" then fields[0] else fields[0] + [cs[0]] + JoinFields(fields[1..], cs[1..])
  }

  function FieldEnds(start: nat, fields: seq<string>): seq<nat>
    requires fields != []
    decreases |fields|
  {
    var e := start + |fields[0]|;
    if |fields| == 1 then [e] else [e] + FieldEnds(e + 1, fields[1..])
  }

  lemma {:induction false} FieldEndsCount(start: nat, fields: seq<string>)
    requires fields != []
    ensures |FieldEnds(start, fields)| == |fields|
    decreases |fields|
  {
    if |fields| > 1 { FieldEndsCount(start + |fields[0]| + 1, fields[1..]); }
  }

  predicate Separates(seps: seq<Class>, cs: string, wide: set<char>) {
    && |seps| == |cs|
    && forall j :: 0 <= j < |cs| ==> InClass(seps[j], cs[j], wide) && cs[j] as int < 128 && !AsciiDigit(cs[j])
  }

  lemma Regroup(before: string, d: string, c: char, rest: string, after: string)
    ensures before + (d + [c] + rest) + after == before + d + ([c] + rest + after)
    ensures before + (d + [c] + rest) + after == (before + d + [c]) + rest + after
    ensures |d + [c] + rest| == |d| + 1 + |rest| && |before + d + [c]| == |before| + |d| + 1
  {}

  /** A field, its separator and what follows, as they stand in the whole string. */
  lemma FieldStands(s: string, before: string, d: string, c: char, rest: string, after: string, wide: set<char>)
    requires s == before + (d + [c] + rest) + after && DigitRun(d, wide) && c as int < 128 && !AsciiDigit(c)
    ensures s == (before + d + [c]) + rest + after && |before + d + [c]| == |before| + |d| + 1
    ensures DigitsThen(s, |before|, |before| + |d|, wide) && |before| + |d| < |s| && s[|before| + |d|] == c
  {
    Regroup(before, d, c, rest, after);
    DigitRunAt(s, before, d, [c] + rest + after, wide);
  }

  lemma LastField(s: string, before: string, d: string, after: string, seps: seq<Class>, wide: set<char>)
    requires s == before + d + after && DigitRun(d, wide) && seps == []
    requires after != "" ==> after[0] as int < 128 && !AsciiDigit(after[0])
    ensures FieldsAt(s, |before|, seps, [|before| + |d|], wide)
  {
    DigitRunAt(s, before, d, after, wide);
  }

  lemma {:induction false} FieldEndsLast(start: nat, fields: seq<string>, cs: string)
    requires |fields| == |cs| + 1
    ensures |FieldEnds(start, fields)| == |fields|
    ensures FieldEnds(start, fields)[|cs|] == start + |JoinFields(fields, cs)|
    decreases |cs|
  {
    FieldEndsCount(start, fields);
    if cs != "" { FieldEndsLast(start + |fields[0]| + 1, fields[1..], cs[1..]); }
  }

  lemma {:induction false} FieldsJoined(s: string, before: string, fields: seq<string>, seps: seq<Class>,
                                        cs: string, after: string, wide: set<char>)
    requires |fields| == |cs| + 1 && Separates(seps, cs, wide)
    requires forall j :: 0 <= j < |fields| ==> DigitRun(fields[j], wide)
    requires s == before + JoinFields(fields, cs) + after
    requires after != "" ==> after[0] as int < 128 && !AsciiDigit(after[0])
    ensures |FieldEnds(|before|, fields)| == |fields|
    ensures FieldsAt(s, |before|, seps, FieldEnds(|before|, fields), wide)
    decreases |cs|
  {
    FieldEndsCount(|before|, fields);
    var d := fields[0];
    if cs == "" {
      LastField(s, before, d, after, seps, wide);
      assert FieldEnds(|before|, fields) == [|before| + |d|];
    } else {
      var rest := JoinFields(fields[1..], cs[1..]);
      FieldStands(s, before, d, cs[0], rest, after, wide);
      assert Separates(seps[1..], cs[1..], wide);
      assert forall j :: 0 <= j < |fields[1..]| ==> fields[1..][j] == fields[j + 1];
      FieldsJoined(s, before + d + [cs[0]], fields[1..], seps[1..], cs[1..], after, wide);
    }
  }

  /** Four runs of digits with a dot and two more separators, a dash, and another run. */
  datatype SubnetText = SubnetText(a: string, b: string, x: char, c: string, y: char, d: string, len: string)

  predicate ValidText(t: SubnetText, wide: set<char>) {
    && DigitRun(t.a, wide) && DigitRun(t.b, wide) && DigitRun(t.c, wide) && DigitRun(t.d, wide)
    && DigitRun(t.len, wide)
    && t.x as int < 128 && t.y as int < 128 && !AsciiDigit(t.x) && !AsciiDigit(t.y) && t.x != '\n' && t.y != '\n'
  }

  function AddressText(t: SubnetText): string {
    t.a + "." + (t.b + [t.x] + (t.c + [t.y] + t.d))
  }

  function WholeText(t: SubnetText): string {
    AddressText(t) + "-" + t.len
  }

  function Fields(t: SubnetText): seq<string> {
    [t.a, t.b, t.c, t.d, t.len]
  }

  function Marks(t: SubnetText): string {
    ['.', t.x, t.y, '-']
  }

  lemma TextFields(t: SubnetText)
    ensures WholeText(t) == JoinFields(Fields(t), Marks(t))
  {
    var f, m := Fields(t), Marks(t);
    assert f[3..][1..] == f[4..] && m[3..][1..] == "";
    assert JoinFields(f[4..], "") == t.len;
    var d := JoinFields(f[3..], m[3..]);
    assert d == t.d + "-" + t.len;
    assert f[2..][1..] == f[3..] && m[2..][1..] == m[3..];
    var c := JoinFields(f[2..], m[2..]);
    assert c == t.c + [t.y] + d;
    assert f[1..][1..] == f[2..] && m[1..][1..] == m[2..];
    var b := JoinFields(f[1..], m[1..]);
    assert b == t.b + [t.x] + c;
    assert JoinFields(f, m) == t.a + "." + b;
  }

  lemma {:induction false} PositionsAt(ends: seq<nat>, j: nat)
    requires j < |ends|
    ensures |Positions(ends)| == 2 * |ends| - 1
    ensures Positions(ends)[2 * j] == ends[j]
    ensures j + 1 < |ends| ==> Positions(ends)[2 * j + 1] == ends[j] + 1
  {
    if |ends| > 1 { PositionsAt(ends[1..], if j == 0 then 0 else j - 1); }
  }

  lemma TextEnds(start: nat, t: SubnetText)
    ensures var e := FieldEnds(start, Fields(t));
            |e| == 5 && e[3] == start + |AddressText(t)| && e[4] == start + |WholeText(t)|
  {
    var f := Fields(t);
    var e := FieldEnds(start, f);
    FieldEndsCount(start, f);
    assert f[1..][1..] == f[2..] && f[2..][1..] == f[3..] && f[3..][1..] == f[4..];
    var e1 := FieldEnds(e[0] + 1, f[1..]);
    var e2 := FieldEnds(e1[0] + 1, f[2..]);
    var e3 := FieldEnds(e2[0] + 1, f[3..]);
    var e4 := FieldEnds(e3[0] + 1, f[4..]);
    assert e == [e[0]] + e1 && e1 == [e1[0]] + e2 && e2 == [e2[0]] + e3 && e3 == [e3[0]] + e4 && |e4| == 1;
  }

  /** Everything in a key before the subnet: ends in "subnets/". */
  function Lead(storePrefix: string): string {
    storePrefix + (if storePrefix == "" || storePrefix[|storePrefix| - 1] == '/' then "" else "/") + "subnets/"
  }

  lemma KeyIs(storePrefix: string, net: Net)
    ensures Key(storePrefix, net) == Lead(storePrefix) + FormatSubnet(net)
  {
    var dir := SubnetsDir(storePrefix);
    assert dir[|dir| - 1] == "subnets"[6];
    assert dir + "/" == Lead(storePrefix);
  }

  lemma SubnetExample()
    ensures FormatSubnet(Net(0x0A01_0203, 24)) == "10.1.2.3-24"
  {
    assert Dec(1) == "1" && Dec(2) == "2" && Dec(3) == "3";
    assert Dec(10) == "10" && Dec(24) == "24";
  }

  /** A key spelled out. */
  lemma KeyExample()
    ensures Key("/coreos.com/network", Net(0x0A01_0203, 24)) == "/coreos.com/network/subnets/10.1.2.3-24"
  {
    SubnetExample();
    assert "/coreos.com/network"[|"/coreos.com/network"| - 1] == 'k';
    KeyIs("/coreos.com/network", Net(0x0A01_0203, 24));
  }

  /** No match starts before the subnet. */
  lemma NoEarlyMatch(before: string, rest: string, i: nat, wide: set<char>)
    requires i < |before| + 8
    ensures Match(PATTERN, before + "subnets/" + rest, i, wide) == None
  {
    var s := before + "subnets/" + rest;
    var k := |before|;
    assert s[k] == 's' && s[k + 1] == 'u';
    if i <= k {
      assert Guarded(PATTERN);
      NoMatchOverLetters(PATTERN, s, i, k, wide);
    } else {
      assert s[i] == "subnets/"[i - k];
      NoMatchOffDigit(s, i, wide);
    }
  }

  lemma TextFieldsAt(lead: string, t: SubnetText, after: string, wide: set<char>)
    requires ValidText(t, wide) && (after != "" ==> after[0] as int < 128 && !AsciiDigit(after[0]))
    ensures var ends := FieldEnds(|lead|, Fields(t));
            && |ends| == 5 && ends[4] == |lead + WholeText(t)| == |lead| + |WholeText(t)|
            && FieldsAt(lead + WholeText(t) + after, |lead|, SEPARATORS, ends, wide)
  {
    TextFields(t);
    MarksSeparate(t, wide);
    FieldEndsLast(|lead|, Fields(t), Marks(t));
    FieldsJoined(lead + WholeText(t) + after, lead, Fields(t), SEPARATORS, Marks(t), after, wide);
  }

  /** The string from `at` on is the text and then the tail, as the matcher sees it. */
  predicate ReadsAs(s: string, at: nat, t: SubnetText, tail: Tail, wide: set<char>) {
    var ends := FieldEnds(at, Fields(t));
    && |ends| == 5 && ends[4] == at + |WholeText(t)| <= |s|
    && FieldsAt(s, at, SEPARATORS, ends, wide)
    && Match([V6Group], s, ends[4], wide) == Some(TailEnds(tail, ends[4]))
  }

  lemma TextReads(s: string, lead: string, t: SubnetText, tail: Tail, wide: set<char>)
    requires ValidText(t, wide) && ValidTail(tail, wide)
    requires s == lead + WholeText(t) + TailText(tail)
    ensures ReadsAs(s, |lead|, t, tail, wide)
  {
    TextFieldsAt(lead, t, TailText(tail), wide);
    MatchTail(s, lead + WholeText(t), tail, wide);
  }

  lemma FieldsMatch(s: string, at: nat, t: SubnetText, tail: Tail, wide: set<char>, items: seq<Item>)
    requires at <= |s| && items == FieldItems(SEPARATORS) && ReadsAs(s, at, t, tail, wide)
    ensures Match(items, s, at, wide)
            == Some(Positions(FieldEnds(at, Fields(t))) + TailEnds(tail, at + |WholeText(t)|))
  {
    var ends := FieldEnds(at, Fields(t));
    MatchFields(s, at, SEPARATORS, ends, wide, TailEnds(tail, ends[4]));
  }

  lemma MarksSeparate(t: SubnetText, wide: set<char>)
    requires ValidText(t, wide)
    ensures Separates(SEPARATORS, Marks(t), wide)
  {}

  /** The pattern matches nowhere before `at`. */
  predicate NoMatchBefore(key: string, at: nat, wide: set<char>)
    requires at <= |key|
  {
    forall j :: 0 <= j < at ==> Match(PATTERN, key, j, wide) == None
  }

  lemma NoneBefore(key: string, storePrefix: string, text: string, rest: string, wide: set<char>)
    requires key == Lead(storePrefix) + text + rest
    ensures NoMatchBefore(key, |Lead(storePrefix)|, wide)
  {
    var lead := Lead(storePrefix);
    var before := lead[..|lead| - 8];
    assert lead == before + "subnets/";
    Assoc(lead, text, rest);
    forall j | 0 <= j < |lead| ensures Match(PATTERN, key, j, wide) == None {
      NoEarlyMatch(before, text + rest, j, wide);
    }
  }

  lemma SearchReads(key: string, at: nat, t: SubnetText, tail: Tail, wide: set<char>)
    requires at <= |key| && ReadsAs(key, at, t, tail, wide) && NoMatchBefore(key, at, wide)
    ensures Search(key, 0, wide)
            == Some((at, Positions(FieldEnds(at, Fields(t))) + TailEnds(tail, at + |WholeText(t)|)))
  {
    PatternIsFields();
    FieldsMatch(key, at, t, tail, wide, PATTERN);
    SearchFinds(key, 0, at, wide);
  }

  lemma Assoc(a: string, b: string, c: string)
    ensures (a + b) + c == a + (b + c)
  {}

  lemma TextSlices(lead: string, x: string, y: string, after: string)
    ensures var key := lead + (x + "-" + y) + after;
            && |key| >= |lead| + |x| + 1 + |y|
            && key[|lead|..|lead| + |x|] == x && key[|lead| + |x| + 1..|lead| + |x| + 1 + |y|] == y
  {}

  /** Where a search has put the two halves. */
  lemma TextPositions(start: nat, t: SubnetText, tail: Tail)
    ensures var ps := Positions(FieldEnds(start, Fields(t))) + TailEnds(tail, start + |WholeText(t)|);
            && |ps| == (if tail.V6Tail? then 13 else 9)
            && ps[6] == start + |AddressText(t)| && ps[7] == ps[6] + 1 && ps[8] == ps[7] + |t.len|
  {
    var ends := FieldEnds(start, Fields(t));
    TextEnds(start, t);
    PositionsAt(ends, 3);
    PositionsAt(ends, 4);
  }

  lemma ExtractOf(key: string, wide: set<char>, i: nat, ps: seq<nat>, address: string, len: string)
    requires Search(key, 0, wide) == Some((i, ps)) && |ps| >= 9
    requires i <= ps[6] <= |key| && ps[7] <= ps[8] <= |key|
    requires key[i..ps[6]] == address && key[ps[7]..ps[8]] == len
    ensures Extract(key, wide) ==
              match ParseNet(address, len)
              case Some(net) => Some(KeyParts(net, |ps| == 13))
              case None => None
  {}

  lemma FoundParses(key: string, at: nat, t: SubnetText, tail: Tail, wide: set<char>)
    requires Search(key, 0, wide)
             == Some((at, Positions(FieldEnds(at, Fields(t))) + TailEnds(tail, at + |WholeText(t)|)))
    requires HalvesAt(key, at, t)
    ensures Extract(key, wide) ==
              match ParseNet(AddressText(t), t.len)
              case Some(net) => Some(KeyParts(net, tail.V6Tail?))
              case None => None
  {
    TextPositions(at, t, tail);
    ExtractOf(key, wide, at, Positions(FieldEnds(at, Fields(t))) + TailEnds(tail, at + |WholeText(t)|),
              AddressText(t), t.len);
  }

  /** The two halves of the text stand at `at`, a character apart. */
  predicate HalvesAt(key: string, at: nat, t: SubnetText) {
    var e := at + |AddressText(t)|;
    && e + 1 + |t.len| <= |key|
    && key[at..e] == AddressText(t) && key[e + 1..e + 1 + |t.len|] == t.len
  }

  lemma ReadingParses(key: string, at: nat, t: SubnetText, tail: Tail, wide: set<char>)
    requires at <= |key| && ReadsAs(key, at, t, tail, wide) && NoMatchBefore(key, at, wide) && HalvesAt(key, at, t)
    ensures Extract(key, wide) ==
              match ParseNet(AddressText(t), t.len)
              case Some(net) => Some(KeyParts(net, tail.V6Tail?))
              case None => None
  {
    SearchReads(key, at, t, tail, wide);
    FoundParses(key, at, t, tail, wide);
  }

  lemma TextStands(key: string, storePrefix: string, t: SubnetText, tail: Tail, wide: set<char>)
    requires key == Lead(storePrefix) + WholeText(t) + TailText(tail)
    ensures NoMatchBefore(key, |Lead(storePrefix)|, wide) && HalvesAt(key, |Lead(storePrefix)|, t)
  {
    NoneBefore(key, storePrefix, WholeText(t), TailText(tail), wide);
    TextSlices(Lead(storePrefix), AddressText(t), t.len, TailText(tail));
  }

  /** Whatever text of the key's shape follows the directory, under every store prefix: the parser answers the
      subnet its two halves parse to, and whether an IPv6 part follows, or nothing when they parse to none. */
  lemma TextParses(key: string, storePrefix: string, t: SubnetText, tail: Tail, wide: set<char>)
    requires ValidText(t, wide) && ValidTail(tail, wide)
    requires key == Lead(storePrefix) + WholeText(t) + TailText(tail)
    ensures Extract(key, wide) ==
              match ParseNet(AddressText(t), t.len)
              case Some(net) => Some(KeyParts(net, tail.V6Tail?))
              case None => None
  {
    TextReads(key, Lead(storePrefix), t, tail, wide);
    TextStands(key, storePrefix, t, tail, wide);
    ReadingParses(key, |Lead(storePrefix)|, t, tail, wide);
  }

  function TextOf(net: Net): SubnetText {
    SubnetText(Dec(Octet(net.ip, 0)), Dec(Octet(net.ip, 1)), '.', Dec(Octet(net.ip, 2)), '.',
               Dec(Octet(net.ip, 3)), Dec(net.prefix))
  }

  lemma TextOfNet(net: Net, wide: set<char>)
    ensures ValidText(TextOf(net), wide) && AddressText(TextOf(net)) == FormatIp(net.ip)
    ensures WholeText(TextOf(net)) == FormatSubnet(net)
  {
    DecParses(Octet(net.ip, 0));
    DecParses(Octet(net.ip, 1));
    DecParses(Octet(net.ip, 2));
    DecParses(Octet(net.ip, 3));
    DecParses(net.prefix);
  }

  /** The parser recovers every subnet from its key, under every store prefix, with or without an IPv6 part. */
  lemma KeyRoundTrip(storePrefix: string, net: Net, tail: Tail, wide: set<char>)
    requires ValidTail(tail, wide)
    ensures Extract(Key(storePrefix, net) + TailText(tail), wide) == Some(KeyParts(net, tail.V6Tail?))
  {
    TextOfNet(net, wide);
    KeyIs(storePrefix, net);
    TextParses(Key(storePrefix, net) + TailText(tail), storePrefix, TextOf(net), tail, wide);
    NetParses(net);
  }

  /** A key with an IPv6 part. */
  lemma V6Example(wide: set<char>)
    ensures Extract("subnets/10.1.2.3-24&fc00:9-64", wide) == Some(KeyParts(Net(0x0A01_0203, 24), true))
  {
    var net, tail := Net(0x0A01_0203, 24), V6Tail("fc00:9", "64");
    V6Text();
    KeyRoundTrip("", net, tail, wide);
  }

  lemma PlainKey()
    ensures Key("", Net(0x0A01_0203, 24)) == "subnets/10.1.2.3-24"
  {
    KeyIs("", Net(0x0A01_0203, 24));
    SubnetExample();
  }

  lemma V6Text()
    ensures Key("", Net(0x0A01_0203, 24)) + TailText(V6Tail("fc00:9", "64")) == "subnets/10.1.2.3-24&fc00:9-64"
  {
    PlainKey();
    assert TailText(V6Tail("fc00:9", "64")) == "&fc00:9-64";
    assert "subnets/10.1.2.3-24" + "&fc00:9-64" == "subnets/10.1.2.3-24&fc00:9-64";
  }

  /** A key whose separators are not all dots matches, and then does not parse. */
  lemma WildcardExample(wide: set<char>)
    ensures Extract("subnets/10.1x2.3-24", wide) == None
  {
    var t := SubnetText("10", "1", 'x', "2", '.', "3", "24");
    assert "subnets/10.1x2.3-24" == Lead("") + WholeText(t) + TailText(NoTail);
    TextParses("subnets/10.1x2.3-24", "", t, NoTail, wide);
    NotAnAddress(AddressText(t), 4, 'x');
  }

  /** A digit outside ASCII is a digit to the pattern, though not to the address parser: the key is refused, where
      leaving it aside would have found 1.2.3.4/24. */
  lemma WideDigitRefused()
    ensures Extract("subnets/\U{0663}1.2.3.4-24", {'\U{0663}'}) == None
  {
    var t := SubnetText("\U{0663}1", "2", '.', "3", '.', "4", "24");
    assert "subnets/\U{0663}1.2.3.4-24" == Lead("") + WholeText(t) + TailText(NoTail);
    TextParses("subnets/\U{0663}1.2.3.4-24", "", t, NoTail, {'\U{0663}'});
    NotAnAddress(AddressText(t), 0, '\U{0663}');
  }

  lemma NotAnAddress(s: string, j: nat, c: char)
    requires j < |s| && s[j] == c && !AsciiDigit(c) && c != '.'
    ensures ParseIp(s) == None
  {
    if ParseIp(s).Some? {
      ParseIpIff(s, ParseIp(s).value);
      AddressChars(ParseIp(s).value, c);
    }
  }

  lemma AddressChars(ip: Addr, c: char)
    requires !AsciiDigit(c) && c != '.'
    ensures c !in FormatIp(ip)
  {
    DecChars(Octet(ip, 0), c);
    DecChars(Octet(ip, 1), c);
    DecChars(Octet(ip, 2), c);
    DecChars(Octet(ip, 3), c);
  }

  // What the halves parse to ------------------------------------------------------------------------

  lemma OctetIff(s: string, n: nat)
    ensures ParseOctet(s) == Some(n) <==> n < 256 && s == Dec(n)
  {
    if n < 256 && s == Dec(n) {
      OctetParses(n);
    } else if ParseOctet(s) == Some(n) {
      NumeralIs(s, n);
    }
  }

  lemma NumeralIs(s: string, n: nat)
    requires 1 <= |s| <= 3 && AllDigits(s) && (|s| == 1 || s[0] != '0') && ParseNat(s) == n
    ensures s == Dec(n)
  {
    if |s| == 1 { OneDigit(s); } else if |s| == 2 { TwoDigits(s); } else { ThreeDigits(s); }
  }

  lemma OneDigit(s: string)
    requires |s| == 1 && AllDigits(s)
    ensures ParseNat(s) < 10 && s == Dec(ParseNat(s))
  {
    assert s[..0] == "" && ParseNat("") == 0;
  }

  lemma TwoDigits(s: string)
    requires |s| == 2 && AllDigits(s) && s[0] != '0'
    ensures 10 <= ParseNat(s) < 100 && s == Dec(ParseNat(s))
  {
    OneDigit(s[..1]);
    assert ParseNat(s[..1]) != 0;
    assert ParseNat(s) / 10 == ParseNat(s[..1]);
    assert s == s[..1] + [s[1]];
  }

  lemma ThreeDigits(s: string)
    requires |s| == 3 && AllDigits(s) && s[0] != '0'
    ensures s == Dec(ParseNat(s))
  {
    TwoDigits(s[..2]);
    assert ParseNat(s) / 10 == ParseNat(s[..2]);
    assert s == s[..2] + [s[2]];
  }

  function JoinParts(parts: seq<string>, sep: char): string
    requires parts != []
  {
    if |parts| == 1 then parts[0] else parts[0] + [sep] + JoinParts(parts[1..], sep)
  }

  lemma {:induction false} SplitJoins(s: string, sep: char)
    ensures JoinParts(Split(s, sep), sep) == s
  {
    if s != "" {
      var rest := Split(s[1..], sep);
      SplitJoins(s[1..], sep);
      if s[0] == sep {
        assert ([""] + rest)[1..] == rest;
      } else {
        assert ([[s[0]] + rest[0]] + rest[1..])[1..] == rest[1..];
      }
    }
  }

  lemma QuadJoins(parts: seq<string>)
    requires |parts| == 4
    ensures JoinParts(parts, '.') == parts[0] + "." + (parts[1] + "." + (parts[2] + "." + parts[3]))
  {
    assert parts[1..][1..] == parts[2..] && parts[2..][1..] == parts[3..];
    assert JoinParts(parts[3..], '.') == parts[3];
    assert JoinParts(parts[2..], '.') == parts[2] + "." + parts[3];
    assert JoinParts(parts[1..], '.') == parts[1] + "." + (parts[2] + "." + parts[3]);
  }

  lemma OctetsOf(a: nat, b: nat, c: nat, d: nat)
    requires a < 256 && b < 256 && c < 256 && d < 256
    ensures var ip := a * 0x100_0000 + b * 0x1_0000 + c * 0x100 + d;
            ip < ADDRESSES && Octet(ip, 0) == a && Octet(ip, 1) == b && Octet(ip, 2) == c && Octet(ip, 3) == d
  {}

  /** An address is read from its own text and from no other. */
  lemma ParseIpIff(s: string, ip: Addr)
    ensures ParseIp(s) == Some(ip) <==> s == FormatIp(ip)
  {
    if s == FormatIp(ip) { IpParses(ip); }
    if ParseIp(s) == Some(ip) { ParsedIp(s, ip); }
  }

  lemma ParsedIp(s: string, ip: Addr)
    requires ParseIp(s) == Some(ip)
    ensures s == FormatIp(ip)
  {
    var parts := Split(s, '.');
    SplitJoins(s, '.');
    QuadJoins(parts);
    var a, b := ParseOctet(parts[0]).value, ParseOctet(parts[1]).value;
    var c, d := ParseOctet(parts[2]).value, ParseOctet(parts[3]).value;
    OctetIff(parts[0], a);
    OctetIff(parts[1], b);
    OctetIff(parts[2], c);
    OctetIff(parts[3], d);
    OctetsOf(a, b, c, d);
  }

  /** A subnet is read exactly from its address's text and a numeral for its length, leading zeros allowed. */
  lemma ParseNetIff(ip: string, len: string, net: Net)
    ensures ParseNet(ip, len) == Some(net) <==>
              ip == FormatIp(net.ip) && Numeral(len) && ParseNat(len) == net.prefix
  {
    ParseIpIff(ip, net.ip);
    if ParseIp(ip).Some? { ParseIpIff(ip, ParseIp(ip).value); }
  }

  // Nothing else is accepted -------------------------------------------------------------------------

  /** From `i` on, `s` is spelled out by the items, ending at the positions given and at its own end. */
  predicate Spells(items: seq<Item>, ps: seq<nat>, s: string, i: nat, wide: set<char>)
    decreases Cost(items)
  {
    if items == [] then ps == [] && i == |s|
    else match items[0]
      case One(k) =>
        && i < |s| && InClass(k, s[i], wide) && ps != [] && ps[0] == i + 1
        && Spells(items[1..], ps[1..], s, i + 1, wide)
      case Plus(k) =>
        && ps != [] && i < ps[0] <= |s| && (forall j :: i <= j < ps[0] ==> InClass(k, s[j], wide))
        && Spells(items[1..], ps[1..], s, ps[0], wide)
      case V6Group =>
        assert Cost(V6_ITEMS) == 4 by { CostOfGroup(); }
        (items[1..] == [] && Spells(V6_ITEMS, ps, s, i, wide)) || Spells(items[1..], ps, s, i, wide)
  }

  lemma {:induction false} MatchSpells(items: seq<Item>, s: string, i: nat, wide: set<char>)
    requires i <= |s| && Match(items, s, i, wide).Some?
    ensures Spells(items, Match(items, s, i, wide).value, s, i, wide)
    decreases Cost(items)
  {
    if items != [] {
      var ps := Match(items, s, i, wide).value;
      match items[0] {
        case One(k) =>
          MatchSpells(items[1..], s, i + 1, wide);
          assert ps[1..] == Match(items[1..], s, i + 1, wide).value;
        case Plus(k) =>
          var e := RunTaken(items[1..], s, i, RunEnd(k, s, i, wide), wide);
          MatchSpells(items[1..], s, e, wide);
          assert ps[1..] == Match(items[1..], s, e, wide).value;
        case V6Group =>
          CostOfGroup();
          if items[1..] == [] && Match(V6_ITEMS, s, i, wide).Some? {
            MatchSpells(V6_ITEMS, s, i, wide);
          } else {
            MatchSpells(items[1..], s, i, wide);
          }
      }
    }
  }

  /** Where the items from the `k`th on begin. */
  function Start(ps: seq<nat>, i: nat, k: nat): nat
    requires k <= |ps|
  {
    if k == 0 then i else ps[k - 1]
  }

  lemma {:induction false} SpellsRest(items: seq<Item>, ps: seq<nat>, s: string, i: nat, k: nat, wide: set<char>)
    requires Spells(items, ps, s, i, wide) && k <= |items| && forall j :: 0 <= j < k ==> !items[j].V6Group?
    ensures k <= |ps| && i <= Start(ps, i, k)
    ensures Spells(items[k..], ps[k..], s, Start(ps, i, k), wide)
    decreases k
  {
    if k == 0 {
      assert items[0..] == items && ps[0..] == ps;
    } else {
      SpellsRest(items[1..], ps[1..], s, ps[0], k - 1, wide);
      assert items[1..][k - 1..] == items[k..] && ps[1..][k - 1..] == ps[k..];
    }
  }

  /** The string from `at` on is an ampersand, hexadecimal text, a dash and digits, to its end. */
  predicate V6At(s: string, at: nat, wide: set<char>) {
    exists e :: at + 1 < e && e + 1 < |s| && s[at] == '&' && s[e] == '-'
                && (forall j :: at < j < e ==> 'a' <= s[j] <= 'f' || s[j] == ':' || AnyDigit(s[j], wide))
                && (forall j :: e < j < |s| ==> AnyDigit(s[j], wide))
  }

  lemma GroupSpells(ps: seq<nat>, s: string, at: nat, wide: set<char>)
    requires Spells([V6Group], ps, s, at, wide)
    ensures (ps == [] && at == |s|) || (|ps| == 4 && V6At(s, at, wide))
  {
    assert [V6Group][1..] == [];
    if Spells(V6_ITEMS, ps, s, at, wide) {
      SpellsRest(V6_ITEMS, ps, s, at, 1, wide);
      SpellsRest(V6_ITEMS, ps, s, at, 2, wide);
      SpellsRest(V6_ITEMS, ps, s, at, 3, wide);
      SpellsRest(V6_ITEMS, ps, s, at, 4, wide);
      assert V6_ITEMS[4..] == [] && ps[4..] == [];
      assert s[ps[1]] == '-';
    }
  }

  lemma PatternDash(ps: seq<nat>, s: string, i: nat, wide: set<char>)
    requires Spells(PATTERN, ps, s, i, wide)
    ensures |ps| >= 8 && i <= ps[6] < |s| && ps[7] == ps[6] + 1 && s[ps[6]] == '-'
  {
    SpellsRest(PATTERN, ps, s, i, 7, wide);
    assert PATTERN[7..][0] == One(Literal('-'));
  }

  lemma PatternLength(ps: seq<nat>, s: string, i: nat, wide: set<char>)
    requires Spells(PATTERN, ps, s, i, wide)
    ensures |ps| >= 9 && ps[7] < ps[8] <= |s|
  {
    SpellsRest(PATTERN, ps, s, i, 8, wide);
    assert PATTERN[8..][0] == Plus(Digit);
  }

  lemma PatternSpells(ps: seq<nat>, s: string, i: nat, wide: set<char>)
    requires Spells(PATTERN, ps, s, i, wide)
    ensures |ps| >= 9 && i <= ps[6] && ps[7] == ps[6] + 1 && ps[7] < ps[8] <= |s| && s[ps[6]] == '-'
    ensures (|ps| == 9 && ps[8] == |s|) || (|ps| == 13 && V6At(s, ps[8], wide))
  {
    PatternDash(ps, s, i, wide);
    PatternLength(ps, s, i, wide);
    SpellsRest(PATTERN, ps, s, i, 9, wide);
    assert PATTERN[9..] == [V6Group];
    GroupSpells(ps[9..], s, ps[8], wide);
  }

  lemma {:induction false} SearchMatches(s: string, i: nat, wide: set<char>)
    requires i <= |s| && Search(s, i, wide).Some?
    ensures var (at, ps) := Search(s, i, wide).value;
            i <= at <= |s| && Match(PATTERN, s, at, wide) == Some(ps)
    decreases |s| - i
  {
    if Match(PATTERN, s, i, wide).None? { SearchMatches(s, i + 1, wide); }
  }

  lemma FoundShape(key: string, i: nat, ps: seq<nat>, wide: set<char>)
    requires Search(key, 0, wide) == Some((i, ps))
    ensures |ps| >= 9 && i <= ps[6] && ps[7] == ps[6] + 1 && ps[7] < ps[8] <= |key| && key[ps[6]] == '-'
    ensures (|ps| == 9 && ps[8] == |key|) || (|ps| == 13 && V6At(key, ps[8], wide))
  {
    SearchMatches(key, 0, wide);
    MatchSpells(PATTERN, key, i, wide);
    PatternSpells(ps, key, i, wide);
  }

  /** Whatever key is accepted, its end spells the subnet it is read as: the address in its one form, a dash, and
      a numeral of the length, then nothing, or exactly when an IPv6 part is reported, one. */
  lemma ExtractSound(key: string, wide: set<char>) returns (at: nat, e: nat, f: nat)
    requires Extract(key, wide).Some?
    ensures var parts := Extract(key, wide).value;
            && at <= e < f <= |key| && key[at..e] == FormatIp(parts.net.ip) && key[e] == '-'
            && Numeral(key[e + 1..f]) && ParseNat(key[e + 1..f]) == parts.net.prefix
            && if parts.hasV6 then V6At(key, f, wide) else f == |key|
  {
    var (i, ps) := Search(key, 0, wide).value;
    FoundShape(key, i, ps, wide);
    at, e, f := i, ps[6], ps[8];
    ExtractOf(key, wide, i, ps, key[at..e], key[e + 1..f]);
    ParseNetIff(key[at..e], key[e + 1..f], ParseNet(key[at..e], key[e + 1..f]).value);
  }

  lemma KeysDistinct(storePrefix: string, a: Net, b: Net)
    requires Key(storePrefix, a) == Key(storePrefix, b)
    ensures a == b
  {
    KeyRoundTrip(storePrefix, a, NoTail, {});
    KeyRoundTrip(storePrefix, b, NoTail, {});
  }

  lemma PrefixUnder(lead: string, s: string, t: string)
    ensures lead + s <= lead + t <==> s <= t
  {
    if lead + s <= lead + t {
      forall i | 0 <= i < |s| ensures s[i] == t[i] { assert (lead + s)[|lead| + i] == (lead + t)[|lead| + i]; }
    }
  }

  lemma DashAt(y: string, v: string, i: nat)
    requires '-' !in y && '-' !in v && i < |y| + 1 + |v| && (y + ("-" + v))[i] == '-'
    ensures i == |y|
  {}

  /** Before a dash that occurs once, a prefix has to agree entirely. */
  lemma DashPrefix(x: string, u: string, y: string, v: string)
    requires '-' !in x && '-' !in y && '-' !in v
    ensures x + "-" + u <= y + "-" + v <==> x == y && u <= v
  {
    var s, t := x + ("-" + u), y + ("-" + v);
    assert x + "-" + u == s && y + "-" + v == t;
    if s <= t {
      assert s[|x|] == '-' && t[|x|] == '-';
      DashAt(y, v, |x|);
      assert s[..|x|] == x && t[..|y|] == y;
      PrefixUnder(x, "-" + u, "-" + v);
      PrefixUnder("-", u, v);
    } else if x == y {
      PrefixUnder(x, "-" + u, "-" + v);
      PrefixUnder("-", u, v);
    }
  }

  /** A watch with one subnet's key as prefix sees another's exactly when the addresses agree and the one
      length in decimal begins the other's. */
  lemma WatchSees(storePrefix: string, a: Net, b: Net)
    ensures Key(storePrefix, a) <= Key(storePrefix, b) <==> a.ip == b.ip && Dec(a.prefix) <= Dec(b.prefix)
  {
    KeyIs(storePrefix, a);
    KeyIs(storePrefix, b);
    PrefixUnder(Lead(storePrefix), FormatSubnet(a), FormatSubnet(b));
    AddressChars(a.ip, '-');
    AddressChars(b.ip, '-');
    DecChars(b.prefix, '-');
    DashPrefix(FormatIp(a.ip), Dec(a.prefix), FormatIp(b.ip), Dec(b.prefix));
    IpParses(a.ip);
    IpParses(b.ip);
  }

  /** Among subnets of one length the watch on a subnet sees only that subnet. */
  lemma WatchSeesOwn(storePrefix: string, a: Net, b: Net)
    requires a.prefix == b.prefix && Key(storePrefix, a) <= Key(storePrefix, b)
    ensures a == b
  {
    WatchSees(storePrefix, a, b);
  }

  /** Across lengths it may see more: the watch on a /2 also sees the /24 at the same address. */
  lemma WatchSeesLonger(storePrefix: string, ip: Addr)
    ensures Key(storePrefix, Net(ip, 2)) <= Key(storePrefix, Net(ip, 24))
  {
    WatchSees(storePrefix, Net(ip, 2), Net(ip, 24));
  }
}
