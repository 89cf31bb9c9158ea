/**
 * The resolver (internal/resolver/resolver.go): address policy, answer parsing and
 * lifetimes, and a cache of byte arrays that callers may overwrite. Times are nanoseconds.
 */
module Resolver {
  import opened Basics

  type Bytes = seq<byte>

  const SECOND := 1_000_000_000
  const MAPPED_PREFIX: Bytes := [0, 0, 0, 0, 0, 0, 0, 0, 0, 0, 255, 255]

  datatype Config = Config(preferIPv4: bool, preferIPv6: bool, disableIPv6: bool, cacheTtl: int)

  // ----- addresses -----

  /** `ip.To4() != nil`: four bytes, or sixteen with the IPv4-mapped prefix. */
  predicate IsV4(ip: Bytes) { |ip| == 4 || (|ip| == 16 && ip[..12] == MAPPED_PREFIX) }

  /** What an address prints as, up to notation: both forms of an IPv4 address are the same. */
  function Canonical(ip: Bytes): Bytes { if |ip| == 16 && IsV4(ip) then ip[12..] else ip }

  predicate Admits(cfg: Config, ip: Option<Bytes>) { ip.Some? && (cfg.disableIPv6 ==> IsV4(ip.value)) }

  ghost predicate Seen(list: seq<Bytes>, key: Bytes) { exists i :: 0 <= i < |list| && Canonical(list[i]) == key }

  /** The admitted addresses, the first of each. */
  ghost function Firsts(cfg: Config, ips: seq<Option<Bytes>>): seq<Bytes>
  {
    if ips == [] then []
    else
      var before, last := Firsts(cfg, ips[..|ips| - 1]), ips[|ips| - 1];
      if !Admits(cfg, last) || Seen(before, Canonical(last.value)) then before else before + [last.value]
  }

  /** The elements on which `p` is `want`, in order. */
  function Keep(s: seq<Bytes>, p: Bytes -> bool, want: bool): seq<Bytes>
  {
    if s == [] then [] else Keep(s[..|s| - 1], p, want) + if p(s[|s| - 1]) == want then [s[|s| - 1]] else []
  }

  predicate NotV4(ip: Bytes) { !IsV4(ip) }

  /** The preferred family first, each family in its order. */
  function Partition(s: seq<Bytes>, first: Bytes -> bool): seq<Bytes>
  {
    Keep(s, first, true) + Keep(s, first, false)
  }

  ghost function Policy(cfg: Config, ips: seq<Option<Bytes>>): seq<Bytes>
  {
    var firsts := Firsts(cfg, ips);
    if cfg.preferIPv6 then Partition(firsts, NotV4)
    else if cfg.preferIPv4 then Partition(firsts, IsV4)
    else firsts
  }

  lemma {:induction false} KeepAll(s: seq<Bytes>, p: Bytes -> bool, want: bool)
    requires forall i :: 0 <= i < |s| ==> p(s[i]) == want
    ensures Keep(s, p, want) == s && Keep(s, p, !want) == []
  {
    if s != [] {
      KeepAll(s[..|s| - 1], p, want);
      assert s == s[..|s| - 1] + [s[|s| - 1]];
    }
  }

  lemma {:induction false} KeepKept(s: seq<Bytes>, p: Bytes -> bool, want: bool)
    ensures forall i :: 0 <= i < |Keep(s, p, want)| ==> p(Keep(s, p, want)[i]) == want
  {
    if s != [] { KeepKept(s[..|s| - 1], p, want); }
  }

  lemma {:induction false} KeepLengths(s: seq<Bytes>, p: Bytes -> bool)
    ensures |Keep(s, p, true)| + |Keep(s, p, false)| == |s|
  {
    if s != [] { KeepLengths(s[..|s| - 1], p); }
  }

  lemma {:induction false} KeepConcat(a: seq<Bytes>, b: seq<Bytes>, p: Bytes -> bool, want: bool)
    ensures Keep(a + b, p, want) == Keep(a, p, want) + Keep(b, p, want)
  {
    if b == [] {
      assert a + b == a;
    } else {
      assert (a + b)[..|a + b| - 1] == a + b[..|b| - 1];
      KeepConcat(a, b[..|b| - 1], p, want);
    }
  }

  /** Where an element joins a partition. */
  lemma PartitionSnoc(s: seq<Bytes>, x: Bytes, first: Bytes -> bool)
    ensures
      var front, back := Keep(s, first, true), Keep(s, first, false);
      Partition(s + [x], first) == if first(x) then front + [x] + back else front + back + [x]
  {
    assert (s + [x])[..|s|] == s;
  }

  /** Move the element at `n` forward past the elements that are not preferred. */
  method Sift(a: array<Bytes>, n: nat, first: Bytes -> bool, ghost front: seq<Bytes>, ghost back: seq<Bytes>)
    requires n < a.Length && n == |front| + |back| && a[..n] == front + back
    requires (forall i :: 0 <= i < |front| ==> first(front[i])) && forall i :: 0 <= i < |back| ==> !first(back[i])
    modifies a
    ensures a[..n + 1] == if first(old(a[n])) then front + [old(a[n])] + back else front + back + [old(a[n])]
    ensures a[n + 1..] == old(a[n + 1..])
  {
    var j := n;
    ghost var x := a[n];
    assert forall i :: 0 <= i < n ==> a[i] == a[..n][i];
    while j > 0 && first(a[j]) && !first(a[j - 1])
      invariant 0 <= j <= n && (j < n ==> first(x)) && |front| <= j
      invariant a[j] == x
      invariant forall i :: 0 <= i < j ==> a[i] == (front + back)[i]
      invariant forall i :: j < i <= n ==> a[i] == (front + back)[i - 1]
      invariant a[n + 1..] == old(a[n + 1..])
    {
      a[j], a[j - 1] := a[j - 1], a[j];
      j := j - 1;
    }
    if first(x) {
      assert j == |front|;
      assert a[..n + 1] == front + [x] + back;
    } else {
      assert a[..n + 1] == front + back + [x];
    }
  }

  /** A stable in-place insertion sort: preferred elements end up in front, orders kept. */
  method StableSort(a: array<Bytes>, first: Bytes -> bool)
    modifies a
    ensures a[..] == Partition(old(a[..]), first)
  {
    ghost var s := a[..];
    for n := 0 to a.Length
      invariant a[..n] == Partition(s[..n], first)
      invariant a[n..] == s[n..]
    {
      ghost var front, back := Keep(s[..n], first, true), Keep(s[..n], first, false);
      KeepKept(s[..n], first, true);
      KeepKept(s[..n], first, false);
      KeepLengths(s[..n], first);
      assert a[n] == a[n..][0] == s[n];
      assert a[n + 1..] == a[n..][1..];
      PartitionSnoc(s[..n], s[n], first);
      assert s[..n + 1] == s[..n] + [s[n]];
      Sift(a, n, first, front, back);
    }
    assert s[..a.Length] == s;
  }

  /** One pass for the first admitted addresses, then the stable sorts. */
  method ApplyPolicy(cfg: Config, ips: seq<Option<Bytes>>) returns (r: seq<Bytes>)
    ensures r == Policy(cfg, ips)
  {
    var filtered: seq<Bytes> := [];
    var seen: set<Bytes> := {};
    for n := 0 to |ips|
      invariant filtered == Firsts(cfg, ips[..n])
      invariant forall k :: k in seen <==> Seen(filtered, k)
    {
      assert ips[..n + 1][..n] == ips[..n];
      if ips[n].None? { continue; }
      var ip := ips[n].value;
      if cfg.disableIPv6 && !IsV4(ip) { continue; }
      var key := Canonical(ip);
      if key in seen { continue; }
      seen := seen + {key};
      SeenSnoc(filtered, ip);
      filtered := filtered + [ip];
    }
    assert ips[..|ips|] == ips;
    var slots := new Bytes[|filtered|](i requires 0 <= i < |filtered| => filtered[i]);
    assert slots[..] == filtered;
    if cfg.preferIPv4 { StableSort(slots, IsV4); }
    if cfg.preferIPv6 {
      StableSort(slots, NotV4);
      if cfg.preferIPv4 { SecondPreferenceWins(filtered); }
    }
    r := slots[..];
  }

  lemma SeenSnoc(list: seq<Bytes>, ip: Bytes)
    ensures forall k :: Seen(list + [ip], k) <==> Seen(list, k) || k == Canonical(ip)
  {
    forall k ensures Seen(list + [ip], k) <==> Seen(list, k) || k == Canonical(ip) {
      if Seen(list, k) {
        var i :| 0 <= i < |list| && Canonical(list[i]) == k;
        assert (list + [ip])[i] == list[i];
      }
      assert (list + [ip])[|list|] == ip;
    }
  }

  lemma {:induction false} KeepFlipped(s: seq<Bytes>, want: bool)
    ensures Keep(s, NotV4, want) == Keep(s, IsV4, !want)
  {
    if s != [] { KeepFlipped(s[..|s| - 1], want); }
  }

  /** With both preferences set the second sort decides. */
  lemma SecondPreferenceWins(s: seq<Bytes>)
    ensures Partition(Partition(s, IsV4), NotV4) == Partition(s, NotV4)
  {
    hide Keep;
    var four, six := Keep(s, IsV4, true), Keep(s, IsV4, false);
    KeepKept(s, IsV4, true);
    KeepKept(s, IsV4, false);
    KeepConcat(four, six, IsV4, true);
    KeepConcat(four, six, IsV4, false);
    KeepAll(four, IsV4, true);
    KeepAll(six, IsV4, false);
    KeepFlipped(four + six, true);
    KeepFlipped(four + six, false);
    KeepFlipped(s, true);
    KeepFlipped(s, false);
    assert four + [] == four && [] + six == six && six + [] == six && [] + four == four;
  }

  /** The policy returns each admitted address exactly once. */
  lemma PolicyIsExact(cfg: Config, ips: seq<Option<Bytes>>)
    ensures forall k :: Seen(Policy(cfg, ips), k) <==> Wanted(cfg, ips, k)
    ensures OncePerAddress(Policy(cfg, ips))
  {
    hide Admits, IsV4, Canonical, Partition, Firsts, Seen, Wanted, OncePerAddress;
    FirstsExact(cfg, ips);
    PartitionExact(Firsts(cfg, ips), NotV4);
    PartitionExact(Firsts(cfg, ips), IsV4);
  }

  /** An IPv4 address, in either of its two forms. */
  predicate FourByte(ip: Bytes) { |ip| == 4 || (|ip| == 16 && ip[..12] == [0, 0, 0, 0, 0, 0, 0, 0, 0, 0, 255, 255]) }

  /** Two addresses are one when they are equal, or the two forms of one IPv4 address. */
  lemma CanonicalMeans(a: Bytes, b: Bytes)
    requires |a| == 4 || |a| == 16
    requires |b| == 4 || |b| == 16
    ensures Canonical(a) == Canonical(b) <==>
      || a == b
      || (|a| == 4 && b == [0, 0, 0, 0, 0, 0, 0, 0, 0, 0, 255, 255] + a) || (|b| == 4 && a == [0, 0, 0, 0, 0, 0, 0, 0, 0, 0, 255, 255] + b)
    ensures IsV4(a) == FourByte(a)
  {
    var prefix: Bytes := [0, 0, 0, 0, 0, 0, 0, 0, 0, 0, 255, 255];
    assert prefix == MAPPED_PREFIX;
    assert |a| == 16 ==> a == a[..12] + a[12..];
    assert |b| == 16 ==> b == b[..12] + b[12..];
    if |a| == 4 { assert (prefix + a)[..12] == prefix && (prefix + a)[12..] == a; }
    if |b| == 4 { assert (prefix + b)[..12] == prefix && (prefix + b)[12..] == b; }
  }

  /** With IPv6 off only IPv4 addresses are left; otherwise every address that is there is. */
  lemma PolicyAdmits(cfg: Config, ips: seq<Option<Bytes>>)
    ensures cfg.disableIPv6 ==> forall i :: 0 <= i < |Firsts(cfg, ips)| ==> FourByte(Firsts(cfg, ips)[i])
    ensures forall i :: 0 <= i < |ips| && ips[i].Some? && (cfg.disableIPv6 ==> FourByte(ips[i].value)) ==>
      Seen(Firsts(cfg, ips), Canonical(ips[i].value))
  {
    hide Canonical, Seen;
    FirstsExact(cfg, ips);
    FirstsAdmitted(cfg, ips);
    assert MAPPED_PREFIX == [0, 0, 0, 0, 0, 0, 0, 0, 0, 0, 255, 255];
    forall i | 0 <= i < |ips| && ips[i].Some? && (cfg.disableIPv6 ==> FourByte(ips[i].value)) ensures Seen(Firsts(cfg, ips), Canonical(ips[i].value)) {
      assert Wanted(cfg, ips, Canonical(ips[i].value));
    }
  }

  lemma {:induction false} FirstsAdmitted(cfg: Config, ips: seq<Option<Bytes>>)
    ensures forall i :: 0 <= i < |Firsts(cfg, ips)| ==> Admits(cfg, Some(Firsts(cfg, ips)[i]))
  {
    hide Canonical, Seen;
    if ips != [] { FirstsAdmitted(cfg, ips[..|ips| - 1]); }
  }

  /** What comes later never changes what is there: each address stands where it came first. */
  lemma {:induction false} FirstsAreFirst(cfg: Config, ips: seq<Option<Bytes>>, n: nat)
    requires n <= |ips|
    ensures Firsts(cfg, ips[..n]) <= Firsts(cfg, ips)
    decreases |ips|
  {
    hide Admits, Canonical, Seen;
    if n == |ips| {
      assert ips[..n] == ips;
    } else {
      FirstsAreFirst(cfg, ips[..|ips| - 1], n);
      assert ips[..|ips| - 1][..n] == ips[..n];
    }
  }

  /** The elements kept of a list, in its order. */
  lemma KeepMeans(a: seq<Bytes>, x: Bytes, b: seq<Bytes>, p: Bytes -> bool, want: bool)
    ensures Keep(a + b, p, want) == Keep(a, p, want) + Keep(b, p, want)
    ensures Keep([x], p, want) == if p(x) == want then [x] else []
  {
    KeepConcat(a, b, p, want);
    assert [x][..0] == [] && Keep([x][..0], p, want) == [];
  }

  /**
   * The order of the policy: with IPv6 preferred no IPv4 address stands before an IPv6 one, with
   * IPv4 alone preferred none stands after; within a family, and without a preference, the
   * addresses stand as they came first.
   */
  lemma PolicyOrder(cfg: Config, ips: seq<Option<Bytes>>, i: nat, j: nat)
    requires i < j < |Policy(cfg, ips)|
    ensures var r := Policy(cfg, ips);
      && (cfg.preferIPv6 ==> !(FourByte(r[i]) && !FourByte(r[j])))
      && (!cfg.preferIPv6 && cfg.preferIPv4 ==> !(!FourByte(r[i]) && FourByte(r[j])))
      && (!cfg.preferIPv6 && !cfg.preferIPv4 ==> r == Firsts(cfg, ips))
      && Keep(r, IsV4, true) == Keep(Firsts(cfg, ips), IsV4, true) && Keep(r, IsV4, false) == Keep(Firsts(cfg, ips), IsV4, false)
  {
    hide Keep, Firsts;
    var s := Firsts(cfg, ips);
    assert MAPPED_PREFIX == [0, 0, 0, 0, 0, 0, 0, 0, 0, 0, 255, 255];
    assert forall x :: IsV4(x) == FourByte(x);
    var four, six := Keep(s, IsV4, true), Keep(s, IsV4, false);
    KeepFlipped(s, true);
    KeepFlipped(s, false);
    KeepKept(s, IsV4, true);
    KeepKept(s, IsV4, false);
    KeepAll(four, IsV4, true);
    KeepAll(six, IsV4, false);
    hide IsV4, FourByte;
    KeepConcat(four, six, IsV4, true);
    KeepConcat(four, six, IsV4, false);
    KeepConcat(six, four, IsV4, true);
    KeepConcat(six, four, IsV4, false);
    assert four + [] == four && [] + six == six && six + [] == six && [] + four == four;
  }

  ghost predicate Wanted(cfg: Config, ips: seq<Option<Bytes>>, key: Bytes)
  {
    exists i :: 0 <= i < |ips| && Admits(cfg, ips[i]) && Canonical(ips[i].value) == key
  }

  ghost predicate OncePerAddress(s: seq<Bytes>)
  {
    forall i, j :: 0 <= i < j < |s| ==> Canonical(s[i]) != Canonical(s[j])
  }

  lemma {:induction false} FirstsExact(cfg: Config, ips: seq<Option<Bytes>>)
    ensures forall k :: Seen(Firsts(cfg, ips), k) <==> Wanted(cfg, ips, k)
    ensures OncePerAddress(Firsts(cfg, ips))
  {
    hide IsV4, Canonical;
    if ips != [] {
      var init, last := ips[..|ips| - 1], ips[|ips| - 1];
      FirstsExact(cfg, init);
      var before := Firsts(cfg, init);
      if last.Some? { SeenSnoc(before, last.value); }
      forall k ensures Wanted(cfg, ips, k) <==> Wanted(cfg, init, k) || (Admits(cfg, last) && Canonical(last.value) == k) {
        if Wanted(cfg, init, k) {
          var i :| 0 <= i < |init| && Admits(cfg, init[i]) && Canonical(init[i].value) == k;
          assert ips[i] == init[i];
        }
        if Wanted(cfg, ips, k) {
          var i :| 0 <= i < |ips| && Admits(cfg, ips[i]) && Canonical(ips[i].value) == k;
          if i < |init| { assert init[i] == ips[i]; }
        }
        if Admits(cfg, last) && Canonical(last.value) == k { assert ips[|ips| - 1] == last; }
      }
    }
  }

  lemma {:induction false} KeepMembers(s: seq<Bytes>, p: Bytes -> bool, want: bool)
    ensures forall x :: x in Keep(s, p, want) <==> x in s && p(x) == want
  {
    if s != [] {
      var init, last := s[..|s| - 1], s[|s| - 1];
      KeepMembers(init, p, want);
      assert forall x :: x in s <==> x in init || x == last by { assert s == init + [last]; }
    }
  }

  lemma {:induction false} KeepOnce(s: seq<Bytes>, p: Bytes -> bool, want: bool)
    requires OncePerAddress(s)
    ensures OncePerAddress(Keep(s, p, want))
  {
    hide IsV4, Canonical;
    if s != [] {
      var init, last := s[..|s| - 1], s[|s| - 1];
      KeepOnce(init, p, want);
      var before := Keep(init, p, want);
      KeepMembers(init, p, want);
      forall i | 0 <= i < |before| ensures Canonical(before[i]) != Canonical(last) {
        assert before[i] in init;
        var x :| 0 <= x < |init| && init[x] == before[i];
        assert s[x] == before[i];
      }
    }
  }

  lemma PartitionExact(s: seq<Bytes>, first: Bytes -> bool)
    requires OncePerAddress(s)
    ensures forall k :: Seen(Partition(s, first), k) <==> Seen(s, k)
    ensures OncePerAddress(Partition(s, first))
  {
    hide IsV4, Canonical, Keep;
    var front, back := Keep(s, first, true), Keep(s, first, false);
    KeepMembers(s, first, true);
    KeepMembers(s, first, false);
    KeepOnce(s, first, true);
    KeepOnce(s, first, false);
    SeenConcat(front, back);
    SeenMembers(front + back, s);
    forall i, j | 0 <= i < |front| && 0 <= j < |back| ensures Canonical(front[i]) != Canonical(back[j]) {
      assert front[i] in s && back[j] in s;
      var x :| 0 <= x < |s| && s[x] == front[i];
      var y :| 0 <= y < |s| && s[y] == back[j];
      assert first(front[i]) by { assert front[i] in front; }
      assert !first(back[j]) by { assert back[j] in back; }
    }
  }

  lemma SeenMembers(a: seq<Bytes>, b: seq<Bytes>)
    requires forall x :: x in a <==> x in b
    ensures forall k :: Seen(a, k) <==> Seen(b, k)
  {
    hide Canonical;
    forall k ensures Seen(a, k) <==> Seen(b, k) {
      if Seen(a, k) {
        var i :| 0 <= i < |a| && Canonical(a[i]) == k;
        assert a[i] in b;
      }
      if Seen(b, k) {
        var i :| 0 <= i < |b| && Canonical(b[i]) == k;
        assert b[i] in a;
      }
    }
  }

  lemma SeenConcat(a: seq<Bytes>, b: seq<Bytes>)
    ensures forall k :: Seen(a + b, k) <==> Seen(a, k) || Seen(b, k)
  {
    forall k ensures Seen(a + b, k) <==> Seen(a, k) || Seen(b, k) {
      if Seen(a, k) {
        var i :| 0 <= i < |a| && Canonical(a[i]) == k;
        assert (a + b)[i] == a[i];
      }
      if Seen(b, k) {
        var i :| 0 <= i < |b| && Canonical(b[i]) == k;
        assert (a + b)[|a| + i] == b[i];
      }
    }
  }

  // ----- answers and lifetimes -----

  datatype Kind = A | AAAA | Other

  datatype Record = Record(kind: Kind, ip: Bytes, ttl: nat)

  /** A server's answer; nil stands for no message. */
  datatype Response = Nil | Response(success: bool, answer: seq<Record>)

  /** Addresses and lifetime of one query. */
  datatype Answer = Answer(ips: seq<Bytes>, ttl: int)

  function MinDuration(a: int, b: int): int
  {
    if a <= 0 then b else if b <= 0 then a else if a < b then a else b
  }

  function MinPositiveTtl(current: int, ttl: nat): int
  {
    var next := ttl * SECOND;
    if current == 0 || next < current then next else current
  }

  /** The records of the queried kind. */
  function Relevant(records: seq<Record>, kind: Kind): seq<Record>
  {
    if records == [] then []
    else Relevant(records[..|records| - 1], kind) + if records[|records| - 1].kind == kind then [records[|records| - 1]] else []
  }

  function Addresses(records: seq<Record>): seq<Bytes> { seq(|records|, i requires 0 <= i < |records| => records[i].ip) }

  function FoldTtl(records: seq<Record>): int
  {
    if records == [] then 0 else MinPositiveTtl(FoldTtl(records[..|records| - 1]), records[|records| - 1].ttl)
  }

  method ParseResponse(resp: Response, kind: Kind) returns (r: Option<Answer>)
    requires kind != Other
    ensures
      var records := if resp.Nil? then [] else Relevant(resp.answer, kind);
      r == if resp.Nil? || !resp.success || records == [] then None else Some(Answer(Addresses(records), FoldTtl(records)))
  {
    if resp.Nil? || !resp.success { return None; }
    var ips: seq<Bytes> := [];
    var ttl := 0;
    for n := 0 to |resp.answer|
      invariant ips == Addresses(Relevant(resp.answer[..n], kind))
      invariant ttl == FoldTtl(Relevant(resp.answer[..n], kind))
    {
      ghost var before := Relevant(resp.answer[..n], kind);
      assert resp.answer[..n + 1][..n] == resp.answer[..n];
      var rr := resp.answer[n];
      assert before + [] == before;
      if rr.kind == kind {
        assert (before + [rr])[..|before|] == before;
        ips := ips + [rr.ip];
        ttl := MinPositiveTtl(ttl, rr.ttl);
      }
    }
    assert resp.answer[..|resp.answer|] == resp.answer;
    if ips == [] { return None; }
    r := Some(Answer(ips, ttl));
  }

  /** The records of the first response that parses; none when none does. */
  function FirstParsed(responses: seq<Response>, kind: Kind): seq<Record>
  {
    if responses == [] then []
    else if Parses(responses[0], kind) then Relevant(responses[0].answer, kind)
    else FirstParsed(responses[1..], kind)
  }

  /** The first server whose answer parses. */
  method QueryServers(responses: seq<Response>, kind: Kind) returns (r: Option<Answer>, used: nat)
    requires kind != Other
    ensures r.None? ==> forall i :: 0 <= i < |responses| ==> !Parses(responses[i], kind)
    ensures r.Some? ==>
      && used < |responses| && Parses(responses[used], kind) && (forall i :: 0 <= i < used ==> !Parses(responses[i], kind))
      && r.value == Answer(Addresses(Relevant(responses[used].answer, kind)), FoldTtl(Relevant(responses[used].answer, kind)))
    ensures r == Asked(FirstParsed(responses, kind))
  {
    hide Relevant, FoldTtl;
    for n := 0 to |responses|
      invariant FirstParsed(responses[n..], kind) == FirstParsed(responses, kind)
      invariant forall i :: 0 <= i < n ==> !Parses(responses[i], kind)
    {
      var parsed := ParseResponse(responses[n], kind);
      if parsed.Some? { return parsed, n; }
    }
    return None, 0;
  }

  predicate Parses(resp: Response, kind: Kind) { resp.Response? && resp.success && Relevant(resp.answer, kind) != [] }

  /** The records of the kind asked for, in order. */
  lemma {:induction false} RelevantMeans(a: seq<Record>, b: seq<Record>, r: Record, kind: Kind)
    ensures Relevant(a + b, kind) == Relevant(a, kind) + Relevant(b, kind)
    ensures Relevant([r], kind) == if r.kind == kind then [r] else []
    decreases |b|
  {
    assert [r][..0] == [] && Relevant([r][..0], kind) == [];
    if b == [] {
      assert a + b == a;
    } else {
      RelevantMeans(a, b[..|b| - 1], r, kind);
      assert (a + b)[..|a + b| - 1] == a + b[..|b| - 1];
    }
  }

  /** A response parses when it is there, succeeded, and holds a record of the kind asked for. */
  lemma {:induction false} ParsesMeans(resp: Response, kind: Kind)
    ensures Parses(resp, kind) <==> resp.Response? && resp.success && exists i :: 0 <= i < |resp.answer| && resp.answer[i].kind == kind
  {
    if resp.Response? { RelevantThere(resp.answer, kind); }
  }

  lemma {:induction false} RelevantThere(records: seq<Record>, kind: Kind)
    ensures Relevant(records, kind) != [] <==> exists i :: 0 <= i < |records| && records[i].kind == kind
  {
    if records != [] {
      var init := records[..|records| - 1];
      RelevantThere(init, kind);
      assert forall i :: 0 <= i < |init| ==> records[i] == init[i];
    }
  }

  /** The smallest TTL of some records. */
  ghost predicate IsSmallest(records: seq<Record>, ttl: nat)
  {
    && (exists i :: 0 <= i < |records| && records[i].ttl == ttl)
    && forall i :: 0 <= i < |records| ==> ttl <= records[i].ttl
  }

  /** With positive TTLs the fold is the smallest TTL. */
  lemma {:induction false} FoldTtlIsSmallest(records: seq<Record>)
    requires records != [] && forall i :: 0 <= i < |records| ==> records[i].ttl > 0
    ensures exists ttl: nat :: IsSmallest(records, ttl) && FoldTtl(records) == ttl * SECOND
  {
    var init, last := records[..|records| - 1], records[|records| - 1];
    if init == [] {
      assert FoldTtl(init) == 0 && records[0] == last;
      assert IsSmallest(records, last.ttl) && FoldTtl(records) == last.ttl * SECOND;
    } else {
      FoldTtlIsSmallest(init);
      var ttl: nat :| IsSmallest(init, ttl) && FoldTtl(init) == ttl * SECOND;
      var i :| 0 <= i < |init| && init[i].ttl == ttl;
      assert records[i].ttl == ttl && records[|records| - 1] == last;
      if last.ttl < ttl { assert IsSmallest(records, last.ttl); } else { assert IsSmallest(records, ttl); }
    }
  }

  /** `resolveByQueries` followed by the clamp in Resolve: the cache lifetime of the two queries' answers. */
  function Lifetime(cfg: Config, a: Option<Answer>, aaaa: Option<Answer>): int
  {
    var ttl := cfg.cacheTtl;
    var ttl := if a.Some? then MinDuration(ttl, a.value.ttl) else ttl;
    var ttl := if !cfg.disableIPv6 && aaaa.Some? then MinDuration(ttl, aaaa.value.ttl) else ttl;
    Clamp(cfg, ttl)
  }

  function Clamp(cfg: Config, ttl: int): int
  {
    var t := if ttl <= 0 then cfg.cacheTtl else ttl;
    if t > cfg.cacheTtl then cfg.cacheTtl else t
  }

  /** A lifetime within bounds is kept; one that is absent or too long becomes CacheTTL. */
  lemma ClampMeans(cfg: Config, ttl: int)
    ensures 0 < ttl <= cfg.cacheTtl ==> Clamp(cfg, ttl) == ttl
    ensures ttl <= 0 || ttl > cfg.cacheTtl ==> Clamp(cfg, ttl) == cfg.cacheTtl
  {
  }

  method ResolveByQueries(cfg: Config, a: Option<Answer>, aaaa: Option<Answer>) returns (r: Option<Answer>)
    requires cfg.cacheTtl > 0
    ensures
      var ips := (if a.Some? then a.value.ips else []) + (if !cfg.disableIPv6 && aaaa.Some? then aaaa.value.ips else []);
      r.None? <==> ips == []
    ensures r.Some? ==>
      && r.value.ips == (if a.Some? then a.value.ips else []) + (if !cfg.disableIPv6 && aaaa.Some? then aaaa.value.ips else [])
      && Clamp(cfg, r.value.ttl) == Lifetime(cfg, a, aaaa)
  {
    var all: seq<Bytes> := [];
    var ttl := cfg.cacheTtl;
    if a.Some? {
      all := all + a.value.ips;
      ttl := MinDuration(ttl, a.value.ttl);
    }
    if !cfg.disableIPv6 && aaaa.Some? {
      all := all + aaaa.value.ips;
      ttl := MinDuration(ttl, aaaa.value.ttl);
    }
    if all == [] { return None; }
    r := Some(Answer(all, ttl));
  }

  function Present(ips: seq<Bytes>): seq<Option<Bytes>> { seq(|ips|, i requires 0 <= i < |ips| => Some(ips[i])) }

  lemma UsedAddresses(cfg: Config, a: seq<Record>, aaaa: seq<Record>)
    ensures Addresses(Used(cfg, a, aaaa))
         == (if Asked(a).Some? then Asked(a).value.ips else [])
            + if !cfg.disableIPv6 && Asked(aaaa).Some? then Asked(aaaa).value.ips else []
  {
  }

  lemma PolicyOfNothing(cfg: Config) ensures Policy(cfg, Present([])) == [] {}

  /** The answer a query makes of the records it found. */
  function AnswerOf(records: seq<Record>): Answer { Answer(Addresses(records), FoldTtl(records)) }

  /** The records behind the queries that succeeded and were asked. */
  ghost function Used(cfg: Config, a: seq<Record>, aaaa: seq<Record>): seq<Record>
  {
    a + if cfg.disableIPv6 then [] else aaaa
  }

  function Asked(records: seq<Record>): Option<Answer> { if records == [] then None else Some(AnswerOf(records)) }

  /**
   * The lifetime is the smaller of CacheTTL and the smallest TTL behind the answer exactly
   * when that TTL is positive; with a zero TTL the answer is kept for a positive time anyway.
   */
  lemma LifetimeIsSmallest(cfg: Config, a: seq<Record>, aaaa: seq<Record>, smallest: nat)
    requires cfg.cacheTtl > 0 && IsSmallest(Used(cfg, a, aaaa), smallest)
    ensures 0 < Lifetime(cfg, Asked(a), Asked(aaaa)) <= cfg.cacheTtl
    ensures Lifetime(cfg, Asked(a), Asked(aaaa)) == (if smallest * SECOND < cfg.cacheTtl then smallest * SECOND else cfg.cacheTtl)
       <==> smallest > 0
  {
    hide FoldTtl, Addresses;
    FoldTtlNonNegative(a);
    FoldTtlNonNegative(aaaa);
    if smallest > 0 {
      var used := Used(cfg, a, aaaa);
      assert forall i :: 0 <= i < |a| ==> used[i] == a[i];
      assert !cfg.disableIPv6 ==> forall i :: 0 <= i < |aaaa| ==> used[|a| + i] == aaaa[i];
      if a != [] { FoldTtlIsSmallest(a); }
      if aaaa != [] && !cfg.disableIPv6 { FoldTtlIsSmallest(aaaa); }
      SmallestOfBoth(a, if cfg.disableIPv6 then [] else aaaa, smallest);
    }
  }

  /**
   * The expiry is after the store reading by at most CacheTTL; it is at the smaller of CacheTTL
   * and the smallest TTL behind the answer exactly when that TTL is positive.
   */
  ghost predicate ExpiresInTime(cfg: Config, used: seq<Record>, stored: int, expire: int)
  {
    && stored < expire <= stored + cfg.cacheTtl
    && forall smallest: nat :: IsSmallest(used, smallest) ==>
         (expire == stored + (if smallest * SECOND < cfg.cacheTtl then smallest * SECOND else cfg.cacheTtl) <==> smallest > 0)
  }

  lemma LifetimeInTime(cfg: Config, a: seq<Record>, aaaa: seq<Record>, stored: int)
    requires cfg.cacheTtl > 0
    ensures ExpiresInTime(cfg, Used(cfg, a, aaaa), stored, stored + Lifetime(cfg, Asked(a), Asked(aaaa)))
  {
    hide IsSmallest, FoldTtl;
    var used, lifetime := Used(cfg, a, aaaa), Lifetime(cfg, Asked(a), Asked(aaaa));
    assert 0 < lifetime <= cfg.cacheTtl;
    forall smallest: nat | IsSmallest(used, smallest)
      ensures lifetime == (if smallest * SECOND < cfg.cacheTtl then smallest * SECOND else cfg.cacheTtl) <==> smallest > 0
    {
      LifetimeIsSmallest(cfg, a, aaaa, smallest);
    }
  }

  /** A zero TTL stands for no TTL: the answer is kept for the whole CacheTTL. */
  lemma ZeroTtlIsKept(cfg: Config, ip: Bytes)
    requires cfg.cacheTtl > 0
    ensures Lifetime(cfg, Asked([Record(A, ip, 0)]), Asked([])) == cfg.cacheTtl
  {
    var one := [Record(A, ip, 0)];
    assert one[..0] == [] && FoldTtl(one[..0]) == 0;
  }

  lemma {:induction false} FoldTtlNonNegative(records: seq<Record>)
    ensures FoldTtl(records) >= 0
  {
    if records != [] { FoldTtlNonNegative(records[..|records| - 1]); }
  }

  /** The smallest of two lists is the smaller of their smallest. */
  lemma SmallestOfBoth(a: seq<Record>, b: seq<Record>, smallest: nat)
    requires IsSmallest(a + b, smallest)
    ensures forall t: nat :: IsSmallest(a, t) ==> t >= smallest
    ensures forall t: nat :: IsSmallest(b, t) ==> t >= smallest
    ensures IsSmallest(a, smallest) || IsSmallest(b, smallest)
  {
    var i :| 0 <= i < |a + b| && (a + b)[i].ttl == smallest;
    assert forall k :: 0 <= k < |a| ==> (a + b)[k] == a[k];
    assert forall k :: 0 <= k < |b| ==> (a + b)[|a| + k] == b[k];
    if i < |a| { assert a[i].ttl == smallest; } else { assert b[i - |a|].ttl == smallest; }
  }

  // ----- the cache -----

  datatype Entry = Entry(ips: seq<array<byte>>, expire: int)

  /** The lookup an entry was stored from. */
  datatype Origin = Origin(ips: seq<Option<Bytes>>, ttl: int, at: int)

  ghost function Values(ips: seq<array<byte>>): seq<Bytes>
    reads ips
  {
    seq(|ips|, i requires 0 <= i < |ips| reads ips => ips[i][..])
  }

  method Clone(bytes: seq<Bytes>) returns (ips: seq<array<byte>>)
    ensures Values(ips) == bytes
    ensures forall i :: 0 <= i < |ips| ==> fresh(ips[i])
    ensures forall i, j :: 0 <= i < j < |ips| ==> ips[i] != ips[j]
  {
    ips := [];
    for n := 0 to |bytes|
      invariant |ips| == n && forall i :: 0 <= i < n ==> fresh(ips[i]) && ips[i][..] == bytes[i]
      invariant forall i, j :: 0 <= i < j < n ==> ips[i] != ips[j]
    {
      var source := bytes[n];
      var copy := new byte[|source|](i requires 0 <= i < |source| => source[i]);
      assert copy[..] == source;
      ips := ips + [copy];
    }
  }

  datatype ResolveError = LookupFailed | NoUsableIps

  class Client {
    const cfg: Config
    var cache: map<string, Entry>
    /** The arrays the cache owns, and where each entry came from. */
    ghost var owned: set<array<byte>>
    ghost var origins: map<string, Origin>

    /** Every entry is the policy applied to the lookup it was stored from, kept in arrays of the client's own. */
    ghost predicate Valid()
      reads this, owned
    {
      && cfg.cacheTtl > 0
      && cache.Keys == origins.Keys
      && (forall h :: h in cache ==> forall i :: 0 <= i < |cache[h].ips| ==> cache[h].ips[i] in owned)
      && forall h :: h in cache ==> Values(cache[h].ips) == Policy(cfg, origins[h].ips)
                                    && cache[h].expire == origins[h].at + Clamp(cfg, origins[h].ttl)
    }

    constructor (cfg: Config)
      ensures Valid() && cache == map[] && fresh(owned)
      ensures this.cfg == cfg.(cacheTtl := if cfg.cacheTtl <= 0 then 600 * SECOND else cfg.cacheTtl)
    {
      this.cfg := cfg.(cacheTtl := if cfg.cacheTtl <= 0 then 600 * SECOND else cfg.cacheTtl);
      cache, owned, origins := map[], {}, map[];
    }

    ghost predicate Cached(host: string, now: int) reads this { host in cache && now <= cache[host].expire }

    method GetCache(host: string, now: int) returns (r: Option<seq<array<byte>>>)
      requires Valid()
      modifies this`cache, this`origins
      ensures Valid() && (r.Some? <==> old(Cached(host, now)))
      ensures r.Some? ==> Values(r.value) == Policy(cfg, old(origins)[host].ips) && cache == old(cache) && origins == old(origins)
      ensures r.Some? ==> forall i :: 0 <= i < |r.value| ==> fresh(r.value[i])
      ensures r.None? ==> cache == old(cache) - {host} && origins == old(origins) - {host}
    {
      hide Policy, Clamp;
      if host !in cache { return None; }
      if now > cache[host].expire {
        cache, origins := cache - {host}, origins - {host};
        return None;
      }
      var copy := Clone(ReadAll(cache[host].ips));
      r := Some(copy);
    }

    method PutCache(host: string, ips: seq<Bytes>, ttl: int, at: int, ghost origin: Origin)
      requires Valid() && ips == Policy(cfg, origin.ips) && ttl == Clamp(cfg, origin.ttl) && at == origin.at
      modifies this
      ensures Valid() && fresh(owned - old(owned)) && old(owned) <= owned && cache.Keys == old(cache).Keys + {host}
      ensures origins == old(origins)[host := origin]
    {
      hide Policy, Clamp, Values;
      var mine := Clone(ips);
      ghost var added := set i | 0 <= i < |mine| :: mine[i];
      assert forall i :: 0 <= i < |mine| ==> mine[i] in added;
      assert Values(mine) == Policy(cfg, origin.ips);
      assert forall h :: h in cache ==> Values(cache[h].ips) == Policy(cfg, origins[h].ips);
      cache := cache[host := Entry(mine, at + ttl)];
      origins := origins[host := origin];
      owned := owned + added;
    }

    /**
     * A cached host gives the policy of the lookup that stored it; otherwise the policy of
     * `lookup`, which is stored. The arrays returned are new, so writing to them touches
     * nothing the client owns.
     */
    method Resolve(host: string, now: int, lookup: Option<(seq<Option<Bytes>>, int)>, stored: int)
      returns (r: Result<seq<array<byte>>, ResolveError>)
      requires Valid()
      modifies this
      ensures Valid() && fresh(owned - old(owned))
      ensures r.Ok? ==> forall i :: 0 <= i < |r.value| ==> fresh(r.value[i]) && r.value[i] !in owned
      ensures old(Cached(host, now)) ==>
        r.Ok? && Values(r.value) == Policy(cfg, old(origins)[host].ips) && cache == old(cache) && origins == old(origins)
      ensures !old(Cached(host, now)) && lookup.Some? && Policy(cfg, lookup.value.0) != [] ==>
        && r.Ok? && Values(r.value) == Policy(cfg, lookup.value.0)
        && origins == old(origins)[host := Origin(lookup.value.0, lookup.value.1, stored)]
      ensures !old(Cached(host, now)) && (lookup.None? || Policy(cfg, lookup.value.0) == []) ==>
        r == Err(if lookup.None? then LookupFailed else NoUsableIps) && origins == old(origins) - {host}
    {
      hide Policy, Clamp, Valid;
      var hit := GetCache(host, now);
      if hit.Some? {
        return Ok(hit.value);
      }
      if lookup.None? { return Err(LookupFailed); }
      var ips := ApplyPolicy(cfg, lookup.value.0);
      if ips == [] { return Err(NoUsableIps); }
      PutCache(host, ips, Clamp(cfg, lookup.value.1), stored, Origin(lookup.value.0, lookup.value.1, stored));
      var theirs := Clone(ips);
      r := Ok(theirs);
    }

    /**
     * From the servers' responses to the cache: the A query's records, then the AAAA query's,
     * each from the first server whose response parses. On a miss the policy of their addresses
     * is answered and stored until the store reading plus the lifetime, which is CacheTTL or the
     * smallest TTL of those records, whichever comes first, when that TTL is positive.
     */
    method ResolveFromServers(host: string, now: int, a: seq<Response>, aaaa: seq<Response>, stored: int)
      returns (r: Result<seq<array<byte>>, ResolveError>)
      requires Valid()
      modifies this
      ensures Valid()
      ensures old(Cached(host, now)) ==> r.Ok? && Values(r.value) == Policy(cfg, old(origins)[host].ips) && cache == old(cache)
      ensures
        var used := Used(cfg, FirstParsed(a, A), FirstParsed(aaaa, AAAA));
        var ips := Policy(cfg, Present(Addresses(used)));
        !old(Cached(host, now)) ==>
          && (r.Ok? <==> ips != [])
          && (r.Ok? ==> Values(r.value) == ips && host in cache && ExpiresInTime(cfg, used, stored, cache[host].expire))
    {
      hide Policy, Clamp, Lifetime, Values, FoldTtl, FirstParsed, ExpiresInTime;
      ghost var fa, faaaa := FirstParsed(a, A), FirstParsed(aaaa, AAAA);
      var qa, _ := QueryServers(a, A);
      var qaaaa, _ := QueryServers(aaaa, AAAA);
      var found := ResolveByQueries(cfg, qa, qaaaa);
      UsedAddresses(cfg, fa, faaaa);
      var lookup := if found.None? then None else Some((Present(found.value.ips), found.value.ttl));
      r := Resolve(host, now, lookup, stored);
      PolicyOfNothing(cfg);
      LifetimeInTime(cfg, fa, faaaa, stored);
    }

    function ReadAll(ips: seq<array<byte>>): (r: seq<Bytes>)
      reads ips
      ensures r == Values(ips)
    {
      seq(|ips|, i requires 0 <= i < |ips| reads ips => ips[i][..])
    }
  }

  /** A caller that overwrites every byte it was given gets the same answer again while the entry lives. */
  method OverwritingIsHarmless(c: Client, host: string, now: int, lookup: Option<(seq<Option<Bytes>>, int)>, later: int)
    returns (again: Result<seq<array<byte>>, ResolveError>, ghost before: seq<Bytes>)
    requires c.Valid() && lookup.Some? && Policy(c.cfg, lookup.value.0) != [] && !c.Cached(host, now)
    modifies c
    ensures c.Valid()
    ensures before == Policy(c.cfg, lookup.value.0)
    ensures later <= now + Clamp(c.cfg, lookup.value.1) ==> again.Ok? && Values(again.value) == before
  {
    hide Policy, Clamp;
    var first := c.Resolve(host, now, lookup, now);
    before := Values(first.value);
    for n := 0 to |first.value|
      invariant c.Valid() && c.origins == old(c.origins)[host := Origin(lookup.value.0, lookup.value.1, now)]
      invariant forall i :: 0 <= i < |first.value| ==> first.value[i] !in c.owned && fresh(first.value[i])
    {
      var victim := first.value[n];
      for k := 0 to victim.Length
        invariant c.Valid() && c.origins == old(c.origins)[host := Origin(lookup.value.0, lookup.value.1, now)]
        invariant forall i :: 0 <= i < |first.value| ==> first.value[i] !in c.owned && fresh(first.value[i])
      {
        victim[k] := 0;
      }
    }
    again := c.Resolve(host, later, None, later);
  }

  /** Once the entry has expired the next lookup is used, and nothing of the first. */
  method ExpiredIsAskedAgain(c: Client, host: string, now: int, first: (seq<Option<Bytes>>, int), later: int, second: (seq<Option<Bytes>>, int))
    returns (again: Result<seq<array<byte>>, ResolveError>)
    requires c.Valid() && Policy(c.cfg, first.0) != [] && Policy(c.cfg, second.0) != [] && host !in c.cache
    modifies c
    ensures c.Valid() && again.Ok?
    ensures later > now + Clamp(c.cfg, first.1) ==> Values(again.value) == Policy(c.cfg, second.0)
    ensures later <= now + Clamp(c.cfg, first.1) ==> Values(again.value) == Policy(c.cfg, first.0)
  {
    hide Policy, Clamp, Values;
    var answer := c.Resolve(host, now, Some(first), now);
    again := c.Resolve(host, later, Some(second), later);
  }
}
