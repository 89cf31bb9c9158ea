/**
 * Direct upstream dialing (internal/upstream/upstream.go:187-345, internal/upstream/profile.go):
 * the profile a host matches, the candidate list built from it, and the loops that try the
 * candidates in order and own the connections they open.
 */
module Upstream {
  import opened Basics
  import opened Text

  predicate NulFree(s: string) { '\0' !in s }

  /** What `net.IP.String()` prints and what host normalisation returns: never a NUL. */
  type NulFreeText = s: string | NulFree(s)

  type Normalize = string -> Option<NulFreeText>

  /** An address, known by its text. */
  datatype Ip = Ip(text: NulFreeText)

  datatype Domain = Domain(host: string, wildcard: bool)

  datatype Profile = Profile(domains: seq<Domain>, ips: seq<Ip>, forwardHost: NulFreeText, tlsServerName: NulFreeText, ignoreMismatch: bool)

  datatype Candidate = Candidate(ip: Option<Ip>, address: string, target: string, tlsServerName: string, ignoreMismatch: bool)

  datatype Stage = Resolve | Tcp | Tls

  datatype Attempt = Attempt(stage: Stage, address: string, target: string)

  /** A resolver answer; an address in it may be nil. */
  type Lookup = Option<seq<Option<Ip>>>

  // ----- compiling profiles -----

  datatype RawProfile = RawProfile(matchDomains: seq<string>, candidateIps: seq<string>, forwardHost: string,
                                   tlsServerName: string, ignoreMismatch: bool)

  datatype Problem =
    | BadWildcard(at: nat) | BadDomain(at: nat) | NoDomains
    | BadIp(at: nat) | BadForwardHost | BadServerName | NothingSet

  /** The domains of a profile, blank ones passed over, or the first bad one. */
  function DomainsOf(list: seq<string>, norm: Normalize): Result<seq<Domain>, Problem>
  {
    if list == [] then Ok([])
    else
      var before, t := DomainsOf(list[..|list| - 1], norm), TrimSpace(list[|list| - 1]);
      if before.Err? || t == "" then before
      else if '*' in t && !("*." <= t) then Err(BadWildcard(|list| - 1))
      else match norm(if "*." <= t then t[2..] else t)
        case None => Err(BadDomain(|list| - 1))
        case Some(h) => Ok(before.value + [Domain(h, "*." <= t)])
  }

  function IpsOf(list: seq<string>, parseIp: string -> Option<Ip>): Result<seq<Ip>, Problem>
  {
    if list == [] then Ok([])
    else
      var before, t := IpsOf(list[..|list| - 1], parseIp), TrimSpace(list[|list| - 1]);
      if before.Err? || t == "" then before
      else match parseIp(t) case None => Err(BadIp(|list| - 1)) case Some(ip) => Ok(before.value + [ip])
  }

  /** A blank name stays blank; any other is normalised. */
  function NormalName(name: string, norm: Normalize): Option<NulFreeText>
  {
    if TrimSpace(name) == "" then Some("") else norm(TrimSpace(name))
  }

  function CompileOne(raw: RawProfile, norm: Normalize, parseIp: string -> Option<Ip>): Result<Profile, Problem>
  {
    var domains, ips := DomainsOf(raw.matchDomains, norm), IpsOf(raw.candidateIps, parseIp);
    var forward, name := NormalName(raw.forwardHost, norm), NormalName(raw.tlsServerName, norm);
    if domains.Err? then Err(domains.error)
    else if domains.value == [] then Err(NoDomains)
    else if ips.Err? then Err(ips.error)
    else if forward.None? then Err(BadForwardHost)
    else if name.None? then Err(BadServerName)
    else if ips.value == [] && forward.value == "" && name.value == "" && !raw.ignoreMismatch then Err(NothingSet)
    else Ok(Profile(domains.value, ips.value, forward.value, name.value, raw.ignoreMismatch))
  }

  lemma {:induction false} DomainErrorStays(list: seq<string>, n: nat, norm: Normalize)
    requires n <= |list| && DomainsOf(list[..n], norm).Err?
    ensures DomainsOf(list, norm) == DomainsOf(list[..n], norm)
    decreases |list|
  {
    if n == |list| {
      assert list[..n] == list;
    } else {
      assert list[..|list| - 1][..n] == list[..n];
      DomainErrorStays(list[..|list| - 1], n, norm);
    }
  }

  lemma {:induction false} IpErrorStays(list: seq<string>, n: nat, parseIp: string -> Option<Ip>)
    requires n <= |list| && IpsOf(list[..n], parseIp).Err?
    ensures IpsOf(list, parseIp) == IpsOf(list[..n], parseIp)
    decreases |list|
  {
    if n == |list| {
      assert list[..n] == list;
    } else {
      assert list[..|list| - 1][..n] == list[..n];
      IpErrorStays(list[..|list| - 1], n, parseIp);
    }
  }

  method CompileDomains(list: seq<string>, norm: Normalize) returns (r: Result<seq<Domain>, Problem>)
    ensures r == DomainsOf(list, norm)
  {
    hide TrimSpace;
    var domains: seq<Domain> := [];
    for j := 0 to |list|
      invariant DomainsOf(list[..j], norm) == Ok(domains)
    {
      assert list[..j + 1][..j] == list[..j];
      var domain := TrimSpace(list[j]);
      if domain == "" { continue; }
      var wildcard := "*." <= domain;
      if '*' in domain && !wildcard {
        DomainErrorStays(list, j + 1, norm);
        return Err(BadWildcard(j));
      }
      if wildcard { domain := domain[2..]; }
      var host := norm(domain);
      if host.None? {
        DomainErrorStays(list, j + 1, norm);
        return Err(BadDomain(j));
      }
      domains := domains + [Domain(host.value, wildcard)];
    }
    assert list[..|list|] == list;
    r := Ok(domains);
  }

  method CompileIps(list: seq<string>, parseIp: string -> Option<Ip>) returns (r: Result<seq<Ip>, Problem>)
    ensures r == IpsOf(list, parseIp)
  {
    hide TrimSpace;
    var ips: seq<Ip> := [];
    for j := 0 to |list|
      invariant IpsOf(list[..j], parseIp) == Ok(ips)
    {
      assert list[..j + 1][..j] == list[..j];
      var text := TrimSpace(list[j]);
      if text == "" { continue; }
      var ip := parseIp(text);
      if ip.None? {
        IpErrorStays(list, j + 1, parseIp);
        return Err(BadIp(j));
      }
      ips := ips + [ip.value];
    }
    assert list[..|list|] == list;
    r := Ok(ips);
  }

  /** Every profile compiled, in order; or the first that has a problem, and the problem. */
  method CompileProfiles(raw: seq<RawProfile>, norm: Normalize, parseIp: string -> Option<Ip>)
    returns (r: Result<seq<Profile>, (nat, Problem)>)
    ensures match r
            case Ok(profiles) => |profiles| == |raw| && forall i :: 0 <= i < |raw| ==> CompileOne(raw[i], norm, parseIp) == Ok(profiles[i])
            case Err((n, problem)) =>
              && n < |raw| && CompileOne(raw[n], norm, parseIp) == Err(problem)
              && forall i :: 0 <= i < n ==> CompileOne(raw[i], norm, parseIp).Ok?
  {
    hide DomainsOf, IpsOf, NormalName;
    var profiles: seq<Profile> := [];
    for n := 0 to |raw|
      invariant |profiles| == n && forall i :: 0 <= i < n ==> CompileOne(raw[i], norm, parseIp) == Ok(profiles[i])
    {
      var domains := CompileDomains(raw[n].matchDomains, norm);
      if domains.Err? { return Err((n, domains.error)); }
      if domains.value == [] { return Err((n, NoDomains)); }
      var ips := CompileIps(raw[n].candidateIps, parseIp);
      if ips.Err? { return Err((n, ips.error)); }
      var forward := NormalName(raw[n].forwardHost, norm);
      if forward.None? { return Err((n, BadForwardHost)); }
      var name := NormalName(raw[n].tlsServerName, norm);
      if name.None? { return Err((n, BadServerName)); }
      if ips.value == [] && forward.value == "" && name.value == "" && !raw[n].ignoreMismatch { return Err((n, NothingSet)); }
      profiles := profiles + [Profile(domains.value, ips.value, forward.value, name.value, raw[n].ignoreMismatch)];
    }
    r := Ok(profiles);
  }

  /** A configured domain covers the host: as a name, or as a pattern above it. */
  ghost predicate Covers(domain: string, norm: Normalize, host: string)
  {
    var t := TrimSpace(domain);
    t != "" &&
    if "*." <= t then norm(t[2..]).Some? && exists front :: Joins(host, front, "." + norm(t[2..]).value)
    else norm(t) == Some(host)
  }

  lemma {:induction false} DomainsCover(list: seq<string>, norm: Normalize, host: string)
    requires DomainsOf(list, norm).Ok?
    ensures (exists j :: 0 <= j < |DomainsOf(list, norm).value| && DomainMatches(DomainsOf(list, norm).value[j], host))
       <==> exists j :: 0 <= j < |list| && Covers(list[j], norm, host)
  {
    hide TrimSpace, HasSuffix;
    if list != [] {
      var init, last := list[..|list| - 1], list[|list| - 1];
      DomainsCover(init, norm, host);
      var t := TrimSpace(last);
      if "*." <= t && norm(t[2..]).Some? { SuffixMeans(host, "." + norm(t[2..]).value); }
      var before, all := DomainsOf(init, norm).value, DomainsOf(list, norm).value;
      assert forall j :: 0 <= j < |init| ==> list[j] == init[j];
      assert forall j :: 0 <= j < |before| ==> all[j] == before[j];
      assert Covers(last, norm, host) <==> |all| > |before| && DomainMatches(all[|before|], host);
    }
  }

  /** The normal form of a configured name, or blank for a blank one. */
  ghost predicate NamedAs(name: string, norm: Normalize, r: NulFreeText)
  {
    if TrimSpace(name) == "" then r == "" else norm(TrimSpace(name)) == Some(r)
  }

  lemma {:induction false} IpsAreParsed(list: seq<string>, parseIp: string -> Option<Ip>)
    ensures IpsOf(list, parseIp).Ok? <==> forall j :: 0 <= j < |list| ==> TrimSpace(list[j]) == "" || parseIp(TrimSpace(list[j])).Some?
    ensures IpsOf(list, parseIp).Ok? ==> forall ip ::
      ip in IpsOf(list, parseIp).value <==> exists j :: 0 <= j < |list| && TrimSpace(list[j]) != "" && parseIp(TrimSpace(list[j])) == Some(ip)
  {
    hide TrimSpace;
    if list != [] {
      var init := list[..|list| - 1];
      IpsAreParsed(init, parseIp);
      assert forall j :: 0 <= j < |init| ==> list[j] == init[j];
      assert forall j :: 0 <= j < |list| ==> j < |init| || list[j] == list[|list| - 1];
    }
  }

  /**
   * A compiled profile has a domain and matches exactly the hosts its configured domains cover;
   * it has the configured addresses, forward host and server name, and at least one of these or
   * the leave to ignore a name mismatch.
   */
  lemma CompiledMeans(raw: RawProfile, norm: Normalize, parseIp: string -> Option<Ip>, host: string)
    requires CompileOne(raw, norm, parseIp).Ok?
    ensures
      var p := CompileOne(raw, norm, parseIp).value;
      && p.domains != [] && (p.ips != [] || p.forwardHost != "" || p.tlsServerName != "" || p.ignoreMismatch)
      && (ProfileMatches(p, host) <==> exists j :: 0 <= j < |raw.matchDomains| && Covers(raw.matchDomains[j], norm, host))
      && NamedAs(raw.forwardHost, norm, p.forwardHost) && NamedAs(raw.tlsServerName, norm, p.tlsServerName)
      && p.ignoreMismatch == raw.ignoreMismatch
      && forall ip :: ip in p.ips <==>
           exists j :: 0 <= j < |raw.candidateIps| && TrimSpace(raw.candidateIps[j]) != "" && parseIp(TrimSpace(raw.candidateIps[j])) == Some(ip)
  {
    hide DomainsOf, IpsOf, Covers, DomainMatches, TrimSpace;
    DomainsCover(raw.matchDomains, norm, host);
    IpsAreParsed(raw.candidateIps, parseIp);
  }

  // ----- profile matching -----

  predicate DomainMatches(d: Domain, host: string)
  {
    if d.wildcard then host != d.host && HasSuffix(host, "." + d.host) else host == d.host
  }

  ghost predicate ProfileMatches(p: Profile, host: string)
  {
    exists j :: 0 <= j < |p.domains| && DomainMatches(p.domains[j], host)
  }

  /** `r` is the first profile that matches the normalised host; none without one, or without a normal form. */
  ghost predicate IsMatch(profiles: seq<Profile>, host: string, norm: Normalize, r: Option<nat>)
  {
    match r
    case None => norm(host).None? || forall i :: 0 <= i < |profiles| ==> !ProfileMatches(profiles[i], norm(host).value)
    case Some(n) =>
      && n < |profiles| && norm(host).Some? && ProfileMatches(profiles[n], norm(host).value)
      && forall i :: 0 <= i < n ==> !ProfileMatches(profiles[i], norm(host).value)
  }

  /** The first profile, in configured order, one of whose domains matches the normalised host. */
  method MatchProfile(profiles: seq<Profile>, host: string, norm: Normalize) returns (r: Option<nat>)
    ensures IsMatch(profiles, host, norm, r)
  {
    if profiles == [] { return None; }
    var normalized := norm(host);
    if normalized.None? { return None; }
    for i := 0 to |profiles|
      invariant forall k :: 0 <= k < i ==> !ProfileMatches(profiles[k], normalized.value)
    {
      var domains := profiles[i].domains;
      for j := 0 to |domains|
        invariant forall k :: 0 <= k < j ==> !DomainMatches(domains[k], normalized.value)
      {
        if DomainMatches(domains[j], normalized.value) { return Some(i); }
      }
    }
    r := None;
  }

  // ----- candidates -----

  /** `net.JoinHostPort` */
  function JoinHostPort(host: string, port: string): string
  {
    if ':' in host then "[" + host + "]:" + port else host + ":" + port
  }

  function MakeCandidate(ip: Ip, port: string, target: string, tlsName: string, ignore: bool): Candidate
  {
    Candidate(Some(ip), JoinHostPort(ip.text, port), target, tlsName, ignore)
  }

  function NameOr(name: string, host: string): string { if name == "" then host else name }

  function ProfileTlsName(p: Profile, host: string): string { NameOr(p.tlsServerName, host) }

  function FromIps(ips: seq<Option<Ip>>, port: string, target: string, tlsName: string, ignore: bool): seq<Candidate>
  {
    if ips == [] then []
    else
      var before, last := FromIps(ips[..|ips| - 1], port, target, tlsName, ignore), ips[|ips| - 1];
      if last.None? then before else before + [MakeCandidate(last.value, port, target, tlsName, ignore)]
  }

  function Present(ips: seq<Ip>): seq<Option<Ip>> { seq(|ips|, i requires 0 <= i < |ips| => Some(ips[i])) }

  /** Everything the profile asks for, repetitions included: its own addresses, the forward host's, the host's. */
  function Wanted(p: Profile, host: string, port: string, forward: Lookup, direct: Lookup): seq<Candidate>
  {
    var name := ProfileTlsName(p, host);
    FromIps(Present(p.ips), port, "profile-ip", name, p.ignoreMismatch)
    + (if p.forwardHost != "" && forward.Some? then FromIps(forward.value, port, p.forwardHost, name, p.ignoreMismatch) else [])
    + (if direct.Some? then FromIps(direct.value, port, host, host, p.ignoreMismatch) else [])
  }

  /** One resolve attempt per failed lookup, in order. */
  function LookupFailures(p: Profile, host: string, port: string, forward: Lookup, direct: Lookup): seq<Attempt>
  {
    (if p.forwardHost != "" && forward.None? then [Attempt(Resolve, JoinHostPort(p.forwardHost, port), "")] else [])
    + (if direct.None? then [Attempt(Resolve, JoinHostPort(host, port), "")] else [])
  }

  /** The text the code remembers a candidate by. */
  function KeyText(c: Candidate): string { c.address + "\0" + c.target + "\0" + c.tlsServerName }

  /** Where a candidate connects, under which name. */
  function Identity(c: Candidate): (string, string, string) { (c.address, c.target, c.tlsServerName) }

  ghost predicate Has<K(!new)>(list: seq<Candidate>, key: Candidate -> K, k: K)
  {
    exists i :: 0 <= i < |list| && key(list[i]) == k
  }

  /** The first candidate of every key, in order. */
  ghost function FirstOf<K(!new)>(list: seq<Candidate>, key: Candidate -> K): seq<Candidate>
  {
    if list == [] then []
    else
      var before, last := FirstOf(list[..|list| - 1], key), list[|list| - 1];
      if Has(before, key, key(last)) then before else before + [last]
  }

  lemma HasSnoc<K(!new)>(list: seq<Candidate>, key: Candidate -> K, c: Candidate)
    ensures forall k :: Has(list + [c], key, k) <==> Has(list, key, k) || k == key(c)
  {
    forall k ensures Has(list + [c], key, k) <==> Has(list, key, k) || k == key(c) {
      if Has(list, key, k) {
        var i :| 0 <= i < |list| && key(list[i]) == k;
        assert (list + [c])[i] == list[i];
      }
      assert (list + [c])[|list|] == c;
    }
  }

  /** The addresses that are there, in order. */
  ghost function Somes(ips: seq<Option<Ip>>): seq<Ip>
  {
    if ips == [] then [] else (if ips[0].Some? then [ips[0].value] else []) + Somes(ips[1..])
  }

  lemma {:induction false} SomesSnoc(ips: seq<Option<Ip>>)
    requires ips != []
    ensures Somes(ips) == Somes(ips[..|ips| - 1]) + if ips[|ips| - 1].Some? then [ips[|ips| - 1].value] else []
    decreases |ips|
  {
    if |ips| == 1 {
      assert ips[..0] == [] && ips[1..] == [];
    } else {
      SomesSnoc(ips[1..]);
      assert ips[1..][..|ips| - 2] == ips[..|ips| - 1][1..] && ips[1..][|ips| - 2] == ips[|ips| - 1];
    }
  }

  /** One candidate per address, in order: the address with the port, the target, the server name. */
  ghost predicate OneEach(ips: seq<Ip>, list: seq<Candidate>, port: string, target: string, name: string, ignore: bool)
  {
    |list| == |ips| && forall i :: 0 <= i < |ips| ==>
      && list[i].ip == Some(ips[i]) && list[i].target == target && list[i].tlsServerName == name && list[i].ignoreMismatch == ignore
      && list[i].address == if ':' in ips[i].text then "[" + ips[i].text + "]:" + port else ips[i].text + ":" + port
  }

  lemma {:induction false} FromIpsMeans(ips: seq<Option<Ip>>, port: string, target: string, name: string, ignore: bool)
    ensures OneEach(Somes(ips), FromIps(ips, port, target, name, ignore), port, target, name, ignore)
  {
    if ips != [] {
      SomesSnoc(ips);
      FromIpsMeans(ips[..|ips| - 1], port, target, name, ignore);
    }
  }

  /**
   * What a profile asks for, in order: its own addresses under the target `profile-ip`, then
   * those of its forward host, then those of the host itself. The first two go by the profile's
   * server name if it has one, the last always by the host.
   */
  lemma WantedMeans(p: Profile, host: string, port: string, forward: Lookup, direct: Lookup)
    ensures exists own, via, last ::
      var name := if p.tlsServerName == "" then host else p.tlsServerName;
      && Wanted(p, host, port, forward, direct) == own + via + last
      && OneEach(p.ips, own, port, "profile-ip", name, p.ignoreMismatch)
      && OneEach(if p.forwardHost != "" && forward.Some? then Somes(forward.value) else [], via, port, p.forwardHost, name, p.ignoreMismatch)
      && OneEach(if direct.Some? then Somes(direct.value) else [], last, port, host, host, p.ignoreMismatch)
  {
    hide FromIps, OneEach;
    var name := ProfileTlsName(p, host);
    var own := FromIps(Present(p.ips), port, "profile-ip", name, p.ignoreMismatch);
    var via := if p.forwardHost != "" && forward.Some? then FromIps(forward.value, port, p.forwardHost, name, p.ignoreMismatch) else [];
    var last := if direct.Some? then FromIps(direct.value, port, host, host, p.ignoreMismatch) else [];
    FromIpsMeans(Present(p.ips), port, "profile-ip", name, p.ignoreMismatch);
    SomesOfPresent(p.ips);
    NoneEach(port, p.forwardHost, name, p.ignoreMismatch);
    NoneEach(port, host, host, p.ignoreMismatch);
    if forward.Some? { FromIpsMeans(forward.value, port, p.forwardHost, name, p.ignoreMismatch); }
    if direct.Some? { FromIpsMeans(direct.value, port, host, host, p.ignoreMismatch); }
    assert Wanted(p, host, port, forward, direct) == own + via + last;
  }

  lemma NoneEach(port: string, target: string, name: string, ignore: bool) ensures OneEach([], [], port, target, name, ignore) {}

  lemma {:induction false} SomesOfPresent(ips: seq<Ip>)
    ensures Somes(Present(ips)) == ips
  {
    if ips != [] {
      SomesOfPresent(ips[1..]);
      assert Present(ips)[1..] == Present(ips[1..]);
    }
  }

  /** One failed attempt per lookup that was made and failed: the forward host's, if there is one, before the host's. */
  lemma LookupFailuresMean(p: Profile, host: string, port: string, forward: Lookup, direct: Lookup)
    ensures
      var failures := LookupFailures(p, host, port, forward, direct);
      var via, last := p.forwardHost != "" && forward.None?, direct.None?;
      && |failures| == (if via then 1 else 0) + (if last then 1 else 0)
      && (via ==> failures[0].stage == Resolve && failures[0].address == if ':' in p.forwardHost then "[" + p.forwardHost + "]:" + port else p.forwardHost + ":" + port)
      && (last ==> failures[|failures| - 1].stage == Resolve
                   && failures[|failures| - 1].address == if ':' in host then "[" + host + "]:" + port else host + ":" + port)
  {
  }

  class Builder {
    var candidates: seq<Candidate>
    var seen: set<string>
    ghost var wanted: seq<Candidate>

    ghost predicate Valid()
      reads this
    {
      && candidates == FirstOf(wanted, KeyText)
      && forall k :: k in seen <==> Has(candidates, KeyText, k)
    }

    constructor ()
      ensures Valid() && wanted == []
    {
      candidates, seen, wanted := [], {}, [];
    }

    method AddCandidate(ip: Option<Ip>, host: string, port: string, target: string, tlsName: string, ignore: bool)
      requires Valid()
      modifies this
      ensures Valid()
      ensures wanted == old(wanted) + if ip.None? then [] else [MakeCandidate(ip.value, port, target, NameOr(tlsName, host), ignore)]
    {
      if ip.None? { return; }
      var name := NameOr(tlsName, host);
      var c := Candidate(ip, JoinHostPort(ip.value.text, port), target, name, ignore);
      var key := c.address + "\0" + target + "\0" + name;
      assert key == KeyText(c);
      wanted := wanted + [c];
      assert wanted[..|wanted| - 1] == old(wanted);
      if key in seen { return; }
      seen := seen + {key};
      HasSnoc(candidates, KeyText, c);
      candidates := candidates + [c];
    }

    method AddAll(ips: seq<Option<Ip>>, host: string, port: string, target: string, tlsName: string, ignore: bool)
      requires Valid()
      modifies this
      ensures Valid()
      ensures wanted == old(wanted) + FromIps(ips, port, target, NameOr(tlsName, host), ignore)
    {
      for n := 0 to |ips|
        invariant Valid()
        invariant wanted == old(wanted) + FromIps(ips[..n], port, target, NameOr(tlsName, host), ignore)
      {
        AddCandidate(ips[n], host, port, target, tlsName, ignore);
        assert ips[..n + 1][..n] == ips[..n];
      }
      assert ips[..|ips|] == ips;
    }
  }

  /** `ip.String()` */
  function IpString(ip: Option<Ip>): string { if ip.None? then "<nil>" else ip.value.text }

  /** Without a profile: one candidate per resolved address, in order, repetitions and nil ones included. */
  function Plain(ips: seq<Option<Ip>>, host: string, port: string): (r: seq<Candidate>)
    ensures |r| == |ips|
    ensures forall i :: 0 <= i < |r| ==> r[i] == Candidate(ips[i], JoinHostPort(IpString(ips[i]), port), host, host, false)
  {
    seq(|ips|, i requires 0 <= i < |ips| => Candidate(ips[i], JoinHostPort(IpString(ips[i]), port), host, host, false))
  }

  /**
   * Without a profile, the resolved addresses or the resolver's error. With one, the first of
   * each key among what the profile asks for, and never an error.
   */
  method Candidates(p: Option<Profile>, host: string, port: string, forward: Lookup, direct: Lookup)
    returns (r: Option<(seq<Candidate>, seq<Attempt>)>)
    ensures p.None? ==> r == if direct.None? then None else Some((Plain(direct.value, host, port), []))
    ensures p.Some? ==> r == Some((FirstOf(Wanted(p.value, host, port, forward, direct), KeyText),
                                   LookupFailures(p.value, host, port, forward, direct)))
  {
    hide FromIps, FirstOf, Has, JoinHostPort, KeyText;
    if p.None? {
      if direct.None? { return None; }
      var candidates: seq<Candidate> := [];
      for n := 0 to |direct.value|
        invariant candidates == Plain(direct.value, host, port)[..n]
      {
        var ip := direct.value[n];
        candidates := candidates + [Candidate(ip, JoinHostPort(IpString(ip), port), host, host, false)];
      }
      assert candidates == Plain(direct.value, host, port);
      return Some((candidates, []));
    }
    var profile := p.value;
    var b := new Builder();
    var attempts: seq<Attempt> := [];
    var name := ProfileTlsName(profile, host);
    b.AddAll(Present(profile.ips), host, port, "profile-ip", name, profile.ignoreMismatch);
    if profile.forwardHost != "" {
      if forward.None? {
        attempts := attempts + [Attempt(Resolve, JoinHostPort(profile.forwardHost, port), "")];
      } else {
        b.AddAll(forward.value, host, port, profile.forwardHost, name, profile.ignoreMismatch);
      }
    }
    if direct.None? {
      attempts := attempts + [Attempt(Resolve, JoinHostPort(host, port), "")];
    } else {
      b.AddAll(direct.value, host, port, host, host, profile.ignoreMismatch);
    }
    assert b.wanted == Wanted(profile, host, port, forward, direct);
    assert attempts == LookupFailures(profile, host, port, forward, direct);
    r := Some((b.candidates, attempts));
  }

  // ----- when the text key is exact -----

  lemma FirstNul(a: string, x: string, b: string, y: string)
    requires a + "\0" + x == b + "\0" + y && NulFree(a) && NulFree(b)
    ensures a == b && x == y
  {
    SplitPrefix(a, x, '\0');
    SplitPrefix(b, y, '\0');
    assert ([a] + Split(x, '\0'))[0] == ([b] + Split(y, '\0'))[0];
    var s, t := a + "\0" + x, b + "\0" + y;
    assert x == s[|a| + 1..] && y == t[|b| + 1..];
  }

  /** The text up to the first NUL and the text from it on. */
  lemma {:induction false} CutAtNul(s: string) returns (a: string, rest: string)
    ensures s + "\0" == a + "\0" + rest && NulFree(a)
  {
    if NulFree(s) {
      a, rest := s, "";
    } else {
      var a', rest' := CutAtNul(s[1..]);
      if s[0] == '\0' {
        a, rest := "", s[1..] + "\0";
      } else {
        a, rest := [s[0]] + a', rest';
        assert s + "\0" == [s[0]] + (s[1..] + "\0");
      }
    }
  }

  lemma Regroup(x: string, port: string, u: string, a: string, rest: string)
    requires port + "\0" == a + "\0" + rest
    ensures x + port + "\0" + u == (x + a) + "\0" + (rest + u)
  {
    assert x + port + "\0" + u == x + (port + "\0") + u;
    assert x + (a + "\0" + rest) + u == (x + a) + "\0" + (rest + u);
  }

  lemma PrefixCancels(x: string, y: string, u: string, v: string)
    requires x + u == y + v && (|x| == |y| || |u| == |v|)
    ensures x == y && u == v
  {
    assert |x| == |y|;
    assert (x + u)[..|x|] == x && (y + v)[..|y|] == y && (x + u)[|x|..] == u && (y + v)[|y|..] == v;
  }

  lemma PortCancels(x: string, y: string, port: string, u: string, v: string)
    requires NulFree(x) && NulFree(y) && x + port + "\0" + u == y + port + "\0" + v
    ensures x == y && u == v
  {
    var a, rest := CutAtNul(port);
    Regroup(x, port, u, a, rest);
    Regroup(y, port, v, a, rest);
    FirstNul(x + a, rest + u, y + a, rest + v);
    PrefixCancels(x, y, a, a);
    PrefixCancels(rest, rest, u, v);
  }

  /** Two addresses with one port, each before a NUL, are told apart whatever the port holds. */
  lemma AddressCancels(x: NulFreeText, y: NulFreeText, port: string, u: string, v: string)
    requires JoinHostPort(x, port) + "\0" + u == JoinHostPort(y, port) + "\0" + v
    ensures JoinHostPort(x, port) == JoinHostPort(y, port) && u == v
  {
    var x' := if ':' in x then "[" + x + "]:" else x + ":";
    var y' := if ':' in y then "[" + y + "]:" else y + ":";
    assert JoinHostPort(x, port) == x' + port && JoinHostPort(y, port) == y' + port;
    PortCancels(x', y', port, u, v);
  }

  datatype Origin = FromProfile | FromForward | FromHost

  /** The target and server name a profile gives the candidates of one origin. */
  function Names(p: Profile, host: string, o: Origin): (string, string)
  {
    match o
    case FromProfile => ("profile-ip", ProfileTlsName(p, host))
    case FromForward => (p.forwardHost, ProfileTlsName(p, host))
    case FromHost => (host, host)
  }

  ghost predicate Made(p: Profile, host: string, port: string, o: Origin, c: Candidate)
  {
    && (c.target, c.tlsServerName) == Names(p, host, o)
    && exists ip: Ip :: c.address == JoinHostPort(ip.text, port)
  }

  ghost predicate AskedFor(p: Profile, host: string, port: string, c: Candidate) { exists o :: Made(p, host, port, o, c) }

  ghost predicate AllMade(p: Profile, host: string, port: string, list: seq<Candidate>)
  {
    forall i :: 0 <= i < |list| ==> AskedFor(p, host, port, list[i])
  }

  lemma {:induction false} FromIpsMade(p: Profile, host: string, port: string, o: Origin, ips: seq<Option<Ip>>, ignore: bool)
    ensures AllMade(p, host, port, FromIps(ips, port, Names(p, host, o).0, Names(p, host, o).1, ignore))
  {
    hide Names, JoinHostPort;
    if ips != [] {
      FromIpsMade(p, host, port, o, ips[..|ips| - 1], ignore);
      var last := ips[|ips| - 1];
      if last.Some? {
        var c := MakeCandidate(last.value, port, Names(p, host, o).0, Names(p, host, o).1, ignore);
        assert c.address == JoinHostPort(last.value.text, port) && Made(p, host, port, o, c);
        assert AskedFor(p, host, port, c);
      }
    }
  }

  lemma WantedMade(p: Profile, host: string, port: string, forward: Lookup, direct: Lookup)
    ensures AllMade(p, host, port, Wanted(p, host, port, forward, direct))
  {
    hide FromIps, AskedFor;
    FromIpsMade(p, host, port, FromProfile, Present(p.ips), p.ignoreMismatch);
    if p.forwardHost != "" && forward.Some? { FromIpsMade(p, host, port, FromForward, forward.value, p.ignoreMismatch); }
    if direct.Some? { FromIpsMade(p, host, port, FromHost, direct.value, p.ignoreMismatch); }
  }

  /**
   * A NUL-free name spells the same key as the host only by being the host: behind the one NUL
   * that the left side has room for, a host with a NUL would bring three.
   */
  lemma HostNames(target: NulFreeText, name: string, host: string)
    requires target + "\0" + name == host + "\0" + host && (NulFree(name) || name == host)
    ensures target == host && name == host
  {
    if name == host {
      TailCancels(target, host, host);
    } else {
      OneNul(target, name, host);
      FirstNul(target, name, host, host);
    }
  }

  lemma OneNul(target: NulFreeText, name: NulFreeText, host: string)
    requires target + "\0" + name == host + "\0" + host
    ensures NulFree(host)
  {
    var s := target + "\0" + name;
    assert forall i :: 0 <= i < |s| && s[i] == '\0' ==> i == |target|;
    var t := host + "\0" + host;
    assert t[|host|] == '\0';
    forall k | 0 <= k < |host| ensures host[k] != '\0' {
      assert s[k] == t[k] == host[k];
    }
  }

  lemma SameNames(p: Profile, host: string, o: Origin, o': Origin)
    requires Names(p, host, o).0 + "\0" + Names(p, host, o).1 == Names(p, host, o').0 + "\0" + Names(p, host, o').1
    ensures Names(p, host, o) == Names(p, host, o')
  {
    var name := ProfileTlsName(p, host);
    match (o, o')
    case (FromProfile, FromForward) => TailCancels("profile-ip", p.forwardHost, name);
    case (FromForward, FromProfile) => TailCancels("profile-ip", p.forwardHost, name);
    case (FromProfile, FromHost) => HostNames("profile-ip", name, host);
    case (FromHost, FromProfile) => HostNames("profile-ip", name, host);
    case (FromForward, FromHost) => HostNames(p.forwardHost, name, host);
    case (FromHost, FromForward) => HostNames(p.forwardHost, name, host);
    case _ =>
  }

  lemma TailCancels(a: string, b: string, tail: string)
    requires a + "\0" + tail == b + "\0" + tail
    ensures a == b
  {
    assert a + "\0" + tail == a + ("\0" + tail) && b + "\0" + tail == b + ("\0" + tail);
    PrefixCancels(a, b, "\0" + tail, "\0" + tail);
  }

  /** The text keys of two candidates of one call agree exactly when their fields do. */
  lemma KeyTextExact(p: Profile, host: string, port: string, c: Candidate, d: Candidate)
    requires AskedFor(p, host, port, c) && AskedFor(p, host, port, d)
    ensures KeyText(c) == KeyText(d) <==> Identity(c) == Identity(d)
  {
    hide JoinHostPort, Names;
    if KeyText(c) == KeyText(d) {
      var o :| Made(p, host, port, o, c);
      var o' :| Made(p, host, port, o', d);
      var x: Ip :| c.address == JoinHostPort(x.text, port);
      var y: Ip :| d.address == JoinHostPort(y.text, port);
      KeyTextParts(c);
      KeyTextParts(d);
      hide KeyText;
      AddressCancels(x.text, y.text, port, c.target + "\0" + c.tlsServerName, d.target + "\0" + d.tlsServerName);
      SameNames(p, host, o, o');
    }
  }

  lemma KeyTextParts(c: Candidate)
    ensures KeyText(c) == c.address + "\0" + (c.target + "\0" + c.tlsServerName)
  {
  }

  lemma {:induction false} SameFirsts(p: Profile, host: string, port: string, list: seq<Candidate>)
    requires AllMade(p, host, port, list)
    ensures FirstOf(list, KeyText) == FirstOf(list, Identity)
    ensures AllMade(p, host, port, FirstOf(list, KeyText))
  {
    hide KeyText, Identity, AskedFor;
    if list != [] {
      var init, last := list[..|list| - 1], list[|list| - 1];
      assert AllMade(p, host, port, init);
      SameFirsts(p, host, port, init);
      var before := FirstOf(init, KeyText);
      if Has(before, KeyText, KeyText(last)) {
        var i :| 0 <= i < |before| && KeyText(before[i]) == KeyText(last);
        KeyTextExact(p, host, port, before[i], last);
      }
      if Has(before, Identity, Identity(last)) {
        var i :| 0 <= i < |before| && Identity(before[i]) == Identity(last);
        KeyTextExact(p, host, port, before[i], last);
      }
    }
  }

  /** De-duplication by text is de-duplication by address, target and server name, for every host, port and lookup. */
  lemma CandidatesAreFirsts(p: Profile, host: string, port: string, forward: Lookup, direct: Lookup)
    ensures var wanted := Wanted(p, host, port, forward, direct); FirstOf(wanted, KeyText) == FirstOf(wanted, Identity)
  {
    hide FirstOf, Wanted;
    WantedMade(p, host, port, forward, direct);
    SameFirsts(p, host, port, Wanted(p, host, port, forward, direct));
  }

  /** The places of the list where a key comes for the first time, in order. */
  ghost predicate AreFirstPlaces<K(!new)>(list: seq<Candidate>, key: Candidate -> K, places: seq<nat>)
  {
    && (forall i :: 0 <= i < |places| ==> places[i] < |list|)
    && (forall i, j :: 0 <= i < j < |places| ==> places[i] < places[j])
    && (forall k :: 0 <= k < |list| ==> (k in places <==> forall l :: 0 <= l < k ==> key(list[l]) != key(list[k])))
  }

  /** The de-duplicated list is the subsequence at the first places of the keys. */
  lemma {:induction false} FirstsAreInPlace<K(!new)>(list: seq<Candidate>, key: Candidate -> K) returns (places: seq<nat>)
    ensures AreFirstPlaces(list, key, places) && |places| == |FirstOf(list, key)|
    ensures forall i :: 0 <= i < |places| ==> places[i] < |list| && FirstOf(list, key)[i] == list[places[i]]
  {
    hide AreFirstPlaces, Has;
    places := [];
    if list == [] {
      NoFirstPlaces(key);
    } else {
      var init, last := list[..|list| - 1], list[|list| - 1];
      FirstsCover(init, key);
      var before := FirstsAreInPlace(init, key);
      assert list == init + [last];
      places := if Has(init, key, key(last)) then before else before + [|init|];
      FirstPlacesSnoc(init, last, key, before, places);
    }
  }

  lemma NoFirstPlaces<K(!new)>(key: Candidate -> K) ensures AreFirstPlaces([], key, []) {}

  /** Every wanted key is in the de-duplicated list, once. */
  lemma {:induction false} FirstsCover<K(!new)>(list: seq<Candidate>, key: Candidate -> K)
    ensures forall i, j :: 0 <= i < j < |FirstOf(list, key)| ==> key(FirstOf(list, key)[i]) != key(FirstOf(list, key)[j])
    ensures forall k :: Has(list, key, k) <==> Has(FirstOf(list, key), key, k)
  {
    if list != [] {
      var init, last := list[..|list| - 1], list[|list| - 1];
      FirstsCover(init, key);
      assert list == init + [last];
      HasSnoc(init, key, last);
      HasSnoc(FirstOf(init, key), key, last);
    }
  }

  lemma FirstPlacesSnoc<K(!new)>(init: seq<Candidate>, last: Candidate, key: Candidate -> K, before: seq<nat>, places: seq<nat>)
    requires AreFirstPlaces(init, key, before)
    requires places == if Has(init, key, key(last)) then before else before + [|init|]
    ensures AreFirstPlaces(init + [last], key, places)
  {
    var list := init + [last];
    forall k | 0 <= k < |list| ensures k in places <==> forall l :: 0 <= l < k ==> key(list[l]) != key(list[k]) {
      if k < |init| {
        assert k in places <==> k in before;
        assert forall l :: 0 <= l <= k ==> list[l] == init[l];
      } else {
        assert k !in before;
        assert k in places <==> !Has(init, key, key(last));
        assert forall l :: 0 <= l < k ==> list[l] == init[l];
      }
    }
  }

  // ----- dialing -----

  datatype Dialed = Connected(conn: nat) | AllFailed(attempts: seq<Attempt>)

  /** The connections this process holds open. */
  class Network {
    var open: set<nat>
    var next: nat

    ghost predicate Valid() reads this { forall c :: c in open ==> c < next }

    constructor ()
      ensures Valid() && open == {}
    {
      open, next := {}, 0;
    }

    method Connect(accepts: bool) returns (conn: Option<nat>)
      requires Valid()
      modifies this
      ensures Valid() && (conn.Some? <==> accepts)
      ensures conn.Some? ==> conn.value !in old(open) && open == old(open) + {conn.value}
      ensures conn.None? ==> open == old(open)
    {
      if !accepts { return None; }
      conn := Some(next);
      open, next := open + {next}, next + 1;
    }

    method Close(conn: nat)
      requires Valid()
      modifies this`open
      ensures Valid() && open == old(open) - {conn}
    {
      open := open - {conn};
    }
  }

  /** How candidate `i` failed. */
  function FailureOf(c: Candidate, tcp: bool): Attempt { Attempt(if tcp then Tls else Tcp, c.address, c.target) }

  /** One failure per candidate, in order: at the handshake where the connection came about, else at the connection. */
  function Failures(candidates: seq<Candidate>, tcp: nat -> bool): (r: seq<Attempt>)
    ensures |r| == |candidates|
    ensures forall i :: 0 <= i < |r| ==>
      (r[i].stage.Tls? <==> tcp(i)) && (r[i].stage.Tcp? <==> !tcp(i)) && r[i].address == candidates[i].address && r[i].target == candidates[i].target
  {
    seq(|candidates|, i requires 0 <= i < |candidates| => FailureOf(candidates[i], tcp(i)))
  }

  /**
   * Tries the candidates in order; `tcp(i)` and `tls(i)` say whether candidate `i` accepts the
   * connection and the handshake. The first that passes both is returned, and every other
   * connection opened on the way is closed again.
   */
  method DialTls(net: Network, candidates: seq<Candidate>, resolveFailures: seq<Attempt>, tcp: nat -> bool, tls: nat -> bool)
    returns (r: Dialed, winner: nat)
    requires net.Valid()
    modifies net
    ensures net.Valid()
    ensures match r
            case Connected(conn) =>
              && winner < |candidates| && tcp(winner) && tls(winner)
              && (forall i :: 0 <= i < winner ==> !(tcp(i) && tls(i)))
              && conn !in old(net.open) && net.open == old(net.open) + {conn}
            case AllFailed(attempts) =>
              && (forall i :: 0 <= i < |candidates| ==> !(tcp(i) && tls(i)))
              && attempts == resolveFailures + Failures(candidates, tcp)
              && net.open == old(net.open)
  {
    var attempts := resolveFailures;
    for i := 0 to |candidates|
      invariant net.Valid() && net.open == old(net.open)
      invariant forall k :: 0 <= k < i ==> !(tcp(k) && tls(k))
      invariant attempts == resolveFailures + Failures(candidates, tcp)[..i]
    {
      var c := candidates[i];
      var conn := net.Connect(tcp(i));
      if conn.None? {
        attempts := attempts + [Attempt(Tcp, c.address, c.target)];
        continue;
      }
      if !tls(i) {
        net.Close(conn.value);
        attempts := attempts + [Attempt(Tls, c.address, c.target)];
        continue;
      }
      return Connected(conn.value), i;
    }
    assert Failures(candidates, tcp)[..|candidates|] == Failures(candidates, tcp);
    return AllFailed(attempts), |candidates|;
  }

  /** The plain loop: the first candidate that accepts a connection. */
  method Dial(net: Network, candidates: seq<Candidate>, resolveFailures: seq<Attempt>, tcp: nat -> bool)
    returns (r: Dialed, winner: nat)
    requires net.Valid()
    modifies net
    ensures net.Valid()
    ensures match r
            case Connected(conn) =>
              && winner < |candidates| && tcp(winner) && (forall i :: 0 <= i < winner ==> !tcp(i))
              && conn !in old(net.open) && net.open == old(net.open) + {conn}
            case AllFailed(attempts) =>
              && (forall i :: 0 <= i < |candidates| ==> !tcp(i))
              && attempts == resolveFailures + Failures(candidates, tcp)
              && net.open == old(net.open)
  {
    var attempts := resolveFailures;
    for i := 0 to |candidates|
      invariant net.Valid() && net.open == old(net.open)
      invariant forall k :: 0 <= k < i ==> !tcp(k)
      invariant attempts == resolveFailures + Failures(candidates, tcp)[..i]
    {
      var conn := net.Connect(tcp(i));
      if conn.Some? { return Connected(conn.value), i; }
      attempts := attempts + [Attempt(Tcp, candidates[i].address, candidates[i].target)];
    }
    assert Failures(candidates, tcp)[..|candidates|] == Failures(candidates, tcp);
    return AllFailed(attempts), |candidates|;
  }

  // ----- the whole dial -----

  /** The candidates and failed lookups of a host under the profile it matches, by fields; none when the resolver fails. */
  ghost function ListFor(p: Option<Profile>, host: string, port: string, forward: string -> Lookup, direct: Lookup)
    : Option<(seq<Candidate>, seq<Attempt>)>
  {
    match p
    case None => if direct.None? then None else Some((Plain(direct.value, host, port), []))
    case Some(profile) =>
      var found := forward(profile.forwardHost);
      Some((FirstOf(Wanted(profile, host, port, found, direct), Identity), LookupFailures(profile, host, port, found, direct)))
  }

  datatype DialOutcome = BadAddress | ResolveFailed | Ended(dialed: Dialed)

  /** The list for a host: match, look up, de-duplicate. */
  method ListCandidates(profiles: seq<Profile>, host: string, port: string, norm: Normalize, forward: string -> Lookup, direct: Lookup)
    returns (matched: Option<nat>, list: Option<(seq<Candidate>, seq<Attempt>)>)
    ensures IsMatch(profiles, host, norm, matched)
    ensures list == ListFor(Chosen(profiles, matched), host, port, forward, direct)
  {
    hide FirstOf, Wanted, LookupFailures, Plain, ProfileMatches;
    matched := MatchProfile(profiles, host, norm);
    var p := Chosen(profiles, matched);
    list := Candidates(p, host, port, if p.Some? then forward(p.value.forwardHost) else None, direct);
    if p.Some? { CandidatesAreFirsts(p.value, host, port, forward(p.value.forwardHost), direct); }
  }

  function Chosen(profiles: seq<Profile>, matched: Option<nat>): Option<Profile>
  {
    if matched.Some? && matched.value < |profiles| then Some(profiles[matched.value]) else None
  }

  /**
   * From the address to the connection: the profile is the first that matches the host, the
   * list is the first of each address, target and server name it asks for, and the connection
   * is the first of that list to pass TCP and TLS; otherwise the failed lookups and one failure
   * per candidate are reported, and nothing opened on the way stays open.
   */
  method DialTlsContext(net: Network, profiles: seq<Profile>, target: Option<(string, string)>, norm: Normalize,
                        forward: string -> Lookup, direct: Lookup, tcp: nat -> bool, tls: nat -> bool)
    returns (r: DialOutcome, matched: Option<nat>, winner: nat)
    requires net.Valid()
    modifies net
    ensures net.Valid() && (r == BadAddress <==> target.None?)
    ensures target.Some? ==>
      var (host, port) := target.value;
      var list := ListFor(Chosen(profiles, matched), host, port, forward, direct);
      && IsMatch(profiles, host, norm, matched)
      && (r == ResolveFailed <==> list.None?)
      && (list.Some? ==> r.Ended? && match r.dialed
            case Connected(conn) =>
              && winner < |list.value.0| && tcp(winner) && tls(winner) && (forall i :: 0 <= i < winner ==> !(tcp(i) && tls(i)))
              && conn !in old(net.open) && net.open == old(net.open) + {conn}
            case AllFailed(attempts) =>
              && (forall i :: 0 <= i < |list.value.0| ==> !(tcp(i) && tls(i)))
              && attempts == list.value.1 + Failures(list.value.0, tcp) && net.open == old(net.open))
    ensures !r.Ended? ==> net.open == old(net.open)
  {
    hide ListFor, IsMatch, Chosen;
    matched, winner := None, 0;
    if target.None? { return BadAddress, None, 0; }
    var (host, port) := target.value;
    var list;
    matched, list := ListCandidates(profiles, host, port, norm, forward, direct);
    if list.None? { return ResolveFailed, matched, 0; }
    var dialed;
    dialed, winner := DialTls(net, list.value.0, list.value.1, tcp, tls);
    r := Ended(dialed);
  }

  /** The same without the handshake. */
  method DialContext(net: Network, profiles: seq<Profile>, target: Option<(string, string)>, norm: Normalize,
                     forward: string -> Lookup, direct: Lookup, tcp: nat -> bool)
    returns (r: DialOutcome, matched: Option<nat>, winner: nat)
    requires net.Valid()
    modifies net
    ensures net.Valid() && (r == BadAddress <==> target.None?)
    ensures target.Some? ==>
      var (host, port) := target.value;
      var list := ListFor(Chosen(profiles, matched), host, port, forward, direct);
      && IsMatch(profiles, host, norm, matched)
      && (r == ResolveFailed <==> list.None?)
      && (list.Some? ==> r.Ended? && match r.dialed
            case Connected(conn) =>
              && winner < |list.value.0| && tcp(winner) && (forall i :: 0 <= i < winner ==> !tcp(i))
              && conn !in old(net.open) && net.open == old(net.open) + {conn}
            case AllFailed(attempts) =>
              && (forall i :: 0 <= i < |list.value.0| ==> !tcp(i))
              && attempts == list.value.1 + Failures(list.value.0, tcp) && net.open == old(net.open))
    ensures !r.Ended? ==> net.open == old(net.open)
  {
    hide ListFor, IsMatch, Chosen;
    matched, winner := None, 0;
    if target.None? { return BadAddress, None, 0; }
    var (host, port) := target.value;
    var list;
    matched, list := ListCandidates(profiles, host, port, norm, forward, direct);
    if list.None? { return ResolveFailed, matched, 0; }
    var dialed;
    dialed, winner := Dial(net, list.value.0, list.value.1, tcp);
    r := Ended(dialed);
  }
}
