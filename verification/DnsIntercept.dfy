/**
 * The DNS interception server (internal/dnsintercept/server.go): routing, local answers,
 * and the timed cache. Times and durations are in nanoseconds.
 */
module DnsIntercept {
  import opened Basics
  import opened Text

  type u16 = n: int | 0 <= n < 0x1_0000
  type u32 = n: int | 0 <= n < 0x1_0000_0000

  const SECOND := 1_000_000_000
  const TYPE_A: u16 := 1
  const TYPE_AAAA: u16 := 28
  const TYPE_SVCB: u16 := 64
  const TYPE_HTTPS: u16 := 65
  const CLASS_INET: u16 := 1
  const RCODE_SUCCESS := 0
  const RCODE_SERVER_FAILURE := 2

  datatype Question = Question(name: string, qtype: u16, qclass: u16)

  datatype Record = Record(name: string, rtype: u16, class_: u16, ttl: u32, data: string)

  /** A record slot may be nil, which the server skips. */
  type Records = seq<Option<Record>>

  datatype Msg = Msg(id: u16, rcode: int, authoritative: bool, recursionAvailable: bool,
                     question: seq<Question>, answer: Records, ns: Records, extra: Records)

  datatype Config = Config(mapIPv4: Option<string>, mapIPv6: Option<string>, ttl: int, cacheTtl: int, blockHttps: bool)

  datatype Entry = Entry(resp: Msg, expires: int)

  // ----- messages -----

  /** `SetReply`: an empty answer to the request's first question. */
  function Reply(req: Msg): Msg
  {
    Msg(req.id, RCODE_SUCCESS, false, false, if req.question == [] then [] else [req.question[0]], [], [], [])
  }

  function AllRecords(m: Msg): Records { m.answer + m.ns + m.extra }

  /** The message with its records replaced, section by section. */
  function WithRecords(m: Msg, records: Records): Msg
    requires |records| == |AllRecords(m)|
  {
    var a, b := |m.answer|, |m.answer| + |m.ns|;
    m.(answer := records[..a], ns := records[a..b], extra := records[b..])
  }

  // ----- TTL arithmetic -----

  /** Go's integer division, which rounds toward zero. */
  function TruncDiv(a: int, b: int): int
    requires b > 0
  {
    if a >= 0 then a / b else -((-a) / b)
  }

  /** Conversion to `uint32`, which wraps. */
  function Wrap32(n: int): u32 { n % 0x1_0000_0000 }

  function Remaining(expires: int, now: int): u32 { Wrap32(TruncDiv(expires - now, SECOND)) }

  function Min(a: int, b: int): int { if a <= b then a else b }

  /** The smaller of `maxTtl` and every record's TTL. */
  function Lifetime(records: Records, maxTtl: int): (r: int)
    ensures r <= maxTtl
    ensures forall i :: 0 <= i < |records| && records[i].Some? ==> r <= records[i].value.ttl * SECOND
    ensures r == maxTtl || exists i :: 0 <= i < |records| && records[i].Some? && r == records[i].value.ttl * SECOND
  {
    if records == [] then maxTtl
    else
      var last := records[|records| - 1];
      var before := Lifetime(records[..|records| - 1], maxTtl);
      if last.None? then before else Min(before, last.value.ttl * SECOND)
  }

  lemma LifetimeOfNothing(maxTtl: int) ensures Lifetime([], maxTtl) == maxTtl {}

  lemma LifetimeSnoc(records: Records, n: nat, maxTtl: int)
    requires n < |records|
    ensures
      var before := Lifetime(records[..n], maxTtl);
      Lifetime(records[..n + 1], maxTtl) == if records[n].None? then before else Min(before, records[n].value.ttl * SECOND)
  {
    assert records[..n + 1][..n] == records[..n];
  }

  method ResponseTtl(resp: Msg, maxTtl: int) returns (r: int)
    ensures r == Lifetime(AllRecords(resp), if maxTtl <= 0 then 600 * SECOND else maxTtl)
  {
    hide Lifetime;
    var limit := if maxTtl <= 0 then 600 * SECOND else maxTtl;
    var records := AllRecords(resp);
    var ttl: u32 := 0;
    var seen := false;
    LifetimeOfNothing(limit);
    for n := 0 to |records|
      invariant !seen ==> Lifetime(records[..n], limit) == limit
      invariant seen ==> Lifetime(records[..n], limit) == Min(limit, ttl * SECOND)
    {
      LifetimeSnoc(records, n, limit);
      if records[n].None? { continue; }
      var recordTtl := records[n].value.ttl;
      if !seen || recordTtl < ttl {
        ttl := recordTtl;
        seen := true;
      }
    }
    assert records[..|records|] == records;
    if !seen { return limit; }
    var duration := ttl * SECOND;
    r := if duration > limit then limit else duration;
  }

  function CapRecord(r: Option<Record>, remaining: u32): Option<Record>
  {
    if r.Some? && r.value.ttl > remaining then Some(r.value.(ttl := remaining)) else r
  }

  function Capped(records: Records, remaining: u32): (r: Records)
    ensures |r| == |records|
    ensures forall i :: 0 <= i < |r| ==> r[i] == CapRecord(records[i], remaining)
  {
    seq(|records|, i requires 0 <= i < |records| => CapRecord(records[i], remaining))
  }

  /** Lower every record's TTL in place. */
  method CapResponseTtl(records: array<Option<Record>>, remaining: u32)
    modifies records
    ensures records[..] == Capped(old(records[..]), remaining)
  {
    for n := 0 to records.Length
      invariant forall i :: 0 <= i < n ==> records[i] == CapRecord(old(records[i]), remaining)
      invariant forall i :: n <= i < records.Length ==> records[i] == old(records[i])
    {
      if records[n].Some? && records[n].value.ttl > remaining {
        records[n] := Some(records[n].value.(ttl := remaining));
      }
    }
  }

  // ----- the cache key -----

  function CacheKey(req: Msg): Option<string>
  {
    if |req.question| != 1 then None
    else
      var q := req.question[0];
      Some(ToLower(q.name) + "|" + Decimal(q.qtype) + "|" + Decimal(q.qclass))
  }

  /** The number of characters after the last separator. */
  ghost function TailLength(s: string): nat
  {
    if s == "" || s[|s| - 1] == '|' then 0 else 1 + TailLength(s[..|s| - 1])
  }

  lemma {:induction false} TailAfterBar(x: string, d: string)
    requires '|' !in d
    ensures TailLength(x + "|" + d) == |d|
  {
    if d != "" {
      var s := x + "|" + d;
      assert s[..|s| - 1] == x + "|" + d[..|d| - 1];
      TailAfterBar(x, d[..|d| - 1]);
    }
  }

  lemma LastBar(x: string, d: string, y: string, e: string)
    requires x + "|" + d == y + "|" + e && '|' !in d && '|' !in e
    ensures x == y && d == e
  {
    TailAfterBar(x, d);
    TailAfterBar(y, e);
    var s, t := x + "|" + d, y + "|" + e;
    assert |s| == |x| + 1 + |d| && |t| == |y| + 1 + |e|;
    assert x == s[..|x|] && y == t[..|y|];
    assert d == s[|x| + 1..] && e == t[|y| + 1..];
  }

  /** Equal keys mean the same lower-cased name, type and class, even for names containing the separator. */
  lemma CacheKeyInjective(a: Msg, b: Msg)
    requires CacheKey(a).Some? && CacheKey(b).Some?
    ensures CacheKey(a) == CacheKey(b) <==> SameQuestion(a, b)
  {
    var p, q := a.question[0], b.question[0];
    if CacheKey(a) == CacheKey(b) {
      LastBar(ToLower(p.name) + "|" + Decimal(p.qtype), Decimal(p.qclass),
              ToLower(q.name) + "|" + Decimal(q.qtype), Decimal(q.qclass));
      LastBar(ToLower(p.name), Decimal(p.qtype), ToLower(q.name), Decimal(q.qtype));
      DecimalInjective(p.qclass, q.qclass);
      DecimalInjective(p.qtype, q.qtype);
    }
  }

  predicate SameQuestion(a: Msg, b: Msg)
  {
    && |a.question| == 1 && |b.question| == 1
    && ToLower(a.question[0].name) == ToLower(b.question[0].name)
    && a.question[0].qtype == b.question[0].qtype
    && a.question[0].qclass == b.question[0].qclass
  }

  // ----- the cache -----

  type Cache = map<string, Entry>

  function Lookup(cache: Cache, req: Msg, now: int): Option<Entry>
  {
    var key := CacheKey(req);
    if key.Some? && key.value in cache && now < cache[key.value].expires then Some(cache[key.value]) else None
  }

  function AfterLookup(cache: Cache, req: Msg, now: int): Cache
  {
    var key := CacheKey(req);
    if key.Some? && key.value in cache && now >= cache[key.value].expires then cache - {key.value} else cache
  }

  /** The answer served from an entry, with the clock read a second time. */
  function HitResponse(entry: Entry, req: Msg, now: int): Msg
  {
    WithRecords(entry.resp.(id := req.id), Capped(AllRecords(entry.resp), Remaining(entry.expires, now)))
  }

  predicate Storable(req: Msg, resp: Msg, cacheTtl: int)
  {
    resp.rcode == RCODE_SUCCESS && CacheKey(req).Some? && Lifetime(AllRecords(resp), cacheTtl) > 0
  }

  function StoredEntry(resp: Msg, now: int, cacheTtl: int): Entry
  {
    Entry(resp.(id := 0), now + Lifetime(AllRecords(resp), cacheTtl))
  }

  function AfterPut(cache: Cache, req: Msg, resp: Msg, now: int, cacheTtl: int): Cache
  {
    if Storable(req, resp, cacheTtl) then cache[CacheKey(req).value := StoredEntry(resp, now, cacheTtl)] else cache
  }

  /**
   * An answer served before its entry expires keeps every deadline: at the second clock
   * reading no TTL reaches past the store time plus the smallest original TTL and CacheTTL.
   * With a record in the answer this is exactly the condition.
   */
  lemma ServedTtlsEndInTime(req: Msg, resp: Msg, stored: int, cacheTtl: int, now: int)
    requires cacheTtl > 0
    ensures
      var entry := StoredEntry(resp, stored, cacheTtl);
      var served := AllRecords(HitResponse(entry, req, now));
      var originals := AllRecords(resp);
      && |served| == |originals|
      && (forall i, j :: 0 <= i < |served| && 0 <= j < |served| && served[i].Some? && originals[j].Some? && now <= entry.expires ==>
            && now + served[i].value.ttl * SECOND <= stored + originals[j].value.ttl * SECOND
            && now + served[i].value.ttl * SECOND <= stored + cacheTtl)
      && ((exists i :: 0 <= i < |served| && served[i].Some?) ==>
            ((forall i :: 0 <= i < |served| && served[i].Some? ==> now + served[i].value.ttl * SECOND <= entry.expires)
             <==> now <= entry.expires))
  {
    var entry := StoredEntry(resp, stored, cacheTtl);
    var served, originals := AllRecords(HitResponse(entry, req, now)), AllRecords(resp);
    ServedRecords(entry, req, now);
    var left := Remaining(entry.expires, now);
    forall i | 0 <= i < |served| && served[i].Some? && now <= entry.expires
      ensures now + served[i].value.ttl * SECOND <= entry.expires
    {
      assert served[i] == CapRecord(originals[i], left);
      RemainingBeforeExpiry(entry.expires, now, originals[i].value.ttl);
    }
    if now > entry.expires {
      forall i | 0 <= i < |served| && served[i].Some? ensures now + served[i].value.ttl * SECOND > entry.expires {}
    }
  }

  lemma ServedRecords(entry: Entry, req: Msg, now: int)
    ensures AllRecords(HitResponse(entry, req, now)) == Capped(AllRecords(entry.resp), Remaining(entry.expires, now))
  {
    var records := Capped(AllRecords(entry.resp), Remaining(entry.expires, now));
    var a, b := |entry.resp.answer|, |entry.resp.answer| + |entry.resp.ns|;
    assert records[..a] + records[a..b] + records[b..] == records;
  }

  lemma RemainingBeforeExpiry(expires: int, now: int, ttl: u32)
    requires now <= expires
    ensures now + Min(ttl, Remaining(expires, now)) * SECOND <= expires
  {
    var seconds := (expires - now) / SECOND;
    assert seconds * SECOND <= expires - now;
    if seconds < 0x1_0000_0000 {
      assert Remaining(expires, now) == seconds;
    } else {
      assert Min(ttl, Remaining(expires, now)) < seconds;
    }
  }

  /** The record with its TTL lowered to the whole seconds left, everything else as it was. */
  ghost predicate AgedRecord(original: Option<Record>, served: Option<Record>, left: int)
  {
    match original
    case None => served == None
    case Some(r) =>
      && served.Some? && served.value.name == r.name && served.value.rtype == r.rtype
      && served.value.class_ == r.class_ && served.value.data == r.data
      && served.value.ttl == if r.ttl <= left then r.ttl else left
  }

  ghost predicate AgedRecords(originals: Records, served: Records, left: int)
  {
    |served| == |originals| && forall i :: 0 <= i < |served| ==> AgedRecord(originals[i], served[i], left)
  }

  /** The message under another ID, section by section the same records, aged. */
  ghost predicate AgedMessage(original: Msg, served: Msg, id: u16, left: int)
  {
    && served.id == id && served.rcode == original.rcode && served.question == original.question
    && served.authoritative == original.authoritative && served.recursionAvailable == original.recursionAvailable
    && AgedRecords(original.answer, served.answer, left) && AgedRecords(original.ns, served.ns, left)
    && AgedRecords(original.extra, served.extra, left)
  }

  /** What is served before expiry is the stored message with each TTL the smaller of its own and the whole seconds left. */
  lemma ServedIsAged(entry: Entry, req: Msg, now: int)
    requires now <= entry.expires && (entry.expires - now) / SECOND < 0x1_0000_0000
    ensures AgedMessage(entry.resp, HitResponse(entry, req, now), req.id, (entry.expires - now) / SECOND)
  {
    hide AgedRecords, Capped;
    var left := (entry.expires - now) / SECOND;
    assert Remaining(entry.expires, now) == left;
    var m := entry.resp;
    var a, b := |m.answer|, |m.answer| + |m.ns|;
    var all := AllRecords(m);
    assert all[..a] == m.answer && all[a..b] == m.ns && all[b..] == m.extra;
    CappedAges(all, left, 0, a);
    CappedAges(all, left, a, b);
    CappedAges(all, left, b, |all|);
    assert Capped(all, left)[b..] == Capped(all, left)[b..|all|] && all[b..|all|] == all[b..];
    assert Capped(all, left)[..a] == Capped(all, left)[0..a] && all[0..a] == all[..a];
  }

  lemma CappedAges(records: Records, left: u32, from: nat, to: nat)
    requires from <= to <= |records|
    ensures AgedRecords(records[from..to], Capped(records, left)[from..to], left)
  {
  }

  /**
   * A stored answer is found for the same question until it expires and by no other question;
   * what other questions find is as before.
   */
  lemma StoredIsFound(cache: Cache, req: Msg, resp: Msg, at: int, cacheTtl: int, other: Msg, now: int)
    requires Storable(req, resp, cacheTtl)
    ensures
      var after := AfterPut(cache, req, resp, at, cacheTtl);
      var expires := at + Lifetime(AllRecords(resp), cacheTtl);
      && (SameQuestion(req, other) ==>
            Lookup(after, other, now) == if now < expires then Some(Entry(resp.(id := 0), expires)) else None)
      && (!SameQuestion(req, other) ==> Lookup(after, other, now) == Lookup(cache, other, now))
  {
    hide Lifetime, CacheKey;
    OneQuestionHasKey(req);
    OneQuestionHasKey(other);
    if CacheKey(other).Some? { CacheKeyInjective(req, other); }
  }

  lemma OneQuestionHasKey(req: Msg)
    ensures CacheKey(req).Some? <==> |req.question| == 1
  {
  }

  lemma SameQuestionHasKey(a: Msg, b: Msg)
    requires SameQuestion(a, b)
    ensures CacheKey(a).Some? && CacheKey(b).Some?
  {
  }

  /** A lookup drops only what has expired: later lookups of any question find what they would have found. */
  lemma LookupLosesNothing(cache: Cache, req: Msg, at: int, other: Msg, now: int)
    requires at <= now
    ensures Lookup(AfterLookup(cache, req, at), other, now) == Lookup(cache, other, now)
    ensures AfterLookup(cache, req, at).Keys <= cache.Keys
    ensures CacheKey(req).Some? && CacheKey(req).value in AfterLookup(cache, req, at) ==> at < cache[CacheKey(req).value].expires
  {
  }

  /**
   * A second reading `k` whole seconds after expiry wraps round to 2^32 - k, and no TTL up to
   * that is lowered; one second late, no TTL at all.
   */
  lemma LateReadLowersNothing(entry: Entry, req: Msg, now: int, k: nat)
    requires 1 <= k < 0x1_0000_0000 && entry.expires + k * SECOND <= now < entry.expires + (k + 1) * SECOND
    requires forall i :: 0 <= i < |AllRecords(entry.resp)| && AllRecords(entry.resp)[i].Some? ==>
      AllRecords(entry.resp)[i].value.ttl <= 0x1_0000_0000 - k
    ensures AllRecords(HitResponse(entry, req, now)) == AllRecords(entry.resp)
  {
    ServedRecords(entry, req, now);
    LateRemaining(entry.expires, now, k);
  }

  lemma LateRemaining(expires: int, now: int, k: nat)
    requires 1 <= k < 0x1_0000_0000 && expires + k * SECOND <= now < expires + (k + 1) * SECOND
    ensures Remaining(expires, now) == 0x1_0000_0000 - k
  {
    assert (now - expires) / SECOND == k;
    var late: int := k;
    assert Remaining(expires, now) == (0 - late) % 0x1_0000_0000;
  }

  /**
   * An answer is stored exactly when it succeeded, the request has one question, and no record
   * of any section has TTL zero.
   */
  lemma StoredExactly(req: Msg, resp: Msg, cacheTtl: int)
    requires cacheTtl > 0
    ensures Storable(req, resp, cacheTtl)
       <==> && resp.rcode == RCODE_SUCCESS && |req.question| == 1
            && forall i :: 0 <= i < |AllRecords(resp)| && AllRecords(resp)[i].Some? ==> AllRecords(resp)[i].value.ttl > 0
  {
  }

  /** So a good answer with an OPT record whose TTL field is zero leaves the cache as it was. */
  lemma ZeroTtlIsNeverStored(cache: Cache, req: Msg, resp: Msg, now: int, cacheTtl: int, opt: Record)
    requires cacheTtl > 0 && opt.ttl == 0
    ensures AfterPut(cache, req, resp.(extra := resp.extra + [Some(opt)]), now, cacheTtl) == cache
  {
    hide Lifetime, Storable;
    var with := resp.(extra := resp.extra + [Some(opt)]);
    assert AllRecords(with)[|AllRecords(with)| - 1] == Some(opt);
    StoredExactly(req, with, cacheTtl);
  }

  // ----- routing -----

  function HostOf(q: Question): string
  {
    if q.name != "" && q.name[|q.name| - 1] == '.' then q.name[..|q.name| - 1] else q.name
  }

  predicate ForwardsTarget(cfg: Config, q: Question)
  {
    q.qclass == CLASS_INET && (q.qtype == TYPE_HTTPS || q.qtype == TYPE_SVCB) && !cfg.blockHttps
  }

  function MappedAddress(cfg: Config, q: Question): Option<string>
  {
    if q.qclass != CLASS_INET then None
    else if q.qtype == TYPE_A then cfg.mapIPv4
    else if q.qtype == TYPE_AAAA then cfg.mapIPv6
    else None
  }

  /** The local answer to a target query and whether it counts as blocked: blocked means nothing was mapped. */
  function LocalResponse(cfg: Config, req: Msg, q: Question): (r: (Msg, bool))
    ensures r.0.id == req.id && r.0.rcode == RCODE_SUCCESS && r.0.ns == r.0.extra == []
    ensures !ForwardsTarget(cfg, q) ==> (r.1 <==> MappedAddress(cfg, q).None?)
    ensures !ForwardsTarget(cfg, q) ==> (r.1 <==> r.0.answer == [])
    ensures MappedAddress(cfg, q).Some? ==>
      r.0.answer == [Some(Record(q.name, q.qtype, CLASS_INET, Wrap32(TruncDiv(cfg.ttl, SECOND)), MappedAddress(cfg, q).value))]
  {
    var base := Reply(req).(authoritative := true, recursionAvailable := true);
    var ttl := Wrap32(TruncDiv(cfg.ttl, SECOND));
    if q.qclass != CLASS_INET then (base, true)
    else if q.qtype == TYPE_A then
      if cfg.mapIPv4.None? then (base, true)
      else (base.(answer := [Some(Record(q.name, TYPE_A, CLASS_INET, ttl, cfg.mapIPv4.value))]), false)
    else if q.qtype == TYPE_AAAA then
      if cfg.mapIPv6.None? then (base, true)
      else (base.(answer := [Some(Record(q.name, TYPE_AAAA, CLASS_INET, ttl, cfg.mapIPv6.value))]), false)
    else if q.qtype == TYPE_HTTPS || q.qtype == TYPE_SVCB then (base, cfg.blockHttps)
    else (base, true)
  }

  function Failure(req: Msg): Msg { Reply(req).(rcode := RCODE_SERVER_FAILURE) }

  // ----- the server -----

  datatype Counters = Counters(target: nat, forwarded: nat, hits: nat, blocked: nat, errors: nat)

  /** The clock readings of one query: before and after the lookup, and at the store. */
  datatype Clock = Clock(lookup: int, serve: int, store: int)

  /** What one query that nobody interrupts leaves behind. */
  datatype Handled = Handled(resp: Msg, called: bool, cache: Cache, counters: Counters)

  ghost function Forwarded(cfg: Config, cache: Cache, c: Counters, req: Msg, clock: Clock, answer: Option<Msg>): Handled
  {
    var found, looked := Lookup(cache, req, clock.lookup), AfterLookup(cache, req, clock.lookup);
    if found.Some? then Handled(HitResponse(found.value, req, clock.serve), false, looked, c.(hits := c.hits + 1))
    else if answer.None? then Handled(Failure(req), true, looked, c.(forwarded := c.forwarded + 1, errors := c.errors + 1))
    else
      var resp := answer.value.(id := req.id);
      Handled(resp, true, AfterPut(looked, req, resp, clock.store, cfg.cacheTtl), c.(forwarded := c.forwarded + 1))
  }

  /** The whole decision: no question, a target answered locally, or the cache and the forwarder. */
  ghost function Alone(cfg: Config, matches: string -> bool, cache: Cache, c: Counters, req: Msg, clock: Clock, answer: Option<Msg>): Handled
  {
    if req.question == [] then Handled(Reply(req), false, cache, c)
    else
      var q := req.question[0];
      var target := matches(HostOf(q));
      var c' := if target then c.(target := c.target + 1) else c;
      if target && !ForwardsTarget(cfg, q) then
        var (resp, blocked) := LocalResponse(cfg, req, q);
        Handled(resp, false, cache, c'.(blocked := c'.blocked + if blocked then 1 else 0))
      else
        Forwarded(cfg, cache, c', req, clock, answer)
  }

  /** The name asked for, without its final dot, is one of ours. */
  ghost predicate AsksTarget(matches: string -> bool, name: string)
  {
    exists host :: matches(host) && (name == host + "." || (name == host && (host == "" || host[|host| - 1] != '.')))
  }

  lemma HostIsAsked(matches: string -> bool, q: Question)
    ensures matches(HostOf(q)) <==> AsksTarget(matches, q.name)
  {
    if q.name != "" && q.name[|q.name| - 1] == '.' {
      assert q.name == HostOf(q) + ".";
      assert forall host :: q.name == host + "." ==> host == q.name[..|q.name| - 1];
    } else {
      assert forall host :: q.name == host + "." ==> q.name[|q.name| - 1] == '.';
    }
  }

  /** An empty reply: the request's ID and first question, and no records. */
  ghost predicate IsEmptyReply(req: Msg, resp: Msg, rcode: int)
  {
    && resp.id == req.id && resp.rcode == rcode && resp.question == (if req.question == [] then [] else [req.question[0]])
    && resp.answer == [] && resp.ns == [] && resp.extra == []
  }

  /** The locally mapped record of an A or AAAA question of the Internet class. */
  ghost predicate IsMapped(cfg: Config, q: Question, r: Option<Record>)
  {
    && r.Some? && q.qclass == 1 && r.value.name == q.name && r.value.rtype == q.qtype && r.value.class_ == 1
    && r.value.ttl == (cfg.ttl / 1_000_000_000) % 0x1_0000_0000
    && ((q.qtype == 1 && cfg.mapIPv4 == Some(r.value.data)) || (q.qtype == 28 && cfg.mapIPv6 == Some(r.value.data)))
  }

  /** A target is passed on when it asks for HTTPS or SVCB of the Internet class and these are not blocked. */
  ghost predicate PassedOn(cfg: Config, q: Question) { q.qclass == 1 && q.qtype in {65, 64} && !cfg.blockHttps }

  /**
   * What one query comes to, in the numbers of the protocol. Without a question, an empty
   * reply. A target not passed on gets an authoritative reply with the mapped address, or
   * without records when none is mapped, which counts as blocked. Anything else is a cache hit,
   * the forwarder's answer under this request's ID, or SERVFAIL.
   */
  lemma HandlerMeans(cfg: Config, matches: string -> bool, cache: Cache, c: Counters, req: Msg, clock: Clock, answer: Option<Msg>)
    requires cfg.ttl >= 0
    ensures
      var h := Alone(cfg, matches, cache, c, req, clock, answer);
      if req.question == [] then IsEmptyReply(req, h.resp, 0) && !h.called && h.cache == cache && h.counters == c
      else
        var q := req.question[0];
        var target := AsksTarget(matches, q.name);
        var c' := if target then c.(target := c.target + 1) else c;
        if target && !PassedOn(cfg, q) then
          && !h.called && h.cache == cache && h.resp.authoritative && h.resp.recursionAvailable
          && IsEmptyReply(req, h.resp.(answer := []), 0)
          && ((q.qclass == 1 && ((q.qtype == 1 && cfg.mapIPv4.Some?) || (q.qtype == 28 && cfg.mapIPv6.Some?))) ==>
                |h.resp.answer| == 1 && IsMapped(cfg, q, h.resp.answer[0]))
          && (!(q.qclass == 1 && ((q.qtype == 1 && cfg.mapIPv4.Some?) || (q.qtype == 28 && cfg.mapIPv6.Some?))) ==> h.resp.answer == [])
          && h.counters == c'.(blocked := c'.blocked + if h.resp.answer == [] then 1 else 0)
        else
          && (h.called <==> Lookup(cache, req, clock.lookup).None?)
          && (!h.called ==> h.counters == c'.(hits := c'.hits + 1))
          && (h.called && answer.None? ==>
                && IsEmptyReply(req, h.resp, 2) && h.counters == c'.(forwarded := c'.forwarded + 1, errors := c'.errors + 1)
                && h.cache == AfterLookup(cache, req, clock.lookup))
          && (h.called && answer.Some? ==>
                && h.resp == answer.value.(id := req.id) && h.counters == c'.(forwarded := c'.forwarded + 1)
                && h.cache == AfterPut(AfterLookup(cache, req, clock.lookup), req, h.resp, clock.store, cfg.cacheTtl))
  {
    hide Lookup, AfterLookup, AfterPut, HitResponse, AsksTarget;
    if req.question != [] { HostIsAsked(matches, req.question[0]); }
  }

  class Server {
    const cfg: Config
    const matches: string -> bool
    var cache: Cache
    var counters: Counters

    constructor (cfg: Config, matches: string -> bool)
      ensures this.matches == matches && cache == map[] && counters == Counters(0, 0, 0, 0, 0)
      ensures this.cfg == cfg.(ttl := if cfg.ttl <= 0 then 30 * SECOND else cfg.ttl,
                               cacheTtl := if cfg.cacheTtl <= 0 then 600 * SECOND else cfg.cacheTtl)
    {
      this.cfg := cfg.(ttl := if cfg.ttl <= 0 then 30 * SECOND else cfg.ttl,
                       cacheTtl := if cfg.cacheTtl <= 0 then 600 * SECOND else cfg.cacheTtl);
      this.matches, this.cache, this.counters := matches, map[], Counters(0, 0, 0, 0, 0);
    }

    method GetCache(req: Msg, lookup: int, serve: int) returns (resp: Option<Msg>)
      modifies this`cache
      ensures cache == AfterLookup(old(cache), req, lookup)
      ensures match Lookup(old(cache), req, lookup)
              case None => resp == None
              case Some(entry) =>
                && resp == Some(HitResponse(entry, req, serve))
                && (serve <= entry.expires && (entry.expires - serve) / SECOND < 0x1_0000_0000 ==>
                      AgedMessage(entry.resp, resp.value, req.id, (entry.expires - serve) / SECOND))
    {
      hide AgedMessage;
      var key := CacheKey(req);
      if key.None? || key.value !in cache { return None; }
      var entry := cache[key.value];
      if lookup >= entry.expires {
        cache := cache - {key.value};
        return None;
      }
      var source := AllRecords(entry.resp);
      var copy := new Option<Record>[|source|](i requires 0 <= i < |source| => source[i]);
      assert copy[..] == source;
      CapResponseTtl(copy, Remaining(entry.expires, serve));
      resp := Some(WithRecords(entry.resp.(id := req.id), copy[..]));
      if serve <= entry.expires && (entry.expires - serve) / SECOND < 0x1_0000_0000 { ServedIsAged(entry, req, serve); }
    }

    method PutCache(req: Msg, resp: Msg, store: int)
      requires cfg.cacheTtl > 0
      modifies this`cache
      ensures cache == AfterPut(old(cache), req, resp, store, cfg.cacheTtl)
    {
      if resp.rcode != RCODE_SUCCESS { return; }
      var key := CacheKey(req);
      if key.None? { return; }
      var ttl := ResponseTtl(resp, cfg.cacheTtl);
      if ttl <= 0 { return; }
      cache := cache[key.value := Entry(resp.(id := 0), store + ttl)];
    }

    /** Cache first; otherwise the forwarder's answer, stored with the request's ID taken off. */
    method ForwardResponse(req: Msg, clock: Clock, answer: Option<Msg>) returns (resp: Msg, called: bool)
      requires cfg.cacheTtl > 0
      modifies this
      ensures resp.id == req.id
      ensures Handled(resp, called, cache, counters) == Forwarded(cfg, old(cache), old(counters), req, clock, answer)
    {
      var hit := GetCache(req, clock.lookup, clock.serve);
      if hit.Some? {
        counters := counters.(hits := counters.hits + 1);
        return hit.value, false;
      }
      counters := counters.(forwarded := counters.forwarded + 1);
      if answer.None? {
        counters := counters.(errors := counters.errors + 1);
        return Failure(req), true;
      }
      resp, called := answer.value.(id := req.id), true;
      PutCache(req, resp, clock.store);
    }

    /** Target names are answered locally unless their record type is passed on; everything else is forwarded. */
    method Handle(req: Msg, clock: Clock, answer: Option<Msg>) returns (resp: Msg, called: bool)
      requires cfg.cacheTtl > 0
      modifies this
      ensures resp.id == req.id
      ensures Handled(resp, called, cache, counters) == Alone(cfg, matches, old(cache), old(counters), req, clock, answer)
      ensures called ==> req.question != [] && (matches(HostOf(req.question[0])) ==> ForwardsTarget(cfg, req.question[0]))
    {
      if req.question == [] { return Reply(req), false; }
      var q := req.question[0];
      if matches(HostOf(q)) {
        counters := counters.(target := counters.target + 1);
        if !ForwardsTarget(cfg, q) {
          var local := LocalResponse(cfg, req, q);
          if local.1 { counters := counters.(blocked := counters.blocked + 1); }
          return local.0, false;
        }
      }
      resp, called := ForwardResponse(req, clock, answer);
    }
  }
}
