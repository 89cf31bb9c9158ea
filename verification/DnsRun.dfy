/**
 * Any number of queries in flight at once over one DNS interception server
 * (internal/dnsintercept/server.go:200-346). Each atomic counter update, each locked cache
 * section, each clock reading and each forwarder call is a step of its own.
 */
module DnsRun {
  import opened Basics
  import opened DnsIntercept

  datatype Phase =
    | Local
    | Arrived
    | Looking(now: int)
    | HitCopy(entry: Entry)
    | Missed
    | Counted
    | InFlight
    | Got(resp: Msg)
    | Storing(resp: Msg, at: int)
    | Answered(resp: Msg)
    | Done(resp: Msg)

  /** A query, where it is, and the reading at which a cached answer was served. */
  datatype Query = Query(req: Msg, phase: Phase, servedAt: int)

  /** One forwarder answer put in the cache. */
  datatype Stored = Stored(req: Msg, resp: Msg, at: int)

  /** Which queries did what; each counter must be the size of its set. */
  datatype Books = Books(asked: set<nat>, target: set<nat>, local: set<nat>, blocked: set<nat>, hits: set<nat>,
                         forwarded: set<nat>, called: set<nat>, failed: set<nat>, unsent: set<nat>)

  datatype System = System(cfg: Config, matches: string -> bool, cache: Cache, counters: Counters,
                           queries: map<nat, Query>, books: Books, log: seq<Stored>)

  datatype Step =
    | Arrive(id: nat, req: Msg)
    | AnswerLocally(id: nat)
    | ReadClock(id: nat, now: int)
    | LookUp(id: nat)
    | ServeHit(id: nat, now: int)
    | CountForward(id: nat)
    | CallForwarder(id: nat)
    | ForwarderReturns(id: nat, answer: Option<Msg>)
    | ReadStoreClock(id: nat, now: int)
    | PutInCache(id: nat)
    | WriteReply(id: nat, ok: bool)

  predicate IsTarget(s: System, req: Msg) { req.question != [] && s.matches(HostOf(req.question[0])) }

  function Move(s: System, id: nat, phase: Phase): System
    requires id in s.queries
  {
    s.(queries := s.queries[id := s.queries[id].(phase := phase)])
  }

  function Begin(s: System, id: nat, req: Msg): System
    requires id !in s.queries
  {
    if req.question == [] then s.(queries := s.queries[id := Query(req, Answered(Reply(req)), 0)])
    else
      var asked := s.books.(asked := s.books.asked + {id});
      if !IsTarget(s, req) then s.(queries := s.queries[id := Query(req, Arrived, 0)], books := asked)
      else
        s.(counters := s.counters.(target := s.counters.target + 1),
           books := asked.(target := s.books.target + {id}),
           queries := s.queries[id := Query(req, if ForwardsTarget(s.cfg, req.question[0]) then Arrived else Local, 0)])
  }

  /** One step of one query; a step that does not fit its phase changes nothing. */
  function Next(s: System, step: Step): System
  {
    if step.Arrive? then (if step.id in s.queries then s else Begin(s, step.id, step.req))
    else if step.id !in s.queries then s
    else
      var id := step.id;
      var q := s.queries[id];
      match (step, q.phase)
      case (AnswerLocally(_), Local) =>
        if q.req.question == [] then s
        else
          var (resp, blocked) := LocalResponse(s.cfg, q.req, q.req.question[0]);
          Move(s, id, Answered(resp)).(
          books := s.books.(local := s.books.local + {id}, blocked := if blocked then s.books.blocked + {id} else s.books.blocked),
          counters := s.counters.(blocked := s.counters.blocked + if blocked then 1 else 0))
      case (ReadClock(_, now), Arrived) => Move(s, id, Looking(now))
      case (LookUp(_), Looking(now)) =>
        var found := Lookup(s.cache, q.req, now);
        Move(s, id, if found.Some? then HitCopy(found.value) else Missed).(cache := AfterLookup(s.cache, q.req, now))
      case (ServeHit(_, now), HitCopy(entry)) =>
        s.(queries := s.queries[id := Query(q.req, Answered(HitResponse(entry, q.req, now)), now)],
           books := s.books.(hits := s.books.hits + {id}),
           counters := s.counters.(hits := s.counters.hits + 1))
      case (CountForward(_), Missed) =>
        Move(s, id, Counted).(books := s.books.(forwarded := s.books.forwarded + {id}),
                              counters := s.counters.(forwarded := s.counters.forwarded + 1))
      case (CallForwarder(_), Counted) => Move(s, id, InFlight).(books := s.books.(called := s.books.called + {id}))
      case (ForwarderReturns(_, answer), InFlight) =>
        if answer.Some? then Move(s, id, Got(answer.value.(id := q.req.id)))
        else Move(s, id, Answered(Failure(q.req))).(books := s.books.(failed := s.books.failed + {id}),
                                                    counters := s.counters.(errors := s.counters.errors + 1))
      case (ReadStoreClock(_, now), Got(resp)) => Move(s, id, Storing(resp, now))
      case (PutInCache(_), Storing(resp, at)) =>
        Move(s, id, Answered(resp)).(cache := AfterPut(s.cache, q.req, resp, at, s.cfg.cacheTtl),
                                     log := if Storable(q.req, resp, s.cfg.cacheTtl) then s.log + [Stored(q.req, resp, at)] else s.log)
      case (WriteReply(_, ok), Answered(resp)) =>
        if ok then Move(s, id, Done(resp))
        else Move(s, id, Done(resp)).(books := s.books.(unsent := s.books.unsent + {id}),
                                      counters := s.counters.(errors := s.counters.errors + 1))
      case _ => s
  }

  function Run(s: System, steps: seq<Step>): System
    decreases |steps|
  {
    if steps == [] then s else Next(Run(s, steps[..|steps| - 1]), steps[|steps| - 1])
  }

  function Start(cfg: Config, matches: string -> bool): System
  {
    System(cfg, matches, map[], Counters(0, 0, 0, 0, 0), map[], Books({}, {}, {}, {}, {}, {}, {}, {}, {}), [])
  }

  // ----- one query alone -----

  /** Every step one query could take, in order; the ones off its path change nothing. */
  ghost function OneByOne(id: nat, req: Msg, clock: Clock, answer: Option<Msg>): seq<Step>
  {
    [Arrive(id, req), AnswerLocally(id), ReadClock(id, clock.lookup), LookUp(id), ServeHit(id, clock.serve)]
    + [CountForward(id), CallForwarder(id), ForwarderReturns(id, answer), ReadStoreClock(id, clock.store), PutInCache(id)]
  }

  /** The steps of one query with nothing in between come to what the server's handler does. */
  lemma StepsRefineHandler(s: System, id: nat, req: Msg, clock: Clock, answer: Option<Msg>)
    requires id !in s.queries && id !in s.books.called
    ensures
      var t := Run(s, OneByOne(id, req, clock, answer));
      var h := Alone(s.cfg, s.matches, s.cache, s.counters, req, clock, answer);
      && t.cache == h.cache && t.counters == h.counters
      && id in t.queries && t.queries[id].phase == Answered(h.resp) && (id in t.books.called <==> h.called)
  {
    hide Next, Begin, ForwardsTarget, Lookup, AfterLookup, AfterPut, HitResponse, Storable, Failure, LocalResponse, Reply;
    var front := [Arrive(id, req), AnswerLocally(id), ReadClock(id, clock.lookup), LookUp(id), ServeHit(id, clock.serve)];
    var back := [CountForward(id), CallForwarder(id), ForwarderReturns(id, answer), ReadStoreClock(id, clock.store), PutInCache(id)];
    RunConcat(s, front, back);
    RunFive(s, front);
    RunFive(Run(s, front), back);
    FrontHalf(s, id, req, clock, answer);
    BackHalf(Run(s, front), id, clock, answer);
  }

  lemma {:induction false} RunConcat(s: System, a: seq<Step>, b: seq<Step>)
    ensures Run(s, a + b) == Run(Run(s, a), b)
    decreases |b|
  {
    hide Next;
    if b == [] {
      assert a + b == a;
    } else {
      assert (a + b)[..|a + b| - 1] == a + b[..|b| - 1];
      RunConcat(s, a, b[..|b| - 1]);
    }
  }

  ghost function Five(s: System, steps: seq<Step>): System
    requires |steps| == 5
  {
    Next(Next(Next(Next(Next(s, steps[0]), steps[1]), steps[2]), steps[3]), steps[4])
  }

  lemma RunFive(s: System, steps: seq<Step>)
    requires |steps| == 5
    ensures Run(s, steps) == Five(s, steps)
  {
    hide Next;
    assert steps[..4][..3] == steps[..3] && steps[..3][..2] == steps[..2] && steps[..2][..1] == steps[..1] && steps[..1][..0] == [];
    assert Run(s, steps[..1]) == Next(s, steps[0]);
    assert Run(s, steps[..2]) == Next(Run(s, steps[..1]), steps[1]);
    assert Run(s, steps[..3]) == Next(Run(s, steps[..2]), steps[2]);
    assert Run(s, steps[..4]) == Next(Run(s, steps[..3]), steps[3]);
  }

  /** Up to the cache: the query is answered, or it has missed and only the forwarder is left. */
  lemma FrontHalf(s: System, id: nat, req: Msg, clock: Clock, answer: Option<Msg>)
    requires id !in s.queries
    ensures
      var t := Five(s, [Arrive(id, req), AnswerLocally(id), ReadClock(id, clock.lookup), LookUp(id), ServeHit(id, clock.serve)]);
      var h := Alone(s.cfg, s.matches, s.cache, s.counters, req, clock, answer);
      && t.books.called == s.books.called && t.cfg == s.cfg && id in t.queries && t.queries[id].req == req
      && if t.queries[id].phase.Missed? then h == Unanswered(t, req, clock, answer)
         else !h.called && t.queries[id].phase == Answered(h.resp) && t.cache == h.cache && t.counters == h.counters
  {
    hide Next, Begin, ForwardsTarget, Lookup, AfterLookup, AfterPut, HitResponse, Storable, Failure, LocalResponse, Reply;
    var s1 := Begin(s, id, req);
    ArriveStep(s, Arrive(id, req));
    Begun(s, id, req);
    var s2 := Next(s1, AnswerLocally(id));
    var s3 := Next(s2, ReadClock(id, clock.lookup));
    var s4 := Next(s3, LookUp(id));
    match s1.queries[id].phase
    case Answered(_) => Settled(s1, AnswerLocally(id)); Settled(s1, ReadClock(id, clock.lookup)); Settled(s1, LookUp(id)); Settled(s1, ServeHit(id, clock.serve));
    case Local =>
      AnsweredLocally(s1, id);
      Settled(s2, ReadClock(id, clock.lookup)); Settled(s2, LookUp(id)); Settled(s2, ServeHit(id, clock.serve));
    case Arrived => LookedUp(s1, id, clock);
  }

  ghost predicate Fits(step: Step, phase: Phase)
  {
    match step
    case Arrive(_, _) => false
    case AnswerLocally(_) => phase.Local?
    case ReadClock(_, _) => phase.Arrived?
    case LookUp(_) => phase.Looking?
    case ServeHit(_, _) => phase.HitCopy?
    case CountForward(_) => phase.Missed?
    case CallForwarder(_) => phase.Counted?
    case ForwarderReturns(_, _) => phase.InFlight?
    case ReadStoreClock(_, _) => phase.Got?
    case PutInCache(_) => phase.Storing?
    case WriteReply(_, _) => phase.Answered?
  }

  /** A step that does not fit its query's phase changes nothing. */
  lemma OffPath(s: System, step: Step)
    requires step.id in s.queries && !Fits(step, s.queries[step.id].phase)
    ensures Next(s, step) == s
  {
  }

  lemma Settled(s: System, step: Step)
    requires step.id in s.queries && s.queries[step.id].phase.Answered? && !step.WriteReply?
    ensures Next(s, step) == s
  {
    hide Next;
    OffPath(s, step);
  }

  lemma Begun(s: System, id: nat, req: Msg)
    requires id !in s.queries
    ensures
      var t := Begin(s, id, req);
      && id in t.queries && t.queries[id].req == req && t.cfg == s.cfg && t.cache == s.cache && t.books.called == s.books.called
      && t.counters == (if IsTarget(s, req) then s.counters.(target := s.counters.target + 1) else s.counters)
      && t.queries[id].phase ==
         if req.question == [] then Answered(Reply(req))
         else if IsTarget(s, req) && !ForwardsTarget(s.cfg, req.question[0]) then Local else Arrived
  {
    hide ForwardsTarget, Reply;
  }

  lemma AnsweredLocally(s: System, id: nat)
    requires id in s.queries && s.queries[id].phase.Local? && s.queries[id].req.question != []
    ensures
      var t, req := Next(s, AnswerLocally(id)), s.queries[id].req;
      var (resp, blocked) := LocalResponse(s.cfg, req, req.question[0]);
      && id in t.queries && t.queries[id] == Query(req, Answered(resp), s.queries[id].servedAt)
      && t.cfg == s.cfg && t.cache == s.cache && t.books.called == s.books.called
      && t.counters == s.counters.(blocked := s.counters.blocked + if blocked then 1 else 0)
  {
    hide LocalResponse;
  }

  lemma LookedUp(s: System, id: nat, clock: Clock)
    requires id in s.queries && s.queries[id].phase.Arrived?
    ensures
      var t := Next(Next(Next(Next(s, AnswerLocally(id)), ReadClock(id, clock.lookup)), LookUp(id)), ServeHit(id, clock.serve));
      var req := s.queries[id].req;
      var found := Lookup(s.cache, req, clock.lookup);
      && id in t.queries && t.queries[id].req == req && t.cfg == s.cfg && t.books.called == s.books.called
      && t.cache == AfterLookup(s.cache, req, clock.lookup)
      && t.counters == (if found.Some? then s.counters.(hits := s.counters.hits + 1) else s.counters)
      && t.queries[id].phase == if found.Some? then Answered(HitResponse(found.value, req, clock.serve)) else Missed
  {
    hide Next, Lookup, AfterLookup, HitResponse;
    OffPath(s, AnswerLocally(id));
    var t1 := Next(s, ReadClock(id, clock.lookup));
    ClockRead(s, id, clock.lookup);
    var t2 := Next(t1, LookUp(id));
    CacheRead(t1, id);
    if t2.queries[id].phase.Missed? { OffPath(t2, ServeHit(id, clock.serve)); } else { HitServed(t2, id, clock.serve); }
  }

  lemma ClockRead(s: System, id: nat, now: int)
    requires id in s.queries && s.queries[id].phase.Arrived?
    ensures Next(s, ReadClock(id, now)) == Move(s, id, Looking(now))
  {
  }

  lemma CacheRead(s: System, id: nat)
    requires id in s.queries && s.queries[id].phase.Looking?
    ensures
      var q := s.queries[id];
      var found := Lookup(s.cache, q.req, q.phase.now);
      Next(s, LookUp(id)) == Move(s, id, if found.Some? then HitCopy(found.value) else Missed).(cache := AfterLookup(s.cache, q.req, q.phase.now))
  {
    hide Lookup, AfterLookup;
  }

  lemma HitServed(s: System, id: nat, now: int)
    requires id in s.queries && s.queries[id].phase.HitCopy?
    ensures
      var t, q := Next(s, ServeHit(id, now)), s.queries[id];
      && id in t.queries && t.queries[id] == Query(q.req, Answered(HitResponse(q.phase.entry, q.req, now)), now)
      && t.cfg == s.cfg && t.cache == s.cache && t.books.called == s.books.called && t.counters == s.counters.(hits := s.counters.hits + 1)
  {
    hide HitResponse;
  }

  ghost function Unanswered(t: System, req: Msg, clock: Clock, answer: Option<Msg>): Handled
  {
    var c := t.counters.(forwarded := t.counters.forwarded + 1);
    if answer.None? then Handled(Failure(req), true, t.cache, c.(errors := c.errors + 1))
    else
      var resp := answer.value.(id := req.id);
      Handled(resp, true, AfterPut(t.cache, req, resp, clock.store, t.cfg.cacheTtl), c)
  }

  lemma BackHalf(t: System, id: nat, clock: Clock, answer: Option<Msg>)
    requires id in t.queries && (t.queries[id].phase.Missed? || t.queries[id].phase.Answered?) && id !in t.books.called
    ensures
      var u := Five(t, [CountForward(id), CallForwarder(id), ForwarderReturns(id, answer), ReadStoreClock(id, clock.store), PutInCache(id)]);
      if t.queries[id].phase.Answered? then u == t
      else
        var h := Unanswered(t, t.queries[id].req, clock, answer);
        && u.cache == h.cache && u.counters == h.counters && (id in u.books.called <==> h.called)
        && id in u.queries && u.queries[id].phase == Answered(h.resp)
  {
    hide Next, AfterPut, Storable, Failure;
    if t.queries[id].phase.Answered? {
      Settled(t, CountForward(id)); Settled(t, CallForwarder(id)); Settled(t, ForwarderReturns(id, answer));
      Settled(t, ReadStoreClock(id, clock.store)); Settled(t, PutInCache(id));
    } else {
      var u2 := Next(Next(t, CountForward(id)), CallForwarder(id));
      CountedAndCalled(t, id);
      var u3 := Next(u2, ForwarderReturns(id, answer));
      Returned(u2, id, answer);
      if answer.None? {
        Settled(u3, ReadStoreClock(id, clock.store)); Settled(u3, PutInCache(id));
      } else {
        StoredAway(u3, id, clock.store);
      }
    }
  }

  lemma CountedAndCalled(s: System, id: nat)
    requires id in s.queries && s.queries[id].phase.Missed?
    ensures
      var t := Next(Next(s, CountForward(id)), CallForwarder(id));
      && id in t.queries && t.queries[id] == s.queries[id].(phase := InFlight) && t.cfg == s.cfg && t.cache == s.cache
      && t.counters == s.counters.(forwarded := s.counters.forwarded + 1) && t.books.called == s.books.called + {id}
  {
    var u := Next(s, CountForward(id));
    assert u.queries[id].phase.Counted?;
  }

  lemma Returned(s: System, id: nat, answer: Option<Msg>)
    requires id in s.queries && s.queries[id].phase.InFlight?
    ensures
      var t, q := Next(s, ForwarderReturns(id, answer)), s.queries[id];
      && id in t.queries && t.cfg == s.cfg && t.cache == s.cache && t.books.called == s.books.called
      && t.queries[id] == q.(phase := if answer.Some? then Got(answer.value.(id := q.req.id)) else Answered(Failure(q.req)))
      && t.counters == s.counters.(errors := s.counters.errors + if answer.None? then 1 else 0)
  {
    hide Failure;
  }

  lemma StoredAway(s: System, id: nat, now: int)
    requires id in s.queries && s.queries[id].phase.Got?
    ensures
      var t, q := Next(Next(s, ReadStoreClock(id, now)), PutInCache(id)), s.queries[id];
      && id in t.queries && t.queries[id].phase == Answered(q.phase.resp) && t.counters == s.counters && t.books == s.books
      && t.cache == AfterPut(s.cache, q.req, q.phase.resp, now, s.cfg.cacheTtl)
  {
    hide AfterPut, Storable;
    var u := Next(s, ReadStoreClock(id, now));
    assert u == Move(s, id, Storing(s.queries[id].phase.resp, now));
  }

  // ----- accounting -----

  ghost predicate CountsMatch(c: Counters, b: Books)
  {
    && c.target == |b.target| && c.forwarded == |b.forwarded| && c.hits == |b.hits| && c.blocked == |b.blocked|
    && c.errors == |b.failed| + |b.unsent|
  }

  ghost predicate Nested(b: Books, ids: set<nat>)
  {
    && b.blocked <= b.local <= b.target <= b.asked <= ids
    && b.failed <= b.called <= b.forwarded <= b.asked && b.hits <= b.asked && b.unsent <= ids
    && b.local !! b.hits && b.local !! b.forwarded && b.hits !! b.forwarded
  }

  /** The books agree with the counters and nest as the code's branches do. */
  ghost predicate BooksBalance(s: System) { CountsMatch(s.counters, s.books) && Nested(s.books, s.queries.Keys) }

  ghost predicate Unsettled(b: Books, id: nat) { id in b.asked && id !in b.local && id !in b.hits && id !in b.forwarded }

  /** Where a query is decides which books it is in. */
  ghost predicate PhaseFits(s: System, id: nat, q: Query)
  {
    var b := s.books;
    && (id in b.asked <==> q.req.question != [])
    && (id in b.target <==> IsTarget(s, q.req))
    && (id in b.target && (id in b.forwarded || id in b.hits || !q.phase.Local?) && id !in b.local ==> ForwardsTarget(s.cfg, q.req.question[0]))
    && (id in b.unsent ==> q.phase.Done?)
    && match q.phase
       case Local => Unsettled(b, id) && id in b.target && !ForwardsTarget(s.cfg, q.req.question[0])
       case Arrived => Unsettled(b, id)
       case Looking(_) => Unsettled(b, id)
       case HitCopy(_) => Unsettled(b, id)
       case Missed => Unsettled(b, id)
       case Counted => id in b.forwarded && id !in b.called
       case InFlight => id in b.called && id !in b.failed
       case Got(_) => id in b.called && id !in b.failed
       case Storing(_, _) => id in b.called && id !in b.failed
       case Answered(_) => id in b.asked ==> id in b.local || id in b.hits || id in b.called
       case Done(_) => id in b.asked ==> id in b.local || id in b.hits || id in b.called
  }

  ghost predicate Accounted(s: System)
  {
    BooksBalance(s) && forall id :: id in s.queries ==> PhaseFits(s, id, s.queries[id])
  }

  ghost predicate SameQueries(s: System, t: System, id: nat)
  {
    && t.cfg == s.cfg && t.matches == s.matches
    && t.queries.Keys == s.queries.Keys + {id}
    && (forall x :: x in s.queries && x != id ==> t.queries[x] == s.queries[x])
  }

  ghost predicate SameBooks(b: Books, c: Books, id: nat)
  {
    forall x :: x != id ==>
      && (x in c.asked <==> x in b.asked) && (x in c.target <==> x in b.target)
      && (x in c.local <==> x in b.local) && (x in c.hits <==> x in b.hits)
      && (x in c.forwarded <==> x in b.forwarded) && (x in c.called <==> x in b.called)
      && (x in c.failed <==> x in b.failed) && (x in c.unsent <==> x in b.unsent)
  }

  /** A step touches only its own query, so only that query needs looking at. */
  ghost predicate OnlyTouches(s: System, t: System, id: nat) { SameQueries(s, t, id) && SameBooks(s.books, t.books, id) }

  lemma UntouchedFits(s: System, t: System, id: nat)
    requires Accounted(s) && OnlyTouches(s, t, id) && BooksBalance(t) && PhaseFits(t, id, t.queries[id])
    ensures Accounted(t)
  {
    hide BooksBalance, ForwardsTarget;
    forall x | x in t.queries ensures PhaseFits(t, x, t.queries[x]) {
      if x != id { assert PhaseFits(s, x, s.queries[x]); }
    }
  }

  lemma ArrivalBalances(s: System, id: nat, req: Msg)
    requires BooksBalance(s) && id !in s.queries
    ensures BooksBalance(Begin(s, id, req))
  {
    hide ForwardsTarget, Reply, IsTarget, Nested, CountsMatch;
    NestedGrows(s.books, s.queries.Keys, id);
    ArrivalCounts(s.counters, s.books, s.queries.Keys, id);
    ArrivalBooks(s, id, req);
    hide Begin;
  }

  lemma ArrivalBooks(s: System, id: nat, req: Msg)
    requires id !in s.queries
    ensures
      var t := Begin(s, id, req);
      var asked := s.books.(asked := s.books.asked + {id});
      && t.queries.Keys == s.queries.Keys + {id}
      && (|| (t.books == s.books && t.counters == s.counters)
          || (t.books == asked && t.counters == s.counters)
          || (t.books == asked.(target := s.books.target + {id}) && t.counters == s.counters.(target := s.counters.target + 1)))
  {
    hide ForwardsTarget, Reply, IsTarget;
  }

  lemma NestedGrows(b: Books, ids: set<nat>, id: nat)
    requires Nested(b, ids)
    ensures Nested(b, ids + {id})
    ensures Nested(b.(asked := b.asked + {id}), ids + {id})
    ensures Nested(b.(asked := b.asked + {id}, target := b.target + {id}), ids + {id})
  {
  }

  lemma ArrivalCounts(c: Counters, b: Books, ids: set<nat>, id: nat)
    requires Nested(b, ids) && CountsMatch(c, b) && id !in ids
    ensures CountsMatch(c, b.(asked := b.asked + {id}))
    ensures CountsMatch(c.(target := c.target + 1), b.(asked := b.asked + {id}, target := b.target + {id}))
  {
    assert id !in b.target;
  }

  lemma ArrivalTouches(s: System, id: nat, req: Msg)
    requires BooksBalance(s) && id !in s.queries
    ensures OnlyTouches(s, Begin(s, id, req), id)
  {
    hide ForwardsTarget, Reply, BooksBalance, IsTarget;
  }

  lemma ArrivalFits(s: System, id: nat, req: Msg)
    requires BooksBalance(s) && id !in s.queries
    ensures PhaseFits(Begin(s, id, req), id, Begin(s, id, req).queries[id])
  {
    hide ForwardsTarget, Reply, CountsMatch;
    assert id !in s.books.asked && id !in s.books.target && id !in s.books.local && id !in s.books.hits
           && id !in s.books.forwarded && id !in s.books.unsent;
    hide Nested;
  }

  lemma StepBalances(s: System, step: Step)
    requires BooksBalance(s) && !step.Arrive? && step.id in s.queries && PhaseFits(s, step.id, s.queries[step.id])
    ensures BooksBalance(Next(s, step))
  {
    hide BooksBalance, PhaseFits, Next;
    match step
    case AnswerLocally(_) => RoutedStepBalances(s, step);
    case ServeHit(_, _) => RoutedStepBalances(s, step);
    case CountForward(_) => RoutedStepBalances(s, step);
    case CallForwarder(_) => ForwardStepBalances(s, step);
    case ForwarderReturns(_, _) => ForwardStepBalances(s, step);
    case WriteReply(_, _) => WriteStepBalances(s, step);
    case ReadClock(_, _) => QuietStepBalances(s, step);
    case LookUp(_) => QuietStepBalances(s, step);
    case ReadStoreClock(_, _) => QuietStepBalances(s, step);
    case PutInCache(_) => QuietStepBalances(s, step);
  }

  lemma RoutedStepBalances(s: System, step: Step)
    requires BooksBalance(s) && (step.AnswerLocally? || step.ServeHit? || step.CountForward?)
    requires step.id in s.queries && PhaseFits(s, step.id, s.queries[step.id])
    ensures BooksBalance(Next(s, step))
  {
    hide BooksBalance, PhaseFits, Next;
    if step.AnswerLocally? { LocalStepBalances(s, step); }
    else if step.ServeHit? { HitStepBalances(s, step); }
    else { CountStepBalances(s, step); }
  }

  lemma LocalStepBalances(s: System, step: Step)
    requires BooksBalance(s) && step.AnswerLocally? && step.id in s.queries && PhaseFits(s, step.id, s.queries[step.id])
    ensures BooksBalance(Next(s, step))
  {
    hide ForwardsTarget, Lookup, AfterLookup, AfterPut, HitResponse, Storable, Failure, LocalResponse, IsTarget, Nested, CountsMatch;
    assert Next(s, step).queries.Keys == s.queries.Keys;
    if Unsettled(s.books, step.id) { UnsettledBalances(s.counters, s.books, s.queries.Keys, step.id); }
  }

  lemma HitStepBalances(s: System, step: Step)
    requires BooksBalance(s) && step.ServeHit? && step.id in s.queries && PhaseFits(s, step.id, s.queries[step.id])
    ensures BooksBalance(Next(s, step))
  {
    hide ForwardsTarget, Lookup, AfterLookup, AfterPut, HitResponse, Storable, Failure, LocalResponse, IsTarget, Nested, CountsMatch;
    assert Next(s, step).queries.Keys == s.queries.Keys;
    if Unsettled(s.books, step.id) { UnsettledBalances(s.counters, s.books, s.queries.Keys, step.id); }
  }

  lemma CountStepBalances(s: System, step: Step)
    requires BooksBalance(s) && step.CountForward? && step.id in s.queries && PhaseFits(s, step.id, s.queries[step.id])
    ensures BooksBalance(Next(s, step))
  {
    hide ForwardsTarget, Lookup, AfterLookup, AfterPut, HitResponse, Storable, Failure, LocalResponse, IsTarget, Nested, CountsMatch;
    assert Next(s, step).queries.Keys == s.queries.Keys;
    if Unsettled(s.books, step.id) { UnsettledBalances(s.counters, s.books, s.queries.Keys, step.id); }
  }

  lemma ForwardStepBalances(s: System, step: Step)
    requires BooksBalance(s) && (step.CallForwarder? || step.ForwarderReturns?)
    requires step.id in s.queries && PhaseFits(s, step.id, s.queries[step.id])
    ensures BooksBalance(Next(s, step))
  {
    hide ForwardsTarget, Lookup, AfterLookup, AfterPut, HitResponse, Storable, Failure, LocalResponse, IsTarget, Nested, CountsMatch;
    assert Next(s, step).queries.Keys == s.queries.Keys;
    NestedAt(s.books, s.queries.Keys, step.id);
    if step.id in s.books.forwarded { ForwardedBalances(s.counters, s.books, s.queries.Keys, step.id); }
  }

  lemma WriteStepBalances(s: System, step: Step)
    requires BooksBalance(s) && step.WriteReply?
    requires step.id in s.queries && PhaseFits(s, step.id, s.queries[step.id])
    ensures BooksBalance(Next(s, step))
  {
    hide ForwardsTarget, Lookup, AfterLookup, AfterPut, HitResponse, Storable, Failure, LocalResponse, IsTarget, Nested, CountsMatch;
    assert Next(s, step).queries.Keys == s.queries.Keys;
    UnsentBalances(s.counters, s.books, s.queries.Keys, step.id);
  }

  lemma QuietStepBalances(s: System, step: Step)
    requires BooksBalance(s) && (step.ReadClock? || step.LookUp? || step.ReadStoreClock? || step.PutInCache?)
    ensures BooksBalance(Next(s, step))
  {
    hide ForwardsTarget, Lookup, AfterLookup, AfterPut, HitResponse, Storable, Failure, LocalResponse, IsTarget, Nested, CountsMatch;
    assert Next(s, step).books == s.books && Next(s, step).counters == s.counters;
    assert Next(s, step).queries.Keys == s.queries.Keys;
  }

  lemma UnsettledBalances(c: Counters, b: Books, ids: set<nat>, id: nat)
    requires Nested(b, ids) && CountsMatch(c, b) && Unsettled(b, id)
    ensures var h := b.(hits := b.hits + {id}); Nested(h, ids) && CountsMatch(c.(hits := c.hits + 1), h)
    ensures var f := b.(forwarded := b.forwarded + {id}); Nested(f, ids) && CountsMatch(c.(forwarded := c.forwarded + 1), f)
    ensures id in b.target ==>
      var l := b.(local := b.local + {id});
      var k := l.(blocked := b.blocked + {id});
      Nested(l, ids) && CountsMatch(c, l) && Nested(k, ids) && CountsMatch(c.(blocked := c.blocked + 1), k)
  {
    assert id !in b.blocked;
  }

  lemma ForwardedBalances(c: Counters, b: Books, ids: set<nat>, id: nat)
    requires Nested(b, ids) && CountsMatch(c, b) && id in b.forwarded
    ensures var k := b.(called := b.called + {id}); Nested(k, ids) && CountsMatch(c, k)
    ensures id in b.called && id !in b.failed ==>
      var f := b.(failed := b.failed + {id}); Nested(f, ids) && CountsMatch(c.(errors := c.errors + 1), f)
  {
  }

  lemma UnsentBalances(c: Counters, b: Books, ids: set<nat>, id: nat)
    requires Nested(b, ids) && CountsMatch(c, b) && id in ids
    ensures id !in b.unsent ==>
      var u := b.(unsent := b.unsent + {id}); Nested(u, ids) && CountsMatch(c.(errors := c.errors + 1), u)
  {
  }

  lemma StepTouches(s: System, step: Step)
    requires !step.Arrive? && step.id in s.queries
    ensures OnlyTouches(s, Next(s, step), step.id)
  {
    hide Next, SameQueries, SameBooks;
    StepTouchesQuery(s, step);
    StepTouchesBooks(s, step);
  }

  lemma StepTouchesQuery(s: System, step: Step)
    requires !step.Arrive? && step.id in s.queries
    ensures SameQueries(s, Next(s, step), step.id)
  {
    hide ForwardsTarget, Lookup, AfterLookup, AfterPut, HitResponse, Storable, Failure, LocalResponse, IsTarget;
  }

  lemma StepTouchesBooks(s: System, step: Step)
    requires !step.Arrive? && step.id in s.queries
    ensures SameBooks(s.books, Next(s, step).books, step.id)
  {
    hide ForwardsTarget, Lookup, AfterLookup, AfterPut, HitResponse, Storable, Failure, LocalResponse, IsTarget;
  }

  lemma StepFits(s: System, step: Step)
    requires !step.Arrive? && step.id in s.queries && PhaseFits(s, step.id, s.queries[step.id]) && BooksBalance(s)
    ensures PhaseFits(Next(s, step), step.id, Next(s, step).queries[step.id])
  {
    hide ForwardsTarget, Lookup, AfterLookup, AfterPut, HitResponse, Storable, Failure, LocalResponse, IsTarget, CountsMatch;
    TargetUnchanged(s, step);
    NestedAt(s.books, s.queries.Keys, step.id);
    hide Nested;
  }

  lemma TargetUnchanged(s: System, step: Step)
    requires !step.Arrive? && step.id in s.queries
    ensures Next(s, step).queries[step.id].req == s.queries[step.id].req
    ensures IsTarget(Next(s, step), s.queries[step.id].req) == IsTarget(s, s.queries[step.id].req)
  {
    hide ForwardsTarget, Lookup, AfterLookup, AfterPut, HitResponse, Storable, Failure, LocalResponse;
  }

  lemma NestedAt(b: Books, ids: set<nat>, id: nat)
    requires Nested(b, ids)
    ensures (id in b.blocked ==> id in b.local) && (id in b.local ==> id in b.target) && (id in b.target ==> id in b.asked)
    ensures (id in b.failed ==> id in b.called) && (id in b.called ==> id in b.forwarded) && (id in b.forwarded ==> id in b.asked)
    ensures !(id in b.local && id in b.hits) && !(id in b.local && id in b.forwarded) && !(id in b.hits && id in b.forwarded)
  {
  }

  lemma StepIsAccounted(s: System, step: Step)
    requires Accounted(s)
    ensures Accounted(Next(s, step))
  {
    hide BooksBalance, PhaseFits, OnlyTouches, Begin;
    if step.Arrive? {
      if step.id !in s.queries {
        ArrivalBalances(s, step.id, step.req);
        ArrivalTouches(s, step.id, step.req);
        ArrivalFits(s, step.id, step.req);
        UntouchedFits(s, Begin(s, step.id, step.req), step.id);
      }
    } else if step.id in s.queries {
      StepBalances(s, step);
      StepTouches(s, step);
      StepFits(s, step);
      UntouchedFits(s, Next(s, step), step.id);
    }
  }

  lemma {:induction false} RunIsAccounted(cfg: Config, matches: string -> bool, steps: seq<Step>)
    ensures Accounted(Run(Start(cfg, matches), steps))
    decreases |steps|
  {
    hide Next, Accounted;
    if steps == [] {
      StartIsAccounted(cfg, matches);
    } else {
      RunIsAccounted(cfg, matches, steps[..|steps| - 1]);
      StepIsAccounted(Run(Start(cfg, matches), steps[..|steps| - 1]), steps[|steps| - 1]);
    }
  }

  lemma StartIsAccounted(cfg: Config, matches: string -> bool) ensures Accounted(Start(cfg, matches)) {}

  lemma SubsetSize<T>(a: set<T>, b: set<T>)
    requires a <= b
    ensures |a| <= |b|
  {
    assert a + (b - a) == b;
  }

  /** Target queries the forwarder was ever asked about. */
  ghost predicate OnlyServiceRecordsForwarded(s: System)
  {
    forall id :: id in s.books.called && id in s.queries && IsTarget(s, s.queries[id].req) ==>
      && s.queries[id].req.question[0].qclass == CLASS_INET
      && s.queries[id].req.question[0].qtype in {TYPE_HTTPS, TYPE_SVCB}
      && !s.cfg.blockHttps
  }

  ghost predicate Quiet(s: System) { forall id :: id in s.queries ==> s.queries[id].phase.Done? }

  /**
   * The accounting laws after every run: at any moment as bounds, and exactly once every
   * query has been answered.
   */
  lemma Accounting(cfg: Config, matches: string -> bool, steps: seq<Step>)
    ensures
      var s := Run(Start(cfg, matches), steps);
      var b, c := s.books, s.counters;
      && c.blocked <= |b.local| <= c.target
      && c.errors <= c.forwarded + |b.unsent|
      && |b.called| <= c.forwarded
      && |b.local| + c.hits + c.forwarded <= |b.asked|
      && OnlyServiceRecordsForwarded(s)
      && (Quiet(s) ==> |b.asked| == |b.local| + c.hits + c.forwarded && |b.called| == c.forwarded)
  {
    hide *;
    RunIsAccounted(cfg, matches, steps);
    BooksAddUp(Run(Start(cfg, matches), steps));
    ForwardedTargets(Run(Start(cfg, matches), steps));
  }

  lemma BooksAddUp(s: System)
    requires Accounted(s)
    ensures
      var b, c := s.books, s.counters;
      && c.blocked <= |b.local| <= c.target
      && c.errors <= c.forwarded + |b.unsent|
      && |b.called| <= c.forwarded
      && |b.local| + c.hits + c.forwarded <= |b.asked|
      && (Quiet(s) ==> |b.asked| == |b.local| + c.hits + c.forwarded && |b.called| == c.forwarded)
  {
    hide PhaseFits;
    var b := s.books;
    SubsetSize(b.blocked, b.local);
    SubsetSize(b.local, b.target);
    SubsetSize(b.failed, b.forwarded);
    SubsetSize(b.called, b.forwarded);
    var answered := b.local + b.hits + b.forwarded;
    assert |b.local + b.hits| == |b.local| + |b.hits|;
    assert |answered| == |b.local| + |b.hits| + |b.forwarded|;
    SubsetSize(answered, b.asked);
    if Quiet(s) {
      forall id | id in b.asked ensures id in answered && (id in b.forwarded ==> id in b.called) {
        QuietFits(s, id);
      }
      assert answered == b.asked && b.called == b.forwarded;
    }
  }

  lemma QuietFits(s: System, id: nat)
    requires Accounted(s) && Quiet(s) && id in s.books.asked
    ensures var b := s.books; id in b.local || id in b.hits || id in b.called
    ensures id in s.books.forwarded ==> id in s.books.called
  {
    hide ForwardsTarget, IsTarget;
    assert PhaseFits(s, id, s.queries[id]);
  }

  lemma ForwardedTargets(s: System)
    requires Accounted(s)
    ensures OnlyServiceRecordsForwarded(s)
  {
    forall id | id in s.books.called && id in s.queries && IsTarget(s, s.queries[id].req)
      ensures ForwardsTarget(s.cfg, s.queries[id].req.question[0])
    {
      assert PhaseFits(s, id, s.queries[id]);
    }
  }

  // ----- the cache holds the last store -----

  /** The entry under the key is the stored form of logged answer `i`, the last one stored under that key. */
  ghost predicate LastStored(s: System, key: string, i: int)
  {
    && 0 <= i < |s.log| && key in s.cache && Storable(s.log[i].req, s.log[i].resp, s.cfg.cacheTtl)
    && s.cache[key] == StoredEntry(s.log[i].resp, s.log[i].at, s.cfg.cacheTtl)
    && CacheKey(s.log[i].req) == Some(key)
    && forall j :: i < j < |s.log| ==> CacheKey(s.log[j].req) != Some(key)
  }

  ghost predicate KeySource(s: System, key: string) { exists i :: LastStored(s, key, i) }

  ghost predicate Agrees(s: System) { forall key :: key in s.cache ==> KeySource(s, key) }

  /** What a step does to cache and log: nothing, an entry dropped, or an answer stored and logged. */
  lemma CacheStep(s: System, step: Step)
    ensures
      var t := Next(s, step);
      && t.cfg == s.cfg
      && (|| (t.log == s.log && t.cache.Keys <= s.cache.Keys && forall key :: key in t.cache ==> t.cache[key] == s.cache[key])
          || (step.id in s.queries && var q := s.queries[step.id];
              && q.phase.Storing? && Storable(q.req, q.phase.resp, s.cfg.cacheTtl)
              && t.log == s.log + [Stored(q.req, q.phase.resp, q.phase.at)]
              && t.cache == AfterPut(s.cache, q.req, q.phase.resp, q.phase.at, s.cfg.cacheTtl)))
  {
    hide LocalResponse, HitResponse, Failure, Reply, Storable, StoredEntry, CacheKey, Lookup, IsTarget, ForwardsTarget;
  }

  lemma StepAgrees(s: System, step: Step)
    requires Agrees(s)
    ensures Agrees(Next(s, step)) && Next(s, step).cfg == s.cfg
  {
    hide Next, KeySource;
    var t := Next(s, step);
    CacheStep(s, step);
    forall key | key in t.cache ensures KeySource(t, key) { EntryAgrees(s, t, step, key); }
  }

  lemma EntryAgrees(s: System, t: System, step: Step, key: string)
    requires t == Next(s, step) && key in t.cache && (key in s.cache ==> KeySource(s, key))
    ensures KeySource(t, key)
  {
    hide Next, StoredEntry, CacheKey;
    CacheStep(s, step);
    if t.log != s.log && CacheKey(t.log[|s.log|].req) == Some(key) {
      assert LastStored(t, key, |s.log|);
    } else {
      var i :| LastStored(s, key, i);
      assert LastStored(t, key, i);
    }
  }

  /** In every run, the entry under every key is the last answer stored under it. */
  lemma {:induction false} RunAgrees(cfg: Config, matches: string -> bool, steps: seq<Step>)
    ensures Agrees(Run(Start(cfg, matches), steps)) && Run(Start(cfg, matches), steps).cfg == cfg
    decreases |steps|
  {
    hide Next, KeySource;
    if steps != [] {
      RunAgrees(cfg, matches, steps[..|steps| - 1]);
      StepAgrees(Run(Start(cfg, matches), steps[..|steps| - 1]), steps[|steps| - 1]);
    }
  }

  lemma IdleStep(s: System, step: Step)
    requires step.Arrive? == (step.id in s.queries)
    ensures Next(s, step) == s
  {
  }

  lemma ArriveStep(s: System, step: Step)
    requires step.Arrive? && step.id !in s.queries
    ensures Next(s, step) == Begin(s, step.id, step.req)
  {
    hide Begin;
  }

  ghost predicate SameElsewhere(s: System, t: System, id: nat)
  {
    forall x :: x != id ==>
      && (x in t.queries <==> x in s.queries) && (x in s.queries ==> t.queries[x] == s.queries[x])
      && (x in t.books.hits <==> x in s.books.hits)
  }

  lemma StepIsLocal(s: System, step: Step)
    requires Accounted(s)
    ensures SameElsewhere(s, Next(s, step), step.id)
  {
    hide Begin, BooksBalance, PhaseFits, Next;
    if step.Arrive? == (step.id in s.queries) {
      IdleStep(s, step);
    } else if step.Arrive? {
      ArrivalTouches(s, step.id, step.req);
      ArriveStep(s, step);
    } else {
      StepTouches(s, step);
    }
  }

  // ----- the log is the forwarder's -----

  /** Step `k` of the run is the forwarder's answer to query `id`, waiting for it, and it answers `resp`. */
  ghost predicate ReturnedAt(s0: System, steps: seq<Step>, k: int, id: nat, req: Msg, resp: Msg)
  {
    && 0 <= k < |steps| && steps[k].ForwarderReturns? && steps[k].id == id
    && steps[k].answer.Some? && resp == steps[k].answer.value.(id := req.id)
    && var before := Run(s0, steps[..k]); id in before.queries && before.queries[id].req == req && before.queries[id].phase.InFlight?
  }

  /** Step `j` is the clock reading of query `id` with that answer in hand. */
  ghost predicate ClockedAt(s0: System, steps: seq<Step>, j: int, id: nat, resp: Msg, at: int)
  {
    && 0 <= j < |steps| && steps[j] == ReadStoreClock(id, at)
    && var before := Run(s0, steps[..j]); id in before.queries && before.queries[id].phase == Got(resp)
  }

  ghost predicate Answering(s0: System, steps: seq<Step>, id: nat, req: Msg, resp: Msg)
  {
    exists k :: ReturnedAt(s0, steps, k, id, req, resp)
  }

  ghost predicate KeptBy(s0: System, steps: seq<Step>, id: nat, req: Msg, resp: Msg, at: int)
  {
    exists k, j :: k < j && ReturnedAt(s0, steps, k, id, req, resp) && ClockedAt(s0, steps, j, id, resp, at)
  }

  /** The stored answer is what the forwarder returned to a query with that request, stamped with that query's store reading. */
  ghost predicate FromForwarder(s0: System, steps: seq<Step>, stored: Stored)
  {
    exists id :: KeptBy(s0, steps, id, stored.req, stored.resp, stored.at)
  }

  /** Step `n` is the lookup of query `id`, made at its reading `at`, and it finds the entry. */
  ghost predicate FoundAt(s0: System, steps: seq<Step>, n: int, id: nat, req: Msg, at: int, entry: Entry)
  {
    && 0 <= n < |steps| && steps[n] == LookUp(id)
    && var before := Run(s0, steps[..n]);
    && id in before.queries && before.queries[id].req == req && before.queries[id].phase == Looking(at)
    && Lookup(before.cache, req, at) == Some(entry)
  }

  ghost predicate Found(s0: System, steps: seq<Step>, id: nat, req: Msg, entry: Entry)
  {
    exists n, at :: FoundAt(s0, steps, n, id, req, at, entry)
  }

  ghost predicate ServedHit(s0: System, steps: seq<Step>, id: nat, q: Query, resp: Msg)
  {
    exists entry :: Found(s0, steps, id, q.req, entry) && resp == HitResponse(entry, q.req, q.servedAt)
  }

  /** Where what a query holds has come from. */
  ghost predicate PhaseSourced(s0: System, steps: seq<Step>, id: nat, q: Query, hit: bool)
  {
    match q.phase
    case HitCopy(entry) => Found(s0, steps, id, q.req, entry)
    case Got(resp) => Answering(s0, steps, id, q.req, resp)
    case Storing(resp, at) => KeptBy(s0, steps, id, q.req, resp, at)
    case Answered(resp) => hit ==> ServedHit(s0, steps, id, q, resp)
    case Done(resp) => hit ==> ServedHit(s0, steps, id, q, resp)
    case _ => true
  }

  ghost predicate Sourced(s0: System, steps: seq<Step>)
  {
    var s := Run(s0, steps);
    && (forall id :: id in s.queries ==> PhaseSourced(s0, steps, id, s.queries[id], id in s.books.hits))
    && forall i :: 0 <= i < |s.log| ==> FromForwarder(s0, steps, s.log[i])
  }

  lemma AnsweringGrows(s0: System, steps: seq<Step>, id: nat, req: Msg, resp: Msg)
    requires steps != [] && Answering(s0, steps[..|steps| - 1], id, req, resp)
    ensures Answering(s0, steps, id, req, resp)
  {
    hide Run;
    var init := steps[..|steps| - 1];
    var k :| ReturnedAt(s0, init, k, id, req, resp);
    assert init[..k] == steps[..k];
    assert ReturnedAt(s0, steps, k, id, req, resp);
  }

  lemma KeptGrows(s0: System, steps: seq<Step>, id: nat, req: Msg, resp: Msg, at: int)
    requires steps != [] && KeptBy(s0, steps[..|steps| - 1], id, req, resp, at)
    ensures KeptBy(s0, steps, id, req, resp, at)
  {
    hide Run;
    var init := steps[..|steps| - 1];
    var k, j :| k < j && ReturnedAt(s0, init, k, id, req, resp) && ClockedAt(s0, init, j, id, resp, at);
    assert init[..k] == steps[..k] && init[..j] == steps[..j];
    assert ReturnedAt(s0, steps, k, id, req, resp) && ClockedAt(s0, steps, j, id, resp, at);
  }

  lemma FoundGrows(s0: System, steps: seq<Step>, id: nat, req: Msg, entry: Entry)
    requires steps != [] && Found(s0, steps[..|steps| - 1], id, req, entry)
    ensures Found(s0, steps, id, req, entry)
  {
    hide Run, Lookup;
    var init := steps[..|steps| - 1];
    var n, at :| FoundAt(s0, init, n, id, req, at, entry);
    assert init[..n] == steps[..n];
    assert FoundAt(s0, steps, n, id, req, at, entry);
  }

  lemma HitGrows(s0: System, steps: seq<Step>, id: nat, q: Query, resp: Msg)
    requires steps != [] && ServedHit(s0, steps[..|steps| - 1], id, q, resp)
    ensures ServedHit(s0, steps, id, q, resp)
  {
    hide Found, HitResponse;
    var entry :| Found(s0, steps[..|steps| - 1], id, q.req, entry) && resp == HitResponse(entry, q.req, q.servedAt);
    FoundGrows(s0, steps, id, q.req, entry);
  }

  lemma PhaseGrows(s0: System, steps: seq<Step>, id: nat, q: Query, hit: bool)
    requires steps != [] && PhaseSourced(s0, steps[..|steps| - 1], id, q, hit)
    ensures PhaseSourced(s0, steps, id, q, hit)
  {
    hide Answering, KeptBy, Found, ServedHit;
    match q.phase
    case HitCopy(entry) => FoundGrows(s0, steps, id, q.req, entry);
    case Got(resp) => AnsweringGrows(s0, steps, id, q.req, resp);
    case Storing(resp, at) => KeptGrows(s0, steps, id, q.req, resp, at);
    case Answered(resp) => if hit { HitGrows(s0, steps, id, q, resp); }
    case Done(resp) => if hit { HitGrows(s0, steps, id, q, resp); }
    case _ =>
  }

  /** The last step was of this query, and what it held before has come from the run before. */
  ghost predicate JustMoved(s0: System, steps: seq<Step>, id: nat)
  {
    && steps != [] && steps[|steps| - 1].id == id
    && var before := Run(s0, steps[..|steps| - 1]);
    && Accounted(before) && id in before.queries && Fits(steps[|steps| - 1], before.queries[id].phase)
    && PhaseSourced(s0, steps[..|steps| - 1], id, before.queries[id], id in before.books.hits)
  }

  ghost predicate NowSourced(s0: System, steps: seq<Step>, id: nat)
  {
    var after := Run(s0, steps);
    id in after.queries ==> PhaseSourced(s0, steps, id, after.queries[id], id in after.books.hits)
  }

  /** What a step makes of its own query has come from the run, that step included. */
  lemma TouchedSourced(s0: System, steps: seq<Step>)
    requires steps != []
    requires
      var before, id := Run(s0, steps[..|steps| - 1]), steps[|steps| - 1].id;
      Accounted(before) && (id in before.queries ==> PhaseSourced(s0, steps[..|steps| - 1], id, before.queries[id], id in before.books.hits))
    ensures NowSourced(s0, steps, steps[|steps| - 1].id)
  {
    hide Run, PhaseSourced, Begin, Next, Accounted;
    var init, step := steps[..|steps| - 1], steps[|steps| - 1];
    var id, before := step.id, Run(s0, init);
    RunSnoc(s0, steps);
    if id !in before.queries {
      if step.Arrive? { ArriveStep(before, step); NewIsSourced(s0, steps, before, id, step.req); } else { IdleStep(before, step); }
    } else if !Fits(step, before.queries[id].phase) {
      OffPath(before, step);
      PhaseGrows(s0, steps, id, before.queries[id], id in before.books.hits);
    } else {
      hide NowSourced;
      match step
      case LookUp(_) => FoundSourced(s0, steps, id);
      case ServeHit(_, _) => ServedSourced(s0, steps, id);
      case ForwarderReturns(_, _) => GotSourced(s0, steps, id);
      case ReadStoreClock(_, _) => StoringSourced(s0, steps, id);
      case WriteReply(_, _) => WrittenSourced(s0, steps, id);
      case _ => OthersSourced(s0, steps, id);
    }
  }

  lemma RunSnoc(s: System, steps: seq<Step>)
    requires steps != []
    ensures Run(s, steps) == Next(Run(s, steps[..|steps| - 1]), steps[|steps| - 1])
  {
    hide Next;
  }

  lemma NewIsSourced(s0: System, steps: seq<Step>, s: System, id: nat, req: Msg)
    requires Accounted(s) && id !in s.queries
    ensures var t := Begin(s, id, req); id in t.queries && PhaseSourced(s0, steps, id, t.queries[id], id in t.books.hits)
  {
    hide Run, ForwardsTarget, IsTarget, Reply, PhaseFits, CountsMatch;
    assert id !in s.books.hits;
  }

  lemma FoundSourced(s0: System, steps: seq<Step>, id: nat)
    requires JustMoved(s0, steps, id) && steps[|steps| - 1].LookUp?
    ensures NowSourced(s0, steps, id)
  {
    hide Run, Next, Lookup, AfterLookup, Accounted;
    var before := Run(s0, steps[..|steps| - 1]);
    var q := before.queries[id];
    RunSnoc(s0, steps);
    CacheRead(before, id);
    var found := Lookup(before.cache, q.req, q.phase.now);
    if found.Some? {
      assert FoundAt(s0, steps, |steps| - 1, id, q.req, q.phase.now, found.value);
      assert Found(s0, steps, id, q.req, found.value);
    }
  }

  lemma ServedSourced(s0: System, steps: seq<Step>, id: nat)
    requires JustMoved(s0, steps, id) && steps[|steps| - 1].ServeHit?
    ensures NowSourced(s0, steps, id)
  {
    hide Run, Next, Found, HitResponse, Accounted;
    var before := Run(s0, steps[..|steps| - 1]);
    var q := before.queries[id];
    RunSnoc(s0, steps);
    HitServed(before, id, steps[|steps| - 1].now);
    FoundGrows(s0, steps, id, q.req, q.phase.entry);
  }

  lemma WrittenSourced(s0: System, steps: seq<Step>, id: nat)
    requires JustMoved(s0, steps, id) && steps[|steps| - 1].WriteReply?
    ensures NowSourced(s0, steps, id)
  {
    hide Run, Next, ServedHit, Accounted;
    var before := Run(s0, steps[..|steps| - 1]);
    var q := before.queries[id];
    RunSnoc(s0, steps);
    Written(before, id, steps[|steps| - 1].ok);
    if id in before.books.hits {
      HitGrows(s0, steps, id, q, q.phase.resp);
      SameHit(s0, steps, id, q, q.(phase := Done(q.phase.resp)), q.phase.resp);
    }
  }

  lemma SameHit(s0: System, steps: seq<Step>, id: nat, q: Query, q': Query, resp: Msg)
    requires ServedHit(s0, steps, id, q, resp) && q'.req == q.req && q'.servedAt == q.servedAt
    ensures ServedHit(s0, steps, id, q', resp)
  {
    hide Found, HitResponse;
  }

  lemma Written(s: System, id: nat, ok: bool)
    requires id in s.queries && s.queries[id].phase.Answered?
    ensures
      var t, q := Next(s, WriteReply(id, ok)), s.queries[id];
      id in t.queries && t.queries[id] == q.(phase := Done(q.phase.resp)) && t.books.hits == s.books.hits
  {
  }

  lemma GotSourced(s0: System, steps: seq<Step>, id: nat)
    requires JustMoved(s0, steps, id) && steps[|steps| - 1].ForwarderReturns?
    ensures NowSourced(s0, steps, id)
  {
    hide Run, Next, PhaseFits, Accounted;
    var before, step := Run(s0, steps[..|steps| - 1]), steps[|steps| - 1];
    var q := before.queries[id];
    RunSnoc(s0, steps);
    Returned(before, id, step.answer);
    NoHit(before, id);
    SameHits(before, step);
    if step.answer.Some? { assert ReturnedAt(s0, steps, |steps| - 1, id, q.req, step.answer.value.(id := q.req.id)); }
  }

  lemma StoringSourced(s0: System, steps: seq<Step>, id: nat)
    requires JustMoved(s0, steps, id) && steps[|steps| - 1].ReadStoreClock?
    ensures NowSourced(s0, steps, id)
  {
    hide Run, Next, Accounted;
    var init, step := steps[..|steps| - 1], steps[|steps| - 1];
    var before := Run(s0, init);
    RunSnoc(s0, steps);
    StoreClockRead(before, id, step.now);
    var q := before.queries[id];
    var k :| ReturnedAt(s0, init, k, id, q.req, q.phase.resp);
    assert init[..k] == steps[..k];
    assert ReturnedAt(s0, steps, k, id, q.req, q.phase.resp);
    assert ClockedAt(s0, steps, |steps| - 1, id, q.phase.resp, step.now);
  }

  lemma StoreClockRead(s: System, id: nat, now: int)
    requires id in s.queries && s.queries[id].phase.Got?
    ensures Next(s, ReadStoreClock(id, now)) == Move(s, id, Storing(s.queries[id].phase.resp, now))
  {
  }

  /** A query the forwarder is at work for is no hit. */
  lemma NoHit(s: System, id: nat)
    requires Accounted(s) && id in s.queries
    requires s.queries[id].phase.InFlight? || s.queries[id].phase.Storing? || s.queries[id].phase.Local?
    ensures id !in s.books.hits
  {
    hide ForwardsTarget, IsTarget, CountsMatch;
    assert PhaseFits(s, id, s.queries[id]);
    NestedAt(s.books, s.queries.Keys, id);
  }

  lemma SameHits(s: System, step: Step)
    requires !step.ServeHit?
    ensures Next(s, step).books.hits == s.books.hits
  {
    hide LocalResponse, HitResponse, Failure, AfterPut, AfterLookup, Lookup, Storable, Reply, IsTarget, ForwardsTarget;
  }

  /** The other steps leave the query waiting, or answered and no hit. */
  lemma OthersSourced(s0: System, steps: seq<Step>, id: nat)
    requires JustMoved(s0, steps, id)
    requires var step := steps[|steps| - 1]; step.AnswerLocally? || step.ReadClock? || step.CountForward? || step.CallForwarder? || step.PutInCache?
    ensures NowSourced(s0, steps, id)
  {
    hide Run, Accounted, Next;
    var before, step := Run(s0, steps[..|steps| - 1]), steps[|steps| - 1];
    RunSnoc(s0, steps);
    if step.AnswerLocally? || step.PutInCache? { NoHit(before, id); }
    SameHits(before, step);
    MovedOn(before, step);
  }

  lemma MovedOn(s: System, step: Step)
    requires step.id in s.queries && Fits(step, s.queries[step.id].phase)
    requires step.AnswerLocally? || step.ReadClock? || step.CountForward? || step.CallForwarder? || step.PutInCache?
    ensures
      var t := Next(s, step);
      && step.id in t.queries && var phase := t.queries[step.id].phase;
      && !phase.HitCopy? && !phase.Got? && !phase.Done?
      && !phase.Storing? && (phase.Answered? ==> step.AnswerLocally? || step.PutInCache?)
  {
    hide LocalResponse, AfterPut, Storable;
  }

  lemma LogStep(s: System, step: Step)
    ensures
      var t := Next(s, step);
      || t.log == s.log
      || (step.id in s.queries && var q := s.queries[step.id];
          q.phase.Storing? && t.log == s.log + [Stored(q.req, q.phase.resp, q.phase.at)])
  {
    hide LocalResponse, HitResponse, Failure, AfterPut, AfterLookup, Lookup, Storable, Reply, IsTarget, ForwardsTarget;
  }

  /** In every run, everything ever put in the cache is a forwarder's answer to that request, and every hit was looked up. */
  lemma {:induction false} RunIsSourced(cfg: Config, matches: string -> bool, steps: seq<Step>)
    ensures Sourced(Start(cfg, matches), steps)
    decreases |steps|
  {
    hide Next, Run, PhaseSourced, FromForwarder, Accounted;
    var s0 := Start(cfg, matches);
    if steps == [] {
      RunEmpty(s0);
    } else {
      var init, step := steps[..|steps| - 1], steps[|steps| - 1];
      RunIsSourced(cfg, matches, init);
      RunIsAccounted(cfg, matches, init);
      var s, t := Run(s0, init), Run(s0, steps);
      RunSnoc(s0, steps);
      StepIsLocal(s, step);
      TouchedSourced(s0, steps);
      forall id | id in t.queries ensures PhaseSourced(s0, steps, id, t.queries[id], id in t.books.hits) {
        if id != step.id { PhaseGrows(s0, steps, id, t.queries[id], id in t.books.hits); }
      }
      LogSourced(s0, steps);
    }
  }

  lemma RunEmpty(s: System) ensures Run(s, []) == s {}

  lemma LogSourced(s0: System, steps: seq<Step>)
    requires steps != [] && Sourced(s0, steps[..|steps| - 1])
    ensures var t := Run(s0, steps); forall i :: 0 <= i < |t.log| ==> FromForwarder(s0, steps, t.log[i])
  {
    hide Next, Run, KeptBy, Answering;
    var init, step := steps[..|steps| - 1], steps[|steps| - 1];
    var s, t := Run(s0, init), Run(s0, steps);
    RunSnoc(s0, steps);
    LogStep(s, step);
    forall i | 0 <= i < |t.log| ensures FromForwarder(s0, steps, t.log[i]) {
      if i < |s.log| {
        assert t.log[i] == s.log[i] && FromForwarder(s0, init, s.log[i]);
        var id :| KeptBy(s0, init, id, s.log[i].req, s.log[i].resp, s.log[i].at);
        KeptGrows(s0, steps, id, s.log[i].req, s.log[i].resp, s.log[i].at);
      } else {
        var q := s.queries[step.id];
        assert PhaseSourced(s0, init, step.id, q, step.id in s.books.hits);
        KeptGrows(s0, steps, step.id, q.req, q.phase.resp, q.phase.at);
      }
    }
  }

  // ----- the cache agrees with the forwarder -----

  /**
   * The answer of `q`, a hit, is the stored answer: found by the lookup at step `n`, made before
   * the entry expired; returned by the forwarder and stored before that; and no answer to the
   * same question was stored in between.
   */
  ghost predicate HitOf(s0: System, steps: seq<Step>, id: nat, q: Query, n: int, at: int, i: int)
    requires q.phase.Answered? || q.phase.Done?
  {
    && 0 <= n < |steps| && steps[n] == LookUp(id)
    && var before := Run(s0, steps[..n]);
    && id in before.queries && before.queries[id].phase == Looking(at) && 0 <= i < |before.log|
    && var stored := before.log[i];
    && ServedFrom(stored, q, s0.cfg.cacheTtl) && FromForwarder(s0, steps[..n], stored)
    && at < stored.at + Lifetime(AllRecords(stored.resp), s0.cfg.cacheTtl)
    && forall j :: i < j < |before.log| ==> !SameQuestion(before.log[j].req, q.req)
  }

  /**
   * In every run, every answer served from the cache is the last answer the forwarder had
   * returned and the server had stored for the same question when the cache was looked up, not
   * yet expired at that reading, with this request's ID and the TTLs lowered; while the second
   * clock reading is not past the entry's expiry, no TTL reaches beyond the store reading plus
   * the smallest original TTL and CacheTTL.
   */
  lemma CachedAnswersAgree(cfg: Config, matches: string -> bool, steps: seq<Step>, id: nat)
    requires cfg.cacheTtl > 0
    ensures
      var s := Run(Start(cfg, matches), steps);
      id in s.books.hits && id in s.queries ==>
        var q := s.queries[id];
        && (q.phase.Answered? || q.phase.Done?)
        && exists n, at, i :: HitOf(Start(cfg, matches), steps, id, q, n, at, i)
  {
    hide Run, Next, PhaseFits, BooksBalance, HitOf, FromForwarder, ServedHit, Agrees;
    RunIsAccounted(cfg, matches, steps);
    RunIsSourced(cfg, matches, steps);
    var s0 := Start(cfg, matches);
    var s := Run(s0, steps);
    if id in s.books.hits && id in s.queries {
      var q := s.queries[id];
      HitIsAnswered(s, id);
      assert PhaseSourced(s0, steps, id, q, true);
      var n, at, entry := HitLookup(s0, steps, id, q);
      RunAgrees(cfg, matches, steps[..n]);
      RunIsSourced(cfg, matches, steps[..n]);
      var i := EntryIsLast(Run(s0, steps[..n]), q.req, at, entry);
      assert FromForwarder(s0, steps[..n], Run(s0, steps[..n]).log[i]);
      HitIsServed(s0, steps, id, q, n, at, i, entry);
    }
  }

  lemma HitIsAnswered(s: System, id: nat)
    requires Accounted(s) && id in s.books.hits && id in s.queries
    ensures s.queries[id].phase.Answered? || s.queries[id].phase.Done?
  {
    hide IsTarget, ForwardsTarget, CountsMatch;
    assert PhaseFits(s, id, s.queries[id]);
    NestedAt(s.books, s.queries.Keys, id);
  }

  lemma HitLookup(s0: System, steps: seq<Step>, id: nat, q: Query) returns (n: int, at: int, entry: Entry)
    requires (q.phase.Answered? || q.phase.Done?) && ServedHit(s0, steps, id, q, q.phase.resp)
    ensures FoundAt(s0, steps, n, id, q.req, at, entry) && q.phase.resp == HitResponse(entry, q.req, q.servedAt)
  {
    hide HitResponse, FoundAt;
    entry :| Found(s0, steps, id, q.req, entry) && q.phase.resp == HitResponse(entry, q.req, q.servedAt);
    n, at :| FoundAt(s0, steps, n, id, q.req, at, entry);
  }

  /** What a lookup finds is the last answer stored for the same question, not yet expired. */
  lemma EntryIsLast(s: System, req: Msg, at: int, entry: Entry) returns (i: int)
    requires Agrees(s) && Lookup(s.cache, req, at) == Some(entry)
    ensures 0 <= i < |s.log| && entry == StoredEntry(s.log[i].resp, s.log[i].at, s.cfg.cacheTtl)
    ensures SameQuestion(s.log[i].req, req) && at < entry.expires
    ensures forall j :: i < j < |s.log| ==> !SameQuestion(s.log[j].req, req)
  {
    hide StoredEntry, SameQuestion, Storable, CacheKey;
    var key := CacheKey(req).value;
    assert KeySource(s, key);
    i :| LastStored(s, key, i);
    CacheKeyInjective(s.log[i].req, req);
    forall j | i < j < |s.log| ensures !SameQuestion(s.log[j].req, req) {
      if SameQuestion(s.log[j].req, req) {
        SameQuestionHasKey(s.log[j].req, req);
        CacheKeyInjective(s.log[j].req, req);
      }
    }
  }

  lemma HitIsServed(s0: System, steps: seq<Step>, id: nat, q: Query, n: int, at: int, i: int, entry: Entry)
    requires (q.phase.Answered? || q.phase.Done?) && q.phase.resp == HitResponse(entry, q.req, q.servedAt)
    requires FoundAt(s0, steps, n, id, q.req, at, entry) && s0.cfg.cacheTtl > 0
    requires
      var before := Run(s0, steps[..n]);
      && 0 <= i < |before.log| && entry == StoredEntry(before.log[i].resp, before.log[i].at, s0.cfg.cacheTtl)
      && SameQuestion(before.log[i].req, q.req) && at < entry.expires && FromForwarder(s0, steps[..n], before.log[i])
      && forall j :: i < j < |before.log| ==> !SameQuestion(before.log[j].req, q.req)
    ensures HitOf(s0, steps, id, q, n, at, i)
  {
    hide Run, SameQuestion, HitResponse, Lookup, FromForwarder, ServedFrom, Lifetime;
    ServedIsStored(Run(s0, steps[..n]).log[i], q, s0.cfg.cacheTtl);
  }

  lemma ServedIsStored(stored: Stored, q: Query, cacheTtl: int)
    requires cacheTtl > 0 && (q.phase.Answered? || q.phase.Done?) && SameQuestion(stored.req, q.req)
    requires q.phase.resp == HitResponse(StoredEntry(stored.resp, stored.at, cacheTtl), q.req, q.servedAt)
    ensures ServedFrom(stored, q, cacheTtl)
  {
    hide SameQuestion, Lifetime, Remaining, AgedMessage, WithRecords;
    var entry := StoredEntry(stored.resp, stored.at, cacheTtl);
    ServedTtlsEndInTime(q.req, stored.resp, stored.at, cacheTtl, q.servedAt);
    ServedRecords(entry, q.req, q.servedAt);
    ServedHeader(entry, q.req, q.servedAt);
    if q.servedAt <= entry.expires && (entry.expires - q.servedAt) / SECOND < 0x1_0000_0000 {
      ServedIsAged(entry, q.req, q.servedAt);
      AgedUnderAnyId(stored.resp, entry.resp, q.phase.resp, q.req.id, (entry.expires - q.servedAt) / SECOND);
    }
  }

  lemma ServedHeader(entry: Entry, req: Msg, now: int)
    ensures var m := HitResponse(entry, req, now); m.id == req.id && m.rcode == entry.resp.rcode && m.question == entry.resp.question
  {
  }

  lemma AgedUnderAnyId(a: Msg, b: Msg, served: Msg, id: u16, left: int)
    requires b == a.(id := 0) && AgedMessage(b, served, id, left)
    ensures AgedMessage(a, served, id, left)
  {
  }

  /** The answer of `q` is the stored answer, asked for again in time. */
  ghost predicate ServedFrom(stored: Stored, q: Query, cacheTtl: int)
    requires q.phase.Answered? || q.phase.Done?
  {
    var expires := stored.at + Lifetime(AllRecords(stored.resp), cacheTtl);
    var served, originals := AllRecords(q.phase.resp), AllRecords(stored.resp);
    && SameQuestion(stored.req, q.req)
    && q.phase.resp.id == q.req.id && q.phase.resp.rcode == stored.resp.rcode && q.phase.resp.question == stored.resp.question
    && served == Capped(originals, Remaining(expires, q.servedAt))
    && (q.servedAt <= expires && (expires - q.servedAt) / SECOND < 0x1_0000_0000 ==>
          AgedMessage(stored.resp, q.phase.resp, q.req.id, (expires - q.servedAt) / SECOND))
    && (q.servedAt <= expires ==>
          forall i, j :: 0 <= i < |served| && 0 <= j < |originals| && served[i].Some? && originals[j].Some? ==>
            && q.servedAt + served[i].value.ttl * SECOND <= stored.at + originals[j].value.ttl * SECOND
            && q.servedAt + served[i].value.ttl * SECOND <= stored.at + cacheTtl)
  }
}
