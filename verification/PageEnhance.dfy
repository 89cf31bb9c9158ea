/**
 * The response pipeline (internal/pageenhance/pageenhance.go): a bounded read of the body,
 * the configured transforms, the custom transformers, and the restoration on error.
 */
module PageEnhance {
  import opened Basics
  import opened Text
  import opened PageBody

  const MAX_INT64 := 0x7FFF_FFFF_FFFF_FFFF
  const DEFAULT_MAX_BODY := 1048576

  // ----- headers -----

  type Header = map<string, seq<string>>

  /** A byte that may appear in a header name. */
  predicate IsToken(c: char)
  {
    || 'a' <= c <= 'z' || 'A' <= c <= 'Z' || '0' <= c <= '9'
    || c in {'!', '#', '$', '%', '&', '\'', '*', '+', '-', '.', '^', '_', '`', '|', '~'}
  }

  function CanonChar(c: char, upper: bool): char
  {
    if upper && 'a' <= c <= 'z' then (c as int - 32) as char
    else if !upper && 'A' <= c <= 'Z' then (c as int + 32) as char
    else c
  }

  /** The canonical spelling of a header name; names with other bytes are left as they are. */
  function Canon(key: string): (r: string)
    ensures |r| == |key|
  {
    if exists i :: 0 <= i < |key| && !IsToken(key[i]) then key
    else seq(|key|, i requires 0 <= i < |key| => CanonChar(key[i], i == 0 || key[i - 1] == '-'))
  }

  function HeaderGet(h: Header, key: string): string
  {
    if Canon(key) in h && h[Canon(key)] != [] then h[Canon(key)][0] else ""
  }

  function HeaderSet(h: Header, key: string, value: string): Header { h[Canon(key) := [value]] }

  function HeaderDel(h: Header, key: string): Header { h - {Canon(key)} }

  // ----- responses -----

  /** What reading a body yields: bytes, then the end or an error. `Closed` yields nothing more. */
  datatype Body = NoBody | Closed | Stream(data: Bytes, fails: bool) | Replayed(head: Bytes, tail: Body)

  function Readable(b: Body): (Bytes, bool)
  {
    match b
    case NoBody => ([], false)
    case Closed => ([], true)
    case Stream(data, fails) => (data, fails)
    case Replayed(head, tail) => (head + Readable(tail).0, Readable(tail).1)
  }

  datatype Response = Response(header: Header, body: Body, contentLength: int)

  /** `setResponseBody` */
  function SetBody(r: Response, body: Bytes): Response
  {
    Response(HeaderSet(r.header, "Content-Length", Decimal(|body|)), Stream(body, false), |body|)
  }

  // ----- configuration -----

  datatype Replacement = Replacement(old_: Bytes, new_: Bytes, count: int)

  datatype Transform = Transform(name: string, headerSet: seq<(string, string)>, headerRemove: seq<string>,
                                 injectHead: Bytes, injectBody: Bytes, replace: seq<Replacement>)
  {
    predicate HasBodyOps() { injectHead != [] || injectBody != [] || replace != [] }

    function Label(): string { if TrimSpace(name) != "" then name else "unnamed" }
  }

  datatype CustomResult = CustomResult(body: Bytes, applied: bool, bodyModified: bool, skipReason: string)

  /** What a custom transformer does: the response it leaves, what it wrote over its buffer, and its result. */
  datatype CustomRun = CustomRun(response: Response, scribble: Bytes, result: Result<CustomResult, string>)

  datatype Custom = Custom(name: string, needsBody: bool, act: (Response, Bytes) -> CustomRun)

  datatype OnError = PassThrough | FailClosed

  datatype Action = Apply | Skip | Error

  datatype Event = Event(action: Action, name: string, reason: string)

  function Count(events: seq<Event>, action: Action): nat
  {
    if events == [] then 0
    else Count(events[..|events| - 1], action) + if events[|events| - 1].action == action then 1 else 0
  }

  lemma {:induction false} CountConcat(a: seq<Event>, b: seq<Event>, action: Action)
    ensures Count(a + b, action) == Count(a, action) + Count(b, action)
  {
    if b == [] {
      assert a + b == a;
    } else {
      assert (a + b)[..|a + b| - 1] == a + b[..|b| - 1];
      CountConcat(a, b[..|b| - 1], action);
    }
  }

  // ----- the bounded read -----

  datatype Loaded =
    | Unneeded
    | Withheld(reason: string)
    | Bodily(data: Bytes)
    | ReadError(message: string)

  /** `p.cfg.MaxBodySize + 1` in 64 bits. */
  function ReadLimit(max: int): int { if max == MAX_INT64 then -MAX_INT64 - 1 else max + 1 }

  /** `readBody`: what was loaded and the body left on the response. */
  function ReadBody(r: Response, max: int): (Loaded, Body)
  {
    if r.body.NoBody? then (Withheld("body_unavailable"), r.body)
    else if TrimSpace(HeaderGet(r.header, "Content-Encoding")) != "" then (Withheld("unsupported_content_encoding"), r.body)
    else if r.contentLength > max then (Withheld("body_too_large"), r.body)
    else
      var (bytes, fails) := Readable(r.body);
      var limit := if ReadLimit(max) < 0 then 0 else ReadLimit(max);
      if fails && |bytes| < limit then (ReadError("read_response_body"), Closed)
      else
        var data := if |bytes| < limit then bytes else bytes[..limit];
        if |data| > max then (Withheld("body_too_large"), Replayed(data, Stream(bytes[|data|..], fails)))
        else (Bodily(data), Closed)
  }

  /** The read keeps the stream: loaded whole, or left readable unchanged; at most one byte over the limit is held. */
  lemma ReadBodyKeepsStream(r: Response, max: int)
    requires 0 < max < MAX_INT64
    ensures
      var (loaded, body) := ReadBody(r, max);
      && (loaded.Bodily? ==> Readable(r.body) == (loaded.data, false) && |loaded.data| <= max)
      && (loaded.Withheld? ==> Readable(body) == Readable(r.body))
      && (body.Replayed? && !r.body.Replayed? ==> |body.head| == max + 1)
      && (loaded.ReadError? ==> Readable(r.body).1 && |Readable(r.body).0| <= max)
      && !loaded.Unneeded?
  {
    var (bytes, fails) := Readable(r.body);
    if max + 1 <= |bytes| { assert bytes[..max + 1] + bytes[max + 1..] == bytes; }
  }

  /** At the largest limit the sum wraps, nothing is read, and any body counts as empty. */
  lemma LargestLimitLosesBody(r: Response)
    requires r.body.Stream? && r.contentLength <= MAX_INT64
    requires TrimSpace(HeaderGet(r.header, "Content-Encoding")) == ""
    ensures ReadBody(r, MAX_INT64) == (Bodily([]), Closed)
  {
    assert Readable(r.body).0[..0] == [];
  }

  // ----- one transform -----

  function RemoveHeaders(h: Header, keys: seq<string>): (Header, bool)
  {
    if keys == [] then (h, false)
    else
      var (before, applied) := RemoveHeaders(h, keys[..|keys| - 1]);
      var key := keys[|keys| - 1];
      (HeaderDel(before, key), applied || key in before)
  }

  function SetHeaders(h: Header, pairs: seq<(string, string)>): Header
  {
    if pairs == [] then h
    else HeaderSet(SetHeaders(h, pairs[..|pairs| - 1]), pairs[|pairs| - 1].0, pairs[|pairs| - 1].1)
  }

  function ApplyHeaders(h: Header, t: Transform): (Header, bool)
  {
    var (removed, applied) := RemoveHeaders(h, t.headerRemove);
    (SetHeaders(removed, t.headerSet), applied || t.headerSet != [])
  }

  const HEAD_END: Bytes := [60, 47, 104, 101, 97, 100, 62]
  const BODY_END: Bytes := [60, 47, 98, 111, 100, 121, 62]

  datatype Edited = Edited(body: Bytes, applied: bool, skipped: seq<string>)

  function Inject(e: Edited, marker: Bytes, insert: Bytes, reason: string): Edited
  {
    if insert == [] then e
    else match InsertBefore(e.body, marker, insert)
      case None => e.(skipped := e.skipped + [reason])
      case Some(out) => e.(body := out, applied := true)
  }

  /** The replacements in order; one with an empty search text is an error. */
  function ReplaceAll(e: Edited, replace: seq<Replacement>): Option<Edited>
  {
    if replace == [] then Some(e)
    else match ReplaceAll(e, replace[..|replace| - 1])
      case None => None
      case Some(before) =>
        var r := replace[|replace| - 1];
        if r.old_ == [] then None
        else
          var out := Replace(before.body, r.old_, r.new_, if r.count <= 0 then -1 else r.count);
          if out != before.body then Some(before.(body := out, applied := true))
          else Some(before.(skipped := before.skipped + ["replace_not_found"]))
  }

  function EditBody(body: Bytes, t: Transform): Option<Edited>
  {
    ReplaceAll(Inject(Inject(Edited(body, false, []), HEAD_END, t.injectHead, "missing_head_end"),
                      BODY_END, t.injectBody, "missing_body_end"), t.replace)
  }

  // ----- the fold over transforms -----

  datatype Progress = Progress(response: Response, body: Bytes, modified: bool, events: seq<Event>, error: Option<string>)

  function Noted(p: Progress, events: seq<Event>): Progress { p.(events := p.events + events) }

  function TransformStep(p: Progress, t: Transform, loaded: bool): Progress
  {
    if p.error.Some? then p
    else
      var (header, headerApplied) := ApplyHeaders(p.response.header, t);
      var p := p.(response := p.response.(header := header));
      var apply := [Event(Apply, t.Label(), "")];
      if !loaded || !t.HasBodyOps() then (if headerApplied then Noted(p, apply) else p)
      else match EditBody(p.body, t)
        case None => Noted(p, [Event(Error, t.Label(), "replace old value is required")]).(error := Some("replace old value is required"))
        case Some(e) =>
          var p := if e.skipped != [] then Noted(p, [Event(Skip, t.Label(), Reasons(e.skipped))]) else p;
          var p := if e.applied then p.(body := e.body, modified := true) else p;
          if headerApplied || e.applied then Noted(p, apply) else p
  }

  function Reasons(skipped: seq<string>): string { Join(skipped, ',') }

  function RunTransforms(p: Progress, ts: seq<Transform>, loaded: bool): Progress
  {
    if ts == [] then p else TransformStep(RunTransforms(p, ts[..|ts| - 1], loaded), ts[|ts| - 1], loaded)
  }

  /** The buffer after a transformer wrote over part of it. */
  function Overwrite(buffer: Bytes, scribble: Bytes): (r: Bytes)
    ensures |r| == |buffer|
  {
    seq(|buffer|, i requires 0 <= i < |buffer| => if i < |scribble| then scribble[i] else buffer[i])
  }

  function CustomName(c: Custom): string { if TrimSpace(c.name) != "" then TrimSpace(c.name) else "unnamed" }

  function CustomStep(p: Progress, c: Custom, loaded: bool): Progress
  {
    if p.error.Some? || (c.needsBody && !loaded) then p
    else
      var run := c.act(p.response, p.body);
      var p := p.(response := run.response, body := Overwrite(p.body, run.scribble));
      match run.result
      case Err(e) => Noted(p, [Event(Error, CustomName(c), e)]).(error := Some(e))
      case Ok(r) =>
        var p := if r.skipReason != "" then Noted(p, [Event(Skip, CustomName(c), r.skipReason)]) else p;
        var p := if r.bodyModified then p.(body := r.body, modified := true) else p;
        if r.applied then Noted(p, [Event(Apply, CustomName(c), "")]) else p
  }

  function RunCustoms(p: Progress, cs: seq<Custom>, loaded: bool): Progress
  {
    if cs == [] then p else CustomStep(RunCustoms(p, cs[..|cs| - 1], loaded), cs[|cs| - 1], loaded)
  }

  // ----- the whole pipeline -----

  datatype Outcome = Outcome(response: Response, events: seq<Event>, error: Option<string>)

  predicate NeedBody(ts: seq<Transform>, cs: seq<Custom>)
  {
    (exists i :: 0 <= i < |ts| && ts[i].HasBodyOps()) || (exists i :: 0 <= i < |cs| && cs[i].needsBody)
  }

  function SkipTransforms(ts: seq<Transform>, reason: string): seq<Event>
  {
    if ts == [] then []
    else SkipTransforms(ts[..|ts| - 1], reason)
         + if ts[|ts| - 1].HasBodyOps() then [Event(Skip, ts[|ts| - 1].Label(), reason)] else []
  }

  function SkipCustoms(cs: seq<Custom>, reason: string): seq<Event>
  {
    if cs == [] then []
    else SkipCustoms(cs[..|cs| - 1], reason)
         + if cs[|cs| - 1].needsBody then [Event(Skip, CustomName(cs[|cs| - 1]), reason)] else []
  }

  function Finish(p: Progress, original: Response, body: Bytes, loaded: bool, onError: OnError): Outcome
  {
    if p.error.Some? then
      if onError == FailClosed then Outcome(p.response, p.events, p.error)
      else
        var restored := p.response.(header := original.header);
        Outcome(if loaded then SetBody(restored, body) else restored, p.events, None)
    else if p.modified then
      var r := SetBody(p.response, p.body);
      Outcome(r.(header := HeaderDel(HeaderDel(r.header, "ETag"), "Content-MD5")), p.events, None)
    else Outcome(if loaded then SetBody(p.response, p.body) else p.response, p.events, None)
  }

  function Load(r: Response, ts: seq<Transform>, cs: seq<Custom>, max: int): (Loaded, Body)
  {
    if NeedBody(ts, cs) then ReadBody(r, max) else (Unneeded, r.body)
  }

  function StartProgress(r: Response, ts: seq<Transform>, cs: seq<Custom>, load: (Loaded, Body)): Progress
  {
    Progress(r.(body := load.1), if load.0.Bodily? then load.0.data else [], false,
             if load.0.Withheld? then SkipTransforms(ts, load.0.reason) + SkipCustoms(cs, load.0.reason) else [], None)
  }

  /** The response, events and error the pipeline gives for the transforms that match. */
  function Process(r: Response, ts: seq<Transform>, cs: seq<Custom>, max: int, onError: OnError): Outcome
  {
    if ts == [] && cs == [] then Outcome(r, [], None)
    else
      var load := Load(r, ts, cs, max);
      if load.0.ReadError? then
        var event := Event(Error, "", load.0.message);
        Outcome(r.(body := load.1), [event], if onError == FailClosed then Some(load.0.message) else None)
      else
        var loaded := load.0.Bodily?;
        var p := RunCustoms(RunTransforms(StartProgress(r, ts, cs, load), ts, loaded), cs, loaded);
        Finish(p, r, if loaded then load.0.data else [], loaded, onError)
  }

  // ----- all or nothing -----

  /** Errors are noted once, at the end, and stop everything after. */
  ghost predicate ErrorLast(p: Progress)
  {
    if p.error.None? then Count(p.events, Error) == 0
    else p.events != [] && Count(p.events, Error) == 1 && p.events[|p.events| - 1].action == Error
  }

  lemma NotedCount(p: Progress, e: Event)
    ensures forall a :: Count(Noted(p, [e]).events, a) == Count(p.events, a) + if e.action == a then 1 else 0
  {
    assert (p.events + [e])[..|p.events|] == p.events;
  }

  lemma TransformStepErrorLast(p: Progress, t: Transform, loaded: bool)
    requires ErrorLast(p)
    ensures ErrorLast(TransformStep(p, t, loaded))
  {
    hide Count, ApplyHeaders, EditBody, Reasons, Transform.Label, Transform.HasBodyOps;
    if p.error.None? {
      var (header, applied) := ApplyHeaders(p.response.header, t);
      var q := p.(response := p.response.(header := header));
      NotedCount(q, Event(Apply, t.Label(), ""));
      NotedCount(q, Event(Error, t.Label(), "replace old value is required"));
      var edit := EditBody(p.body, t);
      if edit.Some? {
        var skip := Event(Skip, t.Label(), Reasons(edit.value.skipped));
        NotedCount(q, skip);
        NotedCount(Noted(q, [skip]), Event(Apply, t.Label(), ""));
      }
    }
  }

  lemma CustomStepErrorLast(p: Progress, c: Custom, loaded: bool)
    requires ErrorLast(p)
    ensures ErrorLast(CustomStep(p, c, loaded))
  {
    hide Count, CustomName, Overwrite;
    if p.error.None? && (c.needsBody ==> loaded) {
      var run := c.act(p.response, p.body);
      var q := p.(response := run.response, body := Overwrite(p.body, run.scribble));
      NotedCount(q, Event(Apply, CustomName(c), ""));
      match run.result
      case Err(e) => NotedCount(q, Event(Error, CustomName(c), e));
      case Ok(r) =>
        var skip := Event(Skip, CustomName(c), r.skipReason);
        NotedCount(q, skip);
        NotedCount(Noted(q, [skip]), Event(Apply, CustomName(c), ""));
    }
  }

  lemma {:induction false} RunTransformsErrorLast(p: Progress, ts: seq<Transform>, loaded: bool)
    requires ErrorLast(p)
    ensures ErrorLast(RunTransforms(p, ts, loaded))
  {
    hide TransformStep, ErrorLast;
    if ts != [] {
      RunTransformsErrorLast(p, ts[..|ts| - 1], loaded);
      TransformStepErrorLast(RunTransforms(p, ts[..|ts| - 1], loaded), ts[|ts| - 1], loaded);
    }
  }

  lemma {:induction false} RunCustomsErrorLast(p: Progress, cs: seq<Custom>, loaded: bool)
    requires ErrorLast(p)
    ensures ErrorLast(RunCustoms(p, cs, loaded))
  {
    hide CustomStep, ErrorLast;
    if cs != [] {
      RunCustomsErrorLast(p, cs[..|cs| - 1], loaded);
      CustomStepErrorLast(RunCustoms(p, cs[..|cs| - 1], loaded), cs[|cs| - 1], loaded);
    }
  }

  lemma {:induction false} SkipTransformsOnlySkip(ts: seq<Transform>, reason: string)
    ensures Count(SkipTransforms(ts, reason), Error) == 0
  {
    hide Transform.Label, Transform.HasBodyOps;
    if ts != [] {
      SkipTransformsOnlySkip(ts[..|ts| - 1], reason);
      var before := SkipTransforms(ts[..|ts| - 1], reason);
      assert SkipTransforms(ts, reason) == before || SkipTransforms(ts, reason)[..|before|] == before;
    }
  }

  lemma {:induction false} SkipCustomsOnlySkip(cs: seq<Custom>, reason: string)
    ensures Count(SkipCustoms(cs, reason), Error) == 0
  {
    hide CustomName;
    if cs != [] {
      SkipCustomsOnlySkip(cs[..|cs| - 1], reason);
      var before := SkipCustoms(cs[..|cs| - 1], reason);
      assert SkipCustoms(cs, reason) == before || SkipCustoms(cs, reason)[..|before|] == before;
    }
  }

  /** How far the pipeline got before finishing. */
  ghost function Reached(r: Response, ts: seq<Transform>, cs: seq<Custom>, max: int): Progress
  {
    var load := Load(r, ts, cs, max);
    RunCustoms(RunTransforms(StartProgress(r, ts, cs, load), ts, load.0.Bodily?), cs, load.0.Bodily?)
  }

  lemma ReachedErrorLast(r: Response, ts: seq<Transform>, cs: seq<Custom>, max: int)
    ensures ErrorLast(Reached(r, ts, cs, max))
  {
    hide RunTransforms, RunCustoms, Load;
    var load := Load(r, ts, cs, max);
    var start := StartProgress(r, ts, cs, load);
    assert ErrorLast(start) by {
      if load.0.Withheld? {
        SkipTransformsOnlySkip(ts, load.0.reason);
        SkipCustomsOnlySkip(cs, load.0.reason);
        CountConcat(SkipTransforms(ts, load.0.reason), SkipCustoms(cs, load.0.reason), Error);
      }
    }
    RunTransformsErrorLast(start, ts, load.0.Bodily?);
    RunCustomsErrorLast(RunTransforms(start, ts, load.0.Bodily?), cs, load.0.Bodily?);
  }

  /**
   * Pass-through is all or nothing: once the body is loaded, a failure of any configured or
   * custom transform, at any place, whatever it wrote, leaves the original bytes, the original
   * headers apart from Content-Length, no error, and one error event, the last.
   */
  lemma PassThroughIsAllOrNothing(r: Response, ts: seq<Transform>, cs: seq<Custom>, max: int)
    requires ts != [] || cs != []
    requires Load(r, ts, cs, max).0.Bodily? && Reached(r, ts, cs, max).error.Some?
    ensures
      var out := Process(r, ts, cs, max, PassThrough);
      var data := Load(r, ts, cs, max).0.data;
      && out.response == Response(r.header[Canon("Content-Length") := [Decimal(|data|)]], Stream(data, false), |data|)
      && out.error == None
      && out.events != [] && out.events[|out.events| - 1].action == Error && Count(out.events, Error) == 1
  {
    hide RunTransforms, RunCustoms, Load, Count, Canon;
    ReachedErrorLast(r, ts, cs, max);
  }

  // ----- success with configured transforms -----

  /** The bodies the transforms make one after the other; an error anywhere is an error. */
  function FoldBody(body: Bytes, ts: seq<Transform>): Option<Bytes>
  {
    if ts == [] then Some(body)
    else match FoldBody(body, ts[..|ts| - 1])
      case None => None
      case Some(b) =>
        if !ts[|ts| - 1].HasBodyOps() then Some(b)
        else match EditBody(b, ts[|ts| - 1]) case None => None case Some(e) => Some(e.body)
  }

  function FoldHeader(h: Header, ts: seq<Transform>): Header
  {
    if ts == [] then h else ApplyHeaders(FoldHeader(h, ts[..|ts| - 1]), ts[|ts| - 1]).0
  }

  /** An edit that reports nothing applied left the body alone, and one that reports it changed it at some point. */
  lemma {:induction false} UnappliedEditKeepsBody(e: Edited, replace: seq<Replacement>)
    requires ReplaceAll(e, replace).Some?
    ensures e.applied ==> ReplaceAll(e, replace).value.applied
    ensures !ReplaceAll(e, replace).value.applied ==> ReplaceAll(e, replace).value.body == e.body
  {
    if replace != [] { UnappliedEditKeepsBody(e, replace[..|replace| - 1]); }
  }

  lemma EditKeepsUnlessApplied(body: Bytes, t: Transform)
    requires EditBody(body, t).Some?
    ensures !EditBody(body, t).value.applied ==> EditBody(body, t).value.body == body
  {
    hide InsertBefore;
    var e := Inject(Inject(Edited(body, false, []), HEAD_END, t.injectHead, "missing_head_end"), BODY_END, t.injectBody, "missing_body_end");
    UnappliedEditKeepsBody(e, t.replace);
  }

  /** Transform `i` reaches the body and one of its edits applies, whatever later edits do to it. */
  predicate AppliesAt(body: Bytes, ts: seq<Transform>, i: nat)
    requires i < |ts|
  {
    && ts[i].HasBodyOps() && FoldBody(body, ts[..i]).Some?
    && var e := EditBody(FoldBody(body, ts[..i]).value, ts[i]); e.Some? && e.value.applied
  }

  ghost predicate SomeEditApplies(body: Bytes, ts: seq<Transform>) { exists i :: 0 <= i < |ts| && AppliesAt(body, ts, i) }

  lemma AppliesSnoc(body: Bytes, ts: seq<Transform>)
    requires ts != []
    ensures SomeEditApplies(body, ts) <==> SomeEditApplies(body, ts[..|ts| - 1]) || AppliesAt(body, ts, |ts| - 1)
  {
    hide FoldBody, EditBody;
    var init := ts[..|ts| - 1];
    forall i | 0 <= i < |init| ensures AppliesAt(body, ts, i) == AppliesAt(body, init, i) {
      assert init[..i] == ts[..i];
    }
    if SomeEditApplies(body, init) {
      var i :| 0 <= i < |init| && AppliesAt(body, init, i);
      assert AppliesAt(body, ts, i);
    }
  }

  /** With a loaded body, the run is the fold of the edits; it fails exactly when the fold does. */
  lemma {:induction false} TransformsFold(p: Progress, ts: seq<Transform>)
    requires p.error.None?
    ensures
      var q := RunTransforms(p, ts, true);
      && (q.error.None? <==> FoldBody(p.body, ts).Some?)
      && (q.error.None? ==>
            && q.body == FoldBody(p.body, ts).value && q.response == p.response.(header := FoldHeader(p.response.header, ts))
            && (q.modified <==> p.modified || SomeEditApplies(p.body, ts))
            && (q.body != p.body ==> SomeEditApplies(p.body, ts)))
  {
    hide ApplyHeaders, EditBody, Reasons, Transform.Label, Transform.HasBodyOps, SomeEditApplies;
    if ts == [] {
      NoEdits(p.body);
    } else {
      var init, last := ts[..|ts| - 1], ts[|ts| - 1];
      TransformsFold(p, init);
      AppliesSnoc(p.body, ts);
      var q := RunTransforms(p, init, true);
      if q.error.None? && EditBody(q.body, last).Some? { EditKeepsUnlessApplied(q.body, last); }
    }
  }

  lemma NoEdits(body: Bytes) ensures !SomeEditApplies(body, []) {}

  lemma {:induction false} HeaderOnlyFold(p: Progress, ts: seq<Transform>)
    requires p.error.None?
    ensures
      var q := RunTransforms(p, ts, false);
      && q.error.None? && q.body == p.body && q.modified == p.modified
      && q.response == p.response.(header := FoldHeader(p.response.header, ts))
  {
    hide ApplyHeaders, EditBody, Reasons, Transform.Label, Transform.HasBodyOps;
    if ts != [] { HeaderOnlyFold(p, ts[..|ts| - 1]); }
  }

  lemma HeaderNames()
    ensures Canon("Content-Length") != Canon("ETag") && Canon("Content-Length") != Canon("Content-MD5")
  {
    assert |"Content-Length"| == 14 && |"ETag"| == 4 && |"Content-MD5"| == 11;
  }

  /**
   * The success path: with a loaded body and configured transforms only, the outcome fails
   * exactly when the fold of the edits does; otherwise the body is the fold in configured
   * order, and the headers are the fold of the header edits with Content-Length set to its
   * length, without the validators of the old body exactly when some edit applied.
   */
  lemma SuccessIsFold(r: Response, ts: seq<Transform>, max: int, onError: OnError)
    requires ts != [] && Load(r, ts, [], max).0.Bodily?
    ensures
      var out := Process(r, ts, [], max, onError);
      var data := Load(r, ts, [], max).0.data;
      var folded := FoldBody(data, ts);
      var edited := SomeEditApplies(data, ts);
      && (folded.None? <==> Reached(r, ts, [], max).error.Some?)
      && (folded.Some? ==>
            && out.error == None && out.response.body == Stream(folded.value, false) && out.response.contentLength == |folded.value|
            && out.response.header == (FoldHeader(r.header, ts) - if edited then {Canon("ETag"), Canon("Content-MD5")} else {})
                                      [Canon("Content-Length") := [Decimal(|folded.value|)]]
            && (folded.value != data ==> edited))
  {
    hide RunTransforms, Load, Canon, FoldBody, FoldHeader, SomeEditApplies;
    var load := Load(r, ts, [], max);
    TransformsFold(StartProgress(r, ts, [], load), ts);
    HeaderNames();
  }

  // ----- every stream -----

  /** The pipeline sets out to read the body: something works on it, and it is there, plain, and not announced as too large. */
  predicate Reads(r: Response, ts: seq<Transform>, cs: seq<Custom>, max: int)
  {
    && (|| (exists i :: 0 <= i < |ts| && (ts[i].injectHead != [] || ts[i].injectBody != [] || ts[i].replace != []))
        || (exists i :: 0 <= i < |cs| && cs[i].needsBody))
    && !r.body.NoBody? && TrimSpace(HeaderGet(r.header, "Content-Encoding")) == "" && r.contentLength <= max
  }

  /**
   * What configured transforms make of every stream. One that is not read, or is over the
   * limit, stays as it was. One within the limit becomes the fold, or under pass-through stays
   * when the fold fails. One whose read fails within the limit is closed: nothing of it can be
   * read any more.
   */
  lemma StreamLaw(r: Response, ts: seq<Transform>, max: int, onError: OnError)
    requires ts != [] && 0 < max < MAX_INT64
    ensures
      var out := Process(r, ts, [], max, onError);
      var (bytes, fails) := Readable(r.body);
      var folded := FoldBody(bytes, ts);
      if !Reads(r, ts, [], max) || |bytes| > max then
        && Readable(out.response.body) == (bytes, fails) && out.response.contentLength == r.contentLength
        && out.response.header == FoldHeader(r.header, ts) && out.error == None
      else if fails then
        && Readable(out.response.body) == ([], true) && out.response.header == r.header
        && out.events == [Event(Error, "", "read_response_body")]
        && (out.error == None <==> onError == PassThrough)
      else if folded.Some? then Readable(out.response.body) == (folded.value, false) && out.error == None
      else if onError == PassThrough then Readable(out.response.body) == (bytes, false) && out.error == None
      else out.error.Some?
  {
    hide RunTransforms, FoldHeader, FoldBody, SkipTransforms, Canon, SomeEditApplies;
    var load := Load(r, ts, [], max);
    var (bytes, fails) := Readable(r.body);
    LoadCases(r, ts, [], max);
    if load.0.Bodily? {
      SuccessIsFold(r, ts, max, onError);
      if FoldBody(bytes, ts).None? && onError == PassThrough { PassThroughIsAllOrNothing(r, ts, [], max); }
    } else if !load.0.ReadError? {
      HeaderOnlyFold(StartProgress(r, ts, [], load), ts);
    }
  }

  lemma LoadCases(r: Response, ts: seq<Transform>, cs: seq<Custom>, max: int)
    requires 0 < max < MAX_INT64
    ensures
      var load := Load(r, ts, cs, max);
      var (bytes, fails) := Readable(r.body);
      if !Reads(r, ts, cs, max) || |bytes| > max then
        !load.0.Bodily? && !load.0.ReadError? && Readable(load.1) == (bytes, fails)
      else if fails then load == (ReadError("read_response_body"), Closed)
      else load == (Bodily(bytes), Closed)
  {
    hide Canon, TrimSpace;
    ReadBodyKeepsStream(r, max);
    NeedBodyMeans(ts, cs);
  }

  lemma NeedBodyMeans(ts: seq<Transform>, cs: seq<Custom>)
    ensures NeedBody(ts, cs) <==>
      || (exists i :: 0 <= i < |ts| && (ts[i].injectHead != [] || ts[i].injectBody != [] || ts[i].replace != []))
      || (exists i :: 0 <= i < |cs| && cs[i].needsBody)
  {
    assert forall i :: 0 <= i < |ts| ==> ts[i].HasBodyOps() == (ts[i].injectHead != [] || ts[i].injectBody != [] || ts[i].replace != []);
  }

  /** Why a body is not loaded, in the words of the skip events. */
  lemma WithheldReasons(r: Response, max: int)
    requires 0 < max < MAX_INT64
    ensures
      var loaded := ReadBody(r, max).0;
      && (r.body.NoBody? ==> loaded == Withheld("body_unavailable"))
      && (!r.body.NoBody? && TrimSpace(HeaderGet(r.header, "Content-Encoding")) != "" ==> loaded == Withheld("unsupported_content_encoding"))
      && (!r.body.NoBody? && TrimSpace(HeaderGet(r.header, "Content-Encoding")) == "" && (r.contentLength > max || |Readable(r.body).0| > max) ==>
            loaded == Withheld("body_too_large"))
  {
    hide Canon, TrimSpace;
  }

  /** The same all-or-nothing law for every stream that can be read whole within the limit. */
  lemma PassThroughOfStreams(r: Response, ts: seq<Transform>, cs: seq<Custom>, max: int)
    requires 0 < max < MAX_INT64 && Reads(r, ts, cs, max) && !Readable(r.body).1 && |Readable(r.body).0| <= max
    ensures
      var out := Process(r, ts, cs, max, PassThrough);
      var data := Readable(r.body).0;
      Reached(r, ts, cs, max).error.Some? ==>
        && out.response == Response(r.header[Canon("Content-Length") := [Decimal(|data|)]], Stream(data, false), |data|)
        && out.error == None && out.events != [] && out.events[|out.events| - 1].action == Error && Count(out.events, Error) == 1
  {
    hide Process, Reached, Canon, Count, Load;
    LoadCases(r, ts, cs, max);
    if Reached(r, ts, cs, max).error.Some? { PassThroughIsAllOrNothing(r, ts, cs, max); }
  }

  /** A body that is not loaded is kept exactly when its read did not fail after giving bytes. */
  lemma UnloadedKeepsStream(r: Response, ts: seq<Transform>, max: int, onError: OnError)
    requires ts != [] && 0 < max < MAX_INT64 && !Load(r, ts, [], max).0.Bodily?
    ensures Readable(Process(r, ts, [], max, onError).response.body) == Readable(r.body)
       <==> !(Reads(r, ts, [], max) && Readable(r.body).1 && 0 < |Readable(r.body).0| <= max)
  {
    hide Process, Load;
    StreamLaw(r, ts, max, onError);
    LoadCases(r, ts, [], max);
  }

  /** One such stream: a byte, then an error. Pass-through reports no error and the byte is gone. */
  lemma FailedReadLosesBody(b: byte, t: Transform, max: int)
    requires 0 < max < MAX_INT64 && t.HasBodyOps()
    ensures
      var out := Process(Response(map[], Stream([b], true), -1), [t], [], max, PassThrough);
      out.error == None && Readable(out.response.body) == ([], true)
  {
    hide Process, FoldBody, FoldHeader, Canon;
    var r := Response(map[], Stream([b], true), -1);
    assert [t][0] == t && HeaderGet(r.header, "Content-Encoding") == "";
    BlankTrims();
    StreamLaw(r, [t], max, PassThrough);
  }

  lemma BlankTrims() ensures TrimSpace("") == "" {}

  // ----- what one transform does -----

  /** The lower-case marker stands at `i`, in any letter case. */
  ghost predicate FoldsAt(body: Bytes, marker: Bytes, i: int)
  {
    && 0 <= i && i + |marker| <= |body|
    && forall k :: 0 <= k < |marker| ==> body[i + k] == marker[k] || (97 <= marker[k] <= 122 && body[i + k] == marker[k] - 32)
  }

  ghost predicate Marked(body: Bytes, marker: Bytes) { exists i :: FoldsAt(body, marker, i) }

  /** The insert stands before the first marker and nothing else has changed; without a marker, or an insert, nothing has. */
  ghost predicate Injected(body: Bytes, marker: Bytes, insert: Bytes, out: Bytes)
  {
    if insert == [] || !Marked(body, marker) then out == body
    else exists i :: FoldsAt(body, marker, i) && (forall k :: 0 <= k < i ==> !FoldsAt(body, marker, k)) && out == body[..i] + insert + body[i..]
  }

  ghost predicate IsLower(marker: Bytes) { forall k :: 0 <= k < |marker| ==> !(65 <= marker[k] <= 90) }

  lemma FoldsIsOccurs(body: Bytes, marker: Bytes, i: int)
    requires IsLower(marker)
    ensures FoldsAt(body, marker, i) <==> OccursAt(Lower(body), Lower(marker), i)
  {
    if 0 <= i && i + |marker| <= |body| {
      var part := Lower(body)[i..i + |marker|];
      assert forall k :: 0 <= k < |marker| ==> part[k] == LowerByte(body[i + k]) && Lower(marker)[k] == marker[k];
      if FoldsAt(body, marker, i) { assert part == Lower(marker); }
    }
  }

  lemma InjectMeans(e: Edited, marker: Bytes, insert: Bytes, reason: string)
    requires IsLower(marker)
    ensures
      var r := Inject(e, marker, insert, reason);
      && Injected(e.body, marker, insert, r.body)
      && r.applied == (e.applied || (insert != [] && Marked(e.body, marker)))
      && r.skipped == e.skipped + if insert != [] && !Marked(e.body, marker) then [reason] else []
  {
    forall i ensures FoldsAt(e.body, marker, i) <==> OccursAt(Lower(e.body), Lower(marker), i) { FoldsIsOccurs(e.body, marker, i); }
    if Index(Lower(e.body), Lower(marker), 0).Some? {
      assert FoldsAt(e.body, marker, Index(Lower(e.body), Lower(marker), 0).value);
    }
  }

  /** The replacements one after the other, each on what the one before it left. */
  ghost function ReplacedFrom(e: Edited, replace: seq<Replacement>): Edited
    requires forall i :: 0 <= i < |replace| ==> replace[i].old_ != []
    decreases |replace|
  {
    if replace == [] then e
    else
      var out := Replace(e.body, replace[0].old_, replace[0].new_, if replace[0].count > 0 then replace[0].count else -1);
      ReplacedFrom(if out == e.body then e.(skipped := e.skipped + ["replace_not_found"]) else e.(body := out, applied := true), replace[1..])
  }

  lemma {:induction false} ReplacedSnoc(e: Edited, replace: seq<Replacement>)
    requires replace != [] && forall i :: 0 <= i < |replace| ==> replace[i].old_ != []
    ensures ReplacedFrom(e, replace) == ReplacedFrom(ReplacedFrom(e, replace[..|replace| - 1]), replace[|replace| - 1..])
    decreases |replace|
  {
    hide Replace;
    if |replace| == 1 {
      assert replace[..0] == [] && replace[0..] == replace;
    } else {
      var out := Replace(e.body, replace[0].old_, replace[0].new_, if replace[0].count > 0 then replace[0].count else -1);
      var next := if out == e.body then e.(skipped := e.skipped + ["replace_not_found"]) else e.(body := out, applied := true);
      var rest, init := replace[1..], replace[..|replace| - 1];
      ReplacedSnoc(next, rest);
      assert init[1..] == rest[..|rest| - 1] && rest[|rest| - 1..] == replace[|replace| - 1..] && init[0] == replace[0];
    }
  }

  lemma {:induction false} ReplaceAllMeans(e: Edited, replace: seq<Replacement>)
    ensures ReplaceAll(e, replace).None? <==> exists i :: 0 <= i < |replace| && replace[i].old_ == []
    ensures ReplaceAll(e, replace).Some? ==> ReplaceAll(e, replace).value == ReplacedFrom(e, replace)
    decreases |replace|
  {
    hide Replace;
    if replace != [] {
      var init, last := replace[..|replace| - 1], replace[|replace| - 1];
      ReplaceAllMeans(e, init);
      assert forall i :: 0 <= i < |init| ==> replace[i] == init[i];
      if ReplaceAll(e, replace).Some? {
        ReplacedSnoc(e, replace);
        assert replace[|replace| - 1..] == [last] && [last][1..] == [];
      }
    }
  }

  /** `injectHead` goes before the first `</head>`, `injectBody` before the first `</body>` of that, and the replacements follow. */
  ghost predicate EditedAs(body: Bytes, t: Transform, a: Bytes, b: Bytes, e: Edited)
    requires forall i :: 0 <= i < |t.replace| ==> t.replace[i].old_ != []
  {
    var headEnd: Bytes, bodyEnd: Bytes := [60, 47, 104, 101, 97, 100, 62], [60, 47, 98, 111, 100, 121, 62];
    var head, tail := t.injectHead != [] && Marked(body, headEnd), t.injectBody != [] && Marked(a, bodyEnd);
    && Injected(body, headEnd, t.injectHead, a) && Injected(a, bodyEnd, t.injectBody, b)
    && e == ReplacedFrom(Edited(b, head || tail,
                                (if t.injectHead != [] && !head then ["missing_head_end"] else [])
                                + if t.injectBody != [] && !tail then ["missing_body_end"] else []), t.replace)
  }

  /** One transform; it fails exactly when a replacement has nothing to look for. */
  lemma TransformMeans(body: Bytes, t: Transform)
    ensures EditBody(body, t).None? <==> exists i :: 0 <= i < |t.replace| && t.replace[i].old_ == []
    ensures EditBody(body, t).Some? ==> exists a, b :: EditedAs(body, t, a, b, EditBody(body, t).value)
  {
    hide Inject, ReplaceAll, ReplacedFrom, Marked, Injected;
    var start := Edited(body, false, []);
    var first := Inject(start, HEAD_END, t.injectHead, "missing_head_end");
    var second := Inject(first, BODY_END, t.injectBody, "missing_body_end");
    InjectMeans(start, HEAD_END, t.injectHead, "missing_head_end");
    InjectMeans(first, BODY_END, t.injectBody, "missing_body_end");
    ReplaceAllMeans(second, t.replace);
    var headEnd: Bytes, bodyEnd: Bytes := [60, 47, 104, 101, 97, 100, 62], [60, 47, 98, 111, 100, 121, 62];
    assert headEnd == HEAD_END && bodyEnd == BODY_END;
    var head, tail := t.injectHead != [] && Marked(body, headEnd), t.injectBody != [] && Marked(first.body, bodyEnd);
    assert second.skipped == (if t.injectHead != [] && !head then ["missing_head_end"] else [])
                             + if t.injectBody != [] && !tail then ["missing_body_end"] else [];
    assert second == Edited(second.body, head || tail, second.skipped);
    if EditBody(body, t).Some? { assert EditedAs(body, t, first.body, second.body, EditBody(body, t).value); }
  }

  /** The transforms work in configured order: the first one, then the rest on what it left. */
  lemma {:induction false} FoldFromFront(body: Bytes, h: Header, ts: seq<Transform>)
    requires ts != []
    ensures FoldHeader(h, ts) == FoldHeader(ApplyHeaders(h, ts[0]).0, ts[1..])
    ensures
      var t := ts[0];
      var first := if t.injectHead == [] && t.injectBody == [] && t.replace == [] then Some(Edited(body, false, [])) else EditBody(body, t);
      FoldBody(body, ts) == if first.None? then None else FoldBody(first.value.body, ts[1..])
    decreases |ts|
  {
    hide ApplyHeaders, EditBody;
    if |ts| == 1 {
      assert ts[..0] == [] && ts[1..] == [];
    } else {
      var init, rest := ts[..|ts| - 1], ts[1..];
      FoldFromFront(body, h, init);
      assert init[1..] == rest[..|rest| - 1] && init[0] == ts[0] && rest[|rest| - 1] == ts[|ts| - 1];
    }
  }

  // ----- headers -----

  ghost predicate Removes(t: Transform, k: string) { exists i :: 0 <= i < |t.headerRemove| && Canon(t.headerRemove[i]) == k }

  /** Setting `i` is the last one of the header `k`. */
  ghost predicate SetsLast(t: Transform, k: string, i: int)
  {
    && 0 <= i < |t.headerSet| && Canon(t.headerSet[i].0) == k
    && forall j :: i < j < |t.headerSet| ==> Canon(t.headerSet[j].0) != k
  }

  ghost predicate Sets(t: Transform, k: string) { exists i :: 0 <= i < |t.headerSet| && Canon(t.headerSet[i].0) == k }

  /** A removal finds its header there, under the very spelling configured. */
  ghost predicate RemovesSome(h: Header, keys: seq<string>)
  {
    exists i :: 0 <= i < |keys| && keys[i] in h && forall j :: 0 <= j < i ==> Canon(keys[j]) != keys[i]
  }

  lemma {:induction false} RemovedMeans(h: Header, keys: seq<string>)
    ensures forall k :: k in RemoveHeaders(h, keys).0 <==> k in h && forall i :: 0 <= i < |keys| ==> Canon(keys[i]) != k
    ensures forall k :: k in RemoveHeaders(h, keys).0 ==> RemoveHeaders(h, keys).0[k] == h[k]
  {
    hide Canon;
    if keys != [] {
      var init := keys[..|keys| - 1];
      RemovedMeans(h, init);
      assert forall i :: 0 <= i < |init| ==> keys[i] == init[i];
    }
  }

  lemma {:induction false} RemovalApplies(h: Header, keys: seq<string>)
    ensures RemoveHeaders(h, keys).1 == RemovesSome(h, keys)
  {
    hide Canon;
    if keys != [] {
      var init, last := keys[..|keys| - 1], keys[|keys| - 1];
      RemovalApplies(h, init);
      RemovedMeans(h, init);
      assert forall i :: 0 <= i < |init| ==> keys[i] == init[i];
      if last in RemoveHeaders(h, init).0 {
        assert keys[|init|] in h && forall j :: 0 <= j < |init| ==> Canon(keys[j]) != keys[|init|];
      }
      if RemovesSome(h, init) {
        var i :| 0 <= i < |init| && init[i] in h && forall j :: 0 <= j < i ==> Canon(init[j]) != init[i];
        assert keys[i] in h && forall j :: 0 <= j < i ==> Canon(keys[j]) != keys[i];
      }
    }
  }

  lemma {:induction false} UnsetMeans(h: Header, pairs: seq<(string, string)>, k: string)
    requires forall i :: 0 <= i < |pairs| ==> Canon(pairs[i].0) != k
    ensures var r := SetHeaders(h, pairs); (k in r <==> k in h) && (k in h ==> r[k] == h[k])
  {
    hide Canon;
    if pairs != [] { UnsetMeans(h, pairs[..|pairs| - 1], k); }
  }

  lemma {:induction false} SetMeans(h: Header, pairs: seq<(string, string)>, k: string, i: nat)
    requires i < |pairs| && Canon(pairs[i].0) == k && forall j :: i < j < |pairs| ==> Canon(pairs[j].0) != k
    ensures var r := SetHeaders(h, pairs); k in r && r[k] == [pairs[i].1]
    decreases |pairs|
  {
    hide Canon;
    if i < |pairs| - 1 { SetMeans(h, pairs[..|pairs| - 1], k, i); }
  }

  /**
   * The header edits of one transform: a header it sets has its last value; one it only removes
   * is gone; every other header is as it was. It counts as applied when it sets a header or
   * removes one that is there under the configured spelling.
   */
  lemma HeadersMean(h: Header, t: Transform, k: string)
    ensures
      var (r, applied) := ApplyHeaders(h, t);
      && (forall i :: SetsLast(t, k, i) ==> k in r && r[k] == [t.headerSet[i].1])
      && (!Sets(t, k) && Removes(t, k) ==> k !in r)
      && (!Sets(t, k) && !Removes(t, k) ==> (k in r <==> k in h) && (k in h ==> r[k] == h[k]))
      && (applied <==> t.headerSet != [] || RemovesSome(h, t.headerRemove))
  {
    hide Canon, RemoveHeaders, SetHeaders, RemovesSome;
    RemovedMeans(h, t.headerRemove);
    RemovalApplies(h, t.headerRemove);
    var removed := RemoveHeaders(h, t.headerRemove).0;
    forall i | SetsLast(t, k, i) ensures k in SetHeaders(removed, t.headerSet) && SetHeaders(removed, t.headerSet)[k] == [t.headerSet[i].1] {
      SetMeans(removed, t.headerSet, k, i);
    }
    if !Sets(t, k) { UnsetMeans(removed, t.headerSet, k); }
  }

  /** Two proper header names are one header exactly when they differ in letter case at most. */
  lemma CanonFoldsCase(a: string, b: string)
    requires (forall i :: 0 <= i < |a| ==> IsToken(a[i])) && forall i :: 0 <= i < |b| ==> IsToken(b[i])
    ensures Canon(a) == Canon(b) <==> ToLower(a) == ToLower(b)
  {
    if Canon(a) == Canon(b) {
      assert forall i :: 0 <= i < |a| ==> ToLower(a)[i] == ToLower(Canon(a))[i] by { CanonKeepsLetters(a); }
      assert forall i :: 0 <= i < |b| ==> ToLower(b)[i] == ToLower(Canon(b))[i] by { CanonKeepsLetters(b); }
    }
    if ToLower(a) == ToLower(b) {
      SameLetters(a, b);
      assert Canon(a) == Canon(b);
    }
  }

  lemma CanonKeepsLetters(a: string)
    ensures ToLower(Canon(a)) == ToLower(a)
  {
    hide ToLower, Canon, CanonChar;
    forall i | 0 <= i < |a| ensures ToLower(Canon(a))[i] == ToLower(a)[i] {
      LowerAt(Canon(a), i);
      LowerAt(a, i);
      CanonAt(a, i);
      CanonCharLower(a[i]);
    }
  }

  lemma CanonAt(a: string, i: nat)
    requires i < |a|
    ensures Canon(a)[i] == a[i] || Canon(a)[i] == CanonChar(a[i], true) || Canon(a)[i] == CanonChar(a[i], false)
  {
    hide CanonChar;
  }

  lemma CanonCharLower(c: char)
    ensures forall upper :: var d := CanonChar(c, upper);
      (if 'A' <= d <= 'Z' then (d as int + 32) as char else d) == if 'A' <= c <= 'Z' then (c as int + 32) as char else c
  {
  }

  lemma SameLetters(a: string, b: string)
    requires ToLower(a) == ToLower(b)
    ensures |a| == |b| && forall i :: 0 <= i < |a| ==>
      && CanonChar(a[i], true) == CanonChar(b[i], true) && CanonChar(a[i], false) == CanonChar(b[i], false)
      && (a[i] == '-' <==> b[i] == '-')
  {
    assert |ToLower(a)| == |a| && |ToLower(b)| == |b|;
    forall i | 0 <= i < |a|
      ensures CanonChar(a[i], true) == CanonChar(b[i], true) && CanonChar(a[i], false) == CanonChar(b[i], false) && (a[i] == '-' <==> b[i] == '-')
    {
      LowerAt(a, i);
      LowerAt(b, i);
    }
  }

  // ----- events -----

  /** What a transform that does not fail adds to the events. */
  lemma TransformNotes(p: Progress, t: Transform, loaded: bool)
    requires p.error.None? && TransformStep(p, t, loaded).error.None?
    ensures
      var q := TransformStep(p, t, loaded);
      var edits := loaded && (t.injectHead != [] || t.injectBody != [] || t.replace != []);
      var headers := t.headerSet != [] || RemovesSome(p.response.header, t.headerRemove);
      && (edits ==> EditBody(p.body, t).Some?)
      && Count(q.events, Apply) == Count(p.events, Apply) + (if headers || (edits && EditBody(p.body, t).value.applied) then 1 else 0)
      && Count(q.events, Skip) == Count(p.events, Skip) + (if edits && EditBody(p.body, t).value.skipped != [] then 1 else 0)
      && Count(q.events, Error) == Count(p.events, Error)
  {
    hide Count, ApplyHeaders, EditBody, Reasons, Transform.Label, RemovesSome;
    HeadersMean(p.response.header, t, "");
    var (header, _) := ApplyHeaders(p.response.header, t);
    var q := p.(response := p.response.(header := header));
    NotedCount(q, Event(Apply, t.Label(), ""));
    var edit := EditBody(p.body, t);
    if edit.Some? {
      var skip := Event(Skip, t.Label(), Reasons(edit.value.skipped));
      NotedCount(q, skip);
      NotedCount(Noted(q, [skip]), Event(Apply, t.Label(), ""));
    }
  }

  /** When the body is withheld, the transforms are gone through in order. */
  lemma {:induction false} TransformSkips(a: seq<Transform>, b: seq<Transform>, reason: string)
    ensures SkipTransforms(a + b, reason) == SkipTransforms(a, reason) + SkipTransforms(b, reason)
    decreases |b|
  {
    hide Transform.Label, Transform.HasBodyOps;
    if b == [] {
      assert a + b == a;
    } else {
      TransformSkips(a, b[..|b| - 1], reason);
      assert (a + b)[..|a + b| - 1] == a + b[..|b| - 1];
    }
  }

  /** Each that works on the body is skipped, each with the reason. */
  lemma OneTransformSkip(t: Transform, reason: string)
    ensures SkipTransforms([t], reason) == if t.injectHead == [] && t.injectBody == [] && t.replace == [] then []
                                           else [Event(Skip, if TrimSpace(t.name) != "" then t.name else "unnamed", reason)]
  {
    hide TrimSpace;
    assert [t][..0] == [] && SkipTransforms([t][..0], reason) == [];
  }

  /** Then the custom transformers, in order. */
  lemma {:induction false} CustomSkips(a: seq<Custom>, b: seq<Custom>, reason: string)
    ensures SkipCustoms(a + b, reason) == SkipCustoms(a, reason) + SkipCustoms(b, reason)
    decreases |b|
  {
    hide CustomName;
    if b == [] {
      assert a + b == a;
    } else {
      CustomSkips(a, b[..|b| - 1], reason);
      assert (a + b)[..|a + b| - 1] == a + b[..|b| - 1];
    }
  }

  /** Each that needs the body is skipped. */
  lemma OneCustomSkip(c: Custom, reason: string)
    ensures SkipCustoms([c], reason) == if !c.needsBody then [] else [Event(Skip, if TrimSpace(c.name) != "" then TrimSpace(c.name) else "unnamed", reason)]
  {
    hide TrimSpace;
    assert [c][..0] == [] && SkipCustoms([c][..0], reason) == [];
  }

  /** Custom transformers work in order, each on what the one before it left, and none after a failure. */
  lemma {:induction false} CustomsInOrder(p: Progress, a: seq<Custom>, b: seq<Custom>, loaded: bool)
    ensures RunCustoms(p, a + b, loaded) == RunCustoms(RunCustoms(p, a, loaded), b, loaded)
    ensures p.error.Some? ==> RunCustoms(p, a, loaded) == p
    decreases |a| + |b|
  {
    hide CustomStep;
    if b != [] {
      CustomsInOrder(p, a, b[..|b| - 1], loaded);
      assert (a + b)[..|a + b| - 1] == a + b[..|b| - 1];
    } else {
      assert a + b == a;
      if a != [] {
        CustomsInOrder(p, a[..|a| - 1], [], loaded);
        FailedStays(RunCustoms(p, a[..|a| - 1], loaded), a[|a| - 1], loaded);
      }
    }
  }

  lemma FailedStays(p: Progress, c: Custom, loaded: bool)
    ensures p.error.Some? || (c.needsBody && !loaded) ==> CustomStep(p, c, loaded) == p
  {
  }

  // ----- what one custom transformer does -----

  /**
   * One custom transformer on a loaded body that does not fail: it is given the original bytes,
   * and the body is then the one it returns, or if it says it changed none, its buffer as it
   * left it; the headers are the ones it left, with Content-Length set, and without validators
   * when it changed the body; and it is reported as skipped or applied as it says.
   */
  lemma CustomMeans(r: Response, c: Custom, max: int, onError: OnError)
    requires 0 < max < MAX_INT64 && Reads(r, [], [c], max) && !Readable(r.body).1 && |Readable(r.body).0| <= max
    requires c.act(r.(body := Closed), Readable(r.body).0).result.Ok?
    ensures
      var out := Process(r, [], [c], max, onError);
      var data := Readable(r.body).0;
      var run := c.act(r.(body := Closed), data);
      var body := if run.result.value.bodyModified then run.result.value.body
                  else if |run.scribble| >= |data| then run.scribble[..|data|] else run.scribble + data[|run.scribble|..];
      && out.error == None && out.response.body == Stream(body, false) && out.response.contentLength == |body|
      && out.response.header == (run.response.header - if run.result.value.bodyModified then {Canon("ETag"), Canon("Content-MD5")} else {})
                                [Canon("Content-Length") := [Decimal(|body|)]]
      && Count(out.events, Apply) == (if run.result.value.applied then 1 else 0)
      && Count(out.events, Skip) == (if run.result.value.skipReason != "" then 1 else 0) && Count(out.events, Error) == 0
  {
    hide Count, Canon, CustomName, CustomStep, RunTransforms, Load, Decimal, Overwrite, Reads;
    var load := Load(r, [], [c], max);
    LoadCases(r, [], [c], max);
    var start := StartProgress(r, [], [c], load);
    OneCustom(start, c);
    NoEventsYet();
    CustomStepMeans(start, c);
    HeaderNames();
  }

  lemma OneCustom(p: Progress, c: Custom)
    ensures RunCustoms(RunTransforms(p, [], true), [c], true) == CustomStep(p, c, true)
  {
    hide CustomStep;
    assert [c][..0] == [] && RunCustoms(p, [], true) == p;
  }

  lemma CustomStepMeans(p: Progress, c: Custom)
    requires p.error.None? && c.act(p.response, p.body).result.Ok?
    ensures
      var run, q := c.act(p.response, p.body), CustomStep(p, c, true);
      var result := run.result.value;
      && q.error == None && q.response == run.response && (q.modified <==> p.modified || result.bodyModified)
      && q.body == (if result.bodyModified then result.body
                    else if |run.scribble| >= |p.body| then run.scribble[..|p.body|] else run.scribble + p.body[|run.scribble|..])
      && Count(q.events, Apply) == Count(p.events, Apply) + (if result.applied then 1 else 0)
      && Count(q.events, Skip) == Count(p.events, Skip) + (if result.skipReason != "" then 1 else 0)
      && Count(q.events, Error) == Count(p.events, Error)
  {
    hide Count, CustomName;
    var run := c.act(p.response, p.body);
    assert Overwrite(p.body, run.scribble) == if |run.scribble| >= |p.body| then run.scribble[..|p.body|] else run.scribble + p.body[|run.scribble|..];
    var q := p.(response := run.response, body := Overwrite(p.body, run.scribble));
    var skip := Event(Skip, CustomName(c), run.result.value.skipReason);
    NotedCount(q, skip);
    NotedCount(q, Event(Apply, CustomName(c), ""));
    NotedCount(Noted(q, [skip]), Event(Apply, CustomName(c), ""));
  }

  lemma NoEventsYet() ensures forall a :: Count([], a) == 0 {}
}
