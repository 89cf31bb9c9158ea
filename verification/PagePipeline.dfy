/**
 * The page pipeline as the program runs it (internal/pageenhance/pageenhance.go:218-410):
 * a response changed in place, buffers that custom transformers may overwrite, and three
 * counters. Each method is held to the functions of `PageEnhance`.
 */
module PagePipeline {
  import opened Basics
  import opened Text
  import opened PageBody
  import opened PageEnhance

  /** The response a caller holds. */
  class Message {
    var header: Header
    var body: Body
    var contentLength: int

    constructor (r: Response)
      ensures View() == r
    {
      header, body, contentLength := r.header, r.body, r.contentLength;
    }

    function View(): Response reads this { Response(header, body, contentLength) }

    method Assign(r: Response)
      modifies this
      ensures View() == r
    {
      header, body, contentLength := r.header, r.body, r.contentLength;
    }

    method SetResponseBody(buffer: array<byte>)
      modifies this
      ensures View() == SetBody(old(View()), buffer[..])
    {
      body := Stream(buffer[..], false);
      contentLength := buffer.Length;
      header := HeaderSet(header, "Content-Length", Decimal(buffer.Length));
    }

    /** Removals, then settings, one by one. */
    method ApplyTransformHeaders(t: Transform) returns (applied: bool)
      modifies this`header
      ensures (header, applied) == ApplyHeaders(old(header), t)
    {
      hide Canon;
      applied := false;
      ghost var start := header;
      for n := 0 to |t.headerRemove|
        invariant (header, applied) == RemoveHeaders(start, t.headerRemove[..n])
      {
        assert t.headerRemove[..n + 1][..n] == t.headerRemove[..n];
        if t.headerRemove[n] in header { applied := true; }
        header := HeaderDel(header, t.headerRemove[n]);
      }
      assert t.headerRemove[..|t.headerRemove|] == t.headerRemove;
      ghost var removed := header;
      for n := 0 to |t.headerSet|
        invariant header == SetHeaders(removed, t.headerSet[..n])
        invariant applied == (RemoveHeaders(start, t.headerRemove).1 || n > 0)
      {
        assert t.headerSet[..n + 1][..n] == t.headerSet[..n];
        header := HeaderSet(header, t.headerSet[n].0, t.headerSet[n].1);
        applied := true;
      }
      assert t.headerSet[..|t.headerSet|] == t.headerSet;
    }
  }

  method CopyBytes(data: Bytes) returns (buffer: array<byte>)
    ensures fresh(buffer) && buffer[..] == data
  {
    buffer := new byte[|data|](i requires 0 <= i < |data| => data[i]);
  }

  /** `applyBodyTransform` */
  method ApplyBodyTransform(body: Bytes, t: Transform) returns (r: Option<Edited>)
    ensures r == EditBody(body, t)
  {
    hide InsertBefore, Replace;
    var e := Edited(body, false, []);
    if t.injectHead != [] {
      var updated := InsertBefore(e.body, HEAD_END, t.injectHead);
      e := if updated.None? then e.(skipped := e.skipped + ["missing_head_end"]) else e.(body := updated.value, applied := true);
    }
    if t.injectBody != [] {
      var updated := InsertBefore(e.body, BODY_END, t.injectBody);
      e := if updated.None? then e.(skipped := e.skipped + ["missing_body_end"]) else e.(body := updated.value, applied := true);
    }
    ghost var injected := e;
    for n := 0 to |t.replace|
      invariant ReplaceAll(injected, t.replace[..n]) == Some(e)
    {
      assert t.replace[..n + 1][..n] == t.replace[..n];
      var repl := t.replace[n];
      if repl.old_ == [] {
        ReplaceErrorStays(injected, t.replace, n + 1);
        return None;
      }
      var replaced := Replace(e.body, repl.old_, repl.new_, if repl.count <= 0 then -1 else repl.count);
      e := if replaced != e.body then e.(body := replaced, applied := true) else e.(skipped := e.skipped + ["replace_not_found"]);
    }
    assert t.replace[..|t.replace|] == t.replace;
    r := Some(e);
  }

  lemma {:induction false} ReplaceErrorStays(e: Edited, replace: seq<Replacement>, n: nat)
    requires n <= |replace| && ReplaceAll(e, replace[..n]).None?
    ensures ReplaceAll(e, replace).None?
    decreases |replace|
  {
    if n == |replace| {
      assert replace[..n] == replace;
    } else {
      assert replace[..|replace| - 1][..n] == replace[..n];
      ReplaceErrorStays(e, replace[..|replace| - 1], n);
    }
  }

  datatype Tally = Tally(applied: nat, skipped: nat, errors: nat)

  class Pipeline {
    const max: int
    const onError: OnError
    var tally: Tally

    constructor (max: int, onError: OnError)
      ensures this.max == (if max <= 0 then DEFAULT_MAX_BODY else max) && this.onError == onError
      ensures tally == Tally(0, 0, 0)
    {
      this.max, this.onError := if max <= 0 then DEFAULT_MAX_BODY else max, onError;
      tally := Tally(0, 0, 0);
    }

    /** The counters have moved from `base` by exactly these events. */
    ghost predicate Counts(base: Tally, events: seq<Event>)
      reads this
    {
      tally == Tally(base.applied + Count(events, Apply), base.skipped + Count(events, Skip), base.errors + Count(events, Error))
    }

    method Note(events: seq<Event>, e: Event, ghost base: Tally) returns (all: seq<Event>)
      requires Counts(base, events)
      modifies this
      ensures all == events + [e] && Counts(base, all)
    {
      hide Count;
      NotedOne(events, e);
      match e.action {
        case Apply => tally := tally.(applied := tally.applied + 1);
        case Skip => tally := tally.(skipped := tally.skipped + 1);
        case Error => tally := tally.(errors := tally.errors + 1);
      }
      all := events + [e];
    }

    /** The bounded read: whole body, or a reason, or an error; the response keeps the rest. */
    method ReadInto(msg: Message) returns (loaded: Loaded)
      modifies msg`body
      ensures (loaded, msg.body) == ReadBody(old(msg.View()), max)
    {
      if msg.body.NoBody? { return Withheld("body_unavailable"); }
      if TrimSpace(HeaderGet(msg.header, "Content-Encoding")) != "" { return Withheld("unsupported_content_encoding"); }
      if msg.contentLength > max { return Withheld("body_too_large"); }
      var (bytes, fails) := Readable(msg.body);
      var limit := if ReadLimit(max) < 0 then 0 else ReadLimit(max);
      if |bytes| < limit && fails {
        msg.body := Closed;
        return ReadError("read_response_body");
      }
      var data := if |bytes| < limit then bytes else bytes[..limit];
      if |data| > max {
        msg.body := Replayed(data, Stream(bytes[|data|..], fails));
        return Withheld("body_too_large");
      }
      msg.body := Closed;
      loaded := Bodily(data);
    }

    method NoteSkips(ts: seq<Transform>, cs: seq<Custom>, reason: string, ghost base: Tally) returns (events: seq<Event>)
      requires Counts(base, [])
      modifies this
      ensures events == SkipTransforms(ts, reason) + SkipCustoms(cs, reason) && Counts(base, events)
    {
      hide Counts, Transform.HasBodyOps, Transform.Label, CustomName;
      events := [];
      for n := 0 to |ts|
        invariant events == SkipTransforms(ts[..n], reason) && Counts(base, events)
      {
        assert ts[..n + 1][..n] == ts[..n];
        if ts[n].HasBodyOps() { events := Note(events, Event(Skip, ts[n].Label(), reason), base); }
      }
      assert ts[..|ts|] == ts;
      ghost var first := events;
      for n := 0 to |cs|
        invariant events == first + SkipCustoms(cs[..n], reason) && Counts(base, events)
      {
        assert cs[..n + 1][..n] == cs[..n];
        if cs[n].needsBody { events := Note(events, Event(Skip, CustomName(cs[n]), reason), base); }
      }
      assert cs[..|cs|] == cs;
    }

    /** One configured transform; `p` is where the run stands. */
    method RunTransform(msg: Message, t: Transform, loaded: bool, body: Bytes, events0: seq<Event>, ghost p: Progress, ghost base: Tally)
      returns (next: Bytes, changed: bool, events: seq<Event>, error: Option<string>)
      requires p.error.None? && p.response == msg.View() && p.body == body && p.events == events0 && Counts(base, events0)
      modifies msg, this
      ensures
        var q := TransformStep(p, t, loaded);
        && msg.View() == q.response && next == q.body && (p.modified || changed) == q.modified && events == q.events && error == q.error
      ensures Counts(base, events)
    {
      hide Counts, ApplyHeaders, EditBody, Reasons, Transform.HasBodyOps, Transform.Label;
      next, changed, events, error := body, false, events0, None;
      var headerApplied := msg.ApplyTransformHeaders(t);
      var bodyApplied := false;
      if loaded && t.HasBodyOps() {
        var edit := ApplyBodyTransform(body, t);
        if edit.None? {
          error := Some("replace old value is required");
          events := Note(events, Event(Error, t.Label(), "replace old value is required"), base);
          return;
        }
        if edit.value.skipped != [] { events := Note(events, Event(Skip, t.Label(), Reasons(edit.value.skipped)), base); }
        if edit.value.applied { next, bodyApplied, changed := edit.value.body, true, true; }
      }
      if headerApplied || bodyApplied { events := Note(events, Event(Apply, t.Label(), ""), base); }
    }

    method RunConfigured(msg: Message, ts: seq<Transform>, loaded: bool, body: Bytes, events0: seq<Event>, ghost p0: Progress, ghost base: Tally)
      returns (next: Bytes, changed: bool, events: seq<Event>, error: Option<string>)
      requires p0.error.None? && p0.response == msg.View() && p0.body == body && p0.events == events0 && Counts(base, events0)
      modifies msg, this
      ensures
        var q := RunTransforms(p0, ts, loaded);
        && msg.View() == q.response && next == q.body && (p0.modified || changed) == q.modified && events == q.events && error == q.error
      ensures Counts(base, events)
    {
      hide Counts, TransformStep;
      next, changed, events, error := body, false, events0, None;
      ghost var p := p0;
      for n := 0 to |ts|
        invariant p == RunTransforms(p0, ts[..n], loaded) && p.error.None? && error.None? && Counts(base, events)
        invariant msg.View() == p.response && next == p.body && (p0.modified || changed) == p.modified && events == p.events
      {
        assert ts[..n + 1][..n] == ts[..n];
        var more;
        next, more, events, error := RunTransform(msg, ts[n], loaded, next, events, p, base);
        p := TransformStep(p, ts[n], loaded);
        changed := changed || more;
        if error.Some? {
          TransformErrorStays(p0, ts, n + 1, loaded);
          return;
        }
      }
      assert ts[..|ts|] == ts;
    }

    /** One custom transformer, handed the buffer itself. */
    method RunCustom(msg: Message, c: Custom, loaded: bool, buffer: array<byte>, events0: seq<Event>, ghost p: Progress, ghost base: Tally)
      returns (next: array<byte>, changed: bool, events: seq<Event>, error: Option<string>)
      requires p.error.None? && p.response == msg.View() && p.body == buffer[..] && p.events == events0 && Counts(base, events0)
      modifies msg, buffer, this
      ensures
        var q := CustomStep(p, c, loaded);
        && msg.View() == q.response && next[..] == q.body && (p.modified || changed) == q.modified && events == q.events && error == q.error
      ensures Counts(base, events) && (next == buffer || fresh(next))
    {
      hide Counts, CustomName;
      next, changed, events, error := buffer, false, events0, None;
      if c.needsBody && !loaded { return; }
      var run := c.act(msg.View(), buffer[..]);
      msg.Assign(run.response);
      Scribble(buffer, run.scribble);
      match run.result {
        case Err(e) =>
          error := Some(e);
          events := Note(events, Event(Error, CustomName(c), e), base);
        case Ok(r) =>
          if r.skipReason != "" { events := Note(events, Event(Skip, CustomName(c), r.skipReason), base); }
          if r.bodyModified {
            next := CopyBytes(r.body);
            changed := true;
          }
          if r.applied { events := Note(events, Event(Apply, CustomName(c), ""), base); }
      }
    }

    method RunCustomTransformers(msg: Message, cs: seq<Custom>, loaded: bool, start: array<byte>, events0: seq<Event>, ghost p0: Progress, ghost base: Tally)
      returns (buffer: array<byte>, changed: bool, events: seq<Event>, error: Option<string>)
      requires p0.error.None? && p0.response == msg.View() && p0.body == start[..] && p0.events == events0 && Counts(base, events0)
      modifies msg, start, this
      ensures
        var q := RunCustoms(p0, cs, loaded);
        && msg.View() == q.response && buffer[..] == q.body && (p0.modified || changed) == q.modified && events == q.events && error == q.error
      ensures Counts(base, events)
    {
      hide Counts, CustomStep;
      buffer, changed, events, error := start, false, events0, None;
      ghost var p := p0;
      for n := 0 to |cs|
        invariant p == RunCustoms(p0, cs[..n], loaded) && p.error.None? && error.None? && Counts(base, events)
        invariant msg.View() == p.response && buffer[..] == p.body && (p0.modified || changed) == p.modified && events == p.events
        invariant buffer == start || fresh(buffer)
      {
        assert cs[..n + 1][..n] == cs[..n];
        var more;
        buffer, more, events, error := RunCustom(msg, cs[n], loaded, buffer, events, p, base);
        p := CustomStep(p, cs[n], loaded);
        changed := changed || more;
        if error.Some? {
          CustomErrorStays(p0, cs, n + 1, loaded);
          return;
        }
      }
      assert cs[..|cs|] == cs;
    }

    /**
     * The whole call, for the transforms and transformers that match the response: exactly the
     * outcome `Process` describes, with the counters moved by exactly the events returned.
     */
    method ApplyResponse(msg: Message, ts: seq<Transform>, cs: seq<Custom>) returns (events: seq<Event>, error: Option<string>)
      modifies msg, this
      ensures Outcome(msg.View(), events, error) == Process(old(msg.View()), ts, cs, max, onError)
      ensures Counts(old(tally), events)
    {
      hide Count, RunTransforms, RunCustoms, ReadBody, SkipTransforms, SkipCustoms;
      ghost var base := tally;
      NoEvents();
      if ts == [] && cs == [] { return [], None; }
      var original := msg.View();
      var loaded := Unneeded;
      if NeedBody(ts, cs) { loaded := ReadInto(msg); }
      ghost var load := (loaded, msg.body);
      assert load == Load(original, ts, cs, max);
      events := [];
      if loaded.ReadError? {
        events := Note(events, Event(Error, "", loaded.message), base);
        return events, if onError == FailClosed then Some(loaded.message) else None;
      }
      if loaded.Withheld? { events := NoteSkips(ts, cs, loaded.reason, base); }
      var data := if loaded.Bodily? then loaded.data else [];
      var originalBody := CopyBytes(data);
      ghost var start := StartProgress(original, ts, cs, load);
      var body, changed, failed;
      body, changed, events, failed := RunConfigured(msg, ts, loaded.Bodily?, data, events, start, base);
      ghost var middle := RunTransforms(start, ts, loaded.Bodily?);
      var buffer := CopyBytes(body);
      var more := false;
      if failed.None? {
        buffer, more, events, failed := RunCustomTransformers(msg, cs, loaded.Bodily?, buffer, events, middle, base);
      } else {
        ErrorSkipsCustoms(middle, cs, loaded.Bodily?);
      }
      if failed.Some? {
        if onError == FailClosed { return events, failed; }
        msg.header := original.header;
        if loaded.Bodily? { msg.SetResponseBody(originalBody); }
        return events, None;
      }
      if changed || more {
        msg.SetResponseBody(buffer);
        msg.header := HeaderDel(HeaderDel(msg.header, "ETag"), "Content-MD5");
      } else if loaded.Bodily? {
        msg.SetResponseBody(buffer);
      }
      error := None;
    }
  }

  lemma NotedOne(events: seq<Event>, e: Event)
    ensures forall a :: Count(events + [e], a) == Count(events, a) + if e.action == a then 1 else 0
  {
    assert (events + [e])[..|events|] == events;
  }

  lemma NoEvents() ensures forall a :: Count([], a) == 0 {}

  /** A transformer writes over its buffer in place. */
  method Scribble(buffer: array<byte>, bytes: Bytes)
    modifies buffer
    ensures buffer[..] == Overwrite(old(buffer[..]), bytes)
  {
    for i := 0 to buffer.Length
      invariant forall k :: 0 <= k < i ==> buffer[k] == if k < |bytes| then bytes[k] else old(buffer[k])
      invariant forall k :: i <= k < buffer.Length ==> buffer[k] == old(buffer[k])
    {
      if i < |bytes| { buffer[i] := bytes[i]; }
    }
  }

  lemma {:induction false} TransformErrorStays(p: Progress, ts: seq<Transform>, n: nat, loaded: bool)
    requires n <= |ts| && RunTransforms(p, ts[..n], loaded).error.Some?
    ensures RunTransforms(p, ts, loaded) == RunTransforms(p, ts[..n], loaded)
    decreases |ts|
  {
    hide ApplyHeaders, EditBody;
    if n == |ts| {
      assert ts[..n] == ts;
    } else {
      assert ts[..|ts| - 1][..n] == ts[..n];
      TransformErrorStays(p, ts[..|ts| - 1], n, loaded);
    }
  }

  lemma {:induction false} CustomErrorStays(p: Progress, cs: seq<Custom>, n: nat, loaded: bool)
    requires n <= |cs| && RunCustoms(p, cs[..n], loaded).error.Some?
    ensures RunCustoms(p, cs, loaded) == RunCustoms(p, cs[..n], loaded)
    decreases |cs|
  {
    if n == |cs| {
      assert cs[..n] == cs;
    } else {
      assert cs[..|cs| - 1][..n] == cs[..n];
      CustomErrorStays(p, cs[..|cs| - 1], n, loaded);
    }
  }

  lemma ErrorSkipsCustoms(p: Progress, cs: seq<Custom>, loaded: bool)
    requires p.error.Some?
    ensures RunCustoms(p, cs, loaded) == p
  {
    assert cs[..0] == [];
    CustomErrorStays(p, cs, 0, loaded);
  }
}
