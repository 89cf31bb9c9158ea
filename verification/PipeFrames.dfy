/**
 * Length-prefixed frames over a pipe whose calls move as many bytes as they like
 * (internal/privilege/privilege_windows.go:542-602).
 */
module PipeFrames {
  import opened Basics

  const MAX_FRAME := 1048576

  type Bytes = seq<byte>

  datatype FrameError = EmptyFrame | TooLarge | Broken

  // ----- the format -----

  function Be32(n: nat): Bytes
    requires n < 0x1_0000_0000
  {
    [n / 0x100_0000, n / 0x1_0000 % 256, n / 256 % 256, n % 256]
  }

  function FromBe32(h: Bytes): nat
    requires |h| == 4
  {
    h[0] as int * 0x100_0000 + h[1] as int * 0x1_0000 + h[2] as int * 256 + h[3] as int
  }

  lemma Be32RoundTrip(n: nat)
    requires n < 0x1_0000_0000
    ensures FromBe32(Be32(n)) == n
  {
    var a, b, c := n / 256, n / 0x1_0000, n / 0x100_0000;
    assert n == a * 256 + n % 256;
    assert b == a / 256 && a == b * 256 + a % 256;
    assert c == b / 256 && b == c * 256 + b % 256;
  }

  /** The most significant byte comes first. */
  lemma Be32IsBigEndian(a: byte, b: byte, c: byte, d: byte)
    ensures Be32(a as int * 0x100_0000 + b as int * 0x1_0000 + c as int * 0x100 + d as int) == [a, b, c, d]
  {
    var n := a as int * 0x100_0000 + b as int * 0x1_0000 + c as int * 0x100 + d as int;
    assert n / 256 == a as int * 0x1_0000 + b as int * 0x100 + c as int;
    assert n / 0x1_0000 == a as int * 0x100 + b as int;
    assert n / 0x100_0000 == a as int;
  }

  predicate Framable(body: Bytes) { 1 <= |body| <= MAX_FRAME }

  function Encode(body: Bytes): Bytes
    requires Framable(body)
  {
    Be32(|body|) + body
  }

  ghost predicate AllFramable(bodies: seq<Bytes>) { forall i :: 0 <= i < |bodies| ==> Framable(bodies[i]) }

  ghost function EncodeAll(bodies: seq<Bytes>): Bytes
    requires AllFramable(bodies)
  {
    if bodies == [] then [] else Encode(bodies[0]) + EncodeAll(bodies[1..])
  }

  /** The first frame on the wire and what follows it. */
  function Decode(wire: Bytes, max: nat): Result<(Bytes, Bytes), FrameError>
  {
    if |wire| < 4 then Err(Broken)
    else
      var size := FromBe32(wire[..4]);
      if size == 0 then Err(EmptyFrame)
      else if size > max then Err(TooLarge)
      else if |wire| < 4 + size then Err(Broken)
      else Ok((wire[4..4 + size], wire[4 + size..]))
  }

  /** A length of zero is refused, and so is one over the limit, whatever follows; a frame that is not there in full is broken. */
  lemma DecodeRefuses(wire: Bytes, n: nat, part: Bytes, max: nat)
    requires n < 0x1_0000_0000
    ensures |wire| < 4 ==> Decode(wire, max) == Err(Broken)
    ensures Decode([0, 0, 0, 0] + wire, max) == Err(EmptyFrame)
    ensures n > max ==> Decode(Be32(n) + wire, max) == Err(TooLarge)
    ensures 0 < n <= max && |part| < n ==> Decode(Be32(n) + part, max) == Err(Broken)
  {
    hide Be32, FromBe32;
    Be32RoundTrip(n);
    assert ([0, 0, 0, 0] + wire)[..4] == [0, 0, 0, 0] && FromBe32([0, 0, 0, 0]) == 0 by { ZeroLength(); }
    assert |Be32(n)| == 4 by { Be32Size(n); }
    assert (Be32(n) + wire)[..4] == Be32(n) && (Be32(n) + part)[..4] == Be32(n);
  }

  lemma ZeroLength() ensures FromBe32([0, 0, 0, 0]) == 0 {}

  lemma Be32Size(n: nat)
    requires n < 0x1_0000_0000
    ensures |Be32(n)| == 4
  {
  }

  /** The frames a reader gets from these bytes, up to the first that is not there in full. */
  function Frames(wire: Bytes): seq<Bytes>
    decreases |wire|
  {
    var d := Decode(wire, MAX_FRAME);
    if d.Err? then [] else [d.value.0] + Frames(d.value.1)
  }

  lemma DecodeEncode(body: Bytes, rest: Bytes, max: nat)
    requires Framable(body)
    ensures Decode(Encode(body) + rest, max) == if |body| <= max then Ok((body, rest)) else Err(TooLarge)
  {
    var wire := Encode(body) + rest;
    assert wire[..4] == Be32(|body|);
    Be32RoundTrip(|body|);
    if |body| <= max {
      assert wire[4..4 + |body|] == body;
      assert wire[4 + |body|..] == rest;
    }
  }

  /**
   * Whatever part of the stream has arrived, the reader has exactly the frames that are
   * complete in it: a prefix of what was sent, and all of it once the stream is whole.
   */
  lemma {:induction false} PrefixReadsPrefix(bodies: seq<Bytes>, arrived: Bytes)
    requires AllFramable(bodies) && arrived <= EncodeAll(bodies)
    ensures Frames(arrived) <= bodies
    ensures EncodeAll(Frames(arrived)) <= arrived
    ensures arrived == EncodeAll(bodies) ==> Frames(arrived) == bodies
    ensures |Frames(arrived)| < |bodies| ==> |arrived| < |EncodeAll(Frames(arrived))| + 4 + |bodies[|Frames(arrived)|]|
    decreases |bodies|
  {
    if bodies != [] {
      var first, rest := Encode(bodies[0]), bodies[1..];
      if |arrived| >= |first| {
        var tail := arrived[|first|..];
        assert arrived == first + tail && tail <= EncodeAll(rest);
        DecodeEncode(bodies[0], tail, MAX_FRAME);
        PrefixReadsPrefix(rest, tail);
        assert Frames(arrived)[1..] == Frames(tail);
      } else if |arrived| >= 4 {
        assert arrived[..4] == Be32(|bodies[0]|);
        Be32RoundTrip(|bodies[0]|);
      }
    }
  }

  // ----- the pipe -----

  class Pipe {
    var wire: Bytes
    /** On a reliable pipe every call that can move a byte moves at least one. */
    const reliable: bool

    constructor (reliable: bool)
      ensures this.reliable == reliable && wire == []
    {
      this.reliable, wire := reliable, [];
    }

    /** `windows.ReadFile`: any number of the waiting bytes that fit, or an error. */
    method ReadFile(buf: array<byte>, from: nat) returns (ok: bool, done: nat)
      requires from < buf.Length
      modifies this, buf
      ensures done <= buf.Length - from && done <= |old(wire)| && (!ok ==> done == 0)
      ensures wire == old(wire)[done..]
      ensures forall i :: 0 <= i < buf.Length ==> buf[i] == if from <= i < from + done then old(wire)[i - from] else old(buf[i])
      ensures reliable && old(wire) != [] ==> ok && done > 0
    {
      ok := *;
      var most := if |wire| < buf.Length - from then |wire| else buf.Length - from;
      done :| 0 <= done <= most;
      if !ok { done := 0; }
      if reliable && wire != [] {
        ok := true;
        if done == 0 { done := 1; }
      }
      var moved := wire[..done];
      forall i | 0 <= i < done { buf[from + i] := moved[i]; }
      wire := wire[done..];
    }

    /** `windows.WriteFile`: any number of leading bytes, or an error. */
    method WriteFile(buf: Bytes) returns (ok: bool, done: nat)
      requires buf != []
      modifies this
      ensures done <= |buf| && (!ok ==> done == 0)
      ensures wire == old(wire) + buf[..done]
      ensures reliable ==> ok && done > 0
    {
      ok := *;
      done :| 0 <= done <= |buf|;
      if !ok { done := 0; }
      if reliable {
        ok := true;
        if done == 0 { done := 1; }
      }
      wire := wire + buf[..done];
    }
  }

  method ReadPipeFull(pipe: Pipe, buf: array<byte>) returns (ok: bool)
    modifies pipe, buf
    ensures ok ==> buf.Length <= |old(pipe.wire)| && buf[..] == old(pipe.wire)[..buf.Length] && pipe.wire == old(pipe.wire)[buf.Length..]
    ensures pipe.reliable && buf.Length <= |old(pipe.wire)| ==> ok
  {
    var at := 0;
    while at < buf.Length
      invariant at <= buf.Length && at <= |old(pipe.wire)|
      invariant pipe.wire == old(pipe.wire)[at..]
      invariant forall i :: 0 <= i < at ==> buf[i] == old(pipe.wire)[i]
      decreases buf.Length - at
    {
      var good, done := pipe.ReadFile(buf, at);
      if !good || done == 0 { return false; }
      at := at + done;
    }
    ok := true;
  }

  method WritePipeFull(pipe: Pipe, data: Bytes) returns (ok: bool, ghost written: nat)
    modifies pipe
    ensures written <= |data| && pipe.wire == old(pipe.wire) + data[..written]
    ensures ok ==> written == |data|
    ensures pipe.reliable ==> ok
  {
    var buf := data;
    written := 0;
    while buf != []
      invariant written <= |data| && buf == data[written..]
      invariant pipe.wire == old(pipe.wire) + data[..written]
      decreases |buf|
    {
      var good, done := pipe.WriteFile(buf);
      if !good || done == 0 { return false, written; }
      assert data[..written] + buf[..done] == data[..written + done];
      assert buf[done..] == data[written + done..];
      buf := buf[done..];
      written := written + done;
    }
    ok := true;
  }

  /** Reads the frame the format describes; on a reliable pipe the result is the decoder's in every case. */
  method ReadPipeFrame(pipe: Pipe, max: nat) returns (r: Result<Bytes, FrameError>)
    requires max < 0x1_0000_0000
    modifies pipe
    ensures r.Ok? ==> Decode(old(pipe.wire), max) == Ok((r.value, pipe.wire))
    ensures pipe.reliable ==>
      match Decode(old(pipe.wire), max)
      case Ok(d) => r == Ok(d.0) && pipe.wire == d.1
      case Err(e) => r == Err(e)
  {
    ghost var wire := pipe.wire;
    var header := new byte[4];
    var ok := ReadPipeFull(pipe, header);
    if !ok { return Err(Broken); }
    var size := FromBe32(header[..]);
    if size == 0 { return Err(EmptyFrame); }
    if size > max { return Err(TooLarge); }
    var body := new byte[size];
    ok := ReadPipeFull(pipe, body);
    if !ok { return Err(Broken); }
    assert wire[4..][..size] == wire[4..4 + size] && wire[4..][size..] == wire[4 + size..];
    r := Ok(body[..]);
  }

  method WritePipeFrame(pipe: Pipe, body: Bytes) returns (err: Option<FrameError>)
    modifies pipe
    ensures err == Some(EmptyFrame) <==> body == []
    ensures err == Some(TooLarge) <==> |body| > 1048576
    ensures !Framable(body) ==> pipe.wire == old(pipe.wire)
    ensures err == None ==> Framable(body) && pipe.wire == old(pipe.wire) + Encode(body)
    ensures Framable(body) ==> exists n :: 0 <= n <= |Encode(body)| && pipe.wire == old(pipe.wire) + Encode(body)[..n]
    ensures pipe.reliable && Framable(body) ==> err == None
  {
    if body == [] { return Some(EmptyFrame); }
    if |body| > MAX_FRAME { return Some(TooLarge); }
    var header := Be32(|body|);
    var ok, n := WritePipeFull(pipe, header);
    assert header[..n] == Encode(body)[..n];
    if !ok { return Some(Broken); }
    ok, n := WritePipeFull(pipe, body);
    assert header + body[..n] == Encode(body)[..4 + n];
    if !ok { return Some(Broken); }
    err := None;
  }

  lemma {:induction false} EncodeAllSnoc(bodies: seq<Bytes>, body: Bytes)
    requires AllFramable(bodies) && Framable(body)
    ensures AllFramable(bodies + [body]) && EncodeAll(bodies + [body]) == EncodeAll(bodies) + Encode(body)
  {
    if bodies == [] {
      assert bodies + [body] == [body] && [body][1..] == [];
    } else {
      assert (bodies + [body])[1..] == bodies[1..] + [body];
      EncodeAllSnoc(bodies[1..], body);
    }
  }

  /** Any sequence of frames, under any chunking, reads back as itself with nothing left over. */
  method Exchange(pipe: Pipe, bodies: seq<Bytes>) returns (read: seq<Bytes>)
    requires pipe.reliable && pipe.wire == [] && AllFramable(bodies)
    modifies pipe
    ensures read == bodies && pipe.wire == []
  {
    for n := 0 to |bodies|
      invariant pipe.wire == EncodeAll(bodies[..n])
    {
      var err := WritePipeFrame(pipe, bodies[n]);
      EncodeAllSnoc(bodies[..n], bodies[n]);
      assert bodies[..n + 1] == bodies[..n] + [bodies[n]];
    }
    assert bodies[..|bodies|] == bodies;
    read := [];
    for n := 0 to |bodies|
      invariant pipe.wire == EncodeAll(bodies[n..]) && read == bodies[..n]
    {
      assert bodies[n..][1..] == bodies[n + 1..];
      DecodeEncode(bodies[n], EncodeAll(bodies[n + 1..]), MAX_FRAME);
      var frame := ReadPipeFrame(pipe, MAX_FRAME);
      read := read + [frame.value];
    }
  }
}
