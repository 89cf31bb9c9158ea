/**
 * The byte edits of the page pipeline (internal/pageenhance/pageenhance.go:495-546):
 * case-insensitive insertion before a marker, and counted replacement.
 */
module PageBody {
  import opened Basics

  type Bytes = seq<byte>

  function LowerByte(b: byte): byte { if 65 <= b <= 90 then b + 32 else b }

  function Lower(s: Bytes): (r: Bytes)
    ensures |r| == |s|
    ensures forall i :: 0 <= i < |r| ==> r[i] == LowerByte(s[i])
  {
    seq(|s|, i requires 0 <= i < |s| => LowerByte(s[i]))
  }

  predicate OccursAt(s: Bytes, sub: Bytes, i: int) { 0 <= i && i + |sub| <= |s| && s[i..i + |sub|] == sub }

  ghost predicate Occurs(s: Bytes, sub: Bytes) { exists i :: OccursAt(s, sub, i) }

  /** `bytes.Index`: the first place, if any. */
  function Index(s: Bytes, sub: Bytes, from: nat): (r: Option<nat>)
    requires from <= |s|
    ensures r.Some? ==> from <= r.value && OccursAt(s, sub, r.value) && forall k :: from <= k < r.value ==> !OccursAt(s, sub, k)
    ensures r.None? ==> forall k :: from <= k ==> !OccursAt(s, sub, k)
    decreases |s| - from
  {
    if OccursAt(s, sub, from) then Some(from)
    else if from == |s| then None
    else Index(s, sub, from + 1)
  }

  /** Insert before the first place the marker occurs, in any letter case. */
  function InsertBefore(body: Bytes, marker: Bytes, insert: Bytes): Option<Bytes>
  {
    match Index(Lower(body), Lower(marker), 0)
    case None => None
    case Some(i) => Some(body[..i] + insert + body[i..])
  }

  /** The insertion splits the body in two at the first marker and changes nothing else. */
  lemma InsertionIsExact(body: Bytes, marker: Bytes, insert: Bytes)
    ensures
      match InsertBefore(body, marker, insert)
      case None => !Occurs(Lower(body), Lower(marker))
      case Some(out) =>
        exists i :: 0 <= i <= |body| && OccursAt(Lower(body), Lower(marker), i)
          && (forall k :: 0 <= k < i ==> !OccursAt(Lower(body), Lower(marker), k))
          && out[..i] == body[..i] && out[i..i + |insert|] == insert && out[i + |insert|..] == body[i..]
  {
    var at := Index(Lower(body), Lower(marker), 0);
    if at.Some? {
      var i := at.value;
      var out := body[..i] + insert + body[i..];
      assert out[..i] == body[..i] && out[i..i + |insert|] == insert && out[i + |insert|..] == body[i..];
    }
  }

  // ----- replacement -----

  /** `strings.Replace` with a non-empty `old`; a negative count replaces every occurrence. */
  function Replace(s: Bytes, old_: Bytes, new_: Bytes, count: int): Bytes
    requires old_ != []
    decreases |s|
  {
    if count == 0 || |s| < |old_| then s
    else if s[..|old_|] == old_ then new_ + Replace(s[|old_|..], old_, new_, if count < 0 then count else count - 1)
    else [s[0]] + Replace(s[1..], old_, new_, count)
  }

  /** The pieces between the occurrences that `Replace` replaces. */
  ghost function Pieces(s: Bytes, old_: Bytes, count: int): (r: seq<Bytes>)
    requires old_ != []
    ensures r != []
    decreases |s|
  {
    if count == 0 || |s| < |old_| then [s]
    else if s[..|old_|] == old_ then [[]] + Pieces(s[|old_|..], old_, if count < 0 then count else count - 1)
    else
      var rest := Pieces(s[1..], old_, count);
      [[s[0]] + rest[0]] + rest[1..]
  }

  ghost function JoinWith(pieces: seq<Bytes>, sep: Bytes): Bytes
  {
    if pieces == [] then [] else if |pieces| == 1 then pieces[0] else pieces[0] + sep + JoinWith(pieces[1..], sep)
  }

  lemma JoinWithHead(x: byte, pieces: seq<Bytes>, sep: Bytes)
    requires pieces != []
    ensures JoinWith([[x] + pieces[0]] + pieces[1..], sep) == [x] + JoinWith(pieces, sep)
  {
    var longer := [[x] + pieces[0]] + pieces[1..];
    assert longer[1..] == pieces[1..];
  }

  lemma JoinWithCons(pieces: seq<Bytes>, sep: Bytes)
    requires pieces != []
    ensures JoinWith([[]] + pieces, sep) == sep + JoinWith(pieces, sep)
  {
    assert ([[]] + pieces)[1..] == pieces;
    assert [] + sep == sep;
  }

  /**
   * Replacement read as splitting: the body is its pieces joined by `old`, the result is the
   * same pieces joined by `new`, at most `count` joints, and no piece before the last, nor the
   * last unless the count ran out, still contains `old`.
   */
  lemma {:induction false} ReplaceJoinsPieces(s: Bytes, old_: Bytes, new_: Bytes, count: int)
    requires old_ != []
    ensures
      var pieces := Pieces(s, old_, count);
      && JoinWith(pieces, old_) == s && JoinWith(pieces, new_) == Replace(s, old_, new_, count)
      && (count >= 0 ==> |pieces| <= count + 1)
      && (forall i :: 0 <= i < |pieces| && (i < |pieces| - 1 || count < 0 || |pieces| <= count) ==> !Occurs(pieces[i], old_))
    decreases |s|
  {
    hide OccursAt, JoinWith;
    NoJoints(s, old_, new_, count);
    if count == 0 {
    } else if |s| < |old_| {
    } else if s[..|old_|] == old_ {
      var next := if count < 0 then count else count - 1;
      ReplaceJoinsPieces(s[|old_|..], old_, new_, next);
      var rest := Pieces(s[|old_|..], old_, next);
      JoinWithCons(rest, old_);
      JoinWithCons(rest, new_);
      assert s == old_ + s[|old_|..];
    } else {
      ReplaceJoinsPieces(s[1..], old_, new_, count);
      var rest := Pieces(s[1..], old_, count);
      JoinWithHead(s[0], rest, old_);
      JoinWithHead(s[0], rest, new_);
      assert s == [s[0]] + s[1..];
      if |rest| > 1 || count < 0 || |rest| <= count { HeadPieceFree(s, old_, rest); }
    }
  }

  lemma NoJoints(s: Bytes, old_: Bytes, new_: Bytes, count: int)
    ensures JoinWith([s], old_) == s && JoinWith([s], new_) == s
    ensures |s| < |old_| ==> !Occurs(s, old_)
    ensures old_ != [] ==> !Occurs([], old_)
  {
  }

  /** One more byte in front creates no occurrence when the text does not start with one. */
  lemma HeadPieceFree(s: Bytes, old_: Bytes, rest: seq<Bytes>)
    requires |s| >= |old_| > 0 && s[..|old_|] != old_ && rest != [] && !Occurs(rest[0], old_)
    requires JoinWith(rest, old_) == s[1..]
    ensures !Occurs([s[0]] + rest[0], old_)
  {
    var piece := [s[0]] + rest[0];
    assert rest[0] <= s[1..];
    assert piece <= s;
    forall i | i > 0 ensures OccursAt(piece, old_, i) ==> OccursAt(rest[0], old_, i - 1) {
      ShiftOccurrence(s[0], rest[0], old_, i);
    }
  }

  lemma ShiftOccurrence(x: byte, s: Bytes, sub: Bytes, i: int)
    requires i > 0
    ensures OccursAt([x] + s, sub, i) <==> OccursAt(s, sub, i - 1)
  {
    if i + |sub| <= |s| + 1 { assert ([x] + s)[i..i + |sub|] == s[i - 1..i - 1 + |sub|]; }
  }

  /** The leftmost occurrence is replaced first, and what follows it is treated alike with one less to go. */
  lemma {:induction false} ReplaceAtFirst(s: Bytes, old_: Bytes, new_: Bytes, count: int, i: nat)
    requires old_ != [] && count != 0 && OccursAt(s, old_, i) && forall k :: 0 <= k < i ==> !OccursAt(s, old_, k)
    ensures Replace(s, old_, new_, count) == s[..i] + (new_ + Replace(s[i + |old_|..], old_, new_, if count < 0 then count else count - 1))
    decreases |s|
  {
    if i == 0 {
      ReplaceHead(s, old_, new_, count);
    } else {
      ShiftedFirst(s, old_, i);
      ReplaceAtFirst(s[1..], old_, new_, count, i - 1);
      ReplaceLater(s, old_, new_, count, i);
    }
  }

  lemma ReplaceLater(s: Bytes, old_: Bytes, new_: Bytes, count: int, i: nat)
    requires old_ != [] && count != 0 && 0 < i && i + |old_| <= |s| && !OccursAt(s, old_, 0)
    requires Replace(s[1..], old_, new_, count)
          == s[1..][..i - 1] + (new_ + Replace(s[1..][i - 1 + |old_|..], old_, new_, if count < 0 then count else count - 1))
    ensures Replace(s, old_, new_, count) == s[..i] + (new_ + Replace(s[i + |old_|..], old_, new_, if count < 0 then count else count - 1))
  {
    hide Replace, OccursAt;
    ReplaceStep(s, old_, new_, count);
    CutAfterFirst(s, i, |old_|, new_ + Replace(s[i + |old_|..], old_, new_, if count < 0 then count else count - 1));
  }

  lemma CutAfterFirst(s: Bytes, i: nat, n: nat, tail: Bytes)
    requires 0 < i && i + n <= |s|
    ensures s[1..][i - 1 + n..] == s[i + n..] && [s[0]] + (s[1..][..i - 1] + tail) == s[..i] + tail
  {
    assert [s[0]] + s[1..][..i - 1] == s[..i];
    assert [s[0]] + (s[1..][..i - 1] + tail) == ([s[0]] + s[1..][..i - 1]) + tail;
  }

  lemma ReplaceHead(s: Bytes, old_: Bytes, new_: Bytes, count: int)
    requires old_ != [] && count != 0 && OccursAt(s, old_, 0)
    ensures Replace(s, old_, new_, count) == s[..0] + (new_ + Replace(s[0 + |old_|..], old_, new_, if count < 0 then count else count - 1))
  {
    assert s[..0] == [] && s[0..0 + |old_|] == s[..|old_|];
  }

  lemma ReplaceStep(s: Bytes, old_: Bytes, new_: Bytes, count: int)
    requires old_ != [] && count != 0 && |s| >= |old_| && !OccursAt(s, old_, 0)
    ensures Replace(s, old_, new_, count) == [s[0]] + Replace(s[1..], old_, new_, count)
  {
  }

  lemma ShiftedFirst(s: Bytes, old_: Bytes, i: nat)
    requires old_ != [] && 0 < i && OccursAt(s, old_, i) && forall k :: 0 <= k < i ==> !OccursAt(s, old_, k)
    ensures OccursAt(s[1..], old_, i - 1) && forall k :: 0 <= k < i - 1 ==> !OccursAt(s[1..], old_, k)
  {
    assert s == [s[0]] + s[1..];
    forall k | 0 <= k < i ensures OccursAt(s[1..], old_, k) == OccursAt(s, old_, k + 1) { ShiftOccurrence(s[0], s[1..], old_, k + 1); }
  }

  /** Without an occurrence, or with none to go, nothing changes. */
  lemma {:induction false} ReplaceNone(s: Bytes, old_: Bytes, new_: Bytes, count: int)
    requires old_ != [] && (count == 0 || !Occurs(s, old_))
    ensures Replace(s, old_, new_, count) == s
    decreases |s|
  {
    if count != 0 && |s| >= |old_| {
      assert !OccursAt(s, old_, 0) && s == [s[0]] + s[1..];
      forall k ensures !OccursAt(s[1..], old_, k) { if k >= 0 { ShiftOccurrence(s[0], s[1..], old_, k + 1); } }
      ReplaceNone(s[1..], old_, new_, count);
    }
  }
}
