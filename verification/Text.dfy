/**
 * The text primitives the program takes from Go's `strings` package, on sequences of
 * code points, together with the laws that relate them.
 */
module Text {

  /** The code points `unicode.IsSpace` accepts. */
  predicate IsSpace(c: char)
  {
    || '\t' <= c <= '\r'
    || c == ' '
    || c == '\U{85}' || c == '\U{A0}' || c == '\U{1680}'
    || '\U{2000}' <= c <= '\U{200A}'
    || c == '\U{2028}' || c == '\U{2029}' || c == '\U{202F}' || c == '\U{205F}' || c == '\U{3000}'
  }

  function TrimStart(s: string, cut: char -> bool): string
  {
    if s == "" || !cut(s[0]) then s else TrimStart(s[1..], cut)
  }

  /** `strings.TrimRight`: drop the longest suffix made of cut characters. */
  function TrimEnd(s: string, cut: char -> bool): (r: string)
    ensures r <= s
    ensures r != "" ==> !cut(r[|r| - 1])
  {
    if s == "" || !cut(s[|s| - 1]) then s else TrimEnd(s[..|s| - 1], cut)
  }

  function TrimSpace(s: string): string
  {
    TrimEnd(TrimStart(s, IsSpace), IsSpace)
  }

  /** Lower-casing of ASCII letters. */
  function LowerChar(c: char): char
  {
    if 'A' <= c <= 'Z' then (c as int + 32) as char else c
  }

  function ToLower(s: string): (r: string)
    ensures |r| == |s|
  {
    seq(|s|, i requires 0 <= i < |s| => LowerChar(s[i]))
  }

  function Digit(d: nat): char
    requires d < 10
  {
    (d + 48) as char
  }

  /** Decimal rendering of a natural number. */
  function Decimal(n: nat): (r: string)
    ensures r != ""
    ensures forall i :: 0 <= i < |r| ==> '0' <= r[i] <= '9'
  {
    if n < 10 then [Digit(n)] else Decimal(n / 10) + [Digit(n % 10)]
  }

  predicate HasSuffix(s: string, suffix: string)
  {
    |suffix| <= |s| && s[|s| - |suffix|..] == suffix
  }

  /** `strings.Split(s, sep)` for a one-character separator; never empty. */
  function Split(s: string, sep: char): (r: seq<string>)
    ensures |r| > 0
  {
    if s == "" then [""]
    else
      var rest := Split(s[1..], sep);
      if s[0] == sep then [""] + rest else [[s[0]] + rest[0]] + rest[1..]
  }

  /** `strings.Join(lines, sep)` for a one-character separator. */
  function Join(lines: seq<string>, sep: char): string
  {
    if lines == [] then ""
    else if |lines| == 1 then lines[0]
    else lines[0] + [sep] + Join(lines[1..], sep)
  }

  /** Every line followed by its terminator. */
  function Terminated(lines: seq<string>, sep: char): string
  {
    if lines == [] then "" else lines[0] + [sep] + Terminated(lines[1..], sep)
  }

  ghost predicate NoneContains(lines: seq<string>, c: char)
  {
    forall i :: 0 <= i < |lines| ==> c !in lines[i]
  }

  // ----- laws -----

  lemma {:induction false} DecimalInjective(a: nat, b: nat)
    requires Decimal(a) == Decimal(b)
    ensures a == b
  {
    var s, t := Decimal(a), Decimal(b);
    assert s[|s| - 1] == Digit(a % 10) && t[|t| - 1] == Digit(b % 10);
    if a >= 10 && b >= 10 {
      assert Decimal(a / 10) == s[..|s| - 1] && Decimal(b / 10) == t[..|t| - 1];
      DecimalInjective(a / 10, b / 10);
    }
  }

  lemma {:induction false} TrimStartHead(s: string, cut: char -> bool)
    ensures TrimStart(s, cut) != "" ==> !cut(TrimStart(s, cut)[0])
    ensures exists k :: 0 <= k <= |s| && TrimStart(s, cut) == s[k..]
  {
    if s != "" && cut(s[0]) {
      TrimStartHead(s[1..], cut);
      var k :| 0 <= k <= |s[1..]| && TrimStart(s[1..], cut) == s[1..][k..];
      assert s[1..][k..] == s[k + 1..];
    } else {
      assert s == s[0..];
    }
  }

  lemma TrimSpaceIsPart(s: string)
    ensures exists k :: 0 <= k <= |s| && TrimSpace(s) <= s[k..]
    ensures TrimSpace(s) != "" ==> !IsSpace(TrimSpace(s)[0]) && !IsSpace(TrimSpace(s)[|TrimSpace(s)| - 1])
  {
    hide TrimEnd, IsSpace;
    TrimStartHead(s, IsSpace);
    var k :| 0 <= k <= |s| && TrimStart(s, IsSpace) == s[k..];
    assert TrimSpace(s) <= s[k..];
  }

  /** A trimmed text is trimmed, and is made of characters of the original. */
  lemma TrimSpaceTwice(s: string)
    ensures TrimSpace(TrimSpace(s)) == TrimSpace(s)
    ensures forall i :: 0 <= i < |TrimSpace(s)| ==> TrimSpace(s)[i] in s
  {
    hide IsSpace;
    TrimSpaceIsPart(s);
    var r := TrimSpace(s);
    AlreadyTrimmed(r);
    var k :| 0 <= k <= |s| && r <= s[k..];
    forall i | 0 <= i < |r| ensures r[i] in s { assert r[i] == s[k..][i] == s[k + i]; }
  }

  lemma AlreadyTrimmed(r: string)
    requires r != "" ==> !IsSpace(r[0]) && !IsSpace(r[|r| - 1])
    ensures TrimSpace(r) == r
  {
  }

  lemma {:induction false} SplitHasNoSep(s: string, sep: char)
    ensures NoneContains(Split(s, sep), sep)
  {
    if s != "" { SplitHasNoSep(s[1..], sep); }
  }

  lemma {:induction false} SplitPrefix(line: string, rest: string, sep: char)
    requires sep !in line
    ensures Split(line + [sep] + rest, sep) == [line] + Split(rest, sep)
  {
    var s := line + [sep] + rest;
    if line == "" {
      assert s[1..] == rest;
    } else {
      assert s[1..] == line[1..] + [sep] + rest;
      SplitPrefix(line[1..], rest, sep);
      assert [line[0]] + line[1..] == line;
      assert ([line[1..]] + Split(rest, sep))[1..] == Split(rest, sep);
    }
  }

  lemma {:induction false} SplitPlain(line: string, sep: char)
    requires sep !in line
    ensures Split(line, sep) == [line]
  {
    if line != "" {
      SplitPlain(line[1..], sep);
      assert [line[0]] + line[1..] == line;
    }
  }

  /** Splitting reads back terminated lines, whatever follows them. */
  lemma {:induction false} SplitTerminated(lines: seq<string>, tail: string, sep: char)
    requires NoneContains(lines, sep)
    ensures Split(Terminated(lines, sep) + tail, sep) == lines + Split(tail, sep)
  {
    if lines == [] {
      assert Terminated(lines, sep) + tail == tail;
    } else {
      var rest := Terminated(lines[1..], sep) + tail;
      calc {
        Split(Terminated(lines, sep) + tail, sep);
        { assert Terminated(lines, sep) + tail == lines[0] + [sep] + rest; }
        Split(lines[0] + [sep] + rest, sep);
        { SplitPrefix(lines[0], rest, sep); }
        [lines[0]] + Split(rest, sep);
        { SplitTerminated(lines[1..], tail, sep); }
        [lines[0]] + (lines[1..] + Split(tail, sep));
        lines + Split(tail, sep);
      }
    }
  }

  lemma TerminatedInjective(a: seq<string>, b: seq<string>, sep: char)
    requires NoneContains(a, sep) && NoneContains(b, sep)
    requires Terminated(a, sep) == Terminated(b, sep)
    ensures a == b
  {
    SplitTerminated(a, "", sep);
    SplitTerminated(b, "", sep);
    assert Terminated(a, sep) + "" == Terminated(a, sep);
    assert Terminated(b, sep) + "" == Terminated(b, sep);
    assert a + [""] == b + [""];
    assert a == (a + [""])[..|a|] && b == (b + [""])[..|b|];
  }

  lemma {:induction false} TerminatedConcat(a: seq<string>, b: seq<string>, sep: char)
    ensures Terminated(a + b, sep) == Terminated(a, sep) + Terminated(b, sep)
  {
    if a == [] {
      assert a + b == b;
    } else {
      assert (a + b)[1..] == a[1..] + b;
      TerminatedConcat(a[1..], b, sep);
    }
  }

  lemma {:induction false} JoinTerminated(lines: seq<string>, sep: char)
    requires lines != []
    ensures Join(lines, sep) + [sep] == Terminated(lines, sep)
  {
    if |lines| > 1 { JoinTerminated(lines[1..], sep); }
  }

  lemma {:induction false} TrimEndDropsCut(s: string, t: string, cut: char -> bool)
    requires forall i :: 0 <= i < |t| ==> cut(t[i])
    ensures TrimEnd(s + t, cut) == TrimEnd(s, cut)
  {
    if t == "" {
      assert s + t == s;
    } else {
      assert (s + t)[..|s + t| - 1] == s + t[..|t| - 1];
      TrimEndDropsCut(s, t[..|t| - 1], cut);
    }
  }

  /** Trimming the end of a text whose last part survives only touches that part. */
  lemma {:induction false} TrimEndLast(s: string, t: string, cut: char -> bool)
    requires TrimEnd(t, cut) != ""
    ensures TrimEnd(s + t, cut) == s + TrimEnd(t, cut)
  {
    if cut(t[|t| - 1]) {
      assert (s + t)[..|s + t| - 1] == s + t[..|t| - 1];
      TrimEndLast(s, t[..|t| - 1], cut);
    }
  }

  lemma {:induction false} TrimStartAppend(s: string, c: char)
    requires IsSpace(c)
    ensures || (TrimStart(s + [c], IsSpace) == "" && TrimStart(s, IsSpace) == "")
            || TrimStart(s + [c], IsSpace) == TrimStart(s, IsSpace) + [c]
  {
    if s == "" {
      assert (s + [c])[1..] == "";
    } else if IsSpace(s[0]) {
      assert (s + [c])[1..] == s[1..] + [c];
      TrimStartAppend(s[1..], c);
    }
  }

  /** A trailing white-space character never changes the trimmed text. */
  lemma TrimSpaceAppend(s: string, c: char)
    requires IsSpace(c)
    ensures TrimSpace(s + [c]) == TrimSpace(s)
  {
    TrimStartAppend(s, c);
    TrimEndDropsCut(TrimStart(s, IsSpace), [c], IsSpace);
  }

  // ----- what the primitives mean -----

  lemma LowerAt(s: string, i: nat)
    requires i < |s|
    ensures ToLower(s)[i] == if 'A' <= s[i] <= 'Z' then (s[i] as int + 32) as char else s[i]
  {
  }

  predicate Joins(s: string, front: string, back: string) { s == front + back }

  /** A suffix is what something ends in. */
  lemma SuffixMeans(s: string, suffix: string)
    ensures HasSuffix(s, suffix) <==> exists front :: Joins(s, front, suffix)
  {
    if HasSuffix(s, suffix) { assert Joins(s, s[..|s| - |suffix|], suffix); }
    if front :| Joins(s, front, suffix) { assert s[|front|..] == suffix; }
  }

  /** Decimal notation, most significant digit first. */
  lemma DecimalMeans(n: nat, d: nat)
    requires d < 10
    ensures Decimal(d) == ["0123456789"[d]]
    ensures n > 0 ==> Decimal(10 * n + d) == Decimal(n) + Decimal(d)
  {
    assert "0123456789"[d] as int == d + 48;
  }
}
