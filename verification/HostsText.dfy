/**
 * The managed block of the hosts file (internal/hosts/hosts.go): a line scanner removes
 * it, a renderer appends it, and the two are shown to undo each other on every file.
 *
 * A text is studied through its lines: `Kept` is what the scanner keeps, `Body` drops the
 * blank tail, and `Base` is what an append builds on.
 */
module HostsText {
  import opened Text

  datatype Entry = Entry(ip: string, host: string)

  predicate IsLf(c: char) { c == '\n' }
  predicate IsCrLf(c: char) { c == '\r' || c == '\n' }

  /** `strings.ReplaceAll(s, "\r\n", "\n")` */
  function FoldCrLf(s: string): string
  {
    if s == "" then ""
    else if |s| >= 2 && s[0] == '\r' && s[1] == '\n' then "\n" + FoldCrLf(s[2..])
    else [s[0]] + FoldCrLf(s[1..])
  }

  function FileLines(file: string): seq<string> { Split(FoldCrLf(file), '\n') }

  // ----- lines -----

  function EntryLine(e: Entry): string { e.ip + " " + e.host }

  function EntryLines(entries: seq<Entry>): (lines: seq<string>)
    ensures |lines| == |entries|
    ensures forall i :: 0 <= i < |lines| ==> lines[i] == EntryLine(entries[i])
  {
    seq(|entries|, i requires 0 <= i < |entries| => EntryLine(entries[i]))
  }

  predicate EndsCr(line: string) { line != "" && line[|line| - 1] == '\r' }

  function StripCr(line: string): string
  {
    if EndsCr(line) then line[..|line| - 1] else line
  }

  function StripAll(lines: seq<string>): (r: seq<string>)
    ensures |r| == |lines|
    ensures forall i :: 0 <= i < |r| ==> r[i] == StripCr(lines[i])
  {
    seq(|lines|, i requires 0 <= i < |lines| => StripCr(lines[i]))
  }

  /** Drop trailing lines that trim to nothing and trim the last one left. */
  function TrimTail(lines: seq<string>, cut: char -> bool): (r: seq<string>)
    ensures |r| <= |lines|
    ensures forall i :: 0 <= i < |r| ==> r[i] <= lines[i]
    ensures forall i :: 0 <= i < |r| - 1 ==> r[i] == lines[i]
    ensures r != [] ==> r[|r| - 1] != "" && r[|r| - 1] == TrimEnd(lines[|r| - 1], cut)
  {
    if lines == [] then []
    else
      var last := TrimEnd(lines[|lines| - 1], cut);
      if last == "" then TrimTail(lines[..|lines| - 1], cut) else lines[..|lines| - 1] + [last]
  }

  /** Folding line ends takes one carriage return off every line but the last. */
  ghost predicate FoldsTo(lines: seq<string>, folded: seq<string>)
  {
    && |lines| == |folded| > 0
    && (forall i :: 0 <= i < |folded| - 1 ==> folded[i] == StripCr(lines[i]))
    && folded[|folded| - 1] == lines[|folded| - 1]
  }

  lemma {:induction false} SplitFold(s: string)
    ensures FoldsTo(Split(s, '\n'), FileLines(s))
  {
    if s == "" {
      FoldsToOne("");
    } else if |s| >= 2 && s[0] == '\r' && s[1] == '\n' {
      SplitFold(s[2..]);
      SplitFoldLine("\r", s[2..]);
      assert s == "\r" + ['\n'] + s[2..];
      assert FoldCrLf(s) == "" + ['\n'] + FoldCrLf(s[2..]);
    } else if s[0] == '\n' {
      SplitFold(s[1..]);
      SplitFoldLine("", s[1..]);
      assert s == "" + ['\n'] + s[1..];
      assert FoldCrLf(s) == "" + ['\n'] + FoldCrLf(s[1..]);
    } else {
      SplitFold(s[1..]);
      SplitFoldChar(s[0], s[1..]);
      assert s == [s[0]] + s[1..];
    }
  }

  lemma FoldsToOne(line: string)
    ensures FoldsTo([line], [line])
  {
  }

  /** One more terminated line in front. */
  lemma SplitFoldLine(line: string, rest: string)
    requires '\n' !in line
    requires FoldsTo(Split(rest, '\n'), FileLines(rest))
    ensures FoldsTo(Split(line + ['\n'] + rest, '\n'), Split(StripCr(line) + ['\n'] + FoldCrLf(rest), '\n'))
  {
    hide Split, FoldCrLf;
    SplitPrefix(line, rest, '\n');
    SplitPrefix(StripCr(line), FoldCrLf(rest), '\n');
  }

  lemma SplitFoldChar(c: char, s: string)
    requires FoldsTo(Split(s, '\n'), FileLines(s))
    requires c != '\n' && !(c == '\r' && s != "" && s[0] == '\n')
    ensures FoldsTo(Split([c] + s, '\n'), FileLines([c] + s))
  {
    hide FoldsTo;
    var lines, folded := Split(s, '\n'), FileLines(s);
    assert ([c] + s)[1..] == s;
    assert FoldCrLf([c] + s) == [c] + FoldCrLf(s);
    assert ([c] + FoldCrLf(s))[1..] == FoldCrLf(s);
    FoldsToGrow(c, lines, folded);
  }

  lemma FoldsToGrow(c: char, lines: seq<string>, folded: seq<string>)
    requires FoldsTo(lines, folded)
    requires c == '\r' && |lines| > 1 ==> lines[0] != ""
    ensures FoldsTo([[c] + lines[0]] + lines[1..], [[c] + folded[0]] + folded[1..])
  {
    hide StripCr;
    var l, f := [[c] + lines[0]] + lines[1..], [[c] + folded[0]] + folded[1..];
    forall i | 0 <= i < |f| - 1 ensures f[i] == StripCr(l[i]) {
      if i == 0 { StripGrow(c, lines[0]); }
    }
  }

  lemma StripGrow(c: char, line: string)
    requires c == '\r' ==> line != ""
    ensures StripCr([c] + line) == [c] + StripCr(line)
  {
  }

  /** The lines of a file made of terminated lines. */
  lemma LinesOfTerminated(lines: seq<string>)
    requires NoneContains(lines, '\n')
    ensures FileLines(Terminated(lines, '\n')) == StripAll(lines) + [""]
  {
    var file := Terminated(lines, '\n');
    SplitTerminated(lines, "", '\n');
    assert file + "" == file;
    SplitFold(file);
  }

  lemma TerminatedSnoc(init: seq<string>, last: string)
    ensures Terminated(init + [last], '\n') == Terminated(init, '\n') + last + "\n"
  {
    TerminatedConcat(init, [last], '\n');
    assert Terminated([last], '\n') == last + "\n";
  }

  /** Trimming past a last line that trims away, or down to one that does not. */
  lemma TrimLastLine(init: seq<string>, last: string, cut: char -> bool)
    requires cut('\n')
    ensures
      var t, trimmed := TrimEnd(Terminated(init + [last], '\n'), cut), TrimEnd(last, cut);
      t == if trimmed == "" then TrimEnd(Terminated(init, '\n'), cut) else Terminated(init, '\n') + trimmed
  {
    hide TrimEnd, Terminated;
    var head := Terminated(init, '\n');
    TerminatedSnoc(init, last);
    TrimEndDropsCut(head + last, "\n", cut);
    if TrimEnd(last, cut) == "" {
      TrimmedAway(last, cut);
      TrimEndDropsCut(head, last, cut);
    } else {
      TrimEndLast(head, last, cut);
    }
  }

  lemma {:induction false} TrimTerminated(lines: seq<string>, cut: char -> bool)
    requires cut('\n')
    ensures
      var t := TrimEnd(Terminated(lines, '\n'), cut);
      var r := TrimTail(lines, cut);
      if r == [] then t == "" else t != "" && t + "\n" == Terminated(r, '\n')
  {
    if lines == [] {
    } else {
      hide TrimEnd, Terminated;
      var init, last := lines[..|lines| - 1], lines[|lines| - 1];
      assert lines == init + [last];
      TrimLastLine(init, last, cut);
      if TrimEnd(last, cut) == "" { TrimTerminated(init, cut); } else { TerminatedSnoc(init, TrimEnd(last, cut)); }
    }
  }

  lemma {:induction false} TrimmedAway(s: string, cut: char -> bool)
    requires TrimEnd(s, cut) == ""
    ensures forall i :: 0 <= i < |s| ==> cut(s[i])
  {
    if s != "" { TrimmedAway(s[..|s| - 1], cut); }
  }

  /** What precedes the block in an appended file. */
  function Preamble(base: seq<string>): seq<string>
  {
    if base == [] then [] else base + [""]
  }

  lemma PreambleNoLf(base: seq<string>, block: seq<string>)
    requires NoneContains(base, '\n') && NoneContains(block, '\n')
    ensures NoneContains(Preamble(base) + block, '\n')
  {
  }

  lemma PreambleInjective(a: seq<string>, b: seq<string>, tail: seq<string>)
    requires Preamble(a) + tail == Preamble(b) + tail
    ensures a == b
  {
    assert |Preamble(a) + tail| == |Preamble(b) + tail|;
    assert Preamble(a) == (Preamble(a) + tail)[..|Preamble(a)|];
    assert Preamble(b) == (Preamble(b) + tail)[..|Preamble(b)|];
    if a != [] && b != [] {
      assert a == Preamble(a)[..|a|] && b == Preamble(b)[..|b|];
    }
  }

  lemma TerminatedPreamble(base: seq<string>)
    ensures Terminated(Preamble(base), '\n') == if base == [] then "" else Terminated(base, '\n') + "\n"
  {
    TerminatedConcat(base, [""], '\n');
    assert Terminated([""], '\n') == "\n";
  }

  lemma StripKeepsTrim(line: string)
    ensures TrimSpace(StripCr(line)) == TrimSpace(line)
  {
    if EndsCr(line) {
      assert line == line[..|line| - 1] + ['\r'];
      TrimSpaceAppend(line[..|line| - 1], '\r');
    }
  }

  lemma {:induction false} TrimEndKeepsTrim(line: string)
    ensures TrimSpace(TrimEnd(line, IsCrLf)) == TrimSpace(line)
  {
    if line != "" && IsCrLf(line[|line| - 1]) {
      var init := line[..|line| - 1];
      assert line == init + [line[|line| - 1]];
      TrimSpaceAppend(init, line[|line| - 1]);
      TrimEndKeepsTrim(init);
    }
  }

  lemma UntrimmedLf(line: string)
    requires '\n' !in line
    ensures TrimEnd(line, IsLf) == line
  {
  }

  ghost function Size(lines: seq<string>): nat
  {
    if lines == [] then 0 else |lines[|lines| - 1]| + 1 + Size(lines[..|lines| - 1])
  }

  ghost predicate NoCr(lines: seq<string>)
  {
    forall i :: 0 <= i < |lines| ==> !EndsCr(lines[i])
  }

  lemma {:induction false} StripShrinks(lines: seq<string>)
    ensures Size(StripAll(lines)) <= Size(lines)
    ensures NoCr(lines) ==> StripAll(lines) == lines
    ensures Size(StripAll(lines)) == Size(lines) ==> NoCr(lines)
  {
    if lines != [] {
      var init := lines[..|lines| - 1];
      assert StripAll(lines)[..|lines| - 1] == StripAll(init);
      StripShrinks(init);
    }
  }

  lemma {:induction false} TrimTailShrinks(lines: seq<string>, cut: char -> bool)
    ensures Size(TrimTail(lines, cut)) <= Size(lines)
    ensures Size(TrimTail(lines, cut)) == Size(lines) ==> TrimTail(lines, cut) == lines
  {
    if lines != [] {
      var init, last := lines[..|lines| - 1], lines[|lines| - 1];
      if TrimEnd(last, cut) == "" {
        TrimTailShrinks(init, cut);
      } else {
        assert (init + [TrimEnd(last, cut)])[..|init|] == init;
      }
    }
  }

  /** A tail that is already trimmed stays as it is. */
  lemma TrimTailStable(lines: seq<string>, cut: char -> bool)
    requires lines != [] ==> lines[|lines| - 1] != "" && !cut(lines[|lines| - 1][|lines[|lines| - 1]| - 1])
    ensures TrimTail(lines, cut) == lines
  {
    if lines != [] { assert lines[..|lines| - 1] + [lines[|lines| - 1]] == lines; }
  }

  lemma TrimTailBlank(lines: seq<string>)
    ensures TrimTail(lines + [""], IsLf) == TrimTail(lines, IsLf)
  {
    assert (lines + [""])[..|lines|] == lines;
  }

  lemma TrimTailOfPreamble(base: seq<string>)
    requires NoneContains(base, '\n')
    requires base != [] ==> base[|base| - 1] != "" && !EndsCr(base[|base| - 1])
    ensures TrimTail(StripAll(Preamble(base)) + [""], IsLf) == StripAll(base)
  {
    var pre, stripped := StripAll(Preamble(base)), StripAll(base);
    assert (pre + [""])[..|pre|] == pre;
    if base != [] {
      assert pre[..|pre| - 1] == stripped && pre[|pre| - 1] == "";
      TrimTailStable(stripped, IsLf);
    }
  }

  lemma {:induction false} TrimTailNoCr(lines: seq<string>)
    requires NoneContains(lines, '\n')
    ensures NoCr(lines) <==> NoCr(TrimTail(lines, IsLf))
  {
    if lines != [] {
      var init, last := lines[..|lines| - 1], lines[|lines| - 1];
      UntrimmedLf(last);
      assert lines == init + [last];
      if last == "" { TrimTailNoCr(init); }
    }
  }

  lemma {:induction false} SplitKeepsOut(s: string, c: char)
    requires c !in s
    ensures NoneContains(Split(s, '\n'), c)
  {
    if s != "" { SplitKeepsOut(s[1..], c); }
  }

  /** An entry line cut at its first space. */
  function ParseEntry(line: string): Entry
  {
    if line == "" then Entry("", "")
    else if line[0] == ' ' then Entry("", line[1..])
    else var rest := ParseEntry(line[1..]); Entry([line[0]] + rest.ip, rest.host)
  }

  function ParseEntries(lines: seq<string>): seq<Entry>
  {
    seq(|lines|, i requires 0 <= i < |lines| => ParseEntry(lines[i]))
  }

  lemma {:induction false} ParseRendered(e: Entry)
    requires ' ' !in e.ip
    ensures ParseEntry(EntryLine(e)) == e
    decreases |e.ip|
  {
    var line := EntryLine(e);
    if e.ip == "" {
      assert line[1..] == e.host;
    } else {
      ParseRendered(Entry(e.ip[1..], e.host));
      assert line[1..] == EntryLine(Entry(e.ip[1..], e.host));
      assert [e.ip[0]] + e.ip[1..] == e.ip;
    }
  }

  /** The two marker lines and the notice the block carries. */
  datatype Format = Format(begin: string, end: string, notice: string)
  {
    /** Markers the scanner tells apart: trimmed, different, on one line each. */
    ghost predicate Proper()
    {
      && IsBegin(begin) && !IsEnd(begin) && IsEnd(end) && !IsBegin(end) && !IsEnd(notice) && !IsBegin(notice)
      && |begin| > 1
      && !EndsCr(begin) && !EndsCr(end) && !EndsCr(notice)
      && '\n' !in begin && '\n' !in end && '\n' !in notice
    }

    predicate IsBegin(line: string) { TrimSpace(line) == begin }
    predicate IsEnd(line: string) { TrimSpace(line) == end }

    /** The lines outside every managed block; a block without an end runs to the end of the file. */
    function Scan(lines: seq<string>, inBlock: bool): (kept: seq<string>)
    {
      if lines == [] then []
      else if IsBegin(lines[0]) then Scan(lines[1..], true)
      else if inBlock then Scan(lines[1..], !IsEnd(lines[0]))
      else [lines[0]] + Scan(lines[1..], false)
    }

    function Kept(file: string): seq<string> { Scan(FileLines(file), false) }

    /** The file with its managed block removed. */
    function Unmanaged(file: string): string
    {
      var joined := TrimEnd(Join(Kept(file), '\n'), IsLf);
      if joined == "" then "" else joined + "\n"
    }

    function BlockLines(entries: seq<Entry>): seq<string>
    {
      [begin, notice] + EntryLines(entries) + [end]
    }

    /** The file with its managed block replaced by one holding `entries`. */
    function Managed(file: string, entries: seq<Entry>): string
    {
      var base := TrimEnd(Unmanaged(file), IsCrLf);
      var block := Terminated(BlockLines(entries), '\n');
      if base == "" then block else base + "\n\n" + block
    }

    ghost predicate NoBegin(lines: seq<string>)
    {
      forall i :: 0 <= i < |lines| ==> !IsBegin(lines[i])
    }

    ghost predicate NoEnd(lines: seq<string>)
    {
      forall i :: 0 <= i < |lines| ==> !IsEnd(lines[i])
    }

    lemma {:induction false} ScanKeepsPlain(lines: seq<string>, inBlock: bool, c: char)
      ensures NoBegin(Scan(lines, inBlock))
      ensures NoneContains(lines, c) ==> NoneContains(Scan(lines, inBlock), c)
    {
      hide TrimSpace;
      if lines != [] {
        ScanKeepsPlain(lines[1..], true, c);
        ScanKeepsPlain(lines[1..], false, c);
      }
    }

    // ----- the methods -----

    method RemoveManagedBlock(body: string) returns (out: string)
      ensures out == Unmanaged(body)
    {
      var lines := FileLines(body);
      var kept: seq<string> := [];
      var inBlock := false;
      for i := 0 to |lines|
        invariant kept + Scan(lines[i..], inBlock) == Kept(body)
      {
        var line := lines[i];
        assert lines[i..][1..] == lines[i + 1..];
        if IsBegin(line) {
          inBlock := true;
        } else if inBlock {
          if IsEnd(line) { inBlock := false; }
        } else {
          assert kept + Scan(lines[i..], inBlock) == (kept + [line]) + Scan(lines[i + 1..], false);
          kept := kept + [line];
        }
      }
      assert lines[|lines|..] == [] && kept + [] == kept;
      var joined := TrimEnd(Join(kept, '\n'), IsLf);
      out := if joined == "" then "" else joined + "\n";
    }

    method RenderBlock(entries: seq<Entry>) returns (block: string)
      ensures block == Terminated(BlockLines(entries), '\n')
    {
      block := begin + "\n" + notice + "\n";
      ghost var head := [begin, notice];
      TerminatedConcat([begin], [notice], '\n');
      assert head == [begin] + [notice];
      assert head + EntryLines(entries)[..0] == head;
      for i := 0 to |entries|
        invariant block == Terminated(head + EntryLines(entries)[..i], '\n')
      {
        ghost var before := head + EntryLines(entries)[..i];
        block := block + entries[i].ip + " " + entries[i].host + "\n";
        TerminatedConcat(before, [EntryLine(entries[i])], '\n');
        assert head + EntryLines(entries)[..i + 1] == before + [EntryLine(entries[i])];
      }
      assert EntryLines(entries)[..|entries|] == EntryLines(entries);
      TerminatedConcat(head + EntryLines(entries), [end], '\n');
      block := block + end + "\n";
    }

    method AppendManagedBlock(original: string, entries: seq<Entry>) returns (out: string)
      ensures out == Managed(original, entries)
    {
      var removed := RemoveManagedBlock(original);
      var base := TrimEnd(removed, IsCrLf);
      var block := RenderBlock(entries);
      out := if base == "" then block else base + "\n\n" + block;
    }

    // ----- the line-level form -----

    function Body(file: string): seq<string> { TrimTail(Kept(file), IsLf) }
    function Base(file: string): seq<string> { TrimTail(Body(file), IsCrLf) }

    lemma KeptHasNoLf(file: string)
      ensures NoneContains(Kept(file), '\n') && NoneContains(Body(file), '\n') && NoneContains(Base(file), '\n')
    {
      SplitHasNoSep(FoldCrLf(file), '\n');
      ScanKeepsPlain(FileLines(file), false, '\n');
    }

    lemma UnmanagedForm(file: string)
      ensures Unmanaged(file) == Terminated(Body(file), '\n')
    {
      KeptHasNoLf(file);
      var kept := Kept(file);
      if kept != [] {
        JoinTerminated(kept, '\n');
        TrimEndDropsCut(Join(kept, '\n'), "\n", IsLf);
        TrimTerminated(kept, IsLf);
      }
    }

    lemma ManagedForm(file: string, entries: seq<Entry>)
      ensures Managed(file, entries) == Terminated(Preamble(Base(file)) + BlockLines(entries), '\n')
    {
      hide Unmanaged, Kept, Body, BlockLines, TrimTail, Preamble, Terminated, TrimEnd;
      KeptHasNoLf(file);
      UnmanagedForm(file);
      TrimTerminated(Body(file), IsCrLf);
      TerminatedConcat(Preamble(Base(file)), BlockLines(entries), '\n');
      TerminatedPreamble(Base(file));
    }

    // ----- the scanner on an appended file -----

    /** An entry that stays inside the block: one line, not the end marker. */
    predicate Inert(e: Entry) { '\n' !in EntryLine(e) && !IsEnd(EntryLine(e)) }

    lemma {:induction false} ScanPlain(lines: seq<string>, rest: seq<string>)
      requires NoBegin(lines)
      ensures Scan(lines + rest, false) == lines + Scan(rest, false)
    {
      hide TrimSpace;
      if lines == [] {
        assert lines + rest == rest;
      } else {
        assert (lines + rest)[1..] == lines[1..] + rest;
        ScanPlain(lines[1..], rest);
      }
    }

    lemma {:induction false} ScanInside(lines: seq<string>, rest: seq<string>)
      requires NoEnd(lines)
      ensures Scan(lines + rest, true) == Scan(rest, true)
    {
      hide TrimSpace;
      if lines == [] {
        assert lines + rest == rest;
      } else {
        assert (lines + rest)[1..] == lines[1..] + rest;
        ScanInside(lines[1..], rest);
      }
    }

    lemma InnerHasNoEnd(entries: seq<Entry>)
      requires Proper()
      requires forall e :: e in entries ==> Inert(e)
      ensures NoEnd(StripAll([notice] + EntryLines(entries)))
    {
      hide TrimSpace, StripCr;
      var inner := [notice] + EntryLines(entries);
      forall i | 0 <= i < |inner| ensures !IsEnd(StripAll(inner)[i]) {
        StripKeepsTrim(inner[i]);
        if i > 0 { assert inner[i] == EntryLine(entries[i - 1]) && entries[i - 1] in entries; }
      }
    }

    lemma ScanBegin(line: string, rest: seq<string>)
      requires IsBegin(line)
      ensures Scan([line] + rest, false) == Scan(rest, true)
    {
      hide TrimSpace;
      assert ([line] + rest)[1..] == rest;
    }

    lemma ScanEnd(line: string, rest: seq<string>)
      requires IsEnd(line) && !IsBegin(line)
      ensures Scan([line] + rest, true) == Scan(rest, false)
    {
      hide TrimSpace;
      assert ([line] + rest)[1..] == rest;
    }

    lemma StrippedShape(entries: seq<Entry>)
      requires Proper()
      ensures StripAll(BlockLines(entries)) == [begin] + (StripAll([notice] + EntryLines(entries)) + [end])
    {
      hide TrimSpace, EntryLine;
    }

    lemma ScanBlock(entries: seq<Entry>, rest: seq<string>)
      requires Proper()
      requires forall e :: e in entries ==> Inert(e)
      ensures Scan(StripAll(BlockLines(entries)) + rest, false) == Scan(rest, false)
    {
      hide TrimSpace, NoEnd, Inert, Scan, BlockLines, StripAll;
      var mid := StripAll([notice] + EntryLines(entries));
      InnerHasNoEnd(entries);
      StrippedShape(entries);
      assert StripAll(BlockLines(entries)) + rest == [begin] + (mid + ([end] + rest));
      ScanBegin(begin, mid + ([end] + rest));
      ScanInside(mid, [end] + rest);
      ScanEnd(end, rest);
    }

    lemma BlockHasNoLf(entries: seq<Entry>)
      requires Proper()
      requires forall e :: e in entries ==> Inert(e)
      ensures NoneContains(BlockLines(entries), '\n')
    {
      var b := BlockLines(entries);
      forall i | 0 <= i < |b| ensures '\n' !in b[i] {
        if 2 <= i < |b| - 1 { assert b[i] == EntryLine(entries[i - 2]) && entries[i - 2] in entries; }
      }
    }

    lemma BodyHasNoBegin(file: string)
      ensures NoBegin(Body(file)) && NoBegin(StripAll(Body(file)))
    {
      hide TrimSpace, TrimTail, FileLines, Scan, NoBegin;
      KeptHasNoLf(file);
      ScanKeepsPlain(FileLines(file), false, '\n');
      TrimTailHasNoBegin(Kept(file));
    }

    lemma TrimTailHasNoBegin(kept: seq<string>)
      requires NoBegin(kept) && NoneContains(kept, '\n')
      ensures NoBegin(TrimTail(kept, IsLf)) && NoBegin(StripAll(TrimTail(kept, IsLf)))
    {
      hide TrimSpace, TrimTail, TrimEnd, StripCr;
      var body := TrimTail(kept, IsLf);
      forall i | 0 <= i < |body| ensures !IsBegin(body[i]) && !IsBegin(StripAll(body)[i]) {
        UntrimmedLf(kept[i]);
        StripKeepsTrim(body[i]);
      }
    }

    lemma PreambleHasNoBegin(file: string)
      requires Proper()
      ensures NoBegin(StripAll(Preamble(Base(file))))
    {
      hide TrimSpace, Body, TrimTail, TrimEnd;
      BodyHasNoBegin(file);
      BlankIsNotBegin();
      var body, base := Body(file), Base(file);
      var pre := Preamble(base);
      forall i | 0 <= i < |pre| ensures !IsBegin(StripAll(pre)[i]) {
        if i < |base| {
          StripKeepsTrim(base[i]);
          TrimEndKeepsTrim(body[i]);
          assert base[i] == body[i] || base[i] == TrimEnd(body[i], IsCrLf);
        }
      }
    }

    /**
     * The lines of an appended file. With no condition on the file, what survives a later
     * removal is the base with one trailing carriage return taken off each line.
     */
    lemma BodyOfManaged(file: string, entries: seq<Entry>)
      requires Proper()
      requires forall e :: e in entries ==> Inert(e)
      ensures Body(Managed(file, entries)) == StripAll(Base(file))
    {
      hide Kept, Managed, StripAll, TrimTail, Preamble, Proper, Inert;
      KeptOfManaged(file, entries);
      KeptHasNoLf(file);
      BaseEnds(file);
      TrimTailOfPreamble(Base(file));
    }

    lemma BaseEnds(file: string)
      ensures var base := Base(file); base != [] ==> base[|base| - 1] != "" && !EndsCr(base[|base| - 1])
    {
      hide Kept, TrimTail, TrimEnd;
    }

    lemma KeptOfManaged(file: string, entries: seq<Entry>)
      requires Proper()
      requires forall e :: e in entries ==> Inert(e)
      ensures Kept(Managed(file, entries)) == StripAll(Preamble(Base(file))) + [""]
    {
      var pre, block := Preamble(Base(file)), BlockLines(entries);
      ManagedLines(file, entries);
      PreambleHasNoBegin(file);
      ScanPlain(StripAll(pre), StripAll(block) + [""]);
      ScanBlock(entries, [""]);
      BlankIsNotBegin();
      ScanPlain([""], []);
      assert [""] + [] == [""];
    }

    lemma ManagedLines(file: string, entries: seq<Entry>)
      requires Proper()
      requires forall e :: e in entries ==> Inert(e)
      ensures FileLines(Managed(file, entries))
           == StripAll(Preamble(Base(file))) + (StripAll(BlockLines(entries)) + [""])
    {
      hide Managed, Base, BlockLines, FileLines, Terminated, StripCr;
      var pre, block := Preamble(Base(file)), BlockLines(entries);
      KeptHasNoLf(file);
      BlockHasNoLf(entries);
      ManagedForm(file, entries);
      LinesOfTerminated(pre + block);
      assert StripAll(pre + block) + [""] == StripAll(pre) + (StripAll(block) + [""]);
    }

    lemma BlankIsNotBegin()
      requires |begin| > 1
      ensures !IsBegin("")
    {
      assert TrimSpace("") == "";
    }

    lemma BodyTailStable(file: string)
      ensures NoCr(Body(file)) ==> Base(file) == Body(file)
    {
      KeptHasNoLf(file);
      if NoCr(Body(file)) {
        if Body(file) != [] { assert '\n' !in Body(file)[|Body(file)| - 1]; }
        TrimTailStable(Body(file), IsCrLf);
      }
    }

    /** No line outside the block ends in a carriage return once line ends are folded. */
    ghost predicate Settled(file: string) { NoCr(Kept(file)) }

    lemma SettledBody(file: string)
      ensures Settled(file) <==> NoCr(Body(file))
    {
      KeptHasNoLf(file);
      TrimTailNoCr(Kept(file));
    }

    /** Files without a carriage return left after folding are settled. */
    lemma NoCrLeftIsSettled(file: string)
      requires '\r' !in FoldCrLf(file)
      ensures Settled(file)
    {
      SplitKeepsOut(FoldCrLf(file), '\r');
      ScanKeepsPlain(FileLines(file), false, '\r');
    }

    // ----- edit and undo -----

    /** Removing what an append added gives the plain removal back exactly for settled files. */
    lemma RemoveUndoesAppend(file: string, entries: seq<Entry>)
      requires Proper()
      requires forall e :: e in entries ==> Inert(e)
      ensures Unmanaged(Managed(file, entries)) == Unmanaged(file) <==> Settled(file)
    {
      hide Managed, Unmanaged, Kept, Settled, Proper, Inert, TrimTail, StripAll, Body, NoCr, Size;
      var managed := Managed(file, entries);
      BodyOfManaged(file, entries);
      UnmanagedForm(managed);
      UnmanagedForm(file);
      SettledBody(file);
      StripShrinks(Base(file));
      TrimTailShrinks(Body(file), IsCrLf);
      BodyTailStable(file);
      if Unmanaged(managed) == Unmanaged(file) {
        KeptHasNoLf(file);
        KeptHasNoLf(managed);
        TerminatedInjective(Body(managed), Body(file), '\n');
      }
    }

    /** Removal is idempotent exactly on settled files. */
    lemma RemoveIdempotent(file: string)
      requires Proper()
      ensures Unmanaged(Unmanaged(file)) == Unmanaged(file) <==> Settled(file)
    {
      hide Unmanaged, Kept, Proper, TrimTail, StripAll, Terminated;
      var body := Body(file);
      KeptHasNoLf(file);
      UnmanagedForm(file);
      UnmanagedForm(Unmanaged(file));
      BodyOfUnmanaged(file);
      SettledBody(file);
      StripShrinks(body);
      TrimTailShrinks(StripAll(body), IsLf);
      if NoCr(body) {
        if body != [] { assert '\n' !in body[|body| - 1]; }
        TrimTailStable(body, IsLf);
      }
      if Unmanaged(Unmanaged(file)) == Unmanaged(file) {
        KeptHasNoLf(Unmanaged(file));
        TerminatedInjective(Body(Unmanaged(file)), body, '\n');
      }
    }

    lemma BodyOfUnmanaged(file: string)
      requires Proper()
      ensures Body(Unmanaged(file)) == TrimTail(StripAll(Body(file)), IsLf)
    {
      hide Unmanaged, FileLines, TrimSpace, Scan, StripAll, TrimTail;
      var stripped := StripAll(Body(file));
      KeptHasNoLf(file);
      UnmanagedForm(file);
      LinesOfTerminated(Body(file));
      BodyHasNoBegin(file);
      BlankIsNotBegin();
      ScanPlain(stripped + [""], []);
      assert Scan([], false) == [] by { ScanNothing(); }
      assert stripped + [""] + [] == stripped + [""];
      TrimTailBlank(stripped);
    }

    lemma ScanNothing() ensures Scan([], false) == [] && Scan([], true) == [] {}

    lemma BaseOfManaged(file: string, entries: seq<Entry>)
      requires Proper()
      requires forall e :: e in entries ==> Inert(e)
      ensures Base(Managed(file, entries)) == Base(file) <==> NoCr(Base(file))
    {
      hide Managed, Kept, StripAll, TrimTail;
      var base := Base(file);
      KeptHasNoLf(file);
      BodyOfManaged(file, entries);
      StripShrinks(base);
      TrimTailShrinks(StripAll(base), IsCrLf);
      if NoCr(base) {
        if base != [] { assert '\n' !in base[|base| - 1]; }
        TrimTailStable(base, IsCrLf);
      }
    }

    lemma ManagedDependsOnBase(f: string, g: string, entries: seq<Entry>)
      requires Proper()
      requires forall e :: e in entries ==> Inert(e)
      ensures Managed(f, entries) == Managed(g, entries) <==> Base(f) == Base(g)
    {
      hide Managed, Base, BlockLines, Terminated, Proper, Preamble, Inert, Kept, Body;
      ManagedForm(f, entries);
      ManagedForm(g, entries);
      if Managed(f, entries) == Managed(g, entries) {
        KeptHasNoLf(f);
        KeptHasNoLf(g);
        BlockHasNoLf(entries);
        PreambleNoLf(Base(f), BlockLines(entries));
        PreambleNoLf(Base(g), BlockLines(entries));
        TerminatedInjective(Preamble(Base(f)) + BlockLines(entries), Preamble(Base(g)) + BlockLines(entries), '\n');
        PreambleInjective(Base(f), Base(g), BlockLines(entries));
      }
    }

    /** A second append replaces the first exactly when the base has no line ending in a carriage return. */
    lemma AppendReplacesAppend(file: string, e1: seq<Entry>, e2: seq<Entry>)
      requires Proper()
      requires forall e :: e in e1 ==> Inert(e)
      requires forall e :: e in e2 ==> Inert(e)
      ensures Managed(Managed(file, e1), e2) == Managed(file, e2) <==> NoCr(Base(file))
      ensures Settled(file) ==> NoCr(Base(file))
    {
      hide Managed, Base;
      BaseOfManaged(file, e1);
      ManagedDependsOnBase(Managed(file, e1), file, e2);
      SettledBody(file);
      BodyTailStable(file);
    }

    // ----- reading the block back -----

    /** An entry a reader of the block recovers: no line break, no space in the address, not a marker. */
    predicate Readable(e: Entry)
    {
      && Inert(e) && '\r' !in EntryLine(e) && ' ' !in e.ip && !IsBegin(EntryLine(e))
    }

    /** The lines strictly inside managed blocks. */
    function Inside(lines: seq<string>, inBlock: bool): seq<string>
    {
      if lines == [] then []
      else if IsBegin(lines[0]) then Inside(lines[1..], true)
      else if !inBlock then Inside(lines[1..], false)
      else if IsEnd(lines[0]) then Inside(lines[1..], false)
      else [lines[0]] + Inside(lines[1..], true)
    }

    function BeginCount(lines: seq<string>): nat
    {
      if lines == [] then 0 else (if IsBegin(lines[0]) then 1 else 0) + BeginCount(lines[1..])
    }

    lemma {:induction false} OutsidePlain(lines: seq<string>, rest: seq<string>)
      requires NoBegin(lines)
      ensures Inside(lines + rest, false) == Inside(rest, false)
      ensures BeginCount(lines + rest) == BeginCount(rest)
    {
      hide TrimSpace;
      if lines == [] {
        assert lines + rest == rest;
      } else {
        assert (lines + rest)[1..] == lines[1..] + rest;
        OutsidePlain(lines[1..], rest);
      }
    }

    lemma {:induction false} InsidePlain(lines: seq<string>, rest: seq<string>)
      requires NoBegin(lines) && NoEnd(lines)
      ensures Inside(lines + rest, true) == lines + Inside(rest, true)
    {
      hide TrimSpace;
      if lines == [] {
        assert lines + rest == rest;
      } else {
        assert (lines + rest)[1..] == lines[1..] + rest;
        InsidePlain(lines[1..], rest);
      }
    }

    /** An appended file has one BEGIN line, and its block reads back as the entries, on every file. */
    lemma BlockReadsBack(file: string, entries: seq<Entry>)
      requires Proper()
      requires forall e :: e in entries ==> Readable(e)
      ensures
        var lines := FileLines(Managed(file, entries));
        && BeginCount(lines) == 1
        && Inside(lines, false) == [notice] + EntryLines(entries)
        && ParseEntries(EntryLines(entries)) == entries
    {
      hide Managed, Base, TrimSpace, FileLines, Inside, BeginCount, Readable, Preamble, BlockLines, Proper;
      assert forall e :: e in entries ==> Inert(e) by { ReadableIsInert(entries); }
      ManagedLines(file, entries);
      PreambleHasNoBegin(file);
      var pre := StripAll(Preamble(Base(file)));
      StrippedBlock(entries);
      BlockInside(entries);
      EntriesParse(entries);
      OutsidePlain(pre, StripAll(BlockLines(entries)) + [""]);
    }

    /**
     * The appended file, line by line: the lines outside the old block without what was blank at
     * their end, a blank line unless there are none, the block, and the end of the file.
     */
    lemma AppendedLines(file: string, entries: seq<Entry>)
      requires Proper() && Settled(file)
      requires forall e :: e in entries ==> Readable(e)
      ensures FileLines(Managed(file, entries))
           == (if Body(file) == [] then [] else Body(file) + [""]) + ([begin, notice] + seq(|entries|, i requires 0 <= i < |entries| => entries[i].ip + " " + entries[i].host) + [end, ""])
    {
      hide FileLines, Managed, Kept, Body, Base, Settled, Proper, Readable, TrimTail, StripAll, EntryLines, BlockLines, Preamble;
      ReadableIsInert(entries);
      ManagedLines(file, entries);
      KeptPreamble(file);
      BlockText(entries);
    }

    lemma KeptPreamble(file: string)
      requires Settled(file)
      ensures StripAll(Preamble(Base(file))) == if Body(file) == [] then [] else Body(file) + [""]
    {
      hide Kept, TrimTail;
      SettledBody(file);
      BodyTailStable(file);
      StripShrinks(Body(file));
      StripPreamble(Body(file));
    }

    lemma BlockText(entries: seq<Entry>)
      requires Proper()
      requires forall e :: e in entries ==> Readable(e)
      ensures StripAll(BlockLines(entries)) + [""]
           == [begin, notice] + seq(|entries|, i requires 0 <= i < |entries| => entries[i].ip + " " + entries[i].host) + [end, ""]
    {
      hide Proper, Readable, StripAll, BlockLines;
      StrippedBlock(entries);
      var lines := seq(|entries|, i requires 0 <= i < |entries| => entries[i].ip + " " + entries[i].host);
      assert EntryLines(entries) == lines;
      assert [begin] + ([notice] + lines + [end, ""]) == [begin, notice] + lines + [end, ""];
    }

    lemma StripPreamble(body: seq<string>)
      requires StripAll(body) == body
      ensures StripAll(Preamble(body)) == Preamble(body)
    {
      assert StripCr("") == "";
    }

    /**
     * Lines that are no begin marker, white space around it aside, all stay; a block goes with its
     * markers, or to the end of the file without an end marker, and what is around it stays.
     */
    lemma RemovedLines(before: seq<string>, first: string, inner: seq<string>, last: string, after: seq<string>)
      requires Proper() && TrimSpace(first) == begin && TrimSpace(last) == end
      requires forall i :: 0 <= i < |before| ==> TrimSpace(before[i]) != begin
      requires forall i :: 0 <= i < |inner| ==> TrimSpace(inner[i]) != begin && TrimSpace(inner[i]) != end
      requires forall i :: 0 <= i < |after| ==> TrimSpace(after[i]) != begin
      ensures Scan(before, false) == before
      ensures Scan(before + ([first] + (inner + ([last] + after))), false) == before + after
      ensures Scan(before + ([first] + inner), false) == before
    {
      hide *;
      PlainParts(before, first, inner, last, after);
      ScanAlone(before);
      RemovedBlock(before, first, inner, last, after);
      RemovedOpen(before, first, inner);
    }

    lemma RemovedBlock(before: seq<string>, first: string, inner: seq<string>, last: string, after: seq<string>)
      requires NoBegin(before) && NoBegin(after) && NoEnd(inner) && IsBegin(first) && IsEnd(last) && !IsBegin(last)
      ensures Scan(before + ([first] + (inner + ([last] + after))), false) == before + after
    {
      hide *;
      ScanPlain(before, [first] + (inner + ([last] + after)));
      ScanOpen(first, inner, [last] + after);
      ScanEnd(last, after);
      ScanAlone(after);
    }

    lemma RemovedOpen(before: seq<string>, first: string, inner: seq<string>)
      requires NoBegin(before) && NoEnd(inner) && IsBegin(first)
      ensures Scan(before + ([first] + inner), false) == before
    {
      hide *;
      ScanPlain(before, [first] + inner);
      ScanOpen(first, inner, []);
      ScanNothing();
      assert inner + [] == inner && before + [] == before;
    }

    lemma PlainParts(before: seq<string>, first: string, inner: seq<string>, last: string, after: seq<string>)
      requires Proper() && TrimSpace(first) == begin && TrimSpace(last) == end
      requires forall i :: 0 <= i < |before| ==> TrimSpace(before[i]) != begin
      requires forall i :: 0 <= i < |inner| ==> TrimSpace(inner[i]) != begin && TrimSpace(inner[i]) != end
      requires forall i :: 0 <= i < |after| ==> TrimSpace(after[i]) != begin
      ensures NoBegin(before) && NoBegin(after) && NoEnd(inner) && IsBegin(first) && IsEnd(last) && !IsBegin(last)
    {
      hide TrimSpace;
      assert IsEnd(end) && !IsBegin(end) && TrimSpace(end) == end;
    }

    lemma ScanAlone(lines: seq<string>)
      requires NoBegin(lines)
      ensures Scan(lines, false) == lines
    {
      hide TrimSpace;
      ScanPlain(lines, []);
      assert lines + [] == lines;
    }

    lemma ScanOpen(first: string, inner: seq<string>, rest: seq<string>)
      requires IsBegin(first) && NoEnd(inner)
      ensures Scan([first] + (inner + rest), false) == Scan(rest, true)
    {
      hide TrimSpace, Scan;
      ScanBegin(first, inner + rest);
      ScanInside(inner, rest);
    }

    lemma ReadableIsInert(entries: seq<Entry>)
      requires forall e :: e in entries ==> Readable(e)
      ensures forall e :: e in entries ==> Inert(e)
    {
    }

    lemma EntriesParse(entries: seq<Entry>)
      requires forall e :: e in entries ==> Readable(e)
      ensures ParseEntries(EntryLines(entries)) == entries
    {
      hide EntryLine, ParseEntry, TrimSpace;
      forall i | 0 <= i < |entries| ensures ParseEntries(EntryLines(entries))[i] == entries[i] {
        assert entries[i] in entries;
        ParseRendered(entries[i]);
      }
    }

    lemma InnerIsPlain(entries: seq<Entry>)
      requires Proper()
      requires forall e :: e in entries ==> Readable(e)
      ensures var mid := [notice] + EntryLines(entries); NoBegin(mid) && NoEnd(mid) && NoCr(mid)
    {
      hide TrimSpace;
      var mid := [notice] + EntryLines(entries);
      forall i | 0 <= i < |mid| ensures !IsBegin(mid[i]) && !IsEnd(mid[i]) && !EndsCr(mid[i]) {
        if i > 0 { assert mid[i] == EntryLine(entries[i - 1]) && entries[i - 1] in entries; }
      }
    }

    lemma StrippedBlock(entries: seq<Entry>)
      requires Proper()
      requires forall e :: e in entries ==> Readable(e)
      ensures StripAll(BlockLines(entries)) + [""] == [begin] + ([notice] + EntryLines(entries) + [end, ""])
    {
      hide TrimSpace, Readable;
      InnerIsPlain(entries);
      StripShrinks([notice] + EntryLines(entries));
      StrippedShape(entries);
    }

    lemma BlockInside(entries: seq<Entry>)
      requires Proper()
      requires forall e :: e in entries ==> Readable(e)
      ensures
        var mid := [notice] + EntryLines(entries);
        var lines := [begin] + (mid + [end, ""]);
        Inside(lines, false) == mid && BeginCount(lines) == 1
    {
      hide TrimSpace, Readable, EntryLine;
      InnerIsPlain(entries);
      var mid, tail := [notice] + EntryLines(entries), [end, ""];
      var lines := [begin] + (mid + tail);
      assert lines[1..] == mid + tail;
      InsidePlain(mid, tail);
      BlankIsNotBegin();
      assert tail[1..] == [""] && [""][1..] == [];
      assert Inside(tail, true) == Inside([""], false) == [];
      OutsidePlain(mid + tail, []);
      assert mid + tail + [] == mid + tail;
    }

    /** Files with the same user content are settled together when one of them is. */
    lemma SettledByUnmanaged(file: string, other: string)
      requires Settled(file) && Unmanaged(other) == Unmanaged(file)
      ensures Settled(other)
    {
      hide Unmanaged, Kept, Body;
      UnmanagedForm(file);
      UnmanagedForm(other);
      KeptHasNoLf(file);
      KeptHasNoLf(other);
      TerminatedInjective(Body(file), Body(other), '\n');
      SettledBody(file);
      SettledBody(other);
    }

    lemma UnmanagedHasNoBegin(file: string)
      requires Proper()
      ensures BeginCount(FileLines(Unmanaged(file))) == 0
    {
      hide Unmanaged, Body, FileLines, TrimSpace;
      UnmanagedForm(file);
      KeptHasNoLf(file);
      LinesOfTerminated(Body(file));
      BodyHasNoBegin(file);
      BlankIsNotBegin();
      var lines := StripAll(Body(file)) + [""];
      OutsidePlain(lines, []);
      assert lines + [] == lines;
    }

    lemma {:induction false} CountsBegin(lines: seq<string>, i: nat)
      requires i < |lines| && IsBegin(lines[i])
      ensures BeginCount(lines) > 0
    {
      if i > 0 { CountsBegin(lines[1..], i - 1); }
    }

    lemma ManagedHasBegin(file: string, entries: seq<Entry>)
      requires Proper()
      requires forall e :: e in entries ==> Inert(e)
      ensures BeginCount(FileLines(Managed(file, entries))) > 0
    {
      hide Managed, FileLines, TrimSpace, BeginCount;
      ManagedLines(file, entries);
      CountsBegin(FileLines(Managed(file, entries)), |StripAll(Preamble(Base(file)))|);
    }

    /** A concrete unsettled file: a removal after an append loses the stray carriage return. */
    lemma StrayCrCounterexample(entries: seq<Entry>)
      requires Proper()
      requires forall e :: e in entries ==> Inert(e)
      ensures Unmanaged(Managed("a\r", entries)) != Unmanaged("a\r")
    {
      assert FoldCrLf("\r") == "\r" by { assert "\r"[1..] == ""; }
      assert FoldCrLf("a\r") == "a\r" by { assert "a\r"[1..] == "\r"; }
      SplitPlain("a\r", '\n');
      assert TrimStart("a\r", IsSpace) == "a\r";
      assert TrimEnd("a\r", IsSpace) == "a" by { assert "a\r"[..1] == "a"; }
      assert ["a\r"][1..] == [];
      assert |begin| > 1 ==> !IsBegin("a\r");
      assert EndsCr(Kept("a\r")[0]);
      RemoveUndoesAppend("a\r", entries);
    }
  }

  const BEGIN_MARKER := "# BEGIN steam-accelerator-core"
  const END_MARKER := "# END steam-accelerator-core"
  const NOTICE := "# Managed by steam-accelerator-core." + " Do not edit this block manually."

  /** The markers and notice the program writes. */
  const HOSTS_FORMAT := Format(BEGIN_MARKER, END_MARKER, NOTICE)

  lemma PlainLine(s: string)
    requires s != "" && s[0] == '#' && ('a' <= s[|s| - 1] <= 'z' || s[|s| - 1] == '.')
    ensures TrimSpace(s) == s && !EndsCr(s)
  {
  }

  lemma BeginFacts()
    ensures |BEGIN_MARKER| == 30 && '\n' !in BEGIN_MARKER && TrimSpace(BEGIN_MARKER) == BEGIN_MARKER && !EndsCr(BEGIN_MARKER)
  {
    hide TrimSpace, EndsCr;
    PlainLine(BEGIN_MARKER);
  }

  lemma EndFacts()
    ensures |END_MARKER| == 28 && '\n' !in END_MARKER && TrimSpace(END_MARKER) == END_MARKER && !EndsCr(END_MARKER)
  {
    hide TrimSpace, EndsCr;
    PlainLine(END_MARKER);
  }

  lemma NoticeFacts()
    ensures |NOTICE| == 69 && '\n' !in NOTICE && TrimSpace(NOTICE) == NOTICE && !EndsCr(NOTICE)
  {
    hide TrimSpace, EndsCr;
    PlainLine(NOTICE);
  }

  lemma HostsFormatProper()
    ensures HOSTS_FORMAT.Proper()
  {
    hide BEGIN_MARKER, END_MARKER, NOTICE, TrimSpace, EndsCr;
    BeginFacts();
    EndFacts();
    NoticeFacts();
  }
}
