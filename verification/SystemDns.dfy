/**
 * What system-DNS takeover saves and restores (internal/systemdns): string cleaning, the
 * Windows server list, interface selection, and the setting a saved interface stands for.
 */
module SystemDns {
  import opened Basics
  import opened Text

  // ----- cleanStrings -----

  function CleanKey(v: string): string { ToLower(TrimSpace(v)) }

  ghost predicate HasKey(out: seq<string>, key: string)
  {
    exists i :: 0 <= i < |out| && CleanKey(out[i]) == key
  }

  /** Trimmed values without blanks, keeping the first of those that differ only in case. */
  ghost function Cleaned(values: seq<string>): (out: seq<string>)
  {
    if values == [] then []
    else
      var before, value := Cleaned(values[..|values| - 1]), TrimSpace(values[|values| - 1]);
      if value == "" || HasKey(before, ToLower(value)) then before else before + [value]
  }

  method CleanStrings(values: seq<string>) returns (out: seq<string>)
    ensures out == Cleaned(values)
  {
    out := [];
    var seen: set<string> := {};
    for n := 0 to |values|
      invariant out == Cleaned(values[..n])
      invariant forall k :: k in seen <==> HasKey(out, k)
    {
      assert values[..n + 1][..n] == values[..n];
      var value := TrimSpace(values[n]);
      if value == "" { continue; }
      var key := ToLower(value);
      if key in seen { continue; }
      seen := seen + {key};
      TrimSpaceTwice(values[n]);
      HasKeySnoc(out, value);
      out := out + [value];
    }
    assert values[..|values|] == values;
  }

  lemma HasKeySnoc(out: seq<string>, value: string)
    ensures forall k :: HasKey(out + [value], k) <==> HasKey(out, k) || k == CleanKey(value)
  {
    forall k ensures HasKey(out + [value], k) <==> HasKey(out, k) || k == CleanKey(value) {
      if HasKey(out, k) {
        var i :| 0 <= i < |out| && CleanKey(out[i]) == k;
        assert (out + [value])[i] == out[i];
      }
      assert (out + [value])[|out|] == value;
    }
  }

  ghost predicate CleanToken(v: string) { v != "" && TrimSpace(v) == v }

  /** Trimmed, non-blank, and no two equal up to case. */
  ghost predicate IsClean(values: seq<string>)
  {
    && (forall i :: 0 <= i < |values| ==> CleanToken(values[i]))
    && (forall i, j :: 0 <= i < j < |values| ==> ToLower(values[i]) != ToLower(values[j]))
  }

  lemma {:induction false} CleanedIsClean(values: seq<string>)
    ensures IsClean(Cleaned(values))
    ensures forall i :: 0 <= i < |Cleaned(values)| ==> exists j :: 0 <= j < |values| && Cleaned(values)[i] == TrimSpace(values[j])
  {
    if values != [] {
      var init, last := values[..|values| - 1], values[|values| - 1];
      CleanedIsClean(init);
      TrimSpaceTwice(last);
      var before, out := Cleaned(init), Cleaned(values);
      forall i | 0 <= i < |out| ensures exists j :: 0 <= j < |values| && out[i] == TrimSpace(values[j]) {
        if i < |before| {
          assert out[i] == before[i];
          var j :| 0 <= j < |init| && before[i] == TrimSpace(init[j]);
          assert values[j] == init[j];
        } else {
          assert out[i] == TrimSpace(values[|values| - 1]);
        }
      }
      forall i, j | 0 <= i < j < |out| ensures ToLower(out[i]) != ToLower(out[j]) {
        if j == |before| { assert CleanKey(before[i]) == ToLower(before[i]); }
      }
    }
  }

  lemma {:induction false} CleanedKeepsClean(values: seq<string>)
    requires IsClean(values)
    ensures Cleaned(values) == values
  {
    hide TrimSpace, ToLower;
    if values != [] {
      var init, last := values[..|values| - 1], values[|values| - 1];
      CleanedKeepsClean(init);
      assert init + [last] == values;
      assert !HasKey(init, ToLower(last));
    }
  }

  /** What comes later never changes what is there: the first of each wins. */
  lemma {:induction false} CleanedIsFirst(values: seq<string>, n: nat)
    requires n <= |values|
    ensures Cleaned(values[..n]) <= Cleaned(values)
    decreases |values|
  {
    hide ToLower, TrimSpace, HasKey;
    if n == |values| {
      assert values[..n] == values;
    } else {
      CleanedIsFirst(values[..|values| - 1], n);
      assert values[..|values| - 1][..n] == values[..n];
    }
  }

  /** Every value that is not blank is there, up to case. */
  lemma {:induction false} CleanedCovers(values: seq<string>, i: nat)
    requires i < |values| && TrimSpace(values[i]) != ""
    ensures HasKey(Cleaned(values), ToLower(TrimSpace(values[i])))
    decreases |values|
  {
    hide ToLower, TrimSpace, HasKey;
    var init, last := values[..|values| - 1], TrimSpace(values[|values| - 1]);
    HasKeySnoc(Cleaned(init), last);
    if i < |init| {
      CleanedCovers(init, i);
    } else {
      TrimSpaceTwice(values[i]);
      assert CleanKey(last) == ToLower(last);
    }
  }

  // ----- the Windows server list -----

  predicate IsListSep(c: char)
  {
    c == ',' || c == ';' || c == ' ' || c == '\t' || c == '\r' || c == '\n'
  }

  /** `strings.FieldsFunc(value, IsListSep)`: the maximal runs of other characters. */
  function Fields(value: string, run: string): seq<string>
  {
    if value == "" then (if run == "" then [] else [run])
    else if IsListSep(value[0]) then (if run == "" then [] else [run]) + Fields(value[1..], "")
    else Fields(value[1..], run + [value[0]])
  }

  ghost function ParseServerList(value: string): seq<string> { Cleaned(Fields(value, "")) }

  ghost predicate NoSep(v: string) { forall i :: 0 <= i < |v| ==> !IsListSep(v[i]) }

  lemma {:induction false} FieldsHaveNoSep(value: string, run: string)
    requires NoSep(run)
    ensures forall i :: 0 <= i < |Fields(value, run)| ==> NoSep(Fields(value, run)[i])
  {
    if value != "" {
      if IsListSep(value[0]) { FieldsHaveNoSep(value[1..], ""); }
      else { FieldsHaveNoSep(value[1..], run + [value[0]]); }
    }
  }

  lemma {:induction false} FieldsOfRun(token: string, rest: string, run: string)
    requires NoSep(token)
    ensures Fields(token + rest, run) == Fields(rest, run + token)
  {
    if token == "" {
      assert token + rest == rest && run + token == run;
    } else {
      assert (token + rest)[1..] == token[1..] + rest;
      FieldsOfRun(token[1..], rest, run + [token[0]]);
      assert run + [token[0]] + token[1..] == run + token;
    }
  }

  lemma FieldsOfFirst(first: string, more: string)
    requires first != "" && NoSep(first)
    ensures Fields(first, "") == [first]
    ensures Fields(first + [','] + more, "") == [first] + Fields(more, "")
  {
    FieldsOfRun(first, "", "");
    FieldsOfRun(first, [','] + more, "");
    assert first + "" == first && "" + first == first;
    assert first + [','] + more == first + ([','] + more) && ([','] + more)[1..] == more;
  }

  /** Each of the six separators ends a field, and no other character does. */
  lemma SeparatorsMean(first: string, c: char, more: string)
    requires first != "" && NoSep(first)
    ensures c in {',', ';', ' ', '\t', '\r', '\n'} ==> Fields(first + [c] + more, "") == [first] + Fields(more, "") && Fields([c] + more, "") == Fields(more, "")
    ensures c !in {',', ';', ' ', '\t', '\r', '\n'} ==> Fields([c], "") == [[c]]
  {
    FieldsOfRun(first, [c] + more, "");
    assert "" + first == first && first + [c] + more == first + ([c] + more) && ([c] + more)[1..] == more;
    assert [c][1..] == "" && "" + [c] == [c];
    assert Fields("", [c]) == [[c]];
  }

  lemma {:induction false} FieldsOfJoin(servers: seq<string>)
    requires forall i :: 0 <= i < |servers| ==> servers[i] != "" && NoSep(servers[i])
    ensures Fields(Join(servers, ','), "") == servers
  {
    if servers == [] { return; }
    hide Fields, NoSep;
    FieldsOfFirst(servers[0], Join(servers[1..], ','));
    if |servers| > 1 { FieldsOfJoin(servers[1..]); }
  }

  /** A static server list survives the trip through the registry text exactly when it is clean and separator-free. */
  lemma ServerListRoundTrip(servers: seq<string>)
    ensures ParseServerList(Join(servers, ',')) == servers
       <==> IsClean(servers) && forall i :: 0 <= i < |servers| ==> NoSep(servers[i])
  {
    if IsClean(servers) && forall i :: 0 <= i < |servers| ==> NoSep(servers[i]) {
      hide Fields, NoSep, Cleaned;
      FieldsOfJoin(servers);
      CleanedKeepsClean(servers);
    }
    if ParseServerList(Join(servers, ',')) == servers {
      ParsedIsClean(Join(servers, ','));
    }
  }

  lemma ParsedIsClean(text: string)
    ensures IsClean(ParseServerList(text))
    ensures forall i :: 0 <= i < |ParseServerList(text)| ==> NoSep(ParseServerList(text)[i])
  {
    hide Fields, Cleaned;
    var fields, servers := Fields(text, ""), ParseServerList(text);
    FieldsHaveNoSep(text, "");
    CleanedIsClean(fields);
    forall i | 0 <= i < |servers| ensures NoSep(servers[i]) {
      assert servers[i] == Cleaned(fields)[i];
      var j :| 0 <= j < |fields| && servers[i] == TrimSpace(fields[j]);
      TrimSpaceTwice(fields[j]);
    }
  }

  // ----- interfaces -----

  datatype Setting = Dhcp | Static(servers: seq<string>)

  /** An adapter; `readable` says whether its registry value could be read. */
  datatype Adapter = Adapter(alias: string, index: int, guid: string, readable: bool)

  /** One row of the snapshot script's output. */
  datatype Item = Item(alias: string, index: int, guid: string, staticNameServer: string)

  datatype InterfaceState = InterfaceState(alias: string, index: int, guid: string, source: string,
                                           staticServers: seq<string>, staticNameServer: string)

  function IntText(n: int): string { if n < 0 then "-" + Decimal(-n) else Decimal(n) }

  function NormalizeGuid(value: string): string
  {
    var v := TrimSpace(value);
    var v := if v != "" && v[0] == '{' then v[1..] else v;
    var v := if v != "" && v[|v| - 1] == '}' then v[..|v| - 1] else v;
    ToLower(v)
  }

  predicate Matches(item: Item, selector: string)
  {
    var s := TrimSpace(selector);
    s != "" && (IntText(item.index) == s || ToLower(item.alias) == ToLower(s) || NormalizeGuid(item.guid) == NormalizeGuid(s))
  }

  predicate SameLetter(a: char, b: char)
  {
    || a == b
    || ('A' <= a <= 'Z' && b as int == a as int + 32) || ('A' <= b <= 'Z' && a as int == b as int + 32)
  }

  /** Equal texts up to letter case, character by character. */
  ghost predicate SameText(a: string, b: string) { |a| == |b| && forall i :: 0 <= i < |a| ==> SameLetter(a[i], b[i]) }

  lemma SameTextIsFold(a: string, b: string)
    ensures ToLower(a) == ToLower(b) <==> SameText(a, b)
  {
    assert |ToLower(a)| == |a| && |ToLower(b)| == |b|;
    if |a| == |b| {
      forall i | 0 <= i < |a| ensures ToLower(a)[i] == ToLower(b)[i] <==> SameLetter(a[i], b[i]) {
        LowerAt(a, i);
        LowerAt(b, i);
      }
      hide ToLower, SameLetter;
      assert SameText(a, b) ==> forall i :: 0 <= i < |a| ==> ToLower(a)[i] == ToLower(b)[i];
    }
  }

  /** A GUID as it is written, with braces or without. */
  ghost predicate Bare(text: string) { text != "" && text[0] != '{' && text[|text| - 1] != '}' && TrimSpace(text) == text }

  lemma GuidForms(text: string)
    requires Bare(text)
    ensures NormalizeGuid(text) == NormalizeGuid("{" + text + "}") == ToLower(text)
  {
    var braced := "{" + text + "}";
    AlreadyTrimmed(braced);
    assert braced[1..] == text + "}" && (text + "}")[..|text|] == text;
  }

  /**
   * A selector picks the adapter with that index, alias in any letter case, or GUID in any
   * letter case, each with or without braces; a selector that is none of these picks nothing.
   */
  lemma SelectorPicks(item: Item, selector: string)
    requires Bare(item.guid) && Bare(selector)
    ensures Matches(item, selector) <==> IntText(item.index) == selector || SameText(item.alias, selector) || SameText(item.guid, selector)
    ensures Matches(item.(guid := "{" + item.guid + "}"), selector)
       <==> IntText(item.index) == selector || SameText(item.alias, selector) || SameText(item.guid, selector)
    ensures SameText(item.guid, selector) ==> Matches(item, "{" + selector + "}")
    ensures !Matches(item, "") && !Matches(item, " ")
  {
    hide ToLower, SameText, NormalizeGuid;
    GuidForms(item.guid);
    GuidForms(selector);
    SameTextIsFold(item.alias, selector);
    SameTextIsFold(item.guid, selector);
    AlreadyTrimmed("{" + selector + "}");
    assert TrimSpace("") == "" && TrimSpace(" ") == "";
  }

  /** A row without a GUID is picked by index and alias, and by a bare pair of braces, which normalises to nothing as well. */
  lemma BracesPickNoGuid(item: Item, selector: string)
    requires item.guid == "" && Bare(selector)
    ensures Matches(item, selector) <==> IntText(item.index) == selector || SameText(item.alias, selector)
    ensures Matches(item, "{}")
  {
    hide ToLower, SameText;
    GuidForms(selector);
    SameTextIsFold(item.alias, selector);
    LowerOfNothing();
    AlreadyTrimmed("{}");
    assert TrimSpace("") == "" && "{}"[1..] == "}" && "}"[..0] == "";
  }

  lemma LowerOfNothing() ensures forall s :: ToLower(s) == ToLower("") <==> s == ""
  {
    assert forall s :: |ToLower(s)| == |s|;
  }

  /** The text of an index is its decimal numeral, so different indexes have different texts. */
  lemma IndexTexts(a: int, b: int)
    ensures IntText(a) == IntText(b) <==> a == b
  {
    if a >= 0 && b >= 0 && IntText(a) == IntText(b) { DecimalInjective(a, b); }
    if a < 0 && b < 0 && IntText(a) == IntText(b) {
      assert IntText(a)[1..] == Decimal(-a) && IntText(b)[1..] == Decimal(-b);
      DecimalInjective(-a, -b);
    }
    assert forall n: nat :: Decimal(n)[0] != '-';
  }

  ghost function SaveItem(item: Item): InterfaceState
  {
    var servers := ParseServerList(item.staticNameServer);
    InterfaceState(TrimSpace(item.alias), item.index, NormalizeGuid(item.guid),
                   if servers != [] then "static" else "dhcp", servers, TrimSpace(item.staticNameServer))
  }

  method InterfaceStateFromWindows(item: Item) returns (s: InterfaceState)
    ensures s == SaveItem(item)
    ensures s.alias == TrimSpace(item.alias) && s.index == item.index && s.guid == NormalizeGuid(item.guid)
    ensures s.staticServers == ParseServerList(item.staticNameServer) && s.staticNameServer == TrimSpace(item.staticNameServer)
    ensures s.source == if ParseServerList(item.staticNameServer) == [] then "dhcp" else "static"
  {
    var servers := CleanStrings(Fields(item.staticNameServer, ""));
    s := InterfaceState(TrimSpace(item.alias), item.index, NormalizeGuid(item.guid),
                        if servers != [] then "static" else "dhcp", servers, TrimSpace(item.staticNameServer));
  }

  /** The setting the restore script gives a saved interface. */
  ghost function Target(s: InterfaceState): Setting
  {
    var servers := if s.staticServers == [] then ParseServerList(s.staticNameServer) else s.staticServers;
    if ToLower(TrimSpace(s.source)) == "static" then Static(servers) else Dhcp
  }

  /** What the snapshot script reports for an adapter in a given setting. */
  function Report(a: Adapter, setting: Setting): Item
  {
    Item(a.alias, a.index, a.guid, if setting.Static? && a.readable then Join(setting.servers, ',') else "")
  }

  /** Settings a snapshot can hold: DHCP, or a readable, clean, separator-free, non-empty static list. */
  ghost predicate Faithful(a: Adapter, setting: Setting)
  {
    setting.Dhcp? || (a.readable && setting.servers != [] && IsClean(setting.servers)
                      && forall i :: 0 <= i < |setting.servers| ==> NoSep(setting.servers[i]))
  }

  /** Saving and restoring an interface gives its setting back exactly for faithful settings. */
  lemma SaveRestoreRoundTrip(a: Adapter, setting: Setting)
    ensures Target(SaveItem(Report(a, setting))) == setting <==> Faithful(a, setting)
  {
    hide IsClean, NoSep, Cleaned, Join;
    SourceNames();
    if setting.Static? {
      ServerListRoundTrip(setting.servers);
      assert setting.servers == [] ==> Join(setting.servers, ',') == "" by { EmptyJoin(); }
    }
    EmptyList();
  }

  /** Two adapters that do not come back: one whose value cannot be read is put on DHCP, and a repeated server is dropped. */
  lemma AdaptersNotRestored(a: Adapter, server: string)
    requires CleanToken(server) && NoSep(server)
    ensures Target(SaveItem(Report(a.(readable := false), Static([server])))) == Dhcp
    ensures Target(SaveItem(Report(a.(readable := true), Static([server, server])))) != Static([server, server])
  {
    hide Cleaned, Fields, CleanToken, NoSep, TrimSpace;
    EmptyList();
    SourceNames();
    var twice := [server, server];
    assert ToLower(twice[0]) == ToLower(twice[1]);
    SaveRestoreRoundTrip(a.(readable := true), Static(twice));
  }

  lemma SourceNames()
    ensures ToLower(TrimSpace("static")) == "static" && ToLower(TrimSpace("dhcp")) != "static"
  {
    assert TrimSpace("static") == "static" && ToLower("static") == "static";
    assert TrimSpace("dhcp") == "dhcp" && |ToLower("dhcp")| == 4;
  }

  lemma EmptyJoin() ensures Join([], ',') == "" {}

  lemma EmptyList() ensures ParseServerList("") == [] {}

  // ----- selection -----

  function MatchingItems(items: seq<Item>, selector: string): seq<Item>
  {
    if items == [] then []
    else MatchingItems(items[..|items| - 1], selector)
         + (if Matches(items[|items| - 1], selector) then [items[|items| - 1]] else [])
  }

  /** All matches, selector by selector. */
  function AllMatches(items: seq<Item>, selectors: seq<string>): seq<Item>
  {
    if selectors == [] then []
    else AllMatches(items, selectors[..|selectors| - 1]) + MatchingItems(items, selectors[|selectors| - 1])
  }

  ghost predicate HasIndex(saved: seq<InterfaceState>, index: int)
  {
    exists i :: 0 <= i < |saved| && saved[i].index == index
  }

  /** The first match of every interface index, saved. */
  ghost function FirstByIndex(items: seq<Item>): seq<InterfaceState>
  {
    if items == [] then []
    else
      var before, last := FirstByIndex(items[..|items| - 1]), items[|items| - 1];
      if HasIndex(before, last.index) then before else before + [SaveItem(last)]
  }

  datatype SelectError = NoSelectors | NotFound(selector: string)

  /** One selector's pass over the items. */
  method SelectOne(items: seq<Item>, selector: string, ghost before: seq<Item>, selected0: seq<InterfaceState>, seen0: set<int>)
    returns (selected: seq<InterfaceState>, seen: set<int>, matched: bool)
    requires selected0 == FirstByIndex(before)
    requires forall x :: x in seen0 <==> HasIndex(selected0, x)
    ensures selected == FirstByIndex(before + MatchingItems(items, selector))
    ensures forall x :: x in seen <==> HasIndex(selected, x)
    ensures matched <==> MatchingItems(items, selector) != []
    ensures |selected| >= |selected0| && (matched ==> selected != [])
  {
    hide SaveItem, Matches, FirstByIndex, MatchingItems, HasIndex;
    selected, seen, matched := selected0, seen0, false;
    NoMatches(selector);
    assert before + [] == before;
    for m := 0 to |items|
      invariant selected == FirstByIndex(before + MatchingItems(items[..m], selector))
      invariant forall x :: x in seen <==> HasIndex(selected, x)
      invariant matched <==> MatchingItems(items[..m], selector) != []
      invariant |selected| >= |selected0| && (matched ==> selected != [])
    {
      var item := items[m];
      ghost var soFar := before + MatchingItems(items[..m], selector);
      MatchingSnoc(items, m, selector);
      if !Matches(item, selector) { continue; }
      assert before + MatchingItems(items[..m + 1], selector) == soFar + [item];
      FirstSnoc(soFar, item);
      matched := true;
      if item.index in seen { continue; }
      seen := seen + {item.index};
      var saved := InterfaceStateFromWindows(item);
      SaveKeepsIndex(item);
      HasIndexSnoc(selected, saved);
      selected := selected + [saved];
    }
    assert items[..|items|] == items;
  }

  lemma NoMatches(selector: string) ensures MatchingItems([], selector) == [] {}

  lemma MatchingSnoc(items: seq<Item>, m: nat, selector: string)
    requires m < |items|
    ensures
      var before := MatchingItems(items[..m], selector);
      MatchingItems(items[..m + 1], selector) == if Matches(items[m], selector) then before + [items[m]] else before
  {
    hide Matches;
    assert items[..m + 1][..m] == items[..m];
  }

  lemma FirstSnoc(items: seq<Item>, last: Item)
    ensures
      var before := FirstByIndex(items);
      FirstByIndex(items + [last]) == if HasIndex(before, last.index) then before else before + [SaveItem(last)]
    ensures HasIndex(FirstByIndex(items), last.index) ==> FirstByIndex(items) != []
  {
    hide SaveItem;
    assert (items + [last])[..|items|] == items;
  }

  lemma SaveKeepsIndex(item: Item) ensures SaveItem(item).index == item.index {}

  /** Every selector must match; the result is the first match of each index, in selector order. */
  method SelectInterfaces(items: seq<Item>, selectors: seq<string>) returns (r: Result<seq<InterfaceState>, SelectError>)
    ensures r == Err(NoSelectors) <==> selectors == []
    ensures r.Err? && selectors != [] ==>
      exists n :: 0 <= n < |selectors| && r.error == NotFound(selectors[n]) && MatchingItems(items, selectors[n]) == []
        && forall k :: 0 <= k < n ==> MatchingItems(items, selectors[k]) != []
    ensures r.Ok? ==> r.value == FirstByIndex(AllMatches(items, selectors)) && r.value != []
    ensures r.Ok? ==> forall n :: 0 <= n < |selectors| ==> MatchingItems(items, selectors[n]) != []
  {
    hide SaveItem, Matches, FirstByIndex, HasIndex;
    if selectors == [] { return Err(NoSelectors); }
    var selected: seq<InterfaceState> := [];
    var seen: set<int> := {};
    EmptySelection();
    for n := 0 to |selectors|
      invariant selected == FirstByIndex(AllMatches(items, selectors[..n]))
      invariant forall x :: x in seen <==> HasIndex(selected, x)
      invariant forall k :: 0 <= k < n ==> MatchingItems(items, selectors[k]) != []
      invariant n > 0 ==> selected != []
    {
      assert selectors[..n + 1][..n] == selectors[..n];
      var matched;
      selected, seen, matched := SelectOne(items, selectors[n], AllMatches(items, selectors[..n]), selected, seen);
      if !matched { return Err(NotFound(selectors[n])); }
    }
    assert selectors[..|selectors|] == selectors;
    r := Ok(selected);
  }

  lemma EmptySelection()
    ensures FirstByIndex([]) == [] && forall x :: !HasIndex([], x)
  {
  }

  lemma HasIndexSnoc(saved: seq<InterfaceState>, s: InterfaceState)
    ensures forall x :: HasIndex(saved + [s], x) <==> HasIndex(saved, x) || x == s.index
  {
    forall x ensures HasIndex(saved + [s], x) <==> HasIndex(saved, x) || x == s.index {
      if HasIndex(saved, x) {
        var i :| 0 <= i < |saved| && saved[i].index == x;
        assert (saved + [s])[i].index == x;
      }
      assert (saved + [s])[|saved|] == s;
    }
  }

  lemma {:induction false} MatchesComeFromItems(items: seq<Item>, selector: string)
    ensures forall i :: 0 <= i < |MatchingItems(items, selector)| ==>
      MatchingItems(items, selector)[i] in items && Matches(MatchingItems(items, selector)[i], selector)
  {
    if items != [] { MatchesComeFromItems(items[..|items| - 1], selector); }
  }

  /** Some selector matches the row. */
  ghost predicate Wanted(item: Item, selectors: seq<string>) { exists n :: 0 <= n < |selectors| && Matches(item, selectors[n]) }

  lemma {:induction false} AllMatchesComeFromItems(items: seq<Item>, selectors: seq<string>)
    ensures forall i :: 0 <= i < |AllMatches(items, selectors)| ==>
      AllMatches(items, selectors)[i] in items && Wanted(AllMatches(items, selectors)[i], selectors)
  {
    if selectors != [] {
      AllMatchesComeFromItems(items, selectors[..|selectors| - 1]);
      MatchesComeFromItems(items, selectors[|selectors| - 1]);
    }
  }

  /** Every row a selector matches is among its matches, and so among all. */
  lemma {:induction false} NoMatchIsMissed(items: seq<Item>, selectors: seq<string>, i: nat, n: nat)
    requires i < |items| && n < |selectors| && Matches(items[i], selectors[n])
    ensures items[i] in MatchingItems(items, selectors[n]) && items[i] in AllMatches(items, selectors)
    decreases |selectors|
  {
    hide Matches;
    RowIsMatched(items, selectors[n], i);
    if n < |selectors| - 1 { NoMatchIsMissed(items, selectors[..|selectors| - 1], i, n); }
  }

  lemma {:induction false} RowIsMatched(items: seq<Item>, selector: string, i: nat)
    requires i < |items| && Matches(items[i], selector)
    ensures items[i] in MatchingItems(items, selector)
    decreases |items|
  {
    hide Matches;
    if i < |items| - 1 { RowIsMatched(items[..|items| - 1], selector, i); }
  }

  /** What comes later never changes what was selected: the first row of an index is the one saved. */
  lemma {:induction false} SelectionIsFirst(items: seq<Item>, n: nat)
    requires n <= |items|
    ensures FirstByIndex(items[..n]) <= FirstByIndex(items)
    decreases |items|
  {
    hide SaveItem;
    if n == |items| {
      assert items[..n] == items;
    } else {
      SelectionIsFirst(items[..|items| - 1], n);
      assert items[..|items| - 1][..n] == items[..n];
    }
  }

  /** Matches of a longer snapshot continue those of its beginning, and selectors are taken in turn. */
  lemma {:induction false} MatchesInOrder(items: seq<Item>, more: seq<Item>, selector: string)
    ensures MatchingItems(items + more, selector) == MatchingItems(items, selector) + MatchingItems(more, selector)
    decreases |more|
  {
    hide Matches;
    if more == [] {
      assert items + more == items;
    } else {
      MatchesInOrder(items, more[..|more| - 1], selector);
      assert (items + more)[..|items + more| - 1] == items + more[..|more| - 1];
    }
  }

  /** Selectors are taken in turn. */
  lemma {:induction false} SelectorsInTurn(items: seq<Item>, a: seq<string>, b: seq<string>, selector: string)
    ensures AllMatches(items, a + b) == AllMatches(items, a) + AllMatches(items, b)
    ensures AllMatches(items, [selector]) == MatchingItems(items, selector)
    decreases |b|
  {
    hide MatchingItems;
    assert [selector][..0] == [] && AllMatches(items, [selector][..0]) == [];
    if b == [] {
      assert a + b == a;
    } else {
      SelectorsInTurn(items, a, b[..|b| - 1], selector);
      assert (a + b)[..|a + b| - 1] == a + b[..|b| - 1];
    }
  }

  ghost predicate SavedFrom(s: InterfaceState, items: seq<Item>)
  {
    exists j :: 0 <= j < |items| && s == SaveItem(items[j])
  }

  /** Selection saves items of the snapshot, each index at most once, and no matched index is missed. */
  lemma {:induction false} FirstByIndexCovers(items: seq<Item>)
    ensures forall i :: 0 <= i < |FirstByIndex(items)| ==> SavedFrom(FirstByIndex(items)[i], items)
    ensures forall i, j :: 0 <= i < j < |FirstByIndex(items)| ==> FirstByIndex(items)[i].index != FirstByIndex(items)[j].index
    ensures forall k :: 0 <= k < |items| ==> HasIndex(FirstByIndex(items), items[k].index)
  {
    hide SaveItem, SavedFrom;
    if items != [] {
      var init, last := items[..|items| - 1], items[|items| - 1];
      FirstByIndexCovers(init);
      var before, out := FirstByIndex(init), FirstByIndex(items);
      SaveKeepsIndex(last);
      forall i | 0 <= i < |out| ensures SavedFrom(out[i], items) {
        if i < |before| { SavedFromMore(before[i], init, items); } else { SavedFromLast(items); }
      }
      HasIndexSnoc(before, SaveItem(last));
      forall k | 0 <= k < |items| ensures HasIndex(out, items[k].index) {
        if k < |init| { assert init[k] == items[k] && HasIndex(before, init[k].index); }
      }
    }
  }

  lemma SavedFromMore(s: InterfaceState, init: seq<Item>, items: seq<Item>)
    requires init <= items && SavedFrom(s, init)
    ensures SavedFrom(s, items)
  {
    hide SaveItem;
    var j :| 0 <= j < |init| && s == SaveItem(init[j]);
    assert items[j] == init[j];
  }

  lemma SavedFromLast(items: seq<Item>)
    requires items != []
    ensures SavedFrom(SaveItem(items[|items| - 1]), items)
  {
  }
}
