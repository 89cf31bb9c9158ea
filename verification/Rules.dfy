/**
 * The rule matcher (internal/rules/rules.go), its sorted export, and the proxy
 * auto-configuration script generated from it (internal/pac/pac.go). Host normalisation is
 * a function the matcher is given.
 */
module Rules {
  import opened Basics
  import opened Text
  import opened Ordering

  type Normalize = string -> Option<string>

  datatype Rule = Rule(host: string, group: string, rule: string)

  datatype Group = Group(name: string, domains: seq<string>)

  datatype RuleError = GroupNameRequired | EmptyRule | BadWildcard | BadHost

  datatype Export = Export(exact: seq<Rule>, wildcard: seq<Rule>)

  // ----- compiling -----

  /** `normalizeRule`: the compiled rule and whether it is a wildcard. */
  function NormalizeRule(group: string, rule: string, norm: Normalize): Result<(Rule, bool), RuleError>
  {
    var t := TrimSpace(rule);
    if t == "" then Err(EmptyRule)
    else if '*' in t && !("*." <= t) then Err(BadWildcard)
    else if "*." <= t then
      (match norm(t[2..]) case None => Err(BadHost) case Some(h) => Ok((Rule(h, group, "*." + h), true)))
    else
      (match norm(t) case None => Err(BadHost) case Some(h) => Ok((Rule(h, group, h), false)))
  }

  datatype Table = Table(exact: map<string, Rule>, wildcard: seq<Rule>)

  /** Rules entered one after the other: a later exact rule for the same host replaces the earlier. */
  function Enter(t: Table, r: (Rule, bool)): Table
  {
    if r.1 then t.(wildcard := t.wildcard + [r.0]) else t.(exact := t.exact[r.0.host := r.0])
  }

  function EnterAll(t: Table, group: string, domains: seq<string>, norm: Normalize): Result<Table, RuleError>
  {
    if domains == [] then Ok(t)
    else
      var before := EnterAll(t, group, domains[..|domains| - 1], norm);
      if before.Err? then before
      else match NormalizeRule(group, domains[|domains| - 1], norm)
        case Err(e) => Err(e)
        case Ok(r) => Ok(Enter(before.value, r))
  }

  lemma {:induction false} FirstErrorStays(t: Table, group: string, domains: seq<string>, n: nat, norm: Normalize)
    requires n <= |domains| && EnterAll(t, group, domains[..n], norm).Err?
    ensures EnterAll(t, group, domains, norm) == EnterAll(t, group, domains[..n], norm)
    decreases |domains|
  {
    if n == |domains| {
      assert domains[..n] == domains;
    } else {
      assert domains[..|domains| - 1][..n] == domains[..n];
      FirstErrorStays(t, group, domains[..|domains| - 1], n, norm);
    }
  }

  // ----- what it means to match -----

  predicate WildcardMatches(host: string, pattern: string) { host != pattern && HasSuffix(host, "." + pattern) }

  ghost predicate TableMatches(t: Table, host: string)
  {
    host in t.exact || exists i :: 0 <= i < |t.wildcard| && WildcardMatches(host, t.wildcard[i].host)
  }

  ghost predicate ExportMatches(e: Export, host: string)
  {
    || (exists i :: 0 <= i < |e.exact| && e.exact[i].host == host)
    || (exists i :: 0 <= i < |e.wildcard| && WildcardMatches(host, e.wildcard[i].host))
  }

  // ----- the matcher -----

  function RuleKey(r: Rule): seq<string> { [r.host, r.group, r.rule] }

  lemma RuleKeyInjective()
    ensures Injective(RuleKey)
  {
    forall a, b | RuleKey(a) == RuleKey(b) ensures a == b {
      assert RuleKey(a)[0] == RuleKey(b)[0] && RuleKey(a)[1] == RuleKey(b)[1] && RuleKey(a)[2] == RuleKey(b)[2];
    }
  }

  /** Each exact rule is filed under its own host. */
  ghost predicate Filed(exact: map<string, Rule>) { forall k :: k in exact ==> exact[k].host == k }

  /** An export: sorted lists of exactly the table's rules. */
  ghost predicate IsExport(t: Table, e: Export)
  {
    && Sorted(e.exact, RuleKey) && Sorted(e.wildcard, RuleKey)
    && Distinct(e.exact) && (forall r :: r in e.exact <==> r.host in t.exact && t.exact[r.host] == r)
    && multiset(e.wildcard) == multiset(t.wildcard)
  }

  datatype Match = Match(host: string, group: string, rule: string)

  class Matcher {
    const norm: Normalize
    var exact: map<string, Rule>
    var wildcard: seq<Rule>

    ghost predicate Valid() reads this { Filed(exact) }

    function Contents(): Table reads this { Table(exact, wildcard) }

    constructor (norm: Normalize)
      ensures Valid() && this.norm == norm && Contents() == Table(map[], [])
    {
      this.norm, exact, wildcard := norm, map[], [];
    }

    method AddGroup(group: Group) returns (err: Option<RuleError>)
      requires Valid()
      modifies this
      ensures Valid()
      ensures TrimSpace(group.name) == "" ==> err == Some(GroupNameRequired)
      ensures TrimSpace(group.name) != "" ==>
        match EnterAll(old(Contents()), group.name, group.domains, norm)
        case Err(e) => err == Some(e)
        case Ok(t) => err == None && Contents() == t
    {
      hide NormalizeRule, TrimSpace;
      if TrimSpace(group.name) == "" { return Some(GroupNameRequired); }
      ghost var start := Contents();
      for n := 0 to |group.domains|
        invariant Valid()
        invariant EnterAll(start, group.name, group.domains[..n], norm) == Ok(Contents())
      {
        assert group.domains[..n + 1][..n] == group.domains[..n];
        var r := NormalizeRule(group.name, group.domains[n], norm);
        if r.Err? {
          FirstErrorStays(start, group.name, group.domains, n + 1, norm);
          return Some(r.error);
        }
        if r.value.1 { wildcard := wildcard + [r.value.0]; } else { exact := exact[r.value.0.host := r.value.0]; }
      }
      assert group.domains[..|group.domains|] == group.domains;
      err := None;
    }

    method MatchHost(raw: string) returns (r: Option<Match>)
      requires Valid()
      ensures r.Some? <==> norm(raw).Some? && TableMatches(Contents(), norm(raw).value)
      ensures r.Some? ==> r.value.host == norm(raw).value
      ensures r.Some? && r.value.host in exact ==> r.value == Match(r.value.host, exact[r.value.host].group, exact[r.value.host].rule)
      ensures r.Some? && r.value.host !in exact ==>
        exists w :: FirstWild(wildcard, r.value.host, w) && r.value == Match(r.value.host, w.group, w.rule)
    {
      var normalized := norm(raw);
      if normalized.None? { return None; }
      var host := normalized.value;
      if host in exact { return Some(Match(host, exact[host].group, exact[host].rule)); }
      for i := 0 to |wildcard|
        invariant forall k :: 0 <= k < i ==> !WildcardMatches(host, wildcard[k].host)
      {
        if WildcardMatches(host, wildcard[i].host) {
          assert FirstWild(wildcard, host, wildcard[i]);
          return Some(Match(host, wildcard[i].group, wildcard[i].rule));
        }
      }
      r := None;
    }

    /** The map is walked in any order; the export is the same. */
    method ExportRules() returns (e: Export)
      requires Valid()
      ensures IsExport(Contents(), e)
    {
      var rules: seq<Rule> := [];
      var left := exact.Keys;
      while left != {}
        invariant left <= exact.Keys && Distinct(rules)
        invariant forall r :: r in rules <==> r.host in exact && exact[r.host] == r && r.host !in left
        decreases left
      {
        var k :| k in left;
        rules := rules + [exact[k]];
        left := left - {k};
      }
      var sorted := SortSlice(rules, RuleKey);
      SameElements(rules, sorted);
      var wild := SortSlice(wildcard, RuleKey);
      e := Export(sorted, wild);
    }
  }

  /** Groups in order, then the custom domains as a group of their own. */
  function EnterGroups(t: Table, groups: seq<Group>, norm: Normalize): Result<Table, RuleError>
  {
    if groups == [] then Ok(t)
    else
      var before, last := EnterGroups(t, groups[..|groups| - 1], norm), groups[|groups| - 1];
      if before.Err? then before
      else if TrimSpace(last.name) == "" then Err(GroupNameRequired)
      else EnterAll(before.value, last.name, last.domains, norm)
  }

  lemma {:induction false} GroupErrorStays(t: Table, groups: seq<Group>, n: nat, norm: Normalize)
    requires n <= |groups| && EnterGroups(t, groups[..n], norm).Err?
    ensures EnterGroups(t, groups, norm) == EnterGroups(t, groups[..n], norm)
    decreases |groups|
  {
    if n == |groups| {
      assert groups[..n] == groups;
    } else {
      assert groups[..|groups| - 1][..n] == groups[..n];
      GroupErrorStays(t, groups[..|groups| - 1], n, norm);
    }
  }

  method NewMatcher(groups: seq<Group>, custom: seq<string>, norm: Normalize) returns (m: Matcher, err: Option<RuleError>)
    ensures fresh(m) && m.Valid() && m.norm == norm
    ensures
      var all := groups + if custom == [] then [] else [Group("custom", custom)];
      match EnterGroups(Table(map[], []), all, norm)
      case Err(e) => err == Some(e)
      case Ok(t) => err == None && m.Contents() == t
  {
    hide EnterAll, TrimSpace;
    m := new Matcher(norm);
    var all := groups + if custom == [] then [] else [Group("custom", custom)];
    for n := 0 to |all|
      invariant fresh(m) && m.Valid() && m.norm == norm
      invariant EnterGroups(Table(map[], []), all[..n], norm) == Ok(m.Contents())
    {
      assert all[..n + 1][..n] == all[..n];
      err := m.AddGroup(all[n]);
      if err.Some? {
        GroupErrorStays(Table(map[], []), all, n + 1, norm);
        return;
      }
    }
    assert all[..|all|] == all;
    err := None;
  }

  // ----- the table in terms of the configuration -----

  /** The configured domains, each with its group, in order. */
  function Listed(groups: seq<Group>): seq<(string, string)>
  {
    if groups == [] then []
    else Listed(groups[..|groups| - 1]) + Under(groups[|groups| - 1].name, groups[|groups| - 1].domains)
  }

  function Under(group: string, domains: seq<string>): seq<(string, string)>
  {
    if domains == [] then [] else Under(group, domains[..|domains| - 1]) + [(group, domains[|domains| - 1])]
  }

  function EnterList(t: Table, list: seq<(string, string)>, norm: Normalize): Result<Table, RuleError>
  {
    if list == [] then Ok(t)
    else
      var before, last := EnterList(t, list[..|list| - 1], norm), list[|list| - 1];
      if before.Err? then before
      else match NormalizeRule(last.0, last.1, norm) case Err(e) => Err(e) case Ok(r) => Ok(Enter(before.value, r))
  }

  lemma {:induction false} EnterUnder(t: Table, list: seq<(string, string)>, group: string, domains: seq<string>, norm: Normalize)
    requires EnterList(t, list, norm).Ok?
    ensures EnterList(t, list + Under(group, domains), norm) == EnterAll(EnterList(t, list, norm).value, group, domains, norm)
  {
    hide NormalizeRule, Enter;
    if domains == [] {
      assert list + Under(group, domains) == list;
    } else {
      var init, last := domains[..|domains| - 1], (group, domains[|domains| - 1]);
      EnterUnder(t, list, group, init, norm);
      var all := list + Under(group, domains);
      assert all == list + Under(group, init) + [last];
      assert all[..|all| - 1] == list + Under(group, init);
    }
  }

  lemma {:induction false} GroupsAreListed(t: Table, groups: seq<Group>, norm: Normalize)
    requires EnterGroups(t, groups, norm).Ok?
    ensures EnterList(t, Listed(groups), norm) == EnterGroups(t, groups, norm)
  {
    hide EnterAll, TrimSpace;
    if groups != [] {
      GroupsAreListed(t, groups[..|groups| - 1], norm);
      EnterUnder(t, Listed(groups[..|groups| - 1]), groups[|groups| - 1].name, groups[|groups| - 1].domains, norm);
    }
  }

  /** The configured domain is this text, without the white space around it. */
  function TextOf(d: (string, string)): string { TrimSpace(d.1) }

  /** The domain is an exact name: its normal form is the host. */
  predicate Names(d: (string, string), norm: Normalize, host: string)
  {
    var t := TextOf(d); !("*." <= t) && norm(t) == Some(host)
  }

  /** The host is something, a dot, and the name. */
  ghost predicate LiesBelow(host: string, w: string) { exists front :: Joins(host, front, "." + w) }

  /** The domain is `*.` and a name the host lies below. */
  ghost predicate Spans(d: (string, string), norm: Normalize, host: string)
  {
    var t := TextOf(d); "*." <= t && norm(t[2..]).Some? && LiesBelow(host, norm(t[2..]).value)
  }

  /** The rule of the domain, as a match reports it: its group, its normal form, and the form with `*.` for a wildcard. */
  predicate CompilesTo(d: (string, string), norm: Normalize, r: Rule, wildcard: bool)
  {
    var t := TextOf(d);
    if wildcard then "*." <= t && norm(t[2..]) == Some(r.host) && r.group == d.0 && r.rule == "*." + r.host
    else !("*." <= t) && norm(t) == Some(r.host) && r.group == d.0 && r.rule == r.host
  }

  /** A domain the matcher takes: not blank, a star only in front, and a name with a normal form. */
  predicate Takable(domain: string, norm: Normalize)
  {
    var t := TrimSpace(domain);
    t != "" && ('*' in t ==> "*." <= t) && norm(if "*." <= t then t[2..] else t).Some?
  }

  lemma NormalizeRuleMeans(group: string, domain: string, norm: Normalize)
    ensures NormalizeRule(group, domain, norm).Ok? <==> Takable(domain, norm)
    ensures NormalizeRule(group, domain, norm).Ok? ==>
      CompilesTo((group, domain), norm, NormalizeRule(group, domain, norm).value.0, NormalizeRule(group, domain, norm).value.1)
  {
  }

  lemma SuffixIsBelow(host: string, w: string)
    ensures WildcardMatches(host, w) <==> LiesBelow(host, w)
  {
    SuffixMeans(host, "." + w);
  }

  /** What a compiled rule does to a host is what its domain says. */
  lemma RuleMeans(d: (string, string), norm: Normalize, host: string)
    requires NormalizeRule(d.0, d.1, norm).Ok?
    ensures
      var r := NormalizeRule(d.0, d.1, norm).value;
      && CompilesTo(d, norm, r.0, r.1) && (Names(d, norm, host) <==> !r.1 && r.0.host == host)
      && (Spans(d, norm, host) <==> r.1 && WildcardMatches(host, r.0.host))
  {
    NormalizeRuleMeans(d.0, d.1, norm);
    var r := NormalizeRule(d.0, d.1, norm).value;
    if r.1 { SuffixIsBelow(host, r.0.host); }
  }

  /** Of the domains that name a host the last wins. */
  ghost predicate LastNamed(list: seq<(string, string)>, norm: Normalize, host: string, r: Rule)
  {
    exists i :: 0 <= i < |list| && CompilesTo(list[i], norm, r, false) && Names(list[i], norm, host)
      && forall j :: i < j < |list| ==> !Names(list[j], norm, host)
  }

  /** Of the wildcards that span a host the first wins. */
  ghost predicate FirstSpanning(list: seq<(string, string)>, norm: Normalize, host: string, r: Rule)
  {
    exists i :: 0 <= i < |list| && CompilesTo(list[i], norm, r, true) && Spans(list[i], norm, host)
      && forall j :: 0 <= j < i ==> !Spans(list[j], norm, host)
  }

  lemma {:induction false} ExactFromList(list: seq<(string, string)>, norm: Normalize, host: string)
    requires EnterList(Table(map[], []), list, norm).Ok?
    ensures
      var t := EnterList(Table(map[], []), list, norm).value;
      && (host in t.exact <==> exists i :: 0 <= i < |list| && Names(list[i], norm, host))
      && (host in t.exact ==> LastNamed(list, norm, host, t.exact[host]))
  {
    hide NormalizeRule, LastNamed, Names, Spans, CompilesTo;
    if list != [] {
      var init, last := list[..|list| - 1], list[|list| - 1];
      ExactFromList(init, norm, host);
      RuleMeans(last, norm, host);
      var before, t := EnterList(Table(map[], []), init, norm).value, EnterList(Table(map[], []), list, norm).value;
      assert forall i :: 0 <= i < |init| ==> list[i] == init[i];
      if Names(last, norm, host) {
        LastIsNamed(list, norm, host, t.exact[host]);
      } else if host in before.exact {
        StillNamed(list, norm, host, before.exact[host]);
      }
    }
  }

  lemma LastIsNamed(list: seq<(string, string)>, norm: Normalize, host: string, r: Rule)
    requires list != [] && CompilesTo(list[|list| - 1], norm, r, false) && Names(list[|list| - 1], norm, host)
    ensures LastNamed(list, norm, host, r)
  {
    hide Names, CompilesTo;
  }

  lemma StillNamed(list: seq<(string, string)>, norm: Normalize, host: string, r: Rule)
    requires list != [] && !Names(list[|list| - 1], norm, host) && LastNamed(list[..|list| - 1], norm, host, r)
    ensures LastNamed(list, norm, host, r)
  {
    hide Names, CompilesTo;
    var init := list[..|list| - 1];
    var i :| 0 <= i < |init| && CompilesTo(init[i], norm, r, false) && Names(init[i], norm, host)
             && forall j :: i < j < |init| ==> !Names(init[j], norm, host);
    assert forall j :: 0 <= j < |init| ==> list[j] == init[j];
    assert CompilesTo(list[i], norm, r, false) && Names(list[i], norm, host);
  }

  /** The first wildcard of the table that spans the host. */
  ghost predicate FirstWild(wildcard: seq<Rule>, host: string, r: Rule)
  {
    exists i :: 0 <= i < |wildcard| && wildcard[i] == r && WildcardMatches(host, r.host)
      && forall k :: 0 <= k < i ==> !WildcardMatches(host, wildcard[k].host)
  }

  lemma {:induction false} WildcardFromList(list: seq<(string, string)>, norm: Normalize, host: string)
    requires EnterList(Table(map[], []), list, norm).Ok?
    ensures
      var w := EnterList(Table(map[], []), list, norm).value.wildcard;
      && ((exists k :: 0 <= k < |w| && WildcardMatches(host, w[k].host)) <==> exists i :: 0 <= i < |list| && Spans(list[i], norm, host))
      && forall r :: FirstWild(w, host, r) ==> FirstSpanning(list, norm, host, r)
  {
    hide NormalizeRule, WildcardMatches, Names, Spans, CompilesTo;
    if list != [] {
      var init, last := list[..|list| - 1], list[|list| - 1];
      WildcardFromList(init, norm, host);
      RuleMeans(last, norm, host);
      var v, w := EnterList(Table(map[], []), init, norm).value.wildcard, EnterList(Table(map[], []), list, norm).value.wildcard;
      assert forall i :: 0 <= i < |init| ==> list[i] == init[i];
      assert forall k :: 0 <= k < |v| ==> w[k] == v[k];
      assert Spans(last, norm, host) ==> |w| == |v| + 1 && WildcardMatches(host, w[|v|].host);
      forall r | FirstWild(w, host, r) ensures FirstSpanning(list, norm, host, r) {
        if exists k :: 0 <= k < |v| && WildcardMatches(host, v[k].host) {
          FirstWildEarlier(v, w, host, r);
          var i :| 0 <= i < |init| && CompilesTo(init[i], norm, r, true) && Spans(init[i], norm, host)
                   && forall j :: 0 <= j < i ==> !Spans(init[j], norm, host);
          assert CompilesTo(list[i], norm, r, true) && Spans(list[i], norm, host);
        } else {
          assert CompilesTo(list[|list| - 1], norm, r, true) && Spans(list[|list| - 1], norm, host);
        }
      }
    }
  }

  lemma FirstWildEarlier(v: seq<Rule>, w: seq<Rule>, host: string, r: Rule)
    requires v <= w && FirstWild(w, host, r) && exists k :: 0 <= k < |v| && WildcardMatches(host, v[k].host)
    ensures FirstWild(v, host, r)
  {
    hide WildcardMatches;
    var k :| 0 <= k < |v| && WildcardMatches(host, v[k].host);
    assert w[k] == v[k];
    var i :| 0 <= i < |w| && w[i] == r && WildcardMatches(host, r.host) && forall k :: 0 <= k < i ==> !WildcardMatches(host, w[k].host);
    assert i <= k && v[i] == r;
  }

  /** A configuration compiles exactly when every group has a name and every domain can be taken. */
  lemma {:induction false} GroupsCompile(t: Table, groups: seq<Group>, norm: Normalize)
    ensures EnterGroups(t, groups, norm).Ok? <==>
      forall i :: 0 <= i < |groups| ==>
        TrimSpace(groups[i].name) != "" && forall j :: 0 <= j < |groups[i].domains| ==> Takable(groups[i].domains[j], norm)
  {
    hide TrimSpace, Takable;
    if groups != [] {
      var init, last := groups[..|groups| - 1], groups[|groups| - 1];
      GroupsCompile(t, init, norm);
      assert forall i :: 0 <= i < |init| ==> groups[i] == init[i];
      if EnterGroups(t, init, norm).Ok? { DomainsCompile(EnterGroups(t, init, norm).value, last.name, last.domains, norm); }
    }
  }

  lemma {:induction false} DomainsCompile(t: Table, group: string, domains: seq<string>, norm: Normalize)
    ensures EnterAll(t, group, domains, norm).Ok? <==> forall j :: 0 <= j < |domains| ==> Takable(domains[j], norm)
  {
    hide NormalizeRule, Takable, CompilesTo;
    if domains != [] {
      var init := domains[..|domains| - 1];
      DomainsCompile(t, group, init, norm);
      NormalizeRuleMeans(group, domains[|domains| - 1], norm);
      assert forall j :: 0 <= j < |init| ==> domains[j] == init[j];
    }
  }

  /**
   * The table of a configuration accepts exactly the hosts some configured domain names or
   * spans. A named host has the rule of the last domain that names it, so that group wins;
   * otherwise the first wildcard rule of the table is the first configured one.
   */
  lemma TableMeans(groups: seq<Group>, norm: Normalize, t: Table, host: string)
    requires EnterGroups(Table(map[], []), groups, norm) == Ok(t)
    ensures
      var list := Listed(groups);
      && (TableMatches(t, host) <==> exists i :: 0 <= i < |list| && (Names(list[i], norm, host) || Spans(list[i], norm, host)))
      && (host in t.exact ==> LastNamed(list, norm, host, t.exact[host]))
      && (forall r :: FirstWild(t.wildcard, host, r) ==> FirstSpanning(list, norm, host, r))
  {
    hide EnterGroups, EnterList, Listed, Names, Spans, WildcardMatches, LastNamed, FirstSpanning, FirstWild;
    GroupsAreListed(Table(map[], []), groups, norm);
    ExactFromList(Listed(groups), norm, host);
    WildcardFromList(Listed(groups), norm, host);
  }

  lemma {:induction false} SameElementsSameCounts<T(!new)>(a: seq<T>, b: seq<T>)
    requires Distinct(a) && Distinct(b) && forall x :: x in a <==> x in b
    ensures multiset(a) == multiset(b)
  {
    DistinctCounts(a);
    DistinctCounts(b);
    forall x ensures multiset(a)[x] == multiset(b)[x] {
      assert x in multiset(a) <==> x in a;
      assert x in multiset(b) <==> x in b;
    }
  }

  /** The export of a table is unique, and names no exact host twice. */
  lemma ExportIsCanonical(t: Table, e1: Export, e2: Export)
    requires IsExport(t, e1) && IsExport(t, e2)
    ensures e1 == e2
    ensures forall i, j :: 0 <= i < j < |e1.exact| ==> e1.exact[i].host != e1.exact[j].host
  {
    hide Sorted;
    RuleKeyInjective();
    SameElementsSameCounts(e1.exact, e2.exact);
    SortedUnique(e1.exact, e2.exact, RuleKey);
    SortedUnique(e1.wildcard, e2.wildcard, RuleKey);
    forall i, j | 0 <= i < j < |e1.exact| ensures e1.exact[i].host != e1.exact[j].host {
      assert e1.exact[i] in e1.exact && e1.exact[j] in e1.exact;
    }
  }

  /** Rules come in the order of their hosts, then of their groups, then of their texts. */
  lemma ExportOrder(t: Table, e: Export, i: nat, j: nat)
    requires IsExport(t, e)
    ensures i < j < |e.exact| ==> InRuleOrder(e.exact[i], e.exact[j])
    ensures i < j < |e.wildcard| ==> InRuleOrder(e.wildcard[i], e.wildcard[j])
  {
    hide KeyLe;
    if i < j < |e.exact| { RuleOrder(e.exact[i], e.exact[j]); }
    if i < j < |e.wildcard| { RuleOrder(e.wildcard[i], e.wildcard[j]); }
  }

  ghost predicate InRuleOrder(a: Rule, b: Rule)
  {
    if a.host != b.host then StrLe(a.host, b.host) else if a.group != b.group then StrLe(a.group, b.group) else StrLe(a.rule, b.rule)
  }

  lemma RuleOrder(a: Rule, b: Rule)
    ensures KeyLe(RuleKey(a), RuleKey(b)) ==> InRuleOrder(a, b)
  {
    hide KeyLe;
    assert RuleKey(a) == [a.host] + ([a.group] + ([a.rule] + [])) && RuleKey(b) == [b.host] + ([b.group] + ([b.rule] + []));
    KeyLeMeans(a.host, b.host, [a.group] + ([a.rule] + []), [b.group] + ([b.rule] + []));
    KeyLeMeans(a.group, b.group, [a.rule] + [], [b.rule] + []);
    KeyLeMeans(a.rule, b.rule, [], []);
    StrLeTotal(a.rule, a.rule);
  }

  /** The indexed table and its export accept the same hosts. */
  lemma ExportAgrees(t: Table, e: Export, host: string)
    requires IsExport(t, e) && Filed(t.exact)
    ensures TableMatches(t, host) <==> ExportMatches(e, host)
  {
    hide Sorted, HasSuffix;
    if host in t.exact {
      assert t.exact[host] in e.exact;
      var i :| 0 <= i < |e.exact| && e.exact[i] == t.exact[host];
    }
    if i :| 0 <= i < |e.exact| && e.exact[i].host == host {
      assert e.exact[i] in e.exact;
    }
    SameElements(e.wildcard, t.wildcard);
    if i :| 0 <= i < |t.wildcard| && WildcardMatches(host, t.wildcard[i].host) {
      assert t.wildcard[i] in e.wildcard;
      var j :| 0 <= j < |e.wildcard| && e.wildcard[j] == t.wildcard[i];
    }
    if i :| 0 <= i < |e.wildcard| && WildcardMatches(host, e.wildcard[i].host) {
      assert e.wildcard[i] in t.wildcard;
      var j :| 0 <= j < |t.wildcard| && t.wildcard[j] == e.wildcard[i];
    }
  }

  // ----- the PAC side -----

  /** `pac.HostMatches`: a scan of the exported lists. */
  method HostMatches(e: Export, raw: string, norm: Normalize) returns (r: bool)
    ensures r <==> norm(raw).Some? && ExportMatches(e, norm(raw).value)
  {
    var normalized := norm(raw);
    if normalized.None? { return false; }
    var host := normalized.value;
    for i := 0 to |e.exact|
      invariant forall k :: 0 <= k < i ==> e.exact[k].host != host
    {
      if host == e.exact[i].host { return true; }
    }
    for i := 0 to |e.wildcard|
      invariant forall k :: 0 <= k < i ==> !WildcardMatches(host, e.wildcard[k].host)
    {
      if WildcardMatches(host, e.wildcard[i].host) { return true; }
    }
    r := false;
  }

  /** The two tables written into the script. */
  datatype Script = Script(exact: set<string>, wildcard: seq<string>)

  method Generate(e: Export) returns (s: Script)
    ensures forall h :: h in s.exact <==> h != "" && exists i :: 0 <= i < |e.exact| && e.exact[i].host == h
    ensures forall w :: w in s.wildcard <==> w != "" && exists i :: 0 <= i < |e.wildcard| && e.wildcard[i].host == w
  {
    var exact: set<string> := {};
    for i := 0 to |e.exact|
      invariant forall h :: h in exact <==> h != "" && exists k :: 0 <= k < i && e.exact[k].host == h
    {
      if e.exact[i].host != "" { exact := exact + {e.exact[i].host}; }
    }
    var wildcard: seq<string> := [];
    for i := 0 to |e.wildcard|
      invariant forall w :: w in wildcard <==> w != "" && exists k :: 0 <= k < i && e.wildcard[k].host == w
    {
      if e.wildcard[i].host != "" { wildcard := wildcard + [e.wildcard[i].host]; }
    }
    s := Script(exact, wildcard);
  }

  ghost predicate ScriptOf(e: Export, s: Script)
  {
    && (forall h :: h in s.exact <==> h != "" && exists i :: 0 <= i < |e.exact| && e.exact[i].host == h)
    && (forall w :: w in s.wildcard <==> w != "" && exists i :: 0 <= i < |e.wildcard| && e.wildcard[i].host == w)
  }

  /** The lower-case names every JavaScript object answers to: looking them up in the exact table is truthy. */
  predicate ObjectMember(host: string) { host == "constructor" || host == "__proto__" }

  function ScriptHost(host: string): string
  {
    var h := ToLower(host);
    if h != "" && h[|h| - 1] == '.' then h[..|h| - 1] else h
  }

  /** `FindProxyForURL` returns the proxy. */
  ghost predicate Proxied(s: Script, host: string)
  {
    var h := ScriptHost(host);
    h in s.exact || ObjectMember(h) || exists w :: w in s.wildcard && |h| > |w| + 1 && HasSuffix(h, "." + w)
  }

  /** A host as normalisation leaves it: lower case, not empty, no final dot. */
  predicate Normal(host: string) { host != "" && ToLower(host) == host && host[|host| - 1] != '.' }

  /** Some wildcard rule covers the host below a non-empty label. */
  ghost predicate Below(e: Export, host: string)
  {
    exists i :: 0 <= i < |e.wildcard| && |host| > |e.wildcard[i].host| + 1 && HasSuffix(host, "." + e.wildcard[i].host)
  }

  ghost predicate ExactHost(e: Export, host: string) { exists i :: 0 <= i < |e.exact| && e.exact[i].host == host }

  ghost predicate WildcardHost(e: Export, host: string) { exists i :: 0 <= i < |e.wildcard| && e.wildcard[i].host == host }

  /** A wildcard match is a match below a label, or the pattern behind a bare dot. */
  lemma WildcardShapes(e: Export, host: string)
    requires host != ""
    ensures (exists i :: 0 <= i < |e.wildcard| && WildcardMatches(host, e.wildcard[i].host))
       <==> Below(e, host) || (host[0] == '.' && WildcardHost(e, host[1..]))
  {
    if i :| 0 <= i < |e.wildcard| && WildcardMatches(host, e.wildcard[i].host) {
      var w := e.wildcard[i].host;
      if |host| == |w| + 1 { assert host == "." + w && host[1..] == w; }
    }
    if host[0] == '.' && WildcardHost(e, host[1..]) {
      var i :| 0 <= i < |e.wildcard| && e.wildcard[i].host == host[1..];
      assert host == "." + e.wildcard[i].host;
      assert WildcardMatches(host, e.wildcard[i].host);
    }
    if i :| 0 <= i < |e.wildcard| && |host| > |e.wildcard[i].host| + 1 && HasSuffix(host, "." + e.wildcard[i].host) {
      assert WildcardMatches(host, e.wildcard[i].host);
    }
  }

  lemma ProxiedShapes(e: Export, s: Script, host: string)
    requires ScriptOf(e, s) && Normal(host)
    ensures Proxied(s, host) <==> ExactHost(e, host) || ObjectMember(host) || Below(e, host)
  {
    hide ToLower;
    assert ScriptHost(host) == host;
    if w :| w in s.wildcard && |host| > |w| + 1 && HasSuffix(host, "." + w) {
      var i :| 0 <= i < |e.wildcard| && e.wildcard[i].host == w;
    }
    if i :| 0 <= i < |e.wildcard| && |host| > |e.wildcard[i].host| + 1 && HasSuffix(host, "." + e.wildcard[i].host) {
      NotJustDot(host, e.wildcard[i].host);
    }
  }

  lemma NotJustDot(host: string, w: string)
    requires Normal(host) && HasSuffix(host, "." + w)
    ensures w != ""
  {
    hide ToLower;
  }

  /**
   * For every normal host the script and the matcher agree, except exactly when the host is
   * a member of every JavaScript object that no rule matches, or a wildcard pattern behind a
   * bare dot that nothing else covers.
   */
  lemma MatchersAgreeExactly(t: Table, e: Export, s: Script, host: string)
    requires IsExport(t, e) && Filed(t.exact) && ScriptOf(e, s) && Normal(host)
    ensures (Proxied(s, host) <==> TableMatches(t, host)) <==>
      && (ObjectMember(host) ==> ExactHost(e, host) || Below(e, host))
      && (host[0] == '.' && WildcardHost(e, host[1..]) ==> ExactHost(e, host) || Below(e, host))
  {
    hide Normal, ScriptOf, IsExport, Below, Proxied, TableMatches, ExactHost, WildcardHost;
    ExportAgrees(t, e, host);
    assert host != "" by { NormalFacts(host); }
    WildcardShapes(e, host);
    ProxiedShapes(e, s, host);
    ExactMeaning(e, host);
    if ObjectMember(host) { assert host[0] != '.'; }
  }

  /** The script looks at the lower-case host without a final dot, so these spellings make no difference. */
  lemma SpellingsAgree(s: Script, host: string, spelt: string)
    requires Normal(host) && (ToLower(spelt) == host || ToLower(spelt) == host + ".")
    ensures Proxied(s, spelt) <==> Proxied(s, host)
  {
    hide ToLower;
    assert (host + ".")[|host|] == '.' && (host + ".")[..|host|] == host;
    assert ScriptHost(spelt) == host == ScriptHost(host);
  }

  /** With no rule at all the script still proxies the host `constructor`. */
  lemma ConstructorIsProxied(t: Table, e: Export, s: Script)
    requires t == Table(map[], []) && IsExport(t, e) && ScriptOf(e, s)
    ensures Proxied(s, "constructor") && !TableMatches(t, "constructor")
  {
    hide Proxied, IsExport, ScriptOf;
    assert e.exact == [] && e.wildcard == [] by { EmptyExport(t, e); }
    PlainName("constructor");
    ProxiedShapes(e, s, "constructor");
  }

  lemma EmptyExport(t: Table, e: Export)
    requires t == Table(map[], []) && IsExport(t, e)
    ensures e == Export([], [])
  {
    ExportIsCanonical(t, e, Export([], []));
  }

  lemma PlainName(s: string)
    requires s != "" && forall i :: 0 <= i < |s| ==> 'a' <= s[i] <= 'z'
    ensures Normal(s)
  {
    assert ToLower(s) == s;
  }

  /** With one wildcard rule the matcher takes its pattern behind a bare dot and the script does not. */
  lemma BareDotIsNotProxied(w: Rule, s: Script)
    requires w.host != "" && forall i :: 0 <= i < |w.host| ==> 'a' <= w.host[i] <= 'z'
    requires ScriptOf(Export([], [w]), s)
    ensures TableMatches(Table(map[], [w]), "." + w.host) && !Proxied(s, "." + w.host)
  {
    hide Proxied, ScriptOf;
    var host := "." + w.host;
    assert ToLower(host) == host && host[0] == '.';
    assert "constructor"[0] == 'c' && "__proto__"[0] == '_';
    ProxiedShapes(Export([], [w]), s, host);
    assert WildcardMatches(host, [w][0].host);
  }

  lemma NormalFacts(host: string) requires Normal(host) ensures host != "" && host[|host| - 1] != '.' {}

  lemma ExactMeaning(e: Export, host: string)
    ensures ExactHost(e, host) <==> exists i :: 0 <= i < |e.exact| && e.exact[i].host == host
  {
  }

  /** Hosts of at least two non-empty labels: all three matchers agree. */
  lemma MatchersAgree(t: Table, e: Export, s: Script, host: string)
    requires IsExport(t, e) && Filed(t.exact) && ScriptOf(e, s) && ToLower(host) == host
    requires |Split(host, '.')| >= 2 && forall i :: 0 <= i < |Split(host, '.')| ==> Split(host, '.')[i] != ""
    ensures TableMatches(t, host) <==> ExportMatches(e, host)
    ensures Proxied(s, host) <==> TableMatches(t, host)
  {
    hide Proxied, TableMatches, ExportMatches, IsExport, ScriptOf, ToLower;
    LabelFacts(host);
    ExportAgrees(t, e, host);
    MatchersAgreeExactly(t, e, s, host);
  }

  lemma LabelFacts(host: string)
    requires |Split(host, '.')| >= 2 && forall i :: 0 <= i < |Split(host, '.')| ==> Split(host, '.')[i] != ""
    ensures host != "" && host[0] != '.' && host[|host| - 1] != '.' && !ObjectMember(host)
  {
    hide Split, ObjectMember;
    SplitEndsWithSep(host);
    SplitPlainIsOne(host);
    SplitOfBlank();
    if ObjectMember(host) { ObjectMemberPlain(host); }
  }

  lemma SplitOfBlank() ensures Split("", '.') == [""] {}

  lemma SplitPlainIsOne(host: string)
    ensures '.' !in host ==> |Split(host, '.')| == 1
  {
    hide Split;
    if '.' !in host { SplitPlain(host, '.'); }
  }

  lemma ObjectMemberPlain(host: string)
    requires ObjectMember(host)
    ensures '.' !in host
  {
  }

  lemma {:induction false} SplitEndsWithSep(s: string)
    ensures s != "" && s[|s| - 1] == '.' ==> Split(s, '.')[|Split(s, '.')| - 1] == ""
    ensures s != "" && s[0] == '.' ==> Split(s, '.')[0] == ""
  {
    if |s| > 1 {
      SplitEndsWithSep(s[1..]);
      assert s[1..][|s| - 2] == s[|s| - 1];
    } else if |s| == 1 {
      assert s[1..] == "";
    }
  }
}
